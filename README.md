# IFTeca reservation core in Dafny

IFTeca is an Android app in which students book time slots in the rooms of a campus library.
The repository holds two generations of the booking screens and view-models:

- the newer one, under `ui/screens` and `viewmodel`, stores each reservation in the Firebase
  Realtime Database under two indexes (`reservas_por_usuario/{uid}/{id}` and
  `reservas_por_sala/{sala}/{yyyy-MM-dd}/{id}`) and mirrors the signed-in user's reservations
  into a Room (SQLite) table;
- the older one, under `screens`, books rooms by a transaction on a per-day node
  (`reservas/{yyyy-MM-dd}/{turno}/{sala}`), keeps the two reservation indexes too, and has a
  slot screen that flags occupied slots.

This project models that core and proves properties of the model:

- `Slots`: the time-slot grid of a shift (`generateTimeSlots`), the occupied-slot filter and
  the reservation built from a confirmed slot, shared by both slot screens (the two copies of
  `generateTimeSlots` are the same text). Times of day are minutes; `HH:mm` text follows the
  24-hour clock, so the end of the day prints as `00:00`.
- `HorarioUi` and `HorarioLegacy`: the two slot screens, both with the occupied-slot filter as
  written; the older one's state is a class whose methods are its event handlers.
- `Clock` and `Text`: the date and time formats (`dd/MM/yyyy`, `yyyy-MM-dd`, `HH:mm`),
  the conversion between the two date formats, `split`, `toIntOrNull`.
- `LocalTable`: the Room DAO as a class over a sequence of rows and the next free key.
- `RemoteStore`: the realtime database as a map from paths to values, with `updateChildren`
  as one atomic multi-path write and the children of a node.
- `Mappers`: the record/entity conversions.
- `SalasVm` and `SalasLegacy`: the two room view-models (room lists with occupancy, the
  room-by-id read, the booking transaction of the older one).
- `ReservasVm` and `ReservasLegacy`: the two reservation view-models (resync of "my
  reservations", saving and cancelling through both indexes).
- `Options`, `Records`, `Seqs`, `Sorting`: shared types, sequence helpers and a stable
  insertion sort used for the `sortedBy` calls.

Things the model makes visible besides the two findings below:

- In the newer view-model, cancelling deletes the local row by its `localId`, but a record
  read back from the remote store carries `localId == 0`, so nothing is deleted locally
  (`ReservasVm.ReservasViewModel.CancelarReserva`, `LocalTable.DeleteKeyZeroKeepsRows`); the
  next listener resync removes the row.
- The newer view-model sorts "my reservations" by the `dd/MM/yyyy` text, which is not
  calendar order (`ReservasVm.TextOrderNotChronological`); the older one parses the date and
  start time and its order is chronological (`ReservasLegacy.SortedChronologically`).
- The newer room list counts a room's occupied places from the local table. A resync replaces
  only the signed-in user's rows and keeps any other rows already there (`LocalTable.Resync`), so
  the table holds no booking another user made on another device, and those places are not
  counted (`SalasVm.SalasViewModel.FetchSalas`).

Listener callbacks become methods called with the snapshot they receive. The signed-in user is
a constructor parameter. The outcome of each remote write, local write and e-mail send is a
boolean parameter, and so is the generated UUID. The current date is a parameter.

## Model

| member | source | states |
|---|---|---|
| Clock.FormatHHmm | app/src/main/java/com/example/myapplication/ui/screens/HorarioSalaScreen.kt:307-309 | the text printed for a minute of the day is always two digits, a colon and two digits |
| Clock.TimeOf | app/src/main/java/com/example/myapplication/ui/screens/HorarioSalaScreen.kt:316-321 | well-formed `HH:mm` text reads as hours*60+minutes; other text reads as minute 0 (a stand-in: the source's lenient parse reads some of it and throws on the rest) |
| Clock.TimeOfFormat | app/src/main/java/com/example/myapplication/ui/screens/HorarioSalaScreen.kt:307-319 | reading back a printed time gives the time modulo one day, so 24:00 reads as 0 |
| Clock.ToFirebaseDate | app/src/main/java/com/example/myapplication/viewmodel/ReservasViewModel.kt:80-87 | well-formed `dd/MM/yyyy` text becomes its year, month and day joined by `-`; any other text takes the fallback |
| Clock.LegacyFirebaseDate | app/src/main/java/com/example/myapplication/screens/ReservasViewModel.kt:81-88 | well-formed `dd/MM/yyyy` text becomes its year, month and day joined by `-`; any other text is kept as it is |
| Clock.ParseDisplayOfFormat | app/src/main/java/com/example/myapplication/viewmodel/ReservasViewModel.kt:80-87 | a printed `dd/MM/yyyy` date is a well-formed display date and parses back to the same date |
| Clock.ToFirebaseDateIsFallback | app/src/main/java/com/example/myapplication/viewmodel/ReservasViewModel.kt:80-87 | with dates read field by field at fixed width, the conversion equals its fallback (split on `/`, reverse, join with `-`) on every text |
| Clock.ParseThenFormat | app/src/main/java/com/example/myapplication/viewmodel/ReservasViewModel.kt:80-87 | parsing a display date and printing it as `yyyy-MM-dd` gives its three fields reversed |
| Clock.ConvertDisplayDate | app/src/main/java/com/example/myapplication/viewmodel/ReservasViewModel.kt:80-87 | both generations' conversions turn the display text of a date into the remote-store text of the same date |
| Text.ToIntOrNull | app/src/main/java/com/example/myapplication/viewmodel/SalasViewModel.kt:76 | a value is read only from a digit or sign followed by digits, and is within 32 bits; digits read as their decimal value, `+` keeps it and `-` negates it; every such numeral within 32 bits is read |
| Text.Wrap32 | app/src/main/java/com/example/myapplication/screens/ReservasViewModel.kt:46 | Kotlin `Int` arithmetic: the result is within 32 bits, congruent to the exact value modulo 2^32, and the exact value when that fits |
| Text.Split | app/src/main/java/com/example/myapplication/ui/screens/HorarioSalaScreen.kt:110 | Kotlin `split` yields at least one piece; the pieces join back to the text (`Text.SplitJoin`), text without the separator is one piece (`Text.SplitWhole`) and the first piece ends at the leftmost separator (`Text.SplitFirst`) |
| Text.SplitJoin | app/src/main/java/com/example/myapplication/ui/screens/HorarioSalaScreen.kt:110 | joining the parts of a split with the separator gives back the text |
| Text.SeparatorUnique | app/src/main/java/com/example/myapplication/ui/screens/HorarioSalaScreen.kt:110 | two `HH:mm - HH:mm` labels are equal exactly when their start and end texts are equal |
| Mappers.ToReservaEntity | app/src/main/java/com/example/myapplication/data/local/mappers/Mappers.kt:7-18 | every field of the record is copied to the entity, the local key included |
| Mappers.ToMinhaReserva | app/src/main/java/com/example/myapplication/data/local/mappers/Mappers.kt:20-32 | every field of the entity is copied to the record |
| Mappers.RecordRoundTrip | app/src/main/java/com/example/myapplication/data/local/mappers/Mappers.kt:7-32 | record to entity to record is the identity |
| Mappers.EntityRoundTrip | app/src/main/java/com/example/myapplication/data/local/mappers/Mappers.kt:7-32 | entity to record to entity is the identity |
| Slots.ShiftWindow | app/src/main/java/com/example/myapplication/ui/screens/HorarioSalaScreen.kt:287-292 | the three named shifts are four-hour windows between 08:00 and 22:00; any other shift name is the whole day |
| Slots.GenerateTimeSlots | app/src/main/java/com/example/myapplication/ui/screens/HorarioSalaScreen.kt:282-314 | the loop's labels are exactly those of the tiling of the shift window by the duration |
| Slots.FormatSlot | app/src/main/java/com/example/myapplication/ui/screens/HorarioSalaScreen.kt:307-311 | a slot's label is its start and end printed as `HH:mm` joined by ` - ` |
| Slots.LabelsAt | app/src/main/java/com/example/myapplication/ui/screens/HorarioSalaScreen.kt:311 | the i-th label is the label of the i-th slot |
| Slots.TilesShape | app/src/main/java/com/example/myapplication/ui/screens/HorarioSalaScreen.kt:306-312 | every slot lasts the duration and ends by the window end; the first starts at the window start; each starts where the previous one ends |
| Slots.TilesAt | app/src/main/java/com/example/myapplication/ui/screens/HorarioSalaScreen.kt:306-312 | the i-th slot runs from start+i*d to start+i*d+d |
| Slots.TilesFit | app/src/main/java/com/example/myapplication/ui/screens/HorarioSalaScreen.kt:306-312 | the slots cover the window except for a remainder shorter than one duration |
| Slots.TilesCount | app/src/main/java/com/example/myapplication/ui/screens/HorarioSalaScreen.kt:306-312 | the number of slots is the window length divided by the duration, rounded down |
| Slots.LastTileEndsAtWindowEnd | app/src/main/java/com/example/myapplication/ui/screens/HorarioSalaScreen.kt:306-312 | when the duration divides the window, the last slot ends exactly at the window end |
| Slots.ManhaHourly | app/src/main/java/com/example/myapplication/ui/screens/HorarioSalaScreen.kt:287-312 | the morning shift with hourly slots is 08-09, 09-10, 10-11, 11-12 |
| Slots.WindowSlotsInDay | app/src/main/java/com/example/myapplication/ui/screens/HorarioSalaScreen.kt:287-312 | every generated slot starts before its end, within one day |
| Slots.LabelSplit | app/src/main/java/com/example/myapplication/ui/screens/HorarioSalaScreen.kt:110 | splitting a label on ` - ` gives exactly its start and end texts |
| Slots.LabelsSplittable | app/src/main/java/com/example/myapplication/ui/screens/HorarioSalaScreen.kt:110 | every generated label splits into two parts, so the destructuring never fails |
| Slots.OccupiedPairs | app/src/main/java/com/example/myapplication/ui/screens/HorarioSalaScreen.kt:106 | the occupied set holds exactly the (start, end) pairs of the reservations |
| Slots.OccupiedPairsIgnoreOrder | app/src/main/java/com/example/myapplication/ui/screens/HorarioSalaScreen.kt:106 | the occupied set depends only on which reservations there are, not on their order or repetition |
| Slots.Available | app/src/main/java/com/example/myapplication/ui/screens/HorarioSalaScreen.kt:109-118 | the as-written filter keeps at most the labels it is given |
| Slots.AvailableMembers | app/src/main/java/com/example/myapplication/ui/screens/HorarioSalaScreen.kt:109-118 | a label is kept by the as-written filter exactly when it was offered and no occupied pair overlaps it |
| Slots.AvailableIsSubsequence | app/src/main/java/com/example/myapplication/ui/screens/HorarioSalaScreen.kt:109 | the as-written filter keeps labels in their original order |
| Slots.AvailableWhenFree | app/src/main/java/com/example/myapplication/ui/screens/HorarioSalaScreen.kt:109-118 | with nothing occupied every label is kept |
| Slots.BlockedByMinutes | app/src/main/java/com/example/myapplication/ui/screens/HorarioSalaScreen.kt:111-117 | for a generated slot, the overlap test compares its start and end minutes (end modulo one day) with the reservation's |
| Slots.ReadSlot | app/src/main/java/com/example/myapplication/ui/screens/HorarioSalaScreen.kt:110-115 | a generated label's two parts read back as its start and end minutes modulo one day |
| Slots.AvailableLabels | app/src/main/java/com/example/myapplication/ui/screens/HorarioSalaScreen.kt:107-118 | on generated slots the as-written filter keeps exactly the labels of the slots that clash with no reservation |
| Slots.ManhaOneTaken | app/src/main/java/com/example/myapplication/ui/screens/HorarioSalaScreen.kt:101-120 | with the 09:00-10:00 morning slot booked, the hourly morning list is 08-09, 10-11, 11-12 |
| Slots.ManhaFree | app/src/main/java/com/example/myapplication/ui/screens/HorarioSalaScreen.kt:101-120 | the free morning slots with 09:00-10:00 booked are the other three |
| Slots.ManhaClashes | app/src/main/java/com/example/myapplication/ui/screens/HorarioSalaScreen.kt:111-117 | the 09:00-10:00 reservation clashes with its own slot only, not with the adjacent ones |
| Slots.AllDayLastSlotNeverBlocked | app/src/main/java/com/example/myapplication/ui/screens/HorarioSalaScreen.kt:287-321 | the as-written filter always lists the whole day's last slot, whatever is booked |
| Slots.OwnPair | app/src/main/java/com/example/myapplication/ui/screens/HorarioSalaScreen.kt:185-206 | the pair a confirmed label is split into is the slot's printed start and end |
| Slots.AllDayDoubleBooking | app/src/main/java/com/example/myapplication/ui/screens/HorarioSalaScreen.kt:287-321 | the whole day's 23:00 - 00:00 slot is still offered when it is itself booked |
| Slots.ReadInterval | app/src/main/java/com/example/myapplication/ui/screens/HorarioSalaScreen.kt:316-321 | an end at or before the start reads as the next day, otherwise as printed; the interval is non-empty |
| Slots.AvailableCorrected | app/src/main/java/com/example/myapplication/ui/screens/HorarioSalaScreen.kt:109-118 | the corrected filter keeps at most the labels it is given |
| Slots.AvailableCorrectedMembers | app/src/main/java/com/example/myapplication/ui/screens/HorarioSalaScreen.kt:109-118 | a label is kept by the corrected filter exactly when it was offered and no occupied interval overlaps it |
| Slots.AvailableCorrectedIsSubsequence | app/src/main/java/com/example/myapplication/ui/screens/HorarioSalaScreen.kt:109 | the corrected filter keeps labels in their original order |
| Slots.AvailableCorrectedWhenFree | app/src/main/java/com/example/myapplication/ui/screens/HorarioSalaScreen.kt:109-118 | with nothing occupied the corrected filter keeps every label |
| Slots.BookedSlotBlocked | app/src/main/java/com/example/myapplication/ui/screens/HorarioSalaScreen.kt:101-120 | a generated slot whose own pair is occupied is never listed by the corrected filter, in any shift |
| Slots.BookedNamedSlotBlocked | app/src/main/java/com/example/myapplication/ui/screens/HorarioSalaScreen.kt:101-120 | on the named shifts, which end by 22:00, the filter as written hides a generated slot whose own pair is booked |
| Slots.SlotReadsForward | app/src/main/java/com/example/myapplication/ui/screens/HorarioSalaScreen.kt:306-312 | a slot that ends before midnight reads forward from its label |
| Slots.CorrectedAgrees | app/src/main/java/com/example/myapplication/ui/screens/HorarioSalaScreen.kt:109-118 | on labels and reservations that read forward, the corrected filter equals the as-written one |
| Slots.NamedShiftsAgree | app/src/main/java/com/example/myapplication/ui/screens/HorarioSalaScreen.kt:287-318 | on the three named shifts the corrected filter lists exactly what the as-written one does |
| Slots.NovaReserva | app/src/main/java/com/example/myapplication/ui/screens/HorarioSalaScreen.kt:185-208 | a reservation is built exactly when the label splits into at least two pieces; it gets the room, the display date, the first two pieces as start and end, the user or "" and no local key |
| Slots.NovaReservaFromSlot | app/src/main/java/com/example/myapplication/ui/screens/HorarioSalaScreen.kt:185-208 | confirming a generated slot always builds a reservation from its printed start and end |
| HorarioUi.HorariosDisponiveis | app/src/main/java/com/example/myapplication/ui/screens/HorarioSalaScreen.kt:101-120 | no room means no slots; otherwise the list keeps generated labels in order, filtered with the source's overlap test on the times as printed |
| HorarioUi.HorariosMembers | app/src/main/java/com/example/myapplication/ui/screens/HorarioSalaScreen.kt:101-120 | a label is listed exactly when it is a generated label and no reservation of the room and day overlaps it, all four times read as printed |
| HorarioUi.HorariosWhenFree | app/src/main/java/com/example/myapplication/ui/screens/HorarioSalaScreen.kt:101-120 | with no reservations every generated slot is listed |
| HorarioUi.HorariosIgnoreOrder | app/src/main/java/com/example/myapplication/ui/screens/HorarioSalaScreen.kt:106 | the listed slots depend only on which reservations there are, not on their order |
| HorarioUi.HorariosMatchCorrected | app/src/main/java/com/example/myapplication/ui/screens/HorarioSalaScreen.kt:109-118 | on named shifts with reservations that read forward, the screen's list equals the corrected filter of Finding 1 |
| HorarioUi.HorariosAllDayDoubleBooking | app/src/main/java/com/example/myapplication/ui/screens/HorarioSalaScreen.kt:101-120 | on a shift other than the named three, a room with hourly slots still lists 23:00 - 00:00 when that slot is booked |
| HorarioUi.ListedIsSlot | app/src/main/java/com/example/myapplication/ui/screens/HorarioSalaScreen.kt:107-109 | every listed label is the label of a generated slot |
| HorarioUi.ConfirmListedSlot | app/src/main/java/com/example/myapplication/ui/screens/HorarioSalaScreen.kt:185-208 | confirming a listed slot builds a reservation for the room, today's display date and that slot |
| HorarioUi.BookingRemovesSlot | app/src/main/java/com/example/myapplication/ui/screens/HorarioSalaScreen.kt:101-120 | on the named shifts, the only ones the room screen opens this screen with, a slot is no longer listed once the reservation built from it is added |
| HorarioLegacy.OccupiedSlots | app/src/main/java/com/example/myapplication/screens/HorarioSalaScreen.kt:63 | the occupied pairs without repetition, exactly the reservations' pairs |
| HorarioLegacy.HorariosOcupados | app/src/main/java/com/example/myapplication/screens/HorarioSalaScreen.kt:63-64 | the occupied labels are exactly the reservations' start and end joined by ` - `, one per distinct pair |
| HorarioLegacy.OcupadosCollapseDuplicates | app/src/main/java/com/example/myapplication/screens/HorarioSalaScreen.kt:63-64 | a second copy of a reservation changes nothing in the occupied labels |
| HorarioLegacy.Disponiveis | app/src/main/java/com/example/myapplication/screens/HorarioSalaScreen.kt:66-78 | the listed slots are generated labels, kept in order, filtered with the source's overlap test on the times as printed |
| HorarioLegacy.ListedNeverOcupado | app/src/main/java/com/example/myapplication/screens/HorarioSalaScreen.kt:63-78 | on the named shifts, the only ones the room screen opens this screen with, no listed slot is flagged occupied |
| HorarioLegacy.AsWrittenListsFlaggedSlot | app/src/main/java/com/example/myapplication/screens/HorarioSalaScreen.kt:63-78 | as written, the whole day's 23:00 - 00:00 slot is listed while also flagged occupied |
| HorarioLegacy.QueryDateMatchesStoredDate | app/src/main/java/com/example/myapplication/screens/HorarioSalaScreen.kt:51-53 | the date the screen queries is the remote-store text of today, which differs from the display text |
| HorarioLegacy.HorarioSalaScreen.constructor | app/src/main/java/com/example/myapplication/screens/HorarioSalaScreen.kt:45-53 | the screen starts with empty lists, nothing selected and the dialog closed |
| HorarioLegacy.HorarioSalaScreen.DataFirebase | app/src/main/java/com/example/myapplication/screens/HorarioSalaScreen.kt:52 | today as `yyyy-MM-dd` |
| HorarioLegacy.HorarioSalaScreen.DataExibicao | app/src/main/java/com/example/myapplication/screens/HorarioSalaScreen.kt:53 | today as `dd/MM/yyyy` |
| HorarioLegacy.HorarioSalaScreen.OnReservasFetched | app/src/main/java/com/example/myapplication/screens/HorarioSalaScreen.kt:59-80 | the callback sets the occupied labels and the listed slots from the fetched reservations with the source's filter; on a named shift no listed slot is flagged |
| HorarioLegacy.HorarioSalaScreen.OnSlotClicked | app/src/main/java/com/example/myapplication/screens/HorarioSalaScreen.kt:127-138 | a flagged slot changes nothing; any other slot is selected and opens the dialog |
| HorarioLegacy.HorarioSalaScreen.OnDismiss | app/src/main/java/com/example/myapplication/screens/HorarioSalaScreen.kt:149 | dismissing clears the selection and closes the dialog |
| HorarioLegacy.HorarioSalaScreen.OnConfirm | app/src/main/java/com/example/myapplication/screens/HorarioSalaScreen.kt:146-169 | confirming builds the reservation from the selection and today's display date, then closes the dialog |
| LocalTable.Upsert | app/src/main/java/com/example/myapplication/data/local/dao/ReservaDao.kt:13-14 | the saved row is present, rows with other keys stay, the row with its key is replaced, keys stay unique |
| LocalTable.Saved | app/src/main/java/com/example/myapplication/data/local/dao/ReservaDao.kt:13-14 | a row with key 0 gets a fresh key; otherwise it replaces the row with its key; nothing else changes |
| LocalTable.SavedAll | app/src/main/java/com/example/myapplication/data/local/dao/ReservaDao.kt:36-37 | saving a list keeps the table well formed |
| LocalTable.Deleted | app/src/main/java/com/example/myapplication/data/local/dao/ReservaDao.kt:16-17 | exactly the rows with the given key are removed, the rest stay in order |
| LocalTable.DeletedUser | app/src/main/java/com/example/myapplication/data/local/dao/ReservaDao.kt:32-33 | exactly the user's rows are removed, the rest stay in order |
| LocalTable.DeletedValid | app/src/main/java/com/example/myapplication/data/local/dao/ReservaDao.kt:16-17 | deleting by key keeps the table well formed |
| LocalTable.DeletedUserValid | app/src/main/java/com/example/myapplication/data/local/dao/ReservaDao.kt:32-33 | deleting a user's rows keeps the table well formed |
| LocalTable.DeleteKeyZeroKeepsRows | app/src/main/java/com/example/myapplication/viewmodel/ReservasViewModel.kt:139 | deleting by key 0 removes nothing, as no stored row has key 0 |
| LocalTable.SavedFresh | app/src/main/java/com/example/myapplication/data/local/dao/ReservaDao.kt:13-14 | saving a row with key 0 appends it with the next free key |
| LocalTable.SavedAllFresh | app/src/main/java/com/example/myapplication/data/local/dao/ReservaDao.kt:36-37 | saving rows with key 0 appends them in order with consecutive fresh keys |
| LocalTable.Resync | app/src/main/java/com/example/myapplication/viewmodel/ReservasViewModel.kt:58-61 | after the resync the table is the user-free rows followed by the snapshot's rows with fresh keys |
| LocalTable.ResyncUserRows | app/src/main/java/com/example/myapplication/viewmodel/ReservasViewModel.kt:58-61 | after the resync the user's rows are exactly the snapshot's records, in order, up to their local keys |
| LocalTable.ReservaDao.constructor | app/src/main/java/com/example/myapplication/data/local/dao/ReservaDao.kt:12 | the table starts empty |
| LocalTable.ReservaDao.Salvar | app/src/main/java/com/example/myapplication/data/local/dao/ReservaDao.kt:13-14 | the table becomes the saved table |
| LocalTable.ReservaDao.Deletar | app/src/main/java/com/example/myapplication/data/local/dao/ReservaDao.kt:16-17 | the rows become those without the entity's key |
| LocalTable.ReservaDao.DeletarReservasDoUsuario | app/src/main/java/com/example/myapplication/data/local/dao/ReservaDao.kt:31-33 | the rows become those of other users |
| LocalTable.ReservaDao.SalvarLista | app/src/main/java/com/example/myapplication/data/local/dao/ReservaDao.kt:35-37 | the table becomes the one with the list saved one by one |
| LocalTable.ReservaDao.ListarTodas | app/src/main/java/com/example/myapplication/data/local/dao/ReservaDao.kt:19-20 | every row, ordered by the date text |
| LocalTable.ReservaDao.ListarPorUsuario | app/src/main/java/com/example/myapplication/data/local/dao/ReservaDao.kt:22-23 | exactly the user's rows, ordered by the date text |
| LocalTable.ReservaDao.GetReservasPorSalaEData | app/src/main/java/com/example/myapplication/data/local/dao/ReservaDao.kt:25-26 | exactly the rows of that room and date |
| LocalTable.ReservaDao.GetReservasDoDia | app/src/main/java/com/example/myapplication/data/local/dao/ReservaDao.kt:28-29 | exactly the rows of that date |
| RemoteStore.Apply | app/src/main/java/com/example/myapplication/viewmodel/ReservasViewModel.kt:89-94 | every updated path gets its value or is removed for null; every other path keeps its value |
| RemoteStore.ApplySetTwo | app/src/main/java/com/example/myapplication/viewmodel/ReservasViewModel.kt:89-94 | an update writing two paths is the two writes one after the other |
| RemoteStore.ApplyRemove | app/src/main/java/com/example/myapplication/viewmodel/ReservasViewModel.kt:130-135 | an update nulling paths removes exactly those paths |
| RemoteStore.ChildrenAdd | app/src/main/java/com/example/myapplication/screens/SalasViewModel.kt:91-92 | writing a child of a node adds exactly its key to the node's children |
| RemoteStore.ChildrenElsewhere | app/src/main/java/com/example/myapplication/screens/SalasViewModel.kt:41-45 | a write outside a node leaves its child count unchanged |
| RemoteStore.Database.UpdateChildren | app/src/main/java/com/example/myapplication/viewmodel/ReservasViewModel.kt:94-112 | the multi-path update is applied as a whole on success and not at all on failure |
| RemoteStore.Database.SetValue | app/src/main/java/com/example/myapplication/screens/SalasViewModel.kt:101-109 | one path is written on success, nothing on failure |
| SalasVm.HoraInicio | app/src/main/java/com/example/myapplication/viewmodel/SalasViewModel.kt:76 | the start hour is a 32-bit integer |
| SalasVm.HoraInicioBeforeColon | app/src/main/java/com/example/myapplication/viewmodel/SalasViewModel.kt:76 | the hour is the integer written before the first `:` (the whole text when there is none), or 0 when that part is not a number |
| SalasVm.HoraInicioOfFormat | app/src/main/java/com/example/myapplication/viewmodel/SalasViewModel.kt:76 | the hour read from a printed time is that time's hour of the day |
| SalasVm.NoTurnoIsWindow | app/src/main/java/com/example/myapplication/viewmodel/SalasViewModel.kt:78-83 | a start hour is in a shift exactly when the shift is named and the hour is inside its slot window |
| SalasVm.SlotStartCounted | app/src/main/java/com/example/myapplication/viewmodel/SalasViewModel.kt:74-85 | a reservation starting at any generated slot of a named shift counts for that shift |
| SalasVm.VagasOcupadas | app/src/main/java/com/example/myapplication/viewmodel/SalasViewModel.kt:74-85 | the count is at most the number of reservations, zero for an unnamed shift, and zero exactly when no reservation of the room is in the shift |
| SalasVm.BookedSlotCounted | app/src/main/java/com/example/myapplication/viewmodel/SalasViewModel.kt:74-85 | adding a reservation of the room at a slot of the shift raises the count by one |
| SalasVm.OtherRoomNotCounted | app/src/main/java/com/example/myapplication/viewmodel/SalasViewModel.kt:77 | a reservation of another room does not change the count |
| SalasVm.SalasDoTurno | app/src/main/java/com/example/myapplication/viewmodel/SalasViewModel.kt:54-58 | exactly the rooms offering the shift, in order |
| SalasVm.ComVagas | app/src/main/java/com/example/myapplication/viewmodel/SalasViewModel.kt:74-87 | each room, in order, with its occupied count for the day and shift |
| SalasVm.SalasPublicadas | app/src/main/java/com/example/myapplication/viewmodel/SalasViewModel.kt:54-92 | the published list is sorted by name and is a permutation of the shift's rooms with their counts; empty when no room offers the shift |
| SalasVm.SalasPublicadasMembers | app/src/main/java/com/example/myapplication/viewmodel/SalasViewModel.kt:54-92 | a room is published exactly when it is a room offering the shift, with its count |
| Sorting.SortBy | app/src/main/java/com/example/myapplication/viewmodel/SalasViewModel.kt:92 | `sortedBy`: the result is ordered by the key and is a permutation of the input |
| SalasVm.SalasBase | app/src/main/java/com/example/myapplication/viewmodel/SalasViewModel.kt:48-50 | exactly the rooms of the snapshot that convert, each with its key as id |
| SalasVm.SalasBaseAppend | app/src/main/java/com/example/myapplication/viewmodel/SalasViewModel.kt:48-50 | the rooms keep the snapshot's order: one more child appends its room when it converts, and nothing otherwise |
| SalasVm.SalaFromFields | app/src/main/java/com/example/myapplication/viewmodel/SalasViewModel.kt:106-117 | missing fields take the defaults "Sala Desconhecida", 0 places, 60 minutes; the shifts are exactly the non-null ones |
| SalasVm.FetchReservasParaSalaEData | app/src/main/java/com/example/myapplication/viewmodel/SalasViewModel.kt:140-157 | the callback receives the records the snapshot converts, in order, or an empty list when the read is cancelled |
| SalasVm.SalasViewModel.constructor | app/src/main/java/com/example/myapplication/viewmodel/SalasViewModel.kt:30-37 | the state starts empty |
| SalasVm.SalasViewModel.FetchSalas | app/src/main/java/com/example/myapplication/viewmodel/SalasViewModel.kt:39-102 | the room list becomes the published list for the snapshot and today's local reservations |
| SalasVm.SalasViewModel.FetchSalaById | app/src/main/java/com/example/myapplication/viewmodel/SalasViewModel.kt:104-118 | the selected room is the one built from the snapshot's fields |
| SalasVm.SalasViewModel.FetchSalaByIdCancelled | app/src/main/java/com/example/myapplication/viewmodel/SalasViewModel.kt:120-123 | a cancelled read clears the selected room |
| SalasVm.SalasViewModel.CarregarReservasDaSala | app/src/main/java/com/example/myapplication/viewmodel/SalasViewModel.kt:126-135 | the room's reservations are exactly the local rows of that room and date, as records |
| SalasLegacy.TransactionStep | app/src/main/java/com/example/myapplication/screens/SalasViewModel.kt:78-93 | the transaction aborts exactly when the user is already there or the room is full; otherwise it adds exactly the user and stays within capacity |
| SalasLegacy.NoInfoAlwaysAborts | app/src/main/java/com/example/myapplication/screens/SalasViewModel.kt:73-89 | without room info the capacity is 0 and every booking aborts |
| SalasLegacy.AttemptsWithinCapacity | app/src/main/java/com/example/myapplication/screens/SalasViewModel.kt:78-93 | any sequence of booking attempts keeps the node within capacity and loses no one |
| SalasLegacy.AttemptsFill | app/src/main/java/com/example/myapplication/screens/SalasViewModel.kt:78-93 | distinct new users fill the room up to its capacity and no further |
| SalasLegacy.CommitAddsUser | app/src/main/java/com/example/myapplication/screens/SalasViewModel.kt:91-92 | a committed booking adds exactly the user, within capacity |
| SalasLegacy.SalasListadas | app/src/main/java/com/example/myapplication/screens/SalasViewModel.kt:41-54 | every room with info, sorted by id, each with its node's child count |
| SalasLegacy.WithInfoAppend | app/src/main/java/com/example/myapplication/screens/SalasViewModel.kt:32-39 | reading one more room child appends it when it has info |
| SalasLegacy.SalasViewModel.constructor | app/src/main/java/com/example/myapplication/screens/SalasViewModel.kt:20-24 | the state starts empty |
| SalasLegacy.SalasViewModel.FetchSalas | app/src/main/java/com/example/myapplication/screens/SalasViewModel.kt:26-65 | the room list becomes the listed rooms of the snapshot with today's counts |
| SalasLegacy.SalasViewModel.ReservarSala | app/src/main/java/com/example/myapplication/screens/SalasViewModel.kt:67-118 | no user or no info read: nothing happens; an error or an abort changes nothing and reports it; a commit adds the user and then the user-index flag |
| SalasLegacy.SalasViewModel.ClearReservationResult | app/src/main/java/com/example/myapplication/screens/SalasViewModel.kt:120-122 | the result is cleared |
| ReservasVm.SaveUpdates | app/src/main/java/com/example/myapplication/viewmodel/ReservasViewModel.kt:89-92 | the update writes the reservation to exactly its two index paths |
| ReservasVm.CancelUpdates | app/src/main/java/com/example/myapplication/viewmodel/ReservasViewModel.kt:130-133 | the update nulls exactly the reservation's two index paths |
| ReservasVm.RoomPathOf | app/src/main/java/com/example/myapplication/viewmodel/ReservasViewModel.kt:80-89 | the room-index path is `reservas_por_sala`, the room, the date as yyyy-MM-dd (the display text reversed when well formed) and the id |
| ReservasVm.SaveKeepsPaired | app/src/main/java/com/example/myapplication/viewmodel/ReservasViewModel.kt:89-94 | a save keeps the two indexes paired for that reservation |
| ReservasVm.CancelKeepsPaired | app/src/main/java/com/example/myapplication/viewmodel/ReservasViewModel.kt:130-135 | a cancel keeps the two indexes paired for that reservation |
| ReservasVm.SaveThenCancel | app/src/main/java/com/example/myapplication/viewmodel/ReservasViewModel.kt:89-133 | save then cancel leaves the store without the two paths and otherwise unchanged |
| ReservasVm.CancelUndoesSave | app/src/main/java/com/example/myapplication/viewmodel/ReservasViewModel.kt:89-133 | on a store without the reservation, save then cancel gives back the store |
| ReservasVm.TextOrderNotChronological | app/src/main/java/com/example/myapplication/viewmodel/ReservasViewModel.kt:56 | sorting by the date text puts 01/02 of a year before 02/01 of the same year |
| ReservasVm.ReservasViewModel.constructor | app/src/main/java/com/example/myapplication/viewmodel/ReservasViewModel.kt:33-42 | the list starts empty |
| ReservasVm.ReservasViewModel.SalvarNovaReserva | app/src/main/java/com/example/myapplication/viewmodel/ReservasViewModel.kt:72-113 | without a user nothing happens; otherwise the two-index write, then the local save and the e-mail on success; the result is true only if all succeed |
| ReservasVm.ReservasViewModel.CancelarReserva | app/src/main/java/com/example/myapplication/viewmodel/ReservasViewModel.kt:115-152 | without a user nothing happens; otherwise the two paths are nulled, then the local row with the record's key is deleted; a record with key 0 deletes nothing |
| ReservasVm.ReservasViewModel.OnDataChange | app/src/main/java/com/example/myapplication/viewmodel/ReservasViewModel.kt:44-70 | the list becomes the snapshot's records sorted by date text; the local table loses the user's rows and gains the snapshot's, which are then exactly the user's rows |
| ReservasLegacy.StartMinutesOfHHmm | app/src/main/java/com/example/myapplication/screens/ReservasViewModel.kt:42-47 | the comparator's start time of an `HH:mm` text is its minute of the day |
| ReservasLegacy.StartMinutes | app/src/main/java/com/example/myapplication/screens/ReservasViewModel.kt:44-47 | the `thenBy` key is a 32-bit integer, and 0 for text that does not split into two `:`-parts |
| ReservasLegacy.HHmmReadable | app/src/main/java/com/example/myapplication/screens/ReservasViewModel.kt:44-47 | the comparator can read the start of every `HH:mm` text |
| ReservasLegacy.Sortable | app/src/main/java/com/example/myapplication/screens/ReservasViewModel.kt:42-47 | every record with a printed date and start time can be ordered by the comparator without throwing |
| ReservasLegacy.TwoDigits | app/src/main/java/com/example/myapplication/screens/ReservasViewModel.kt:45-46 | `toInt` of two digits is their value |
| ReservasLegacy.SortKey | app/src/main/java/com/example/myapplication/screens/ReservasViewModel.kt:42-47 | a readable record's key has four parts: year, month, day, start minute |
| ReservasLegacy.Lex4 | app/src/main/java/com/example/myapplication/screens/ReservasViewModel.kt:42-47 | comparing two keys compares year, then month, then day, then start minute |
| ReservasLegacy.SortedChronologically | app/src/main/java/com/example/myapplication/screens/ReservasViewModel.kt:42-47 | a list sorted by the key is in calendar order, and by start time within one day |
| ReservasLegacy.PermutationReadable | app/src/main/java/com/example/myapplication/screens/ReservasViewModel.kt:35-41 | every record of the sorted list comes from the snapshot, so the comparator can read it |
| ReservasLegacy.LegacySaveUpdates | app/src/main/java/com/example/myapplication/screens/ReservasViewModel.kt:79-94 | the update writes the reservation to exactly its user path and its room path |
| ReservasLegacy.SaveGenerationsAgree | app/src/main/java/com/example/myapplication/screens/ReservasViewModel.kt:81-89 | for a well-formed date both generations write the same two paths |
| ReservasLegacy.LegacyCancelUpdates | app/src/main/java/com/example/myapplication/screens/ReservasViewModel.kt:59-61 | as written, the cancel nulls only the user path |
| ReservasLegacy.LegacyCancelLeavesRoomEntry | app/src/main/java/com/example/myapplication/screens/ReservasViewModel.kt:56-63 | as written, save then cancel leaves the reservation in the room index and the indexes unpaired |
| ReservasLegacy.CancelBothUpdates | app/src/main/java/com/example/myapplication/screens/ReservasViewModel.kt:59-61 | the corrected cancel nulls exactly the user path and the room path |
| ReservasLegacy.CancelBothUndoesSave | app/src/main/java/com/example/myapplication/screens/ReservasViewModel.kt:56-63 | with the corrected cancel, save then cancel removes both paths and gives back a store that lacked them |
| ReservasLegacy.ReservasViewModel.constructor | app/src/main/java/com/example/myapplication/screens/ReservasViewModel.kt:19-26 | the list starts empty |
| ReservasLegacy.ReservasViewModel.OnDataChange | app/src/main/java/com/example/myapplication/screens/ReservasViewModel.kt:28-54 | the list becomes a permutation of the snapshot's records in calendar and start-time order |
| ReservasLegacy.ReservasViewModel.CancelarReserva | app/src/main/java/com/example/myapplication/screens/ReservasViewModel.kt:56-70 | without a user nothing happens; otherwise, when the write succeeds, only the user-index path is removed and the room index keeps the reservation |
| ReservasLegacy.ReservasViewModel.SalvarNovaReserva | app/src/main/java/com/example/myapplication/screens/ReservasViewModel.kt:72-104 | without a user nothing happens; otherwise both paths are written on success; the result is the write's outcome |

## Left out

- The exact row order of SQL queries without `ORDER BY`, and the exact AUTOINCREMENT keys: the model returns table order and takes the next free counter value.
- `Clock.TimeOf`: maps any text that is not two digits, a colon and two digits to minute 0; the source's lenient `parse` reads such text itself ("9:00" as 540) or throws `ParseException` on text it cannot read, so its `?: Date(0)` is never taken. Time zones are left out.
- `Clock.ToFirebaseDate`: reads only fixed-width `dd/MM/yyyy`; the source's lenient parse also reads "1/2/2024" as 2024-02-01 and rolls "32/01/2024" over to 2024-02-01, where the model takes the fallback and gives "2024-2-1" and "2024-01-32".
- `Clock.ToFirebaseDateIsFallback`: holds of the fixed-width reading only; with the source's lenient parse "1/2/2024" converts to "2024-02-01", not to the fallback's "2024-2-1".
- `Clock.LegacyFirebaseDate`: reads only fixed-width `dd/MM/yyyy`, as `Clock.ToFirebaseDate` does; text the lenient parse would accept is kept as it is.
- `Text.ToIntOrNull`: accepts only the ASCII digits 0-9; Kotlin also accepts the other Unicode decimal digits.
- `SalasVm.Nome` and `SalasLegacy.IdKey`: order text by code point, while Kotlin's `sortedBy` compares UTF-16 code units, which differs for characters outside the Basic Multilingual Plane.
- `Slots.GenerateTimeSlots`: requires a positive duration, because the source loop never ends otherwise.
- Concurrency, coroutines and dispatchers, listener re-delivery and transaction retries: each listener is one callback step, and each transaction is one atomic step.
- The order of Firebase children: snapshots are sequences given as parameters.
- Firebase subtree semantics and `/` inside ids: paths are segment sequences, and a write touches one leaf.
- `getValue` conversion failures other than a null child.
- The e-mail service, the authentication service, UUIDs, the clock and toasts: they are parameters or are not modelled.
- The older package's `data.Sala`, `SalaInfo` and `data.MinhaReserva` declarations are not part of this model; their fields are inferred from their use.
- The older slot screen's calls `fetchSalaById`, `salaSelecionada` and `fetchReservasParaSalaEData` name a `SalasViewModel` of its own package, which declares none of them, so that package does not compile as written; the model reads those calls as the newer view-model's methods, and Finding 2's consequence for the slot screen rests on that reading.
- `ReservasLegacy.ReservasViewModel.OnDataChange`: requires a well-formed `dd/MM/yyyy` date and a numeric `HH:mm`-like start for every record, because the source comparator throws on text it cannot read. The requires also excludes two cases that do not throw: dates the lenient parse accepts, such as "1/2/2024", and a single record, which `sortedWith` returns without calling the comparator.
- `ReservasLegacy.SortKey`: covers only fixed-width dates, with no lenient roll-over of out-of-range fields.
- `Sorting.SortBy`: stability is not stated in the contracts.
- The screens' layout, navigation and the UI state collected from flows.

## Findings

| source | as written | input that shows it | evidently intended | confidence | as-written member | corrected member |
|---|---|---|---|---|---|---|
| app/src/main/java/com/example/myapplication/ui/screens/HorarioSalaScreen.kt:287-321 | in the whole-day window (any shift other than Manhã, Tarde, Noite) the last slot ends at 24:00, printed `00:00` and read back as minute 0, so `slotEnd.after(resStart)` fails and no reservation blocks it (the same filter is at app/src/main/java/com/example/myapplication/screens/HorarioSalaScreen.kt:66-76) | shift "", 60-minute slots, a reservation 23:00 - 00:00: the slot "23:00 - 00:00" is still offered; no caller visible in the repository passes a shift other than Manhã, Tarde or Noite (ui/screens/SalaScreen.kt:85 and screens/SalaScreen.kt:41 offer only those three), so it is latent | a slot whose own time is booked is not offered | not executed | Slots.AllDayDoubleBooking | Slots.AvailableCorrected |
| app/src/main/java/com/example/myapplication/screens/ReservasViewModel.kt:59-61 | cancelling nulls only `reservas_por_usuario/{uid}/{id}`; the room index entry written at app/src/main/java/com/example/myapplication/screens/ReservasViewModel.kt:89-94 stays, and the slot screen reads that index (app/src/main/java/com/example/myapplication/viewmodel/SalasViewModel.kt:140-157) | any reservation saved and then cancelled through the older view-model | cancelling removes the reservation from both indexes, as the newer view-model does | not executed | ReservasLegacy.LegacyCancelLeavesRoomEntry | ReservasLegacy.CancelBothUpdates |
