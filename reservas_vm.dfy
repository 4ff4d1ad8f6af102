/**
 * The newer reservation view-model, viewmodel/ReservasViewModel.kt. A reservation is kept
 * under two indices of the remote store, the user's and the room's for the day; one
 * multi-path update writes both and one removes both. The local table mirrors the
 * user's index each time the index changes.
 */
module ReservasVm {
  import opened Options
  import opened Text
  import opened Records
  import opened Clock
  import opened Mappers
  import opened RemoteStore
  import opened LocalTable
  import Seqs
  import Sorting

  /** "/reservas_por_usuario/{uid}/{id}". */
  function UserPath(uid: string, id: string): Path { ["reservas_por_usuario", uid, id] }

  /** "/reservas_por_sala/{idSala}/{yyyy-MM-dd}/{id}". */
  function RoomPath(idSala: string, date: string, id: string): Path { ["reservas_por_sala", idSala, date, id] }

  /** The room-index path of a reservation, its date converted as both operations convert it. */
  function RoomPathOf(r: MinhaReserva): (p: Path)
    ensures |p| == 4 && p[0] == "reservas_por_sala" && p[1] == r.idSala && p[3] == r.id
    ensures IsDisplayDate(r.data) ==> p[2] == r.data[6..] + "-" + r.data[3..5] + "-" + r.data[..2]
  {
    RoomPath(r.idSala, ToFirebaseDate(r.data), r.id)
  }

  /** The user index and the room index agree about one reservation: it is in both or in neither. */
  predicate Paired(store: Store, uid: string, r: MinhaReserva)
  {
    UserPath(uid, r.id) in store <==> RoomPathOf(r) in store
  }

  /** The update `salvarNovaReserva` sends: the same reservation under exactly its two index paths. */
  function SaveUpdates(uid: string, r: MinhaReserva): (u: Updates)
    ensures u.Keys == {UserPath(uid, r.id), RoomPathOf(r)} && |u.Keys| == 2
    ensures forall p :: p in u ==> u[p] == Some(Reserva(r))
  {
    assert UserPath(uid, r.id) != RoomPathOf(r);
    map[UserPath(uid, r.id) := Some(Reserva(r)), RoomPathOf(r) := Some(Reserva(r))]
  }

  /** The update `cancelarReserva` sends: both index paths mapped to null. */
  function CancelUpdates(uid: string, r: MinhaReserva): (u: Updates)
    ensures u.Keys == {UserPath(uid, r.id), RoomPathOf(r)} && |u.Keys| == 2
    ensures forall p :: p in u ==> u[p].None?
  {
    assert UserPath(uid, r.id) != RoomPathOf(r);
    var paths := {UserPath(uid, r.id), RoomPathOf(r)};
    map p | p in paths :: None
  }

  /** After a save both indices hold the reservation; every other path is as it was. */
  lemma SaveKeepsPaired(store: Store, uid: string, r: MinhaReserva)
    ensures Paired(Apply(store, SaveUpdates(uid, r)), uid, r)
    ensures Apply(store, SaveUpdates(uid, r)) == store[UserPath(uid, r.id) := Reserva(r)][RoomPathOf(r) := Reserva(r)]
  {
    ApplySetTwo(store, UserPath(uid, r.id), RoomPathOf(r), Reserva(r));
  }

  /** After a cancel neither index holds the reservation, whatever the two held before; nothing else is removed. */
  lemma CancelKeepsPaired(store: Store, uid: string, r: MinhaReserva)
    ensures Paired(Apply(store, CancelUpdates(uid, r)), uid, r)
    ensures Apply(store, CancelUpdates(uid, r)) == store - {UserPath(uid, r.id), RoomPathOf(r)}
  {
    ApplyRemove(store, {UserPath(uid, r.id), RoomPathOf(r)});
  }

  /** Save and then cancel of the same reservation removes exactly its two paths from the store. */
  lemma SaveThenCancel(store: Store, uid: string, r: MinhaReserva)
    ensures Apply(Apply(store, SaveUpdates(uid, r)), CancelUpdates(uid, r)) == store - {UserPath(uid, r.id), RoomPathOf(r)}
  {
    var up, rp := UserPath(uid, r.id), RoomPathOf(r);
    SaveKeepsPaired(store, uid, r);
    CancelKeepsPaired(store[up := Reserva(r)][rp := Reserva(r)], uid, r);
    RemoveWritten(store, up, rp, Reserva(r));
  }

  /** Cancel undoes a save of a reservation neither index held: the store is as before. */
  lemma CancelUndoesSave(store: Store, uid: string, r: MinhaReserva)
    requires UserPath(uid, r.id) !in store && RoomPathOf(r) !in store
    ensures Apply(Apply(store, SaveUpdates(uid, r)), CancelUpdates(uid, r)) == store
  {
    SaveThenCancel(store, uid, r);
    RemoveAbsent(store, UserPath(uid, r.id), RoomPathOf(r));
  }

  lemma RemoveWritten(store: Store, p: Path, q: Path, v: Value)
    ensures store[p := v][q := v] - {p, q} == store - {p, q}
  {
  }

  lemma RemoveAbsent(store: Store, p: Path, q: Path)
    requires p !in store && q !in store
    ensures store - {p, q} == store
  {
  }

  /** `sortedBy { it.data }`: the dd/MM/yyyy text compared as a string. */
  function DataText(r: MinhaReserva): seq<int> { Codes(r.data) }

  /**
   * The text order of dd/MM/yyyy is not the calendar order: the 2nd of January comes
   * after the 1st of February of the same year.
   */
  lemma TextOrderNotChronological(r1: MinhaReserva, r2: MinhaReserva, y: nat)
    requires y < 10000
    requires r1.data == FormatDisplay(CalendarDate(2, 1, y)) && r2.data == FormatDisplay(CalendarDate(1, 2, y))
    ensures Sorting.SortBy([r1, r2], DataText) == [r2, r1]
  {
    var k1, k2 := DataText(r1), DataText(r2);
    assert k1[0] == '0' as int && k1[1] == '2' as int;
    assert k2[0] == '0' as int && k2[1] == '1' as int;
    assert !Sorting.LexLe(k1[1..], k2[1..]);
    assert !Sorting.LexLe(k1, k2);
    assert [r1, r2][1..] == [r2];
    assert Sorting.SortBy([r2], DataText) == [r2];
  }

  /** The view-model's published state; `userId` is the signed-in user when it was created. */
  class ReservasViewModel {
    const userId: Option<string>
    var minhasReservas: seq<MinhaReserva>

    constructor(userId: Option<string>)
      ensures this.userId == userId && minhasReservas == []
    {
      this.userId := userId;
      minhasReservas := [];
    }

    /**
     * `salvarNovaReserva`. With no user it reports false and sends nothing. Otherwise both
     * index paths are written at once (`remoteOk` is the server's answer); only after a
     * remote success is the row saved locally (`localOk` false stands for `salvar`
     * throwing) and then the confirmation mailed (`emailOk` false for the mail throwing).
     * The result is true exactly when all of them succeeded.
     */
    method SalvarNovaReserva(r: MinhaReserva, remoteOk: bool, localOk: bool, emailOk: bool,
                             db: Database, dao: ReservaDao) returns (ok: bool)
      requires dao.Valid()
      modifies db, dao
      ensures dao.Valid()
      ensures ok == (userId.Some? && remoteOk && localOk && emailOk)
      ensures db.store == if userId.Some? && remoteOk then Apply(old(db.store), SaveUpdates(userId.value, r)) else old(db.store)
      ensures dao.State() == if userId.Some? && remoteOk && localOk then Saved(old(dao.State()), ToReservaEntity(r)) else old(dao.State())
    {
      if userId.None? {
        return false;
      }
      var remote := db.UpdateChildren(SaveUpdates(userId.value, r), remoteOk);
      if !remote || !localOk {
        return false;
      }
      dao.Salvar(ToReservaEntity(r));
      ok := emailOk;
    }

    /**
     * `cancelarReserva`: as the save, with both index paths removed and the row deleted by
     * its key. A record read from the remote store carries key 0, which no row has, so
     * that local delete leaves the table as it was.
     */
    method CancelarReserva(r: MinhaReserva, remoteOk: bool, localOk: bool, emailOk: bool,
                           db: Database, dao: ReservaDao) returns (ok: bool)
      requires dao.Valid()
      modifies db, dao
      ensures dao.Valid()
      ensures ok == (userId.Some? && remoteOk && localOk && emailOk)
      ensures db.store == if userId.Some? && remoteOk then Apply(old(db.store), CancelUpdates(userId.value, r)) else old(db.store)
      ensures dao.rows == if userId.Some? && remoteOk && localOk then Deleted(old(dao.rows), r.localId) else old(dao.rows)
      ensures dao.nextId == old(dao.nextId)
      ensures r.localId == 0 ==> dao.rows == old(dao.rows)
    {
      if userId.None? {
        return false;
      }
      var remote := db.UpdateChildren(CancelUpdates(userId.value, r), remoteOk);
      if !remote || !localOk {
        return false;
      }
      DeleteKeyZeroKeepsRows(dao.State());
      dao.Deletar(ToReservaEntity(r));
      ok := emailOk;
    }

    /**
     * The listener of the user's index (`onDataChange`), registered only when there is a
     * user: the readable records are published sorted by their `data` text, and the
     * user's local rows are replaced by them (`deletarReservasDoUsuario`, then
     * `salvarLista`). Records carry key 0, so the others' rows stay first, untouched,
     * and the snapshot's rows follow with fresh keys; when every record is the user's,
     * the user's rows are then the snapshot, up to their keys.
     */
    method OnDataChange(snapshot: seq<Option<MinhaReserva>>, dao: ReservaDao)
      requires dao.Valid()
      modifies this, dao
      ensures dao.Valid()
      ensures userId.None? ==> minhasReservas == old(minhasReservas) && dao.State() == old(dao.State())
      ensures userId.Some? ==>
        && ValidTable(Table(DeletedUser(old(dao.rows), userId.value), old(dao.nextId)))
        && Sorting.SortedBy(minhasReservas, DataText)
        && multiset(minhasReservas) == multiset(Seqs.Somes(snapshot))
        && dao.State() == SavedAll(Table(DeletedUser(old(dao.rows), userId.value), old(dao.nextId)),
                                   Seqs.Map(Seqs.Somes(snapshot), ToReservaEntity))
      ensures userId.Some? && (forall i :: 0 <= i < |snapshot| && snapshot[i].Some? ==> snapshot[i].value.localId == 0) ==>
        dao.rows == DeletedUser(old(dao.rows), userId.value) + Keyed(Seqs.Map(Seqs.Somes(snapshot), ToReservaEntity), old(dao.nextId))
      ensures userId.Some? && (forall i :: 0 <= i < |snapshot| && snapshot[i].Some? ==>
                                snapshot[i].value.localId == 0 && snapshot[i].value.idUsuario == userId.value) ==>
        WithoutKeys(Seqs.Filter(dao.rows, OfUser(userId.value))) == Seqs.Map(Seqs.Somes(snapshot), ToReservaEntity)
    {
      if userId.None? {
        return;
      }
      var uid := userId.value;
      var lista := Seqs.Somes(snapshot);
      minhasReservas := Sorting.SortBy(lista, DataText);
      ghost var before := dao.State();
      DeletedUserValid(before, uid);
      dao.DeletarReservasDoUsuario(uid);
      var entities := Seqs.Map(lista, ToReservaEntity);
      dao.SalvarLista(entities);
      if forall i :: 0 <= i < |snapshot| && snapshot[i].Some? ==> snapshot[i].value.localId == 0 {
        KeysZero(snapshot, lista, entities);
        Resync(before, uid, entities);
      }
      if forall i :: 0 <= i < |snapshot| && snapshot[i].Some? ==>
           snapshot[i].value.localId == 0 && snapshot[i].value.idUsuario == uid {
        OwnRecords(snapshot, lista, entities, uid);
        ResyncUserRows(before, uid, entities);
      }
    }
  }

  /** Records read with key 0 map to rows with key 0. */
  lemma KeysZero(snapshot: seq<Option<MinhaReserva>>, lista: seq<MinhaReserva>, entities: seq<ReservaEntity>)
    requires lista == Seqs.Somes(snapshot) && entities == Seqs.Map(lista, ToReservaEntity)
    requires forall i :: 0 <= i < |snapshot| && snapshot[i].Some? ==> snapshot[i].value.localId == 0
    ensures forall i :: 0 <= i < |entities| ==> entities[i].localId == 0
  {
    forall i | 0 <= i < |entities| ensures entities[i].localId == 0 {
      var k :| 0 <= k < |snapshot| && snapshot[k] == Some(lista[i]);
    }
  }

  /** Records of the user read with key 0 map to the user's rows with key 0. */
  lemma OwnRecords(snapshot: seq<Option<MinhaReserva>>, lista: seq<MinhaReserva>, entities: seq<ReservaEntity>, uid: string)
    requires lista == Seqs.Somes(snapshot) && entities == Seqs.Map(lista, ToReservaEntity)
    requires forall i :: 0 <= i < |snapshot| && snapshot[i].Some? ==>
      snapshot[i].value.localId == 0 && snapshot[i].value.idUsuario == uid
    ensures forall i :: 0 <= i < |entities| ==> entities[i].localId == 0 && entities[i].idUsuario == uid
  {
    forall i | 0 <= i < |entities| ensures entities[i].localId == 0 && entities[i].idUsuario == uid {
      var k :| 0 <= k < |snapshot| && snapshot[k] == Some(lista[i]);
    }
  }
}
