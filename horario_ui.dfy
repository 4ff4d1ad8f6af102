/**
 * The slot list of the newer screen, ui/screens/HorarioSalaScreen.kt: the room's slots
 * for the chosen shift with the ones that clash with a reservation of the room and day
 * removed, and the reservation built from the slot the user confirms.
 */
module HorarioUi {
  import opened Options
  import opened Text
  import opened Records
  import opened Clock
  import opened Slots
  import Seqs

  /**
   * `horariosDisponiveis`: empty while the room has not loaded; otherwise the generated
   * slots that no pair of the room's reservations blocks, with the source's test on the
   * times as printed.
   */
  function HorariosDisponiveis(sala: Option<Sala>, reservas: seq<MinhaReserva>, turno: string): (r: seq<string>)
    requires sala.Some? ==> sala.value.duracaoPadraoMinutos > 0
    ensures sala.None? ==> r == []
    ensures sala.Some? ==> Seqs.Subsequence(r, SlotLabels(turno, sala.value.duracaoPadraoMinutos))
  {
    if sala.None? then []
    else
      var labels := SlotLabels(turno, sala.value.duracaoPadraoMinutos);
      LabelsSplittable(WindowSlots(turno, sala.value.duracaoPadraoMinutos));
      AvailableIsSubsequence(labels, OccupiedPairs(reservas));
      Available(labels, OccupiedPairs(reservas))
  }

  /** The slot `horario` and the reservation `res` overlap, all four times read as printed. */
  predicate ClashesWith(horario: string, res: MinhaReserva)
    requires Splittable(horario)
  {
    var parts := Split(horario, " - ");
    Overlaps(TimeOf(parts[0]), TimeOf(parts[1]), TimeOf(res.horarioInicio), TimeOf(res.horarioFim))
  }

  /** A slot is listed exactly when it is one of the room's slots for the shift and no reservation clashes with it. */
  lemma HorariosMembers(sala: Sala, reservas: seq<MinhaReserva>, turno: string, x: string)
    requires sala.duracaoPadraoMinutos > 0
    ensures x in HorariosDisponiveis(Some(sala), reservas, turno) <==>
      x in SlotLabels(turno, sala.duracaoPadraoMinutos) && Splittable(x) &&
      forall res :: res in reservas ==> !ClashesWith(x, res)
  {
    var d := sala.duracaoPadraoMinutos;
    var occ := OccupiedPairs(reservas);
    LabelsSplittable(WindowSlots(turno, d));
    AvailableMembers(SlotLabels(turno, d), occ, x);
    if Splittable(x) {
      if Blocked(x, occ) {
        var parts := Split(x, " - ");
        var p :| p in occ && Overlaps(TimeOf(parts[0]), TimeOf(parts[1]), TimeOf(p.0), TimeOf(p.1));
        var res :| res in reservas && p == (res.horarioInicio, res.horarioFim);
        assert ClashesWith(x, res);
      } else {
        forall res | res in reservas ensures !ClashesWith(x, res) {
          assert (res.horarioInicio, res.horarioFim) in occ;
        }
      }
    }
  }

  /** With no reservation every generated slot is listed, in generated order. */
  lemma HorariosWhenFree(sala: Sala, turno: string)
    requires sala.duracaoPadraoMinutos > 0
    ensures HorariosDisponiveis(Some(sala), [], turno) == SlotLabels(turno, sala.duracaoPadraoMinutos)
  {
    LabelsSplittable(WindowSlots(turno, sala.duracaoPadraoMinutos));
    assert OccupiedPairs([]) == {};
    AvailableWhenFree(SlotLabels(turno, sala.duracaoPadraoMinutos));
  }

  /** The list depends only on which reservations there are, not on their order or repetitions. */
  lemma HorariosIgnoreOrder(sala: Option<Sala>, a: seq<MinhaReserva>, b: seq<MinhaReserva>, turno: string)
    requires sala.Some? ==> sala.value.duracaoPadraoMinutos > 0
    requires forall r :: r in a <==> r in b
    ensures HorariosDisponiveis(sala, a, turno) == HorariosDisponiveis(sala, b, turno)
  {
    OccupiedPairsIgnoreOrder(a, b);
  }

  /**
   * On the three named shifts, with reservations whose end reads after their start, the
   * list is the one the corrected reading of the times gives.
   */
  lemma HorariosMatchCorrected(sala: Sala, reservas: seq<MinhaReserva>, turno: string)
    requires sala.duracaoPadraoMinutos > 0 && NamedShift(turno)
    requires forall r :: r in reservas ==> TimeOf(r.horarioInicio) < TimeOf(r.horarioFim)
    ensures AllSplittable(SlotLabels(turno, sala.duracaoPadraoMinutos))
    ensures HorariosDisponiveis(Some(sala), reservas, turno) ==
      AvailableCorrected(SlotLabels(turno, sala.duracaoPadraoMinutos), OccupiedPairs(reservas))
  {
    NamedShiftsAgree(turno, sala.duracaoPadraoMinutos, OccupiedPairs(reservas));
  }

  /**
   * On a shift other than the three named ones, a room with hourly slots still lists
   * 23:00 - 00:00 when that very slot is booked.
   */
  lemma HorariosAllDayDoubleBooking(sala: Sala, turno: string, r: MinhaReserva)
    requires sala.duracaoPadraoMinutos == 60 && !NamedShift(turno)
    requires r.horarioInicio == FormatHHmm(1380) && r.horarioFim == FormatHHmm(1440)
    ensures Label(Slot(1380, 1440)) in HorariosDisponiveis(Some(sala), [r], turno)
  {
    assert OccupiedPairs([r]) == {(FormatHHmm(1380), FormatHHmm(1440))};
    AllDayDoubleBooking(turno);
  }

  /** Every listed slot is the label of one generated slot. */
  lemma ListedIsSlot(sala: Sala, reservas: seq<MinhaReserva>, turno: string, x: string) returns (i: nat)
    requires sala.duracaoPadraoMinutos > 0
    requires x in HorariosDisponiveis(Some(sala), reservas, turno)
    ensures i < |WindowSlots(turno, sala.duracaoPadraoMinutos)|
    ensures x == Label(WindowSlots(turno, sala.duracaoPadraoMinutos)[i])
  {
    var d := sala.duracaoPadraoMinutos;
    HorariosMembers(sala, reservas, turno, x);
    var slots := WindowSlots(turno, d);
    LabelsAt(slots);
    var k :| 0 <= k < |Labels(slots)| && Labels(slots)[k] == x;
    i := k;
  }

  /**
   * Confirming a listed slot yields a reservation of the loaded room whose start and end
   * are the slot's two halves and whose text joins back to the slot.
   */
  lemma ConfirmListedSlot(id: string, sala: Sala, reservas: seq<MinhaReserva>, turno: string,
                          hoje: CalendarDate, x: string, userId: Option<string>)
    requires sala.duracaoPadraoMinutos > 0 && Printable(hoje)
    requires x in HorariosDisponiveis(Some(sala), reservas, turno)
    ensures NovaReserva(id, sala, FormatDisplay(hoje), x, userId).Some?
    ensures NovaReserva(id, sala, FormatDisplay(hoje), x, userId).value.idSala == sala.id
    ensures NovaReserva(id, sala, FormatDisplay(hoje), x, userId).value.data == FormatDisplay(hoje)
    ensures NovaReserva(id, sala, FormatDisplay(hoje), x, userId).value.horarioInicio + " - " +
            NovaReserva(id, sala, FormatDisplay(hoje), x, userId).value.horarioFim == x
  {
    var i := ListedIsSlot(sala, reservas, turno, x);
    var s := WindowSlots(turno, sala.duracaoPadraoMinutos)[i];
    LabelSplit(s);
    NovaReservaFromSlot(id, sala, FormatDisplay(hoje), s, userId);
  }

  /**
   * On the three named shifts, the only ones the room screens open this screen with, once
   * the reservation built from a listed slot is among the room's reservations, that slot
   * is no longer listed.
   */
  lemma BookingRemovesSlot(id: string, sala: Sala, reservas: seq<MinhaReserva>, turno: string,
                           data: string, x: string, userId: Option<string>)
    requires sala.duracaoPadraoMinutos > 0 && NamedShift(turno)
    requires x in HorariosDisponiveis(Some(sala), reservas, turno)
    ensures NovaReserva(id, sala, data, x, userId).Some?
    ensures x !in HorariosDisponiveis(Some(sala), reservas + [NovaReserva(id, sala, data, x, userId).value], turno)
  {
    var d := sala.duracaoPadraoMinutos;
    var i := ListedIsSlot(sala, reservas, turno, x);
    var s := WindowSlots(turno, d)[i];
    NovaReservaFromSlot(id, sala, data, s, userId);
    var res := NovaReserva(id, sala, data, x, userId).value;
    var after := reservas + [res];
    assert res in after;
    assert (FormatHHmm(s.start), FormatHHmm(s.end)) in OccupiedPairs(after);
    BookedNamedSlotBlocked(turno, d, i, OccupiedPairs(after));
    LabelsAt(WindowSlots(turno, d));
  }
}
