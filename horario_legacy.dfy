/**
 * The older slot screen, screens/HorarioSalaScreen.kt. Unlike the newer one it keeps its
 * lists in state that a callback overwrites: the texts of the occupied pairs, used to flag
 * a listed slot as taken, and the available slots.
 */
module HorarioLegacy {
  import opened Options
  import opened Text
  import opened Records
  import opened Clock
  import opened Slots
  import Seqs

  function Pair(r: MinhaReserva): (string, string) { (r.horarioInicio, r.horarioFim) }

  /** `reservas.map { it.horarioInicio to it.horarioFim }.toSet()` in iteration order. */
  function OccupiedSlots(reservas: seq<MinhaReserva>): (ps: seq<(string, string)>)
    ensures Seqs.Distinct(ps)
    ensures forall p :: p in ps <==> p in OccupiedPairs(reservas)
  {
    var pairs := Seqs.Map(reservas, Pair);
    var ps := Seqs.Dedup(pairs);
    assert forall p :: p in ps ==> p in OccupiedPairs(reservas) by {
      forall p | p in ps ensures p in OccupiedPairs(reservas) {
        var i :| 0 <= i < |ps| && ps[i] == p;
        var k :| 0 <= k < |pairs| && pairs[k] == p;
        assert reservas[k] in reservas;
      }
    }
    assert forall p :: p in OccupiedPairs(reservas) ==> p in ps by {
      forall p | p in OccupiedPairs(reservas) ensures p in ps {
        var r :| r in reservas && p == (r.horarioInicio, r.horarioFim);
        var k :| 0 <= k < |reservas| && reservas[k] == r;
        assert pairs[k] == p;
      }
    }
    ps
  }

  function JoinPair(p: (string, string)): string { p.0 + " - " + p.1 }

  /**
   * `horariosOcupados`: one "inicio - fim" text per distinct pair of the fetched
   * reservations; a text is there exactly when some reservation's halves join to it.
   */
  function HorariosOcupados(reservas: seq<MinhaReserva>): (hs: seq<string>)
    ensures |hs| == |OccupiedSlots(reservas)|
    ensures forall h :: h in hs <==> exists r :: r in reservas && h == r.horarioInicio + " - " + r.horarioFim
  {
    var ps := OccupiedSlots(reservas);
    var hs := Seqs.Map(ps, JoinPair);
    assert forall h :: h in hs ==> exists r :: r in reservas && h == r.horarioInicio + " - " + r.horarioFim by {
      forall h | h in hs ensures exists r :: r in reservas && h == r.horarioInicio + " - " + r.horarioFim {
        var i :| 0 <= i < |hs| && hs[i] == h;
        assert ps[i] in OccupiedPairs(reservas);
      }
    }
    assert forall r :: r in reservas ==> r.horarioInicio + " - " + r.horarioFim in hs by {
      forall r | r in reservas ensures r.horarioInicio + " - " + r.horarioFim in hs {
        assert Pair(r) in ps;
        var i :| 0 <= i < |ps| && ps[i] == Pair(r);
        assert hs[i] == JoinPair(Pair(r));
      }
    }
    hs
  }

  /** Two reservations with the same halves contribute one occupied text. */
  lemma OcupadosCollapseDuplicates(reservas: seq<MinhaReserva>, r: MinhaReserva)
    requires r in reservas
    ensures HorariosOcupados(reservas + [r]) == HorariosOcupados(reservas)
  {
    var pairs := Seqs.Map(reservas, Pair);
    var more := Seqs.Map(reservas + [r], Pair);
    assert more == pairs + [Pair(r)];
    assert more[..|more| - 1] == pairs;
    var k :| 0 <= k < |reservas| && reservas[k] == r;
    assert pairs[k] == Pair(r);
    assert Pair(r) in Seqs.Dedup(pairs);
  }

  /** The slots the callback lists: the generated ones no occupied pair blocks, with the source's test on the times as printed. */
  function Disponiveis(sala: Sala, turno: string, reservas: seq<MinhaReserva>): (r: seq<string>)
    requires sala.duracaoPadraoMinutos > 0
    ensures Seqs.Subsequence(r, SlotLabels(turno, sala.duracaoPadraoMinutos))
  {
    var labels := SlotLabels(turno, sala.duracaoPadraoMinutos);
    LabelsSplittable(WindowSlots(turno, sala.duracaoPadraoMinutos));
    AvailableIsSubsequence(labels, OccupiedPairs(reservas));
    Available(labels, OccupiedPairs(reservas))
  }

  /**
   * On the three named shifts, the only ones the room screen opens this screen with, no
   * listed slot is among the occupied texts, whatever the slot length.
   */
  lemma {:induction false} ListedNeverOcupado(sala: Sala, turno: string, reservas: seq<MinhaReserva>, h: string)
    requires sala.duracaoPadraoMinutos > 0 && NamedShift(turno)
    requires h in Disponiveis(sala, turno, reservas)
    ensures h !in HorariosOcupados(reservas)
  {
    var d := sala.duracaoPadraoMinutos;
    var slots := WindowSlots(turno, d);
    var occ := OccupiedPairs(reservas);
    LabelsSplittable(slots);
    LabelsAt(slots);
    AvailableMembers(SlotLabels(turno, d), occ, h);
    var i :| 0 <= i < |slots| && SlotLabels(turno, d)[i] == h;
    var s := slots[i];
    if h in HorariosOcupados(reservas) {
      var r :| r in reservas && h == r.horarioInicio + " - " + r.horarioFim;
      HHmmLacks(FormatHHmm(s.start));
      HHmmLacks(FormatHHmm(s.end));
      SeparatorUnique(r.horarioInicio, r.horarioFim, FormatHHmm(s.start), FormatHHmm(s.end));
      assert (FormatHHmm(s.start), FormatHHmm(s.end)) in occ;
      BookedNamedSlotBlocked(turno, d, i, occ);
      assert false;
    }
  }

  /**
   * With the filter as the source writes it, the whole-day list can hold a slot that is
   * also among the occupied texts: a reservation for 23:00 - 00:00 leaves that slot
   * listed, and the screen shows it flagged as taken.
   */
  lemma AsWrittenListsFlaggedSlot(turno: string, r: MinhaReserva)
    requires !NamedShift(turno)
    requires r.horarioInicio == FormatHHmm(1380) && r.horarioFim == FormatHHmm(1440)
    ensures AllSplittable(SlotLabels(turno, 60))
    ensures Label(Slot(1380, 1440)) in Available(SlotLabels(turno, 60), OccupiedPairs([r]))
    ensures Label(Slot(1380, 1440)) in HorariosOcupados([r])
  {
    assert OccupiedPairs([r]) == {(FormatHHmm(1380), FormatHHmm(1440))};
    AllDayDoubleBooking(turno);
    assert r in [r];
  }

  /** The screen's state: the lists the callback sets and the slot chosen for confirmation. */
  class HorarioSalaScreen {
    /** The day the screen was opened, and the shift it was opened for. */
    const hoje: CalendarDate
    const turno: string
    var horariosDisponiveis: seq<string>
    var horariosOcupados: seq<string>
    var horarioSelecionado: Option<string>
    var showConfirmDialog: bool

    constructor(hoje: CalendarDate, turno: string)
      requires Printable(hoje)
      ensures this.hoje == hoje && this.turno == turno
      ensures horariosDisponiveis == [] && horariosOcupados == []
      ensures horarioSelecionado == None && !showConfirmDialog
    {
      this.hoje := hoje;
      this.turno := turno;
      horariosDisponiveis := [];
      horariosOcupados := [];
      horarioSelecionado := None;
      showConfirmDialog := false;
    }

    /** The date of the remote query, yyyy-MM-dd. */
    function DataFirebase(): (s: string)
      requires Printable(hoje)
      ensures |s| == 10
    {
      FormatFirebase(hoje)
    }

    /** The date the new reservation stores, dd/MM/yyyy. */
    function DataExibicao(): (s: string)
      requires Printable(hoje)
      ensures |s| == 10
    {
      FormatDisplay(hoje)
    }

    /** `isOcupado` of a listed slot. */
    predicate IsOcupado(h: string)
      reads this
    {
      h in horariosOcupados
    }

    /**
     * The callback of the room/date query: both lists are overwritten from the fetched
     * reservations; on a named shift no listed slot is then flagged as taken.
     */
    method OnReservasFetched(sala: Sala, reservas: seq<MinhaReserva>)
      requires sala.duracaoPadraoMinutos > 0
      modifies this
      ensures horariosOcupados == HorariosOcupados(reservas)
      ensures horariosDisponiveis == Disponiveis(sala, turno, reservas)
      ensures horarioSelecionado == old(horarioSelecionado) && showConfirmDialog == old(showConfirmDialog)
      ensures NamedShift(turno) ==> forall h :: h in horariosDisponiveis ==> !IsOcupado(h)
    {
      var occupiedSlots := OccupiedPairs(reservas);
      horariosOcupados := HorariosOcupados(reservas);
      var allSlots := GenerateTimeSlots(turno, sala.duracaoPadraoMinutos);
      LabelsSplittable(WindowSlots(turno, sala.duracaoPadraoMinutos));
      horariosDisponiveis := Available(allSlots, occupiedSlots);
      if NamedShift(turno) {
        forall h | h in horariosDisponiveis ensures !IsOcupado(h) {
          ListedNeverOcupado(sala, turno, reservas, h);
        }
      }
    }

    /** A click on a slot that is not flagged opens the confirmation; a flagged one changes nothing. */
    method OnSlotClicked(h: string)
      modifies this
      ensures horariosDisponiveis == old(horariosDisponiveis) && horariosOcupados == old(horariosOcupados)
      ensures old(IsOcupado(h)) ==> horarioSelecionado == old(horarioSelecionado) && showConfirmDialog == old(showConfirmDialog)
      ensures !old(IsOcupado(h)) ==> horarioSelecionado == Some(h) && showConfirmDialog
    {
      if !IsOcupado(h) {
        horarioSelecionado := Some(h);
        showConfirmDialog := true;
      }
    }

    /** Dismissing the dialog clears the selection. */
    method OnDismiss()
      modifies this
      ensures horariosDisponiveis == old(horariosDisponiveis) && horariosOcupados == old(horariosOcupados)
      ensures horarioSelecionado == None && !showConfirmDialog
    {
      showConfirmDialog := false;
      horarioSelecionado := None;
    }

    /**
     * The confirm button: the reservation built from the selected slot, dated dd/MM/yyyy
     * (or none when the slot text does not split in two), after which the dialog closes.
     */
    method OnConfirm(id: string, sala: Sala, userId: Option<string>) returns (nova: Option<MinhaReserva>)
      requires Printable(hoje) && showConfirmDialog && horarioSelecionado.Some?
      modifies this
      ensures nova == NovaReserva(id, sala, DataExibicao(), old(horarioSelecionado).value, userId)
      ensures horariosDisponiveis == old(horariosDisponiveis) && horariosOcupados == old(horariosOcupados)
      ensures horarioSelecionado == None && !showConfirmDialog
    {
      nova := NovaReserva(id, sala, DataExibicao(), horarioSelecionado.value, userId);
      showConfirmDialog := false;
      horarioSelecionado := None;
    }
  }

  /** The query date and the stored date are the same day: converting the stored one gives the query's. */
  lemma QueryDateMatchesStoredDate(hoje: CalendarDate)
    requires Printable(hoje)
    ensures LegacyFirebaseDate(FormatDisplay(hoje)) == FormatFirebase(hoje)
    ensures FormatDisplay(hoje) != FormatFirebase(hoje)
  {
    ConvertDisplayDate(hoje);
    assert FormatDisplay(hoje)[2] == '/';
    assert FormatFirebase(hoje)[4] == '-';
    var y := Pad4(hoje.year);
    assert FormatFirebase(hoje)[2] == y[2];
    assert IsDigit(y[2]);
  }
}
