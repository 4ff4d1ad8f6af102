/**
 * The slot logic shared, line for line, by both copies of HorarioSalaScreen.kt
 * (ui/screens/ and screens/): `generateTimeSlots`, the half-open overlap filter and the
 * new reservation built from the chosen slot.
 */
module Slots {
  import opened Options
  import opened Text
  import opened Clock
  import opened Records
  import Seqs

  /** A slot as minutes after today's midnight, the half-open interval [start, end). */
  datatype Slot = Slot(start: nat, end: nat)

  predicate NamedShift(turno: string)
  {
    turno == "Manhã" || turno == "Tarde" || turno == "Noite"
  }

  /** The hour window of a shift: Manhã 8-12, Tarde 13-17, Noite 18-22, any other name the whole day. */
  function ShiftWindow(turno: string): (w: (nat, nat))
    ensures w.0 < w.1 <= 24
    ensures NamedShift(turno) ==> 8 <= w.0 && w.1 == w.0 + 4 && w.1 <= 22
    ensures !NamedShift(turno) ==> w == (0, 24)
  {
    match turno
    case "Manhã" => (8, 12)
    case "Tarde" => (13, 17)
    case "Noite" => (18, 22)
    case _ => (0, 24)
  }

  /**
   * Tiling [from, to) left to right with `d`-minute slots; the first tile that would
   * run past `to` and everything after it is dropped.
   */
  function Tiles(from: nat, to: nat, d: nat): seq<Slot>
    requires d > 0
    decreases if from <= to then to - from else 0
  {
    if from + d <= to then [Slot(from, from + d)] + Tiles(from + d, to, d) else []
  }

  /** The slots of a shift for a room whose slot length is `d` minutes. */
  function WindowSlots(turno: string, d: nat): seq<Slot>
    requires d > 0
  {
    var w := ShiftWindow(turno);
    Tiles(w.0 * 60, w.1 * 60, d)
  }

  /** "HH:mm - HH:mm", the text form in which the screens list and pass slots. */
  function Label(s: Slot): string
  {
    FormatHHmm(s.start) + " - " + FormatHHmm(s.end)
  }

  function Labels(slots: seq<Slot>): (r: seq<string>)
    ensures |r| == |slots|
  {
    if slots == [] then [] else [Label(slots[0])] + Labels(slots[1..])
  }

  /** The i-th horario is the i-th slot's label. */
  lemma {:induction false} LabelsAt(slots: seq<Slot>)
    ensures forall i :: 0 <= i < |slots| ==> Labels(slots)[i] == Label(slots[i])
  {
    if slots != [] {
      LabelsAt(slots[1..]);
    }
  }

  /** What `generateTimeSlots(turno, d)` returns. */
  function SlotLabels(turno: string, d: nat): seq<string>
    requires d > 0
  {
    Labels(WindowSlots(turno, d))
  }

  /**
   * `generateTimeSlots`: a clock set to the window start is advanced by the slot length
   * while it is before the window end; a slot that would end after the window end stops
   * the loop. A non-positive length never advances the clock past the end, so the source
   * does not return for it.
   */
  method GenerateTimeSlots(turno: string, duracaoMinutos: int) returns (slots: seq<string>)
    requires duracaoMinutos > 0
    ensures slots == SlotLabels(turno, duracaoMinutos)
  {
    var window := ShiftWindow(turno);
    var startHour, endHour := window.0, window.1;
    var calendar: nat := startHour * 60;
    var endCalendar: nat := endHour * 60;
    ghost var all := Tiles(calendar, endCalendar, duracaoMinutos);
    ghost var done: seq<Slot> := [];
    slots := [];
    while calendar < endCalendar
      invariant slots == Labels(done)
      invariant done + Tiles(calendar, endCalendar, duracaoMinutos) == all
      decreases endCalendar - calendar
    {
      var before := calendar;
      calendar := calendar + duracaoMinutos;
      if calendar > endCalendar {
        assert Tiles(before, endCalendar, duracaoMinutos) == [];
        assert done + [] == done;
        break;
      }
      TilesStep(done, before, endCalendar, duracaoMinutos, all);
      LabelsAppend(done, Slot(before, calendar));
      done := done + [Slot(before, calendar)];
      var horario := FormatSlot(before, calendar);
      slots := slots + [horario];
    }
    assert Tiles(calendar, endCalendar, duracaoMinutos) == [];
    assert done + [] == done;
    assert all == WindowSlots(turno, duracaoMinutos);
  }

  /** The loop body's text: both clock readings formatted HH:mm, joined by " - ". */
  method FormatSlot(start: nat, end: nat) returns (horario: string)
    ensures horario == Label(Slot(start, end))
  {
    var startTime := FormatHHmm(start);
    var endTime := FormatHHmm(end);
    horario := startTime + " - " + endTime;
  }

  /** Moving the first remaining tile to the done part keeps the whole tiling. */
  lemma TilesStep(done: seq<Slot>, from: nat, to: nat, d: nat, all: seq<Slot>)
    requires d > 0 && from + d <= to
    requires done + Tiles(from, to, d) == all
    ensures (done + [Slot(from, from + d)]) + Tiles(from + d, to, d) == all
  {
    var rest := Tiles(from + d, to, d);
    assert Tiles(from, to, d) == [Slot(from, from + d)] + rest;
    assert done + ([Slot(from, from + d)] + rest) == (done + [Slot(from, from + d)]) + rest;
  }

  /** Labelling one more slot appends its horario. */
  lemma {:induction false} LabelsAppend(done: seq<Slot>, s: Slot)
    ensures Labels(done + [s]) == Labels(done) + [Label(s)]
  {
    if done != [] {
      LabelsAppend(done[1..], s);
      assert (done + [s])[1..] == done[1..] + [s];
    } else {
      assert [] + [s] == [s];
    }
  }

  /** Every tile is `d` long and inside the window; they start at `from` and each starts where the previous ends. */
  lemma {:induction false} TilesShape(from: nat, to: nat, d: nat)
    requires d > 0
    ensures forall i :: 0 <= i < |Tiles(from, to, d)| ==>
      Tiles(from, to, d)[i].end == Tiles(from, to, d)[i].start + d &&
      from <= Tiles(from, to, d)[i].start && Tiles(from, to, d)[i].end <= to
    ensures |Tiles(from, to, d)| > 0 ==> Tiles(from, to, d)[0].start == from
    ensures (forall i :: 0 < i < |Tiles(from, to, d)| ==> Tiles(from, to, d)[i].start == Tiles(from, to, d)[i - 1].end)
    decreases if from <= to then to - from else 0
  {
    if from + d <= to {
      TilesShape(from + d, to, d);
      var rest := Tiles(from + d, to, d);
      var r := Tiles(from, to, d);
      assert r == [Slot(from, from + d)] + rest;
      forall i | 0 < i < |r| ensures r[i].start == r[i - 1].end {
        if i > 1 {
          assert r[i] == rest[i - 1] && r[i - 1] == rest[i - 2];
        }
      }
    }
  }

  /** The i-th tile is [from + i*d, from + (i+1)*d). */
  lemma {:induction false} TilesAt(from: nat, to: nat, d: nat)
    requires d > 0
    ensures (forall i :: 0 <= i < |Tiles(from, to, d)| ==> Tiles(from, to, d)[i] == Slot(from + i * d, from + i * d + d))
    decreases if from <= to then to - from else 0
  {
    if from + d <= to {
      TilesAt(from + d, to, d);
      var rest := Tiles(from + d, to, d);
      var r := Tiles(from, to, d);
      forall i | 0 < i < |r| ensures r[i] == Slot(from + i * d, from + i * d + d) {
        assert r[i] == rest[i - 1];
        assert (from + d) + (i - 1) * d == from + i * d;
      }
    }
  }

  /** The tile count n is the one with n*d <= to - from < (n+1)*d. */
  lemma {:induction false} TilesFit(from: nat, to: nat, d: nat)
    requires d > 0 && from <= to
    ensures |Tiles(from, to, d)| * d <= to - from < (|Tiles(from, to, d)| + 1) * d
    decreases if from <= to then to - from else 0
  {
    if from + d <= to {
      TilesFit(from + d, to, d);
      var n := |Tiles(from + d, to, d)|;
      assert |Tiles(from, to, d)| == n + 1;
      assert (n + 1) * d == n * d + d;
      assert (n + 2) * d == (n + 1) * d + d;
    }
  }

  /** There are exactly floor((to - from) / d) tiles; none when `d` exceeds the window. */
  lemma TilesCount(from: nat, to: nat, d: nat)
    requires d > 0 && from <= to
    ensures |Tiles(from, to, d)| == (to - from) / d
  {
    TilesFit(from, to, d);
    FloorUnique(to - from, d, |Tiles(from, to, d)|);
  }

  /** Floor division is the only n with n*d <= x < (n+1)*d. */
  lemma FloorUnique(x: nat, d: nat, n: nat)
    requires d > 0 && n * d <= x < (n + 1) * d
    ensures n == x / d
  {
    var q := x / d;
    assert q * d <= x < q * d + d;
    if n < q {
      MulMono(n + 1, q, d);
    } else if n > q {
      MulMono(q + 1, n, d);
    }
  }

  lemma MulMono(a: nat, b: nat, d: nat)
    requires a <= b
    ensures a * d <= b * d
  {
  }

  /** When `d` divides the window, the last tile ends exactly at the window end (it is kept, not dropped). */
  lemma LastTileEndsAtWindowEnd(from: nat, to: nat, d: nat)
    requires d > 0 && from < to && (to - from) % d == 0
    ensures |Tiles(from, to, d)| > 0 && Tiles(from, to, d)[|Tiles(from, to, d)| - 1].end == to
  {
    TilesCount(from, to, d);
    TilesAt(from, to, d);
    var n := (to - from) / d;
    assert n * d == to - from;
    assert (n - 1) * d + d == n * d;
  }

  /** Manhã with 60-minute slots gives exactly the four hours from eight to noon. */
  lemma ManhaHourly()
    ensures WindowSlots("Manhã", 60) == [Slot(480, 540), Slot(540, 600), Slot(600, 660), Slot(660, 720)]
  {
    assert ShiftWindow("Manhã") == (8, 12);
    assert Tiles(720, 720, 60) == [];
    assert Tiles(660, 720, 60) == [Slot(660, 720)];
    assert Tiles(600, 720, 60) == [Slot(600, 660), Slot(660, 720)];
    assert Tiles(540, 720, 60) == [Slot(540, 600), Slot(600, 660), Slot(660, 720)];
  }

  // ---------------------------------------------------------------------------
  // Splitting a slot horario

  /** Kotlin's `val (inicio, fim) = slot.split(" - ")` needs at least two pieces. */
  predicate Splittable(horario: string)
  {
    |Split(horario, " - ")| >= 2
  }

  /** Splitting a generated horario on " - " gives back exactly its start and end texts. */
  lemma LabelSplit(s: Slot)
    ensures Split(Label(s), " - ") == [FormatHHmm(s.start), FormatHHmm(s.end)]
  {
    HHmmLacks(FormatHHmm(s.start));
    HHmmLacks(FormatHHmm(s.end));
    SplitFirst(FormatHHmm(s.start), " - ", FormatHHmm(s.end));
    SplitWhole(FormatHHmm(s.end), " - ");
  }

  predicate AllSplittable(labels: seq<string>)
  {
    forall i :: 0 <= i < |labels| ==> Splittable(labels[i])
  }

  /** Every generated horario can be destructured into a start and an end. */
  lemma LabelsSplittable(slots: seq<Slot>)
    ensures AllSplittable(Labels(slots))
  {
    LabelsAt(slots);
    forall i | 0 <= i < |slots| ensures Splittable(Labels(slots)[i]) {
      LabelSplit(slots[i]);
    }
  }

  // ---------------------------------------------------------------------------
  // The availability filter, as both screens write it

  /** The half-open overlap test `slotStart.before(resEnd) && slotEnd.after(resStart)`. */
  predicate Overlaps(slotStart: int, slotEnd: int, resStart: int, resEnd: int)
  {
    slotStart < resEnd && slotEnd > resStart
  }

  /** `reservas.map { it.horarioInicio to it.horarioFim }.toSet()`. */
  function OccupiedPairs(reservas: seq<MinhaReserva>): (occ: set<(string, string)>)
    ensures forall r :: r in reservas ==> (r.horarioInicio, r.horarioFim) in occ
    ensures forall p :: p in occ ==> exists r :: r in reservas && p == (r.horarioInicio, r.horarioFim)
  {
    set r | r in reservas :: (r.horarioInicio, r.horarioFim)
  }

  /** A slot horario is blocked when, read back as times, it overlaps some occupied pair read as times. */
  predicate Blocked(horario: string, occupied: set<(string, string)>)
    requires Splittable(horario)
  {
    var parts := Split(horario, " - ");
    exists p :: p in occupied && Overlaps(TimeOf(parts[0]), TimeOf(parts[1]), TimeOf(p.0), TimeOf(p.1))
  }

  /** `allSlots.filter { slot -> !occupiedSlots.any { ... overlap ... } }`. */
  function Available(labels: seq<string>, occupied: set<(string, string)>): (r: seq<string>)
    requires AllSplittable(labels)
    ensures |r| <= |labels|
  {
    if labels == [] then []
    else (if Blocked(labels[0], occupied) then [] else [labels[0]]) + Available(labels[1..], occupied)
  }

  /** A horario is listed exactly when it is one of the slots and no occupied pair overlaps it. */
  lemma {:induction false} AvailableMembers(labels: seq<string>, occupied: set<(string, string)>, x: string)
    requires AllSplittable(labels)
    ensures x in Available(labels, occupied) <==> x in labels && Splittable(x) && !Blocked(x, occupied)
  {
    if labels != [] {
      AvailableMembers(labels[1..], occupied, x);
      assert labels == [labels[0]] + labels[1..];
    }
  }

  /** The listed slots keep the generated order. */
  lemma {:induction false} AvailableIsSubsequence(labels: seq<string>, occupied: set<(string, string)>)
    requires AllSplittable(labels)
    ensures Seqs.Subsequence(Available(labels, occupied), labels)
  {
    if labels != [] {
      AvailableIsSubsequence(labels[1..], occupied);
      var rest := Available(labels[1..], occupied);
      if Blocked(labels[0], occupied) {
        assert Available(labels, occupied) == rest;
        Seqs.SubsequenceSkip(rest, labels);
      } else {
        assert Available(labels, occupied) == [labels[0]] + rest;
        assert ([labels[0]] + rest)[1..] == rest;
      }
    }
  }

  /** With nothing occupied every slot is listed. */
  lemma {:induction false} AvailableWhenFree(labels: seq<string>)
    requires AllSplittable(labels)
    ensures Available(labels, {}) == labels
  {
    if labels != [] {
      AvailableWhenFree(labels[1..]);
      assert labels == [labels[0]] + labels[1..];
    }
  }

  /** The occupied pairs, and so the filter, depend only on which reservations were fetched, not on their order or repetition. */
  lemma OccupiedPairsIgnoreOrder(a: seq<MinhaReserva>, b: seq<MinhaReserva>)
    requires forall r :: r in a <==> r in b
    ensures OccupiedPairs(a) == OccupiedPairs(b)
  {
  }

  /** Slots that lie within today, reading 24:00 as the end of the day. */
  predicate InDay(slots: seq<Slot>)
  {
    forall i :: 0 <= i < |slots| ==> slots[i].start < slots[i].end <= MinutesPerDay
  }

  lemma WindowSlotsInDay(turno: string, d: nat)
    requires d > 0
    ensures InDay(WindowSlots(turno, d))
  {
    var w := ShiftWindow(turno);
    TilesShape(w.0 * 60, w.1 * 60, d);
  }

  /** The as-written clash test of one slot, on minutes: its end is read modulo the day. */
  predicate Clashes(s: Slot, occupied: set<(string, string)>)
  {
    exists p :: p in occupied && Overlaps(s.start % MinutesPerDay, s.end % MinutesPerDay, TimeOf(p.0), TimeOf(p.1))
  }

  /** The slots the as-written filter keeps, on minutes. */
  function FreeSlots(slots: seq<Slot>, occupied: set<(string, string)>): seq<Slot>
  {
    if slots == [] then [] else (if Clashes(slots[0], occupied) then [] else [slots[0]]) + FreeSlots(slots[1..], occupied)
  }

  /** Filtering the generated text is filtering the slots and then printing them. */
  lemma {:induction false} AvailableLabels(slots: seq<Slot>, occupied: set<(string, string)>)
    requires InDay(slots)
    ensures AllSplittable(Labels(slots))
    ensures Available(Labels(slots), occupied) == Labels(FreeSlots(slots, occupied))
  {
    LabelsSplittable(slots);
    if slots != [] {
      AvailableLabels(slots[1..], occupied);
      BlockedByMinutes(slots[0], occupied);
      var labels := Labels(slots);
      assert labels[0] == Label(slots[0]) && labels[1..] == Labels(slots[1..]);
      if Clashes(slots[0], occupied) {
        assert FreeSlots(slots, occupied) == FreeSlots(slots[1..], occupied);
      } else {
        assert FreeSlots(slots, occupied) == [slots[0]] + FreeSlots(slots[1..], occupied);
        assert Labels([slots[0]] + FreeSlots(slots[1..], occupied))[1..] == Labels(FreeSlots(slots[1..], occupied));
      }
    }
  }

  /** With 09:00-10:00 taken, Manhã hourly leaves the three other hours. */
  lemma ManhaOneTaken()
    ensures AllSplittable(SlotLabels("Manhã", 60))
    ensures Available(SlotLabels("Manhã", 60), {("09:00", "10:00")})
         == Labels([Slot(480, 540), Slot(600, 660), Slot(660, 720)])
  {
    ManhaFree();
    WindowSlotsInDay("Manhã", 60);
    AvailableLabels(WindowSlots("Manhã", 60), {("09:00", "10:00")});
  }

  lemma ManhaFree()
    ensures FreeSlots(WindowSlots("Manhã", 60), {("09:00", "10:00")}) == [Slot(480, 540), Slot(600, 660), Slot(660, 720)]
  {
    var occ := {("09:00", "10:00")};
    ManhaHourly();
    ManhaClashes();
    assert FreeSlots([Slot(660, 720)], occ) == [Slot(660, 720)];
    assert FreeSlots([Slot(600, 660), Slot(660, 720)], occ) == [Slot(600, 660), Slot(660, 720)];
    assert FreeSlots([Slot(540, 600), Slot(600, 660), Slot(660, 720)], occ) == [Slot(600, 660), Slot(660, 720)];
  }

  lemma ManhaClashes()
    ensures Clashes(Slot(540, 600), {("09:00", "10:00")})
    ensures !Clashes(Slot(480, 540), {("09:00", "10:00")})
    ensures !Clashes(Slot(600, 660), {("09:00", "10:00")})
    ensures !Clashes(Slot(660, 720), {("09:00", "10:00")})
  {
    var occ := {("09:00", "10:00")};
    assert TimeOf("09:00") == 540 && TimeOf("10:00") == 600;
    assert ("09:00", "10:00") in occ;
    assert forall p :: p in occ ==> p == ("09:00", "10:00");
  }

  /** A generated horario is blocked exactly when its own minutes (24:00 read as midnight) overlap an occupied pair. */
  lemma BlockedByMinutes(s: Slot, occupied: set<(string, string)>)
    requires s.start <= MinutesPerDay && s.end <= MinutesPerDay
    ensures Splittable(Label(s))
    ensures Blocked(Label(s), occupied) <==>
      exists p :: p in occupied && Overlaps(s.start % MinutesPerDay, s.end % MinutesPerDay, TimeOf(p.0), TimeOf(p.1))
  {
    ReadSlot(s);
  }

  /** Reading a generated horario back: its halves parse to its own minutes, with 24:00 read as midnight. */
  lemma ReadSlot(s: Slot)
    requires s.start <= MinutesPerDay && s.end <= MinutesPerDay
    ensures Splittable(Label(s))
    ensures TimeOf(Split(Label(s), " - ")[0]) == s.start % MinutesPerDay
    ensures TimeOf(Split(Label(s), " - ")[1]) == s.end % MinutesPerDay
  {
    LabelSplit(s);
    TimeOfFormat(s.start);
    TimeOfFormat(s.end);
  }

  // ---------------------------------------------------------------------------
  // The last slot of the whole-day window

  /**
   * As written, the whole-day window's last slot ends at 24:00, prints as "00:00" and reads
   * back as midnight at the start of the day, so the overlap test can never hold for it:
   * it is listed whatever is booked, including a reservation of that very slot.
   */
  lemma {:induction false} AllDayLastSlotNeverBlocked(turno: string, d: nat, occupied: set<(string, string)>)
    requires !NamedShift(turno) && d > 0 && MinutesPerDay % d == 0
    ensures AllSplittable(SlotLabels(turno, d))
    ensures d <= MinutesPerDay && Label(Slot(MinutesPerDay - d, MinutesPerDay)) in Available(SlotLabels(turno, d), occupied)
  {
    var slots := WindowSlots(turno, d);
    LabelsSplittable(slots);
    LastTileEndsAtWindowEnd(0, MinutesPerDay, d);
    TilesShape(0, MinutesPerDay, d);
    var last := slots[|slots| - 1];
    assert last == Slot(MinutesPerDay - d, MinutesPerDay);
    LabelsAt(slots);
    assert Label(last) == SlotLabels(turno, d)[|slots| - 1];
    BlockedByMinutes(last, occupied);
    AvailableMembers(SlotLabels(turno, d), occupied, Label(last));
  }

  /** The reservation the screen stores for a slot holds the slot's own start and end texts. */
  lemma OwnPair(s: Slot)
    ensures Splittable(Label(s))
    ensures (Split(Label(s), " - ")[0], Split(Label(s), " - ")[1]) == (FormatHHmm(s.start), FormatHHmm(s.end))
  {
    LabelSplit(s);
  }

  /** Concretely: on a whole-day shift of hourly slots, booking 23:00-00:00 leaves 23:00-00:00 listed. */
  lemma AllDayDoubleBooking(turno: string)
    requires !NamedShift(turno)
    ensures AllSplittable(SlotLabels(turno, 60))
    ensures Label(Slot(1380, 1440)) in Available(SlotLabels(turno, 60), {(FormatHHmm(1380), FormatHHmm(1440))})
  {
    AllDayLastSlotNeverBlocked(turno, 60, {(FormatHHmm(1380), FormatHHmm(1440))});
  }

  // ---------------------------------------------------------------------------
  // The corrected filter

  /** Start and end of a pair in minutes; an end at or before the start is read as the next midnight's side of the day. */
  function ReadInterval(inicio: string, fim: string): (iv: (int, int))
    ensures iv.0 == TimeOf(inicio)
    ensures TimeOf(inicio) < TimeOf(fim) ==> iv.1 == TimeOf(fim)
    ensures TimeOf(fim) <= TimeOf(inicio) ==> iv.1 == TimeOf(fim) + MinutesPerDay
    ensures TimeOf(inicio) < MinutesPerDay ==> iv.0 < iv.1
  {
    var a := TimeOf(inicio);
    var b := TimeOf(fim);
    (a, if b <= a then b + MinutesPerDay else b)
  }

  predicate BlockedCorrected(horario: string, occupied: set<(string, string)>)
    requires Splittable(horario)
  {
    var parts := Split(horario, " - ");
    var s := ReadInterval(parts[0], parts[1]);
    exists p :: p in occupied && Overlaps(s.0, s.1, ReadInterval(p.0, p.1).0, ReadInterval(p.0, p.1).1)
  }

  /** The filter with slot and reservation ends read by `ReadInterval`. */
  function AvailableCorrected(labels: seq<string>, occupied: set<(string, string)>): (r: seq<string>)
    requires AllSplittable(labels)
    ensures |r| <= |labels|
  {
    if labels == [] then []
    else (if BlockedCorrected(labels[0], occupied) then [] else [labels[0]]) + AvailableCorrected(labels[1..], occupied)
  }

  lemma {:induction false} AvailableCorrectedMembers(labels: seq<string>, occupied: set<(string, string)>, x: string)
    requires AllSplittable(labels)
    ensures x in AvailableCorrected(labels, occupied) <==> x in labels && Splittable(x) && !BlockedCorrected(x, occupied)
  {
    if labels != [] {
      AvailableCorrectedMembers(labels[1..], occupied, x);
      assert labels == [labels[0]] + labels[1..];
    }
  }

  lemma {:induction false} AvailableCorrectedIsSubsequence(labels: seq<string>, occupied: set<(string, string)>)
    requires AllSplittable(labels)
    ensures Seqs.Subsequence(AvailableCorrected(labels, occupied), labels)
  {
    if labels != [] {
      AvailableCorrectedIsSubsequence(labels[1..], occupied);
      var rest := AvailableCorrected(labels[1..], occupied);
      if BlockedCorrected(labels[0], occupied) {
        assert AvailableCorrected(labels, occupied) == rest;
        Seqs.SubsequenceSkip(rest, labels);
      } else {
        assert AvailableCorrected(labels, occupied) == [labels[0]] + rest;
        assert ([labels[0]] + rest)[1..] == rest;
      }
    }
  }

  lemma {:induction false} AvailableCorrectedWhenFree(labels: seq<string>)
    requires AllSplittable(labels)
    ensures AvailableCorrected(labels, {}) == labels
  {
    if labels != [] {
      AvailableCorrectedWhenFree(labels[1..]);
      assert labels == [labels[0]] + labels[1..];
    }
  }

  /** With the corrected reading, a generated slot whose own pair is booked is never listed, on every shift. */
  lemma BookedSlotBlocked(turno: string, d: nat, i: nat, occupied: set<(string, string)>)
    requires d > 0 && i < |WindowSlots(turno, d)|
    requires (FormatHHmm(WindowSlots(turno, d)[i].start), FormatHHmm(WindowSlots(turno, d)[i].end)) in occupied
    ensures AllSplittable(SlotLabels(turno, d))
    ensures SlotLabels(turno, d)[i] !in AvailableCorrected(SlotLabels(turno, d), occupied)
  {
    var slots := WindowSlots(turno, d);
    var s := slots[i];
    LabelsSplittable(slots);
    LabelsAt(slots);
    WindowSlotsInDay(turno, d);
    ReadSlot(s);
    OwnPair(s);
    var parts := Split(Label(s), " - ");
    var iv := ReadInterval(parts[0], parts[1]);
    assert Overlaps(iv.0, iv.1, iv.0, iv.1);
    assert (parts[0], parts[1]) in occupied;
    assert BlockedCorrected(Label(s), occupied);
    AvailableCorrectedMembers(SlotLabels(turno, d), occupied, Label(s));
  }

  /**
   * The three named shifts end by 22:00, so there the filter as written already hides a
   * generated slot whose own pair is booked.
   */
  lemma BookedNamedSlotBlocked(turno: string, d: nat, i: nat, occupied: set<(string, string)>)
    requires NamedShift(turno) && d > 0 && i < |WindowSlots(turno, d)|
    requires (FormatHHmm(WindowSlots(turno, d)[i].start), FormatHHmm(WindowSlots(turno, d)[i].end)) in occupied
    ensures AllSplittable(SlotLabels(turno, d))
    ensures SlotLabels(turno, d)[i] !in Available(SlotLabels(turno, d), occupied)
  {
    var slots := WindowSlots(turno, d);
    var s := slots[i];
    var w := ShiftWindow(turno);
    TilesShape(w.0 * 60, w.1 * 60, d);
    LabelsSplittable(slots);
    LabelsAt(slots);
    assert s.start < s.end < MinutesPerDay;
    WithinDay(s.start);
    WithinDay(s.end);
    ReadSlot(s);
    OwnPair(s);
    var parts := Split(Label(s), " - ");
    assert Overlaps(TimeOf(parts[0]), TimeOf(parts[1]), TimeOf(parts[0]), TimeOf(parts[1]));
    assert (parts[0], parts[1]) in occupied;
    assert Blocked(Label(s), occupied);
    AvailableMembers(SlotLabels(turno, d), occupied, Label(s));
  }

  /** A horario whose end reads after its start. */
  predicate ReadsForward(horario: string)
  {
    Splittable(horario) && TimeOf(Split(horario, " - ")[0]) < TimeOf(Split(horario, " - ")[1])
  }

  lemma WithinDay(t: nat)
    requires t < MinutesPerDay
    ensures t % MinutesPerDay == t
  {
  }

  lemma SlotReadsForward(s: Slot)
    requires s.start < s.end < MinutesPerDay
    ensures ReadsForward(Label(s))
  {
    WithinDay(s.start);
    WithinDay(s.end);
    ReadSlot(s);
  }

  /** Where every slot and every reservation reads forward, the corrected filter is the written one. */
  lemma {:induction false} CorrectedAgrees(labels: seq<string>, occupied: set<(string, string)>)
    requires forall i :: 0 <= i < |labels| ==> ReadsForward(labels[i])
    requires forall p :: p in occupied ==> TimeOf(p.0) < TimeOf(p.1)
    ensures AllSplittable(labels)
    ensures AvailableCorrected(labels, occupied) == Available(labels, occupied)
  {
    if labels != [] {
      CorrectedAgrees(labels[1..], occupied);
      assert Blocked(labels[0], occupied) == BlockedCorrected(labels[0], occupied);
    }
  }

  /** The named shifts end by 22:00, so their slots read forward and the two filters agree there. */
  lemma NamedShiftsAgree(turno: string, d: nat, occupied: set<(string, string)>)
    requires NamedShift(turno) && d > 0
    requires forall p :: p in occupied ==> TimeOf(p.0) < TimeOf(p.1)
    ensures AllSplittable(SlotLabels(turno, d))
    ensures AvailableCorrected(SlotLabels(turno, d), occupied) == Available(SlotLabels(turno, d), occupied)
  {
    var slots := WindowSlots(turno, d);
    var w := ShiftWindow(turno);
    TilesShape(w.0 * 60, w.1 * 60, d);
    LabelsAt(slots);
    forall i | 0 <= i < |slots| ensures ReadsForward(SlotLabels(turno, d)[i]) {
      SlotReadsForward(slots[i]);
    }
    CorrectedAgrees(SlotLabels(turno, d), occupied);
  }

  // ---------------------------------------------------------------------------
  // The reservation built on confirmation

  /**
   * The confirm button: the chosen horario is destructured into start and end (the source
   * throws when it has fewer than two pieces, modelled as `None`) and a record is built
   * with the default `localId` 0 and the signed-in user, or "" when there is none.
   */
  function NovaReserva(id: string, sala: Sala, data: string, horario: string, userId: Option<string>): (r: Option<MinhaReserva>)
    ensures r.None? <==> !Splittable(horario)
    ensures r.Some? ==> r.value.localId == 0 && r.value.id == id && r.value.data == data
    ensures r.Some? ==> r.value.idSala == sala.id && r.value.nomeSala == sala.nome
    ensures r.Some? ==> var parts := Split(horario, " - "); |parts| >= 2 && r.value.horarioInicio == parts[0] && r.value.horarioFim == parts[1]
    ensures r.Some? && |Split(horario, " - ")| == 2 ==> r.value.horarioInicio + " - " + r.value.horarioFim == horario
    ensures r.Some? ==> r.value.idUsuario == (if userId.Some? then userId.value else "")
  {
    var parts := Split(horario, " - ");
    SplitJoin(horario, " - ");
    if |parts| < 2 then None
    else Some(MinhaReserva(0, id, sala.id, sala.nome, data, parts[0], parts[1], userId.GetOr("")))
  }

  /** Confirming a generated slot books exactly that slot's start and end. */
  lemma NovaReservaFromSlot(id: string, sala: Sala, data: string, s: Slot, userId: Option<string>)
    ensures NovaReserva(id, sala, data, Label(s), userId).Some?
    ensures NovaReserva(id, sala, data, Label(s), userId).value.horarioInicio == FormatHHmm(s.start)
    ensures NovaReserva(id, sala, data, Label(s), userId).value.horarioFim == FormatHHmm(s.end)
  {
    LabelSplit(s);
  }
}
