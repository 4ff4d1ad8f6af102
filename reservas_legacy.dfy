/**
 * The older reservation view-model, screens/ReservasViewModel.kt: the user's reservations
 * sorted by calendar date and start time, a save that writes both indices, and a cancel.
 */
module ReservasLegacy {
  import opened Options
  import opened Text
  import opened Records
  import opened Clock
  import opened RemoteStore
  import opened ReservasVm
  import Seqs
  import Sorting

  /** The comparator's start time can be read: text of two ":"-parts must hold two integers (`toInt` throws otherwise). */
  predicate StartReadable(s: string)
  {
    var parts := Split(s, ":");
    |parts| == 2 ==> ToIntOrNull(parts[0]).Some? && ToIntOrNull(parts[1]).Some?
  }

  /**
   * The `thenBy` key: hours times 60 plus minutes, in 32-bit `Int` arithmetic, for text of
   * two ":"-parts; 0 for any other text.
   */
  function StartMinutes(s: string): (m: int)
    requires StartReadable(s)
    ensures IntMin <= m <= IntMax
    ensures |Split(s, ":")| != 2 ==> m == 0
  {
    var parts := Split(s, ":");
    if |parts| == 2 then Wrap32(Wrap32(ToIntOrNull(parts[0]).value * 60) + ToIntOrNull(parts[1]).value) else 0
  }

  /** Read from a well-formed HH:mm text, the key is the time of day `TimeOf` reads. */
  lemma StartMinutesOfHHmm(s: string)
    requires IsHHmm(s)
    ensures StartReadable(s) && StartMinutes(s) == TimeOf(s)
  {
    var hh, mm := s[..2], s[3..];
    assert s == hh + ":" + mm;
    assert Lacks(hh, ':') && Lacks(mm, ':');
    SplitFirst(hh, ":", mm);
    SplitWhole(mm, ":");
    assert Split(s, ":") == [hh, mm];
    TwoDigits(hh);
    TwoDigits(mm);
  }

  lemma TwoDigits(s: string)
    requires |s| == 2 && IsDigit(s[0]) && IsDigit(s[1])
    ensures ToIntOrNull(s) == Some(DigitValue(s[0]) * 10 + DigitValue(s[1]))
  {
    assert AllDigits(s) && AllDigits(s[..1]);
    assert s[..1][..0] == [] && s[..1][0] == s[0] && s[..|s| - 1] == s[..1];
    assert DigitsValue(s[..1]) == DigitValue(s[0]);
    assert DigitsValue(s) == DigitValue(s[0]) * 10 + DigitValue(s[1]);
  }

  /** Every HH:mm text can be read by the comparator. */
  lemma HHmmReadable(s: string)
    ensures IsHHmm(s) ==> StartReadable(s)
  {
    if IsHHmm(s) {
      StartMinutesOfHHmm(s);
    }
  }

  /**
   * A record the comparator can order without throwing: its date parses and its start
   * time reads. Every record the screens build, with a printed date and start, is one.
   */
  predicate Sortable(r: MinhaReserva): (b: bool)
    ensures IsDisplayDate(r.data) && IsHHmm(r.horarioInicio) ==> b
  {
    HHmmReadable(r.horarioInicio);
    IsDisplayDate(r.data) && StartReadable(r.horarioInicio)
  }

  /** `compareBy { parse(data) }.thenBy { start minutes }` as one key: year, month, day, minutes. */
  function SortKey(r: MinhaReserva): (k: seq<int>)
    ensures |k| == 4 || (!Sortable(r) && k == [])
  {
    if Sortable(r) then
      var d := ParseDisplay(r.data);
      [d.year, d.month, d.day, StartMinutes(r.horarioInicio)]
    else []
  }

  /** The calendar order of two dates. */
  predicate DateLe(a: CalendarDate, b: CalendarDate)
  {
    a.year < b.year || (a.year == b.year && (a.month < b.month || (a.month == b.month && a.day <= b.day)))
  }

  /** Equal four-element keys, or the first strictly smaller at its first difference. */
  lemma Lex4(a: seq<int>, b: seq<int>)
    requires |a| == 4 && |b| == 4 && Sorting.LexLe(a, b)
    ensures a[0] < b[0] || (a[0] == b[0] && (a[1] < b[1] || (a[1] == b[1] && (a[2] < b[2] || (a[2] == b[2] && a[3] <= b[3])))))
  {
    if a[0] == b[0] {
      assert Sorting.LexLe(a[1..], b[1..]);
      assert a[1..][1..] == a[2..] && b[1..][1..] == b[2..];
      if a[1] == b[1] {
        assert Sorting.LexLe(a[2..], b[2..]);
        assert a[2..][1..] == a[3..] && b[2..][1..] == b[3..];
        if a[2] == b[2] {
          assert Sorting.LexLe(a[3..], b[3..]);
        }
      }
    }
  }

  /** Every record's date parses and its start time reads. */
  predicate Readable(s: seq<MinhaReserva>)
  {
    forall k :: 0 <= k < |s| ==> IsDisplayDate(s[k].data) && StartReadable(s[k].horarioInicio)
  }

  /** Dates never go back along the list, and on one date start times never go back. */
  predicate Chronological(s: seq<MinhaReserva>)
    requires Readable(s)
  {
    forall i, j :: 0 <= i <= j < |s| ==>
      && DateLe(ParseDisplay(s[i].data), ParseDisplay(s[j].data))
      && (ParseDisplay(s[i].data) == ParseDisplay(s[j].data) ==> StartMinutes(s[i].horarioInicio) <= StartMinutes(s[j].horarioInicio))
  }

  /** A readable list ordered by the key is in calendar order, then in start-time order. */
  lemma SortedChronologically(s: seq<MinhaReserva>)
    requires Sorting.SortedBy(s, SortKey) && Readable(s)
    ensures Chronological(s)
  {
    forall i, j | 0 <= i <= j < |s|
      ensures DateLe(ParseDisplay(s[i].data), ParseDisplay(s[j].data))
      ensures ParseDisplay(s[i].data) == ParseDisplay(s[j].data) ==> StartMinutes(s[i].horarioInicio) <= StartMinutes(s[j].horarioInicio)
    {
      Sorting.SortedByAllPairs(s, SortKey, i, j);
      Lex4(SortKey(s[i]), SortKey(s[j]));
    }
  }

  /** A permutation of the readable records of a snapshot is readable. */
  lemma PermutationReadable(snapshot: seq<Option<MinhaReserva>>, s: seq<MinhaReserva>)
    requires forall i :: 0 <= i < |snapshot| && snapshot[i].Some? ==> Sortable(snapshot[i].value)
    requires multiset(s) == multiset(Seqs.Somes(snapshot))
    ensures Readable(s)
  {
    forall k | 0 <= k < |s| ensures IsDisplayDate(s[k].data) && StartReadable(s[k].horarioInicio) {
      assert s[k] in multiset(Seqs.Somes(snapshot));
      var m :| 0 <= m < |snapshot| && snapshot[m] == Some(s[k]);
    }
  }

  /** The older save's update: the room path keeps the original text when the date does not parse. */
  function LegacySaveUpdates(uid: string, r: MinhaReserva): (u: Updates)
    ensures u.Keys == {UserPath(uid, r.id), RoomPath(r.idSala, LegacyFirebaseDate(r.data), r.id)} && |u.Keys| == 2
    ensures forall p :: p in u ==> u[p] == Some(Reserva(r))
  {
    var rp := RoomPath(r.idSala, LegacyFirebaseDate(r.data), r.id);
    assert UserPath(uid, r.id) != rp;
    map[UserPath(uid, r.id) := Some(Reserva(r)), rp := Some(Reserva(r))]
  }

  /** On a well-formed date both generations send the same save. */
  lemma SaveGenerationsAgree(uid: string, r: MinhaReserva)
    requires IsDisplayDate(r.data)
    ensures LegacySaveUpdates(uid, r) == SaveUpdates(uid, r)
  {
    assert LegacyFirebaseDate(r.data) == ToFirebaseDate(r.data);
  }

  /** The older cancel's update as written: only the user-index path is mapped to null. */
  function LegacyCancelUpdates(uid: string, r: MinhaReserva): (u: Updates)
    ensures u.Keys == {UserPath(uid, r.id)} && u[UserPath(uid, r.id)].None?
  {
    var paths := {UserPath(uid, r.id)};
    map p | p in paths :: None
  }

  /**
   * With the cancel as written, a saved and then cancelled reservation leaves the user's
   * index but stays in the room's index for its day, the node the slot screens read, so
   * its slot stays taken.
   */
  lemma LegacyCancelLeavesRoomEntry(store: Store, uid: string, r: MinhaReserva)
    ensures var after := Apply(Apply(store, LegacySaveUpdates(uid, r)), LegacyCancelUpdates(uid, r));
      && UserPath(uid, r.id) !in after
      && RoomPath(r.idSala, LegacyFirebaseDate(r.data), r.id) in after
      && after[RoomPath(r.idSala, LegacyFirebaseDate(r.data), r.id)] == Reserva(r)
    ensures IsDisplayDate(r.data) ==> !Paired(Apply(Apply(store, LegacySaveUpdates(uid, r)), LegacyCancelUpdates(uid, r)), uid, r)
  {
    var up, rp := UserPath(uid, r.id), RoomPath(r.idSala, LegacyFirebaseDate(r.data), r.id);
    ApplySetTwo(store, up, rp, Reserva(r));
    ApplyRemove(store[up := Reserva(r)][rp := Reserva(r)], {up});
    assert up != rp;
    if IsDisplayDate(r.data) {
      assert rp == RoomPathOf(r);
    }
  }

  /** The cancel that removes both paths the older save wrote. */
  function CancelBothUpdates(uid: string, r: MinhaReserva): (u: Updates)
    ensures u.Keys == {UserPath(uid, r.id), RoomPath(r.idSala, LegacyFirebaseDate(r.data), r.id)} && |u.Keys| == 2
    ensures forall p :: p in u ==> u[p].None?
  {
    var rp := RoomPath(r.idSala, LegacyFirebaseDate(r.data), r.id);
    assert UserPath(uid, r.id) != rp;
    var paths := {UserPath(uid, r.id), rp};
    map p | p in paths :: None
  }

  /**
   * Saving and then cancelling with both paths removed takes the reservation out of both
   * indices and nothing else; a reservation neither index held leaves the store as it was.
   */
  lemma CancelBothUndoesSave(store: Store, uid: string, r: MinhaReserva)
    ensures Apply(Apply(store, LegacySaveUpdates(uid, r)), CancelBothUpdates(uid, r)) ==
      store - {UserPath(uid, r.id), RoomPath(r.idSala, LegacyFirebaseDate(r.data), r.id)}
    ensures UserPath(uid, r.id) !in store && RoomPath(r.idSala, LegacyFirebaseDate(r.data), r.id) !in store ==>
      Apply(Apply(store, LegacySaveUpdates(uid, r)), CancelBothUpdates(uid, r)) == store
  {
    var up, rp := UserPath(uid, r.id), RoomPath(r.idSala, LegacyFirebaseDate(r.data), r.id);
    ApplySetTwo(store, up, rp, Reserva(r));
    ApplyRemove(store[up := Reserva(r)][rp := Reserva(r)], {up, rp});
    RemoveWritten(store, up, rp, Reserva(r));
    if up !in store && rp !in store {
      RemoveAbsent(store, up, rp);
    }
  }

  /** The view-model's published state; `userId` is the signed-in user when it was created. */
  class ReservasViewModel {
    const userId: Option<string>
    var minhasReservas: seq<MinhaReserva>

    constructor(userId: Option<string>)
      ensures this.userId == userId && minhasReservas == []
    {
      this.userId := userId;
      minhasReservas := [];
    }

    /**
     * The listener of the user's index, registered only when there is a user: the
     * readable records, collected one by one, are published in calendar order and then
     * by start time. The comparator throws on a record it cannot read, hence the
     * precondition.
     */
    method OnDataChange(snapshot: seq<Option<MinhaReserva>>)
      requires forall i :: 0 <= i < |snapshot| && snapshot[i].Some? ==> Sortable(snapshot[i].value)
      modifies this
      ensures userId.None? ==> minhasReservas == old(minhasReservas)
      ensures userId.Some? ==> multiset(minhasReservas) == multiset(Seqs.Somes(snapshot))
      ensures userId.Some? ==> Readable(minhasReservas) && Chronological(minhasReservas)
    {
      if userId.None? {
        return;
      }
      var lista: seq<MinhaReserva> := [];
      for i := 0 to |snapshot|
        invariant lista == Seqs.Somes(snapshot[..i])
      {
        Seqs.SomesAppend(snapshot[..i], snapshot[i]);
        assert snapshot[..i + 1] == snapshot[..i] + [snapshot[i]];
        if snapshot[i].Some? {
          lista := lista + [snapshot[i].value];
        }
      }
      assert snapshot[..|snapshot|] == snapshot;
      var sorted := Sorting.SortBy(lista, SortKey);
      PermutationReadable(snapshot, sorted);
      SortedChronologically(sorted);
      minhasReservas := sorted;
    }

    /**
     * `cancelarReserva` as written: nothing without a user; otherwise, when the update
     * succeeds, the user-index path is removed and the room index is left as it was.
     */
    method CancelarReserva(r: MinhaReserva, remoteOk: bool, db: Database)
      modifies db
      ensures db.store == if userId.Some? && remoteOk then Apply(old(db.store), LegacyCancelUpdates(userId.value, r)) else old(db.store)
      ensures userId.Some? && remoteOk ==> db.store == old(db.store) - {UserPath(userId.value, r.id)}
    {
      if userId.None? {
        return;
      }
      ApplyRemove(db.store, {UserPath(userId.value, r.id)});
      var _ := db.UpdateChildren(LegacyCancelUpdates(userId.value, r), remoteOk);
    }

    /** `salvarNovaReserva`: false without a user; otherwise the outcome is exactly the remote update's. */
    method SalvarNovaReserva(r: MinhaReserva, remoteOk: bool, db: Database) returns (ok: bool)
      modifies db
      ensures ok == (userId.Some? && remoteOk)
      ensures db.store == if userId.Some? && remoteOk then Apply(old(db.store), LegacySaveUpdates(userId.value, r)) else old(db.store)
    {
      if userId.None? {
        return false;
      }
      ok := db.UpdateChildren(LegacySaveUpdates(userId.value, r), remoteOk);
    }
  }
}
