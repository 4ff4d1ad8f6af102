/**
 * The older room view-model, screens/SalasViewModel.kt: rooms listed with the number of
 * users already under today's reservation node, and a booking made by a transaction on
 * that node that refuses a second booking by the same user and a booking of a full room.
 */
module SalasLegacy {
  import opened Options
  import opened Text
  import opened Records
  import opened Clock
  import opened RemoteStore
  import Seqs
  import Sorting

  /** The room record under "salas/{turno}" (the older package's `SalaInfo`). */
  datatype SalaInfo = SalaInfo(nome: string, vagasMaximas: int, duracao: int)

  /** "reservas/{yyyy-MM-dd}/{turno}/{sala}": one child per user who booked the room. */
  function ReservasNode(hoje: string, turno: string, salaId: string): Path
  {
    ["reservas", hoje, turno, salaId]
  }

  /** "/usuarios_reservas/{uid}/{yyyy-MM-dd}/{turno}/{sala}". */
  function UserFlagPath(uid: string, hoje: string, turno: string, salaId: string): Path
  {
    ["usuarios_reservas", uid, hoje, turno, salaId]
  }

  /**
   * `doTransaction` on the node's children: abort (`None`) when the user is already there
   * or the room is full, otherwise add exactly the user.
   */
  function TransactionStep(children: set<string>, userId: string, vagasMaximas: int): (r: Option<set<string>>)
    ensures r.None? <==> userId in children || |children| >= vagasMaximas
    ensures r.Some? ==> userId !in children && r.value == children + {userId}
    ensures r.Some? ==> |r.value| == |children| + 1 <= vagasMaximas
  {
    if userId in children then None
    else if |children| >= vagasMaximas then None
    else Some(children + {userId})
  }

  /** Missing room info reads as capacity 0, and then every attempt aborts. */
  lemma NoInfoAlwaysAborts(children: set<string>, userId: string, info: Option<SalaInfo>)
    requires info.None?
    ensures TransactionStep(children, userId, if info.Some? then info.value.vagasMaximas else 0).None?
  {
  }

  /** The node's children after users attempt one after another, an aborted attempt leaving them as they were. */
  function Attempts(children: set<string>, users: seq<string>, vagasMaximas: int): set<string>
    decreases |users|
  {
    if users == [] then children
    else
      var step := TransactionStep(children, users[0], vagasMaximas);
      Attempts(if step.Some? then step.value else children, users[1..], vagasMaximas)
  }

  /** Attempts only add users, so a room within capacity stays within capacity. */
  lemma {:induction false} AttemptsWithinCapacity(children: set<string>, users: seq<string>, vagasMaximas: int)
    requires |children| <= vagasMaximas
    ensures children <= Attempts(children, users, vagasMaximas)
    ensures |Attempts(children, users, vagasMaximas)| <= vagasMaximas
    decreases |users|
  {
    if users != [] {
      var step := TransactionStep(children, users[0], vagasMaximas);
      AttemptsWithinCapacity(if step.Some? then step.value else children, users[1..], vagasMaximas);
    }
  }

  /** Distinct new users fill the room up to its capacity and no further. */
  lemma {:induction false} AttemptsFill(children: set<string>, users: seq<string>, vagasMaximas: int)
    requires |children| <= vagasMaximas
    requires Seqs.Distinct(users) && forall i :: 0 <= i < |users| ==> users[i] !in children
    ensures |Attempts(children, users, vagasMaximas)| ==
      if |children| + |users| <= vagasMaximas then |children| + |users| else vagasMaximas
    decreases |users|
  {
    if users != [] {
      var step := TransactionStep(children, users[0], vagasMaximas);
      var next := if step.Some? then step.value else children;
      assert forall i :: 0 <= i < |users[1..]| ==> users[1..][i] == users[i + 1] && users[i + 1] != users[0];
      AttemptsFill(next, users[1..], vagasMaximas);
    }
  }

  /** The store after a committed transaction on the node: the user's child is `true`. */
  lemma CommitAddsUser(store: Store, node: Path, userId: string, vagasMaximas: int)
    requires TransactionStep(Children(store, node), userId, vagasMaximas).Some?
    ensures Children(store[node + [userId] := Flag(true)], node) == TransactionStep(Children(store, node), userId, vagasMaximas).value
    ensures |Children(store[node + [userId] := Flag(true)], node)| <= vagasMaximas
  {
    ChildrenAdd(store, node, userId, Flag(true));
  }

  /** Why a booking failed: the transaction reported an error, it did not commit, or the user-index write failed. */
  datatype Failure = TransactionError | NotCommitted | UserIndexWriteFailed

  /** `Result<Unit>`. */
  datatype Resultado = Success | Fail(why: Failure)

  /** A listed room, with its occupancy read from the reservation node. */
  function Listed(store: Store, hoje: string, turno: string, entry: (string, SalaInfo)): Sala
  {
    Sala(entry.0, entry.1.nome, entry.1.vagasMaximas, |Children(store, ReservasNode(hoje, turno, entry.0))|, entry.1.duracao, [])
  }

  function IdKey(s: Sala): seq<int> { Codes(s.id) }

  /** `_salas`: every room with info, its `vagasOcupadas` the child count of its node, sorted by id. */
  function SalasListadas(infos: seq<(string, SalaInfo)>, store: Store, hoje: string, turno: string): (r: seq<Sala>)
    ensures Sorting.SortedBy(r, IdKey)
    ensures multiset(r) == multiset(Seqs.Map(infos, e => Listed(store, hoje, turno, e)))
    ensures forall i :: 0 <= i < |r| ==> r[i].vagasOcupadas == |Children(store, ReservasNode(hoje, turno, r[i].id))|
  {
    var listed := Seqs.Map(infos, e => Listed(store, hoje, turno, e));
    var r := Sorting.SortBy(listed, IdKey);
    assert forall i :: 0 <= i < |r| ==> r[i] in multiset(listed);
    r
  }

  /** The snapshot children with room info (`getValue` non-null), in order. */
  function WithInfo(children: seq<(string, Option<SalaInfo>)>): (r: seq<(string, SalaInfo)>)
  {
    if children == [] then []
    else (if children[0].1.Some? then [(children[0].0, children[0].1.value)] else []) + WithInfo(children[1..])
  }

  lemma {:induction false} WithInfoAppend(children: seq<(string, Option<SalaInfo>)>, c: (string, Option<SalaInfo>))
    ensures WithInfo(children + [c]) == WithInfo(children) + (if c.1.Some? then [(c.0, c.1.value)] else [])
  {
    if children != [] {
      assert (children + [c])[1..] == children[1..] + [c];
      WithInfoAppend(children[1..], c);
    }
  }

  /** The view-model's published state. */
  class SalasViewModel {
    var salas: seq<Sala>
    var reservationResult: Option<Resultado>

    constructor()
      ensures salas == [] && reservationResult == None
    {
      salas := [];
      reservationResult := None;
    }

    /**
     * `fetchSalas(turno)` once both snapshots have arrived: `salasInfoMap` is filled from
     * the rooms' children, then each room is listed with its node's child count.
     */
    method FetchSalas(turno: string, hoje: CalendarDate, children: seq<(string, Option<SalaInfo>)>, db: Database)
      requires Printable(hoje)
      modifies this
      ensures salas == SalasListadas(WithInfo(children), db.store, FormatFirebase(hoje), turno)
      ensures reservationResult == old(reservationResult)
    {
      var infos: seq<(string, SalaInfo)> := [];
      for i := 0 to |children|
        invariant infos == WithInfo(children[..i])
        invariant reservationResult == old(reservationResult)
      {
        WithInfoAppend(children[..i], children[i]);
        assert children[..i + 1] == children[..i] + [children[i]];
        if children[i].1.Some? {
          infos := infos + [(children[i].0, children[i].1.value)];
        }
      }
      assert children[..|children|] == children;
      salas := SalasListadas(infos, db.store, FormatFirebase(hoje), turno);
    }

    /**
     * `reservarSala(salaId, turno)`. With no signed-in user nothing happens; a failed read
     * of the room info has no listener, so nothing happens either. Otherwise the
     * transaction runs on today's node (`transactionError` stands for an error reported to
     * `onComplete`); a commit is followed by the user-index write, whose outcome is
     * `flagWriteOk`.
     */
    method ReservarSala(salaId: string, turno: string, userId: Option<string>, hoje: CalendarDate,
                        infoRead: bool, info: Option<SalaInfo>, transactionError: bool, flagWriteOk: bool, db: Database)
      requires Printable(hoje)
      modifies this, db
      ensures salas == old(salas)
      ensures userId.None? || !infoRead ==> db.store == old(db.store) && reservationResult == old(reservationResult)
      ensures userId.Some? && infoRead ==>
        var node := ReservasNode(FormatFirebase(hoje), turno, salaId);
        var vagas := if info.Some? then info.value.vagasMaximas else 0;
        var step := TransactionStep(Children(old(db.store), node), userId.value, vagas);
        var flag := UserFlagPath(userId.value, FormatFirebase(hoje), turno, salaId);
        if transactionError then
          db.store == old(db.store) && reservationResult == Some(Fail(TransactionError))
        else if step.None? then
          db.store == old(db.store) && reservationResult == Some(Fail(NotCommitted))
        else
          && db.store == (if flagWriteOk then old(db.store)[node + [userId.value] := Flag(true)][flag := Flag(true)]
                          else old(db.store)[node + [userId.value] := Flag(true)])
          && reservationResult == Some(if flagWriteOk then Success else Fail(UserIndexWriteFailed))
    {
      if userId.None? || !infoRead {
        return;
      }
      var uid := userId.value;
      var hojeTexto := FormatFirebase(hoje);
      var vagasMaximas := if info.Some? then info.value.vagasMaximas else 0;
      var node := ReservasNode(hojeTexto, turno, salaId);
      if transactionError {
        reservationResult := Some(Fail(TransactionError));
        return;
      }
      var step := TransactionStep(Children(db.store, node), uid, vagasMaximas);
      if step.None? {
        reservationResult := Some(Fail(NotCommitted));
        return;
      }
      db.store := db.store[node + [uid] := Flag(true)];
      var ok := db.SetValue(UserFlagPath(uid, hojeTexto, turno, salaId), Flag(true), flagWriteOk);
      reservationResult := Some(if ok then Success else Fail(UserIndexWriteFailed));
    }

    /** `clearReservationResult`. */
    method ClearReservationResult()
      modifies this
      ensures reservationResult == None && salas == old(salas)
    {
      reservationResult := None;
    }
  }
}
