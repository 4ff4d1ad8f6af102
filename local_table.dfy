/**
 * data/local/dao/ReservaDao.kt: the local `reservas` table behind its declared SQL. The
 * table is a sequence of rows in table order; `localId` is the primary key, and a row
 * saved with key 0 gets the next key of the AUTOINCREMENT counter.
 */
module LocalTable {
  import opened Records
  import opened Text
  import Seqs
  import Sorting

  /** No primary key occurs twice. */
  predicate UniqueKeys(rows: seq<ReservaEntity>)
  {
    forall i, j :: 0 <= i < j < |rows| ==> rows[i].localId != rows[j].localId
  }

  /** The rows and the AUTOINCREMENT counter: the key the next automatically keyed row gets. */
  datatype Table = Table(rows: seq<ReservaEntity>, nextId: int)

  /** Keys are unique, never 0 (0 asks for a fresh key), and below the counter. */
  predicate ValidTable(t: Table)
  {
    && UniqueKeys(t.rows) && t.nextId >= 1
    && forall i :: 0 <= i < |t.rows| ==> t.rows[i].localId != 0 && t.rows[i].localId < t.nextId
  }

  /** The key a saved row ends up with: its own, or a fresh one when it is 0. */
  function KeyOf(e: ReservaEntity, nextId: int): int
  {
    if e.localId == 0 then nextId else e.localId
  }

  /** INSERT OR REPLACE by primary key: the row with `e`'s key is replaced in place, or `e` is added at the end. */
  function Upsert(rows: seq<ReservaEntity>, e: ReservaEntity): (r: seq<ReservaEntity>)
    requires UniqueKeys(rows)
    ensures UniqueKeys(r)
    ensures e in r
    ensures forall x :: x in r ==> x == e || (x in rows && x.localId != e.localId)
    ensures forall x :: x in rows && x.localId != e.localId ==> x in r
  {
    if rows == [] then [e]
    else if rows[0].localId == e.localId then
      assert forall i :: 0 < i < |rows| ==> rows[i].localId != e.localId;
      [e] + rows[1..]
    else
      assert rows == [rows[0]] + rows[1..];
      [rows[0]] + Upsert(rows[1..], e)
  }

  /** `salvar`: the row is stored under its key (a fresh one for key 0); the counter passes every key used. */
  function Saved(t: Table, e: ReservaEntity): (u: Table)
    requires ValidTable(t)
    ensures ValidTable(u)
    ensures e.localId != 0 ==> e in u.rows
    ensures e.localId == 0 ==> e.(localId := t.nextId) in u.rows && u.nextId == t.nextId + 1
    ensures forall x :: x in u.rows ==> x == e.(localId := KeyOf(e, t.nextId)) || (x in t.rows && x.localId != KeyOf(e, t.nextId))
    ensures forall x :: x in t.rows && x.localId != KeyOf(e, t.nextId) ==> x in u.rows
  {
    var k := KeyOf(e, t.nextId);
    var row := e.(localId := k);
    var rows := Upsert(t.rows, row);
    var next := if k >= t.nextId then k + 1 else t.nextId;
    assert forall i :: 0 <= i < |rows| ==> rows[i] in rows;
    Table(rows, next)
  }

  /** `salvarLista`: `salvar` of each row in turn. */
  function SavedAll(t: Table, es: seq<ReservaEntity>): (u: Table)
    requires ValidTable(t)
    ensures ValidTable(u)
  {
    if es == [] then t else Saved(SavedAll(t, es[..|es| - 1]), es[|es| - 1])
  }

  /** `deletar`: the rows whose primary key is not `key`, in their order. */
  function Deleted(rows: seq<ReservaEntity>, key: int): (r: seq<ReservaEntity>)
    ensures forall x :: x in r <==> x in rows && x.localId != key
    ensures Seqs.Subsequence(r, rows)
  {
    var keep := (x: ReservaEntity) => x.localId != key;
    FilterMembers(rows, keep);
    Seqs.FilterIsSubsequence(rows, keep);
    Seqs.Filter(rows, keep)
  }

  /** `deletarReservasDoUsuario`: the rows of other users, in their order. */
  function DeletedUser(rows: seq<ReservaEntity>, u: string): (r: seq<ReservaEntity>)
    ensures forall x :: x in r <==> x in rows && x.idUsuario != u
    ensures Seqs.Subsequence(r, rows)
  {
    var keep := (x: ReservaEntity) => x.idUsuario != u;
    FilterMembers(rows, keep);
    Seqs.FilterIsSubsequence(rows, keep);
    Seqs.Filter(rows, keep)
  }

  lemma FilterMembers(rows: seq<ReservaEntity>, p: ReservaEntity -> bool)
    ensures forall x :: x in Seqs.Filter(rows, p) <==> x in rows && p(x)
  {
    var r := Seqs.Filter(rows, p);
    forall x | x in r ensures x in rows && p(x) {
      var i :| 0 <= i < |r| && r[i] == x;
    }
    forall x | x in rows && p(x) ensures x in r {
      var i :| 0 <= i < |rows| && rows[i] == x;
    }
  }

  /** A removal keeps the table well formed. */
  lemma DeletedValid(t: Table, key: int)
    requires ValidTable(t)
    ensures ValidTable(Table(Deleted(t.rows, key), t.nextId))
  {
    SubsequenceKeepsValid(Deleted(t.rows, key), t.rows, t.nextId);
  }

  lemma DeletedUserValid(t: Table, u: string)
    requires ValidTable(t)
    ensures ValidTable(Table(DeletedUser(t.rows, u), t.nextId))
  {
    SubsequenceKeepsValid(DeletedUser(t.rows, u), t.rows, t.nextId);
  }

  lemma {:induction false} SubsequenceKeepsValid(a: seq<ReservaEntity>, b: seq<ReservaEntity>, nextId: int)
    requires Seqs.Subsequence(a, b) && ValidTable(Table(b, nextId))
    ensures ValidTable(Table(a, nextId))
    decreases |b|
  {
    if a != [] {
      assert b != [];
      assert ValidTable(Table(b[1..], nextId));
      if a[0] == b[0] {
        SubsequenceKeepsValid(a[1..], b[1..], nextId);
        Seqs.SubsequenceMembers(a[1..], b[1..]);
        assert forall i :: 0 < i < |a| ==> a[i] == a[1..][i - 1];
      } else {
        SubsequenceKeepsValid(a, b[1..], nextId);
      }
    }
  }

  /** The records the cancel path deletes came from the remote store with key 0, which no row has: nothing is removed. */
  lemma DeleteKeyZeroKeepsRows(t: Table)
    requires ValidTable(t)
    ensures Deleted(t.rows, 0) == t.rows
  {
    var keep := (x: ReservaEntity) => x.localId != 0;
    assert forall i :: 0 <= i < |t.rows| ==> keep(t.rows[i]);
    FilterAll(t.rows, keep);
  }

  lemma {:induction false} FilterAll(rows: seq<ReservaEntity>, p: ReservaEntity -> bool)
    requires forall i :: 0 <= i < |rows| ==> p(rows[i])
    ensures Seqs.Filter(rows, p) == rows
  {
    if rows != [] {
      FilterAll(rows[1..], p);
      assert rows == [rows[0]] + rows[1..];
    }
  }

  /** Rows saved with key 0 in turn get consecutive fresh keys from `n` on. */
  function Keyed(es: seq<ReservaEntity>, n: int): (r: seq<ReservaEntity>)
    ensures |r| == |es|
    ensures forall i :: 0 <= i < |es| ==> r[i] == es[i].(localId := n + i)
  {
    seq(|es|, i requires 0 <= i < |es| => es[i].(localId := n + i))
  }

  /** Every row with its key reset to 0, the value a record has before it is saved. */
  function WithoutKeys(rows: seq<ReservaEntity>): (r: seq<ReservaEntity>)
    ensures |r| == |rows|
    ensures forall i :: 0 <= i < |rows| ==> r[i] == rows[i].(localId := 0)
  {
    seq(|rows|, i requires 0 <= i < |rows| => rows[i].(localId := 0))
  }

  /** A row whose key is not in the table is added at the end. */
  lemma {:induction false} UpsertAbsent(rows: seq<ReservaEntity>, e: ReservaEntity)
    requires UniqueKeys(rows)
    requires forall i :: 0 <= i < |rows| ==> rows[i].localId != e.localId
    ensures Upsert(rows, e) == rows + [e]
  {
    if rows != [] {
      UpsertAbsent(rows[1..], e);
      assert rows == [rows[0]] + rows[1..];
    }
  }

  /** Saving rows that all carry key 0 appends them, with consecutive fresh keys, after the rows already there. */
  lemma {:induction false} SavedAllFresh(t: Table, es: seq<ReservaEntity>)
    requires ValidTable(t)
    requires forall i :: 0 <= i < |es| ==> es[i].localId == 0
    ensures SavedAll(t, es).rows == t.rows + Keyed(es, t.nextId)
    ensures SavedAll(t, es).nextId == t.nextId + |es|
  {
    if es != [] {
      var init := es[..|es| - 1];
      SavedAllFresh(t, init);
      var m := SavedAll(t, init);
      var e := es[|es| - 1];
      assert SavedAll(t, es) == Saved(m, e);
      SavedFresh(m, e);
      KeyedSnoc(es, t.nextId);
    }
  }

  lemma KeyedSnoc(es: seq<ReservaEntity>, n: int)
    requires es != []
    ensures Keyed(es, n) == Keyed(es[..|es| - 1], n) + [es[|es| - 1].(localId := n + |es| - 1)]
  {
  }

  /** One row with key 0 is appended under the counter's key. */
  lemma SavedFresh(t: Table, e: ReservaEntity)
    requires ValidTable(t) && e.localId == 0
    ensures Saved(t, e) == Table(t.rows + [e.(localId := t.nextId)], t.nextId + 1)
  {
    UpsertAbsent(t.rows, e.(localId := t.nextId));
  }

  /**
   * The listener's resync, `deletarReservasDoUsuario(u)` and then `salvarLista` of records
   * that carry key 0: the other users' rows stay as they were, in order, and the
   * snapshot's rows follow them, the same rows up to their fresh keys.
   */
  lemma Resync(t: Table, u: string, es: seq<ReservaEntity>)
    requires ValidTable(t)
    requires forall i :: 0 <= i < |es| ==> es[i].localId == 0
    ensures ValidTable(Table(DeletedUser(t.rows, u), t.nextId))
    ensures SavedAll(Table(DeletedUser(t.rows, u), t.nextId), es).rows == DeletedUser(t.rows, u) + Keyed(es, t.nextId)
    ensures WithoutKeys(Keyed(es, t.nextId)) == es
  {
    DeletedUserValid(t, u);
    SavedAllFresh(Table(DeletedUser(t.rows, u), t.nextId), es);
  }

  /** When the snapshot holds only the user's records, the user's rows after the resync are the snapshot, up to keys. */
  lemma ResyncUserRows(t: Table, u: string, es: seq<ReservaEntity>)
    requires ValidTable(t)
    requires forall i :: 0 <= i < |es| ==> es[i].localId == 0 && es[i].idUsuario == u
    ensures ValidTable(Table(DeletedUser(t.rows, u), t.nextId))
    ensures WithoutKeys(Seqs.Filter(SavedAll(Table(DeletedUser(t.rows, u), t.nextId), es).rows, OfUser(u))) == es
  {
    Resync(t, u, es);
    var others := DeletedUser(t.rows, u);
    var added := Keyed(es, t.nextId);
    Seqs.FilterConcat(others, added, OfUser(u));
    FilterNone(others, OfUser(u));
    FilterAll(added, OfUser(u));
    assert [] + added == added;
  }

  lemma {:induction false} FilterNone(rows: seq<ReservaEntity>, p: ReservaEntity -> bool)
    requires forall x :: x in rows ==> !p(x)
    ensures Seqs.Filter(rows, p) == []
  {
    if rows != [] {
      assert rows[0] in rows;
      assert forall x :: x in rows[1..] ==> x in rows;
      FilterNone(rows[1..], p);
    }
  }

  /** SQLite compares text by code point (UTF-8 bytes in BINARY collation): `ORDER BY data`. */
  function DataKey(e: ReservaEntity): seq<int> { Codes(e.data) }

  function OfUser(u: string): ReservaEntity -> bool { (x: ReservaEntity) => x.idUsuario == u }

  function OfSalaAndData(s: string, d: string): ReservaEntity -> bool { (x: ReservaEntity) => x.idSala == s && x.data == d }

  function OfData(d: string): ReservaEntity -> bool { (x: ReservaEntity) => x.data == d }

  /** The DAO over one table. */
  class ReservaDao {
    var rows: seq<ReservaEntity>
    var nextId: int

    function State(): Table
      reads this
    {
      Table(rows, nextId)
    }

    predicate Valid()
      reads this
    {
      ValidTable(State())
    }

    constructor()
      ensures Valid() && rows == [] && nextId == 1
    {
      rows := [];
      nextId := 1;
    }

    /** `salvar` (`@Insert(onConflict = REPLACE)`). */
    method Salvar(e: ReservaEntity)
      requires Valid()
      modifies this
      ensures Valid()
      ensures State() == Saved(old(State()), e)
    {
      var k := if e.localId == 0 then nextId else e.localId;
      rows := Upsert(rows, e.(localId := k));
      if k >= nextId {
        nextId := k + 1;
      }
    }

    /** `deletar` (`@Delete`): by primary key. */
    method Deletar(e: ReservaEntity)
      requires Valid()
      modifies this
      ensures Valid()
      ensures rows == Deleted(old(rows), e.localId) && nextId == old(nextId)
    {
      DeletedValid(State(), e.localId);
      rows := Deleted(rows, e.localId);
    }

    /** `deletarReservasDoUsuario`: `DELETE FROM reservas WHERE idUsuario = :usuarioId`. */
    method DeletarReservasDoUsuario(u: string)
      requires Valid()
      modifies this
      ensures Valid()
      ensures rows == DeletedUser(old(rows), u) && nextId == old(nextId)
    {
      DeletedUserValid(State(), u);
      rows := DeletedUser(rows, u);
    }

    /** `salvarLista`: each row saved in turn. */
    method SalvarLista(es: seq<ReservaEntity>)
      requires Valid()
      modifies this
      ensures Valid()
      ensures State() == SavedAll(old(State()), es)
    {
      for i := 0 to |es|
        invariant Valid()
        invariant State() == SavedAll(old(State()), es[..i])
      {
        assert es[..i + 1][..i] == es[..i];
        Salvar(es[i]);
      }
      assert es[..|es|] == es;
    }

    /** `listarTodas`: every row, by `data` ascending. */
    function ListarTodas(): (r: seq<ReservaEntity>)
      reads this
      ensures Sorting.SortedBy(r, DataKey)
      ensures multiset(r) == multiset(rows)
    {
      Sorting.SortBy(rows, DataKey)
    }

    /** `listarPorUsuarioFlow`: the user's rows, by `data` ascending. */
    function ListarPorUsuario(u: string): (r: seq<ReservaEntity>)
      reads this
      ensures Sorting.SortedBy(r, DataKey)
      ensures multiset(r) == multiset(Seqs.Filter(rows, OfUser(u)))
      ensures forall x :: x in r <==> x in rows && x.idUsuario == u
    {
      FilterMembers(rows, OfUser(u));
      var r := Sorting.SortBy(Seqs.Filter(rows, OfUser(u)), DataKey);
      assert forall x :: x in r <==> x in multiset(r);
      r
    }

    /** `getReservasPorSalaEData`: the rows of that room and day. */
    function GetReservasPorSalaEData(s: string, d: string): (r: seq<ReservaEntity>)
      reads this
      ensures forall x :: x in r <==> x in rows && x.idSala == s && x.data == d
      ensures Seqs.Subsequence(r, rows)
    {
      FilterMembers(rows, OfSalaAndData(s, d));
      Seqs.FilterIsSubsequence(rows, OfSalaAndData(s, d));
      Seqs.Filter(rows, OfSalaAndData(s, d))
    }

    /** `getReservasDoDia`: the rows of that day. */
    function GetReservasDoDia(d: string): (r: seq<ReservaEntity>)
      reads this
      ensures forall x :: x in r <==> x in rows && x.data == d
      ensures Seqs.Subsequence(r, rows)
    {
      FilterMembers(rows, OfData(d));
      Seqs.FilterIsSubsequence(rows, OfData(d));
      Seqs.Filter(rows, OfData(d))
    }
  }
}
