/**
 * The Firebase Realtime Database as the core uses it: leaf values keyed by their path,
 * `updateChildren` as one atomic multi-path write, and the child keys of a node.
 */
module RemoteStore {
  import opened Options
  import opened Records

  /** A database path as its segments: "/reservas_por_usuario/u/r" is ["reservas_por_usuario", "u", "r"]. */
  type Path = seq<string>

  /** What the core stores: a reservation object, or the `true` of a membership flag. */
  datatype Value = Reserva(r: MinhaReserva) | Flag(b: bool)

  type Store = map<Path, Value>

  /** The argument of `updateChildren`: a value for each path, or null to remove it. */
  type Updates = map<Path, Option<Value>>

  /** Every path of `updates` is set to its value or removed for null; every other path is left as it was. */
  function Apply(store: Store, updates: Updates): (s: Store)
    ensures forall p :: p in updates && updates[p].Some? ==> p in s && s[p] == updates[p].value
    ensures forall p :: p in updates && updates[p].None? ==> p !in s
    ensures forall p :: p !in updates ==> (p in s <==> p in store)
    ensures forall p :: p !in updates && p in store ==> s[p] == store[p]
  {
    map p | p in store.Keys + updates.Keys && (p in updates ==> updates[p].Some?) ::
      if p in updates then updates[p].value else store[p]
  }

  /** An update setting two paths to one value is the two single writes, one after the other. */
  lemma ApplySetTwo(store: Store, p: Path, q: Path, v: Value)
    ensures Apply(store, map[p := Some(v), q := Some(v)]) == store[p := v][q := v]
  {
    var u := map[p := Some(v), q := Some(v)];
    var a, b := Apply(store, u), store[p := v][q := v];
    forall x ensures (x in a <==> x in b) && (x in a ==> a[x] == b[x]) {
      if x != p && x != q {
        assert x !in u;
      } else {
        assert x in u;
      }
    }
  }

  /** An update nulling paths removes exactly those paths. */
  lemma ApplyRemove(store: Store, ps: set<Path>)
    ensures Apply(store, map p | p in ps :: None) == store - ps
  {
    var u: Updates := map p | p in ps :: None;
    var a, b := Apply(store, u), store - ps;
    forall x ensures (x in a <==> x in b) && (x in a ==> a[x] == b[x]) {
      if x !in ps {
        assert x !in u;
      } else {
        assert x in u;
      }
    }
  }

  /** The keys of the children of the node at `prefix` (`snapshot.children`). */
  function Children(store: Store, prefix: Path): set<string>
  {
    set q | q in store && |q| == |prefix| + 1 && q[..|prefix|] == prefix :: q[|prefix|]
  }

  /** Writing one child of a node adds exactly its key to the node's children. */
  lemma ChildrenAdd(store: Store, prefix: Path, k: string, v: Value)
    ensures Children(store[prefix + [k] := v], prefix) == Children(store, prefix) + {k}
  {
    var after := store[prefix + [k] := v];
    var q := prefix + [k];
    assert q[..|prefix|] == prefix && q[|prefix|] == k;
    assert q in after;
    forall c | c in Children(after, prefix) ensures c in Children(store, prefix) + {k} {
      var r :| r in after && |r| == |prefix| + 1 && r[..|prefix|] == prefix && r[|prefix|] == c;
      if r != q {
        assert r in store;
      }
    }
  }

  /** A write outside a node leaves the node's children as they were. */
  lemma ChildrenElsewhere(store: Store, prefix: Path, p: Path, v: Value)
    requires |p| != |prefix| + 1 || p[..|prefix|] != prefix
    ensures Children(store[p := v], prefix) == Children(store, prefix)
  {
  }

  /** The database, updated in place by the core's writes. */
  class Database {
    var store: Store

    constructor(initial: Store)
      ensures store == initial
    {
      store := initial;
    }

    /**
     * `updateChildren(updates)`: applied as a whole when the write succeeds (`succeeds`
     * stands for the server's answer), not at all when it fails; the result is the
     * outcome the success and failure listeners receive.
     */
    method UpdateChildren(updates: Updates, succeeds: bool) returns (ok: bool)
      modifies this
      ensures ok == succeeds
      ensures store == if succeeds then Apply(old(store), updates) else old(store)
    {
      if succeeds {
        store := Apply(store, updates);
      }
      ok := succeeds;
    }

    /** `child(path).setValue(v)`: one path written. */
    method SetValue(p: Path, v: Value, succeeds: bool) returns (ok: bool)
      modifies this
      ensures ok == succeeds
      ensures store == if succeeds then old(store)[p := v] else old(store)
    {
      ok := UpdateChildren(map[p := Some(v)], succeeds);
      assert succeeds ==> Apply(old(store), map[p := Some(v)]) == old(store)[p := v];
    }
  }
}
