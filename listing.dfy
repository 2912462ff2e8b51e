/**
 * The queries the routers run against a resume table: select the rows a
 * `where` clause keeps, ordered by `createdAt` (Prisma's `findMany` with
 * `orderBy`), or the first such row (`findFirst`). A table is a map from
 * `resumeId` to its row.
 */
module Listing {
  import opened Common

  /** The primary-key constraint: every row is stored under its own `resumeId`. */
  ghost predicate Keyed(rows: map<int, Resume>) {
    forall k :: k in rows ==> rows[k].resumeId == k
  }

  /** `caller` owns a stored resume with id `id`: the `where: { userId, resumeId }` lookup finds a row. */
  predicate Owns(rows: map<int, Resume>, caller: int, id: int) {
    id in rows && rows[id].userId == caller
  }

  /** Row `a` was created no later than row `b`; equal timestamps fall back to the id. */
  predicate Earlier(rows: map<int, Resume>, a: int, b: int)
    requires a in rows && b in rows
  {
    rows[a].createdAt < rows[b].createdAt || (rows[a].createdAt == rows[b].createdAt && a <= b)
  }

  /** `k` is the earliest of the rows stored under `keys`. */
  predicate IsFirst(rows: map<int, Resume>, keys: set<int>, k: int)
    requires keys <= rows.Keys && k in keys
  {
    forall j :: j in keys ==> Earlier(rows, k, j)
  }

  /** Any non-empty set of rows has an earliest one. */
  lemma {:induction false} FirstExists(rows: map<int, Resume>, keys: set<int>)
    requires keys <= rows.Keys && keys != {}
    ensures exists k :: k in keys && IsFirst(rows, keys, k)
    decreases keys
  {
    if forall j :: j !in keys {
      assert false;
    }
    var x :| x in keys;
    var rest := keys - {x};
    if rest == {} {
      assert keys == {x};
      assert IsFirst(rows, keys, x);
    } else {
      FirstExists(rows, rest);
      var y :| y in rest && IsFirst(rows, rest, y);
      if Earlier(rows, x, y) {
        forall j | j in keys
          ensures Earlier(rows, x, j)
        {
          if j != x {
            assert j in rest && Earlier(rows, y, j);
          }
        }
        assert IsFirst(rows, keys, x);
      } else {
        assert IsFirst(rows, keys, y);
      }
    }
  }

  /** The keys in `keys`, each once, earliest row first. */
  function OrderedKeys(rows: map<int, Resume>, keys: set<int>): (ks: seq<int>)
    requires keys <= rows.Keys
    ensures forall k :: k in ks <==> k in keys
    ensures forall i, j :: 0 <= i < j < |ks| ==> ks[i] != ks[j] && Earlier(rows, ks[i], ks[j])
    decreases keys
  {
    if keys == {} then []
    else
      FirstExists(rows, keys);
      var k :| k in keys && IsFirst(rows, keys, k);
      [k] + OrderedKeys(rows, keys - {k})
  }

  /** The keys of the rows a `where` clause keeps. */
  function Matching(rows: map<int, Resume>, keep: Resume -> bool): (keys: set<int>)
    ensures keys <= rows.Keys
    ensures forall k :: k in keys <==> k in rows && keep(rows[k])
  {
    set k | k in rows && keep(rows[k])
  }

  /** `a` may precede `b` in a listing ordered by `createdAt` in direction `order`. */
  predicate NotAfter(a: Resume, b: Resume, order: Order) {
    if order == Asc then a.createdAt <= b.createdAt else a.createdAt >= b.createdAt
  }

  predicate InOrder(rs: seq<Resume>, order: Order) {
    forall i, j :: 0 <= i < j < |rs| ==> NotAfter(rs[i], rs[j], order)
  }

  /** The rows stored under `ks`, in the order of `ks`. */
  function RowsAt(rows: map<int, Resume>, ks: seq<int>): (rs: seq<Resume>)
    requires forall i :: 0 <= i < |ks| ==> ks[i] in rows
    ensures |rs| == |ks| && forall i :: 0 <= i < |ks| ==> rs[i] == rows[ks[i]]
  {
    seq(|ks|, i requires 0 <= i < |ks| => rows[ks[i]])
  }

  /**
   * `findMany({ where: keep, orderBy: { createdAt: order } })`: every row the
   * clause keeps, each once, and nothing else, in `createdAt` order.
   */
  function FindMany(rows: map<int, Resume>, keep: Resume -> bool, order: Order): (res: seq<Resume>)
    requires Keyed(rows)
    ensures Listed(rows, keep, res)
    ensures InOrder(res, order)
  {
    var ks := OrderedKeys(rows, Matching(rows, keep));
    var asc := RowsAt(rows, ks);
    AscendingFacts(rows, keep, ks);
    if order == Asc then asc
    else
      ReverseListed(rows, keep, asc);
      ReverseOrdered(asc);
      Reverse(asc)
  }

  lemma AscendingFacts(rows: map<int, Resume>, keep: Resume -> bool, ks: seq<int>)
    requires Keyed(rows)
    requires ks == OrderedKeys(rows, Matching(rows, keep))
    ensures forall i :: 0 <= i < |ks| ==> ks[i] in rows
    ensures Listed(rows, keep, RowsAt(rows, ks)) && InOrder(RowsAt(rows, ks), Asc)
  {
    var rs := RowsAt(rows, ks);
    forall k | k in rows && keep(rows[k])
      ensures rows[k] in rs
    {
      assert k in ks;
      var p :| 0 <= p < |ks| && ks[p] == k;
      assert rs[p] == rows[k];
    }
    forall i, j | 0 <= i < j < |rs|
      ensures NotAfter(rs[i], rs[j], Asc)
    {
      assert Earlier(rows, ks[i], ks[j]);
    }
  }

  /** `rs` lists, each once, exactly the rows of the table that `keep` keeps. */
  ghost predicate Listed(rows: map<int, Resume>, keep: Resume -> bool, rs: seq<Resume>) {
    && (forall i :: 0 <= i < |rs| ==> rs[i].resumeId in rows && rows[rs[i].resumeId] == rs[i] && keep(rs[i]))
    && (forall k :: k in rows && keep(rows[k]) ==> rows[k] in rs)
    && (forall i, j :: 0 <= i < j < |rs| ==> rs[i].resumeId != rs[j].resumeId)
  }

  /** Reversing a listing keeps what it lists. */
  lemma ReverseListed(rows: map<int, Resume>, keep: Resume -> bool, rs: seq<Resume>)
    requires Listed(rows, keep, rs)
    ensures Listed(rows, keep, Reverse(rs))
  {
    var r := Reverse(rs);
    var n := |rs|;
    forall k | k in rows && keep(rows[k])
      ensures rows[k] in r
    {
      var p :| 0 <= p < n && rs[p] == rows[k];
      assert r[n - 1 - p] == rows[k];
    }
    forall i, j | 0 <= i < j < n
      ensures r[i].resumeId != r[j].resumeId
    {
      assert r[i] == rs[n - 1 - i] && r[j] == rs[n - 1 - j];
    }
  }

  /** Reversing turns ascending order into descending. */
  lemma ReverseOrdered(rs: seq<Resume>)
    requires InOrder(rs, Asc)
    ensures InOrder(Reverse(rs), Desc)
  {
    var r := Reverse(rs);
    var n := |rs|;
    forall i, j | 0 <= i < j < n
      ensures NotAfter(r[i], r[j], Desc)
    {
      assert NotAfter(rs[n - 1 - j], rs[n - 1 - i], Asc);
    }
  }

  /**
   * `findFirst({ where: keep })`: some row the clause keeps, or nothing when
   * it keeps none.
   */
  function FindFirst(rows: map<int, Resume>, keep: Resume -> bool): (r: Option<Resume>)
    requires Keyed(rows)
    ensures r.Some? ==> r.value.resumeId in rows && rows[r.value.resumeId] == r.value && keep(r.value)
    ensures r.None? ==> forall k :: k in rows ==> !keep(rows[k])
  {
    var found := FindMany(rows, keep, Asc);
    if |found| == 0 then None else Some(found[0])
  }
}
