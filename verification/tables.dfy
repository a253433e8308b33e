/** Database tables as maps from integer primary key to row, and the few
    query shapes the services use on them. */
module Tables {

  /** What `scalar_one_or_none()` sees for a query: no row, exactly one, or several. */
  datatype Match = NoRow | OneRow(key: int) | ManyRows

  /** A non-empty set has an element. */
  lemma NonEmpty(s: set<int>)
    requires s != {}
    ensures exists x :: x in s
  {
    if forall x :: x !in s {
      assert false;
    }
  }

  predicate IsLeast(s: set<int>, x: int) {
    x in s && forall y :: y in s ==> x <= y
  }

  lemma {:induction false} LeastExists(s: set<int>)
    requires s != {}
    ensures exists x :: IsLeast(s, x)
    decreases |s|
  {
    NonEmpty(s);
    var x :| x in s;
    if s == {x} {
      assert IsLeast(s, x);
    } else {
      var rest := s - {x};
      LeastExists(rest);
      var m :| IsLeast(rest, m);
      var least := if x < m then x else m;
      forall y | y in s ensures least <= y {
        if y != x {
          assert y in rest;
        }
      }
      assert IsLeast(s, least);
    }
  }

  /** The smallest key of a non-empty key set. */
  function Least(s: set<int>): (x: int)
    requires s != {}
    ensures IsLeast(s, x)
  {
    LeastExists(s);
    var x :| IsLeast(s, x);
    x
  }

  predicate StrictlyIncreasing(xs: seq<int>) {
    forall i, j :: 0 <= i < j < |xs| ==> xs[i] < xs[j]
  }

  /** The keys of a table in ascending order, as `ORDER BY id` lists them. */
  function SortedKeys(s: set<int>): (r: seq<int>)
    ensures StrictlyIncreasing(r)
    ensures forall x :: x in r <==> x in s
    ensures |r| == |s|
    decreases |s|
  {
    if s == {} then []
    else
      var m := Least(s);
      var rest := SortedKeys(s - {m});
      assert forall x :: x in rest ==> m < x;
      [m] + rest
  }

  /** `OFFSET skip LIMIT limit`: drop the first `skip` entries, keep at most `limit`. */
  function Window(xs: seq<int>, skip: nat, limit: nat): (w: seq<int>)
    ensures |w| == (if skip >= |xs| then 0 else if |xs| - skip < limit then |xs| - skip else limit)
    ensures forall i :: 0 <= i < |w| ==> skip + i < |xs| && w[i] == xs[skip + i]
  {
    if skip >= |xs| then []
    else if |xs| - skip < limit then xs[skip..]
    else xs[skip..skip + limit]
  }

  /** The primary key a new row receives from the auto-increment column: one
      above every key present, and at least 1. */
  function FreshKey(s: set<int>): (k: int)
    ensures k >= 1 && k !in s
    ensures forall x :: x in s ==> x < k
  {
    var ks := SortedKeys(s);
    if ks == [] || ks[|ks| - 1] < 1 then 1
    else
      assert forall x :: x in s ==> x <= ks[|ks| - 1] by {
        forall x | x in s ensures x <= ks[|ks| - 1] {
          var i :| 0 <= i < |ks| && ks[i] == x;
          assert i == |ks| - 1 || ks[i] < ks[|ks| - 1];
        }
      }
      ks[|ks| - 1] + 1
  }

  /** Some row satisfies `where`. */
  predicate HasRow<V>(m: map<int, V>, where: V -> bool) {
    exists k :: k in m && where(m[k])
  }

  /** No two rows satisfy `where`, as a unique column guarantees. */
  predicate AtMostOneRow<V>(m: map<int, V>, where: V -> bool) {
    forall a, b :: a in m && b in m && where(m[a]) && where(m[b]) ==> a == b
  }

  /** The rows of `m` selected by a `WHERE` clause, as seen by `scalar_one_or_none()`. */
  function FindRow<V>(m: map<int, V>, where: V -> bool): (r: Match)
    ensures r.NoRow? <==> forall k :: k in m ==> !where(m[k])
    ensures r.OneRow? ==> r.key in m && where(m[r.key])
    ensures r.OneRow? ==> forall k :: k in m && where(m[k]) ==> k == r.key
    ensures r.ManyRows? ==> exists a, b :: a in m && b in m && a != b && where(m[a]) && where(m[b])
    ensures r.OneRow? <==> HasRow(m, where) && AtMostOneRow(m, where)
  {
    var hits := set k | k in m && where(m[k]);
    assert forall j :: j in m && where(m[j]) ==> j in hits;
    if hits == {} then
      NoRow
    else
      var k := Least(hits);
      if hits == {k} then OneRow(k)
      else
        NonEmpty(hits - {k});
        var j :| j in hits - {k};
        assert j in m && k in m && j != k && where(m[j]) && where(m[k]);
        ManyRows
  }

  /** Inserting a matching row under a new key into a table with no match
      leaves exactly one match. */
  lemma InsertOnlyMatch<V>(m: map<int, V>, where: V -> bool, k: int, v: V)
    requires !HasRow(m, where) && k !in m && where(v)
    ensures HasRow(m[k := v], where) && AtMostOneRow(m[k := v], where)
  {
    var after := m[k := v];
    assert where(after[k]);
    assert forall j :: j in after && where(after[j]) ==> j == k;
  }

  /** The two outcomes of `FindRow` that a caller sees depend only on whether
      exactly one row qualifies: a row that qualifies alone is always found. */
  lemma {:induction false} FindRowUnique<V>(m: map<int, V>, where: V -> bool, k: int)
    requires k in m && where(m[k])
    requires forall j :: j in m && where(m[j]) ==> j == k
    ensures FindRow(m, where) == OneRow(k)
  {
  }
}
