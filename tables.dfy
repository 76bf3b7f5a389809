/** Reading a table: a map from id to row, enumerated in ascending id order (the
    order in which a table scan over an identity key returns rows), and filtered. */
module Tables {
  import opened Wrappers

  /** BaseRepository.GetById, FindAsync on the primary key: the row stored under
      `id`, or None when there is none. */
  function GetById<T>(table: map<int, T>, id: int): (r: Option<T>)
    ensures r.Some? <==> id in table
    ensures r.Some? ==> r.value == table[id]
  {
    if id in table then Some(table[id]) else None
  }

  predicate NoDup<T(==)>(s: seq<T>) {
    forall i, j :: 0 <= i < j < |s| ==> s[i] != s[j]
  }

  /** A sequence has at most as many distinct elements as it is long, and exactly as
      many when it has no duplicates. */
  lemma {:induction false} NoDupCardinality<T>(s: seq<T>)
    ensures |set x | x in s| <= |s|
    ensures NoDup(s) <==> |set x | x in s| == |s|
  {
    if s != [] {
      var rest := s[1..];
      NoDupCardinality(rest);
      var tail := set x | x in rest;
      assert (set x | x in s) == tail + {s[0]};
      if s[0] in rest {
        assert (set x | x in s) == tail;
        var k :| 0 <= k < |rest| && rest[k] == s[0];
        assert s[0] == s[k + 1];
      } else {
        assert NoDup(s) <==> NoDup(rest);
      }
    }
  }

  lemma HasElement(ks: set<int>)
    requires ks != {}
    ensures exists y :: y in ks
  {
    if forall y :: y !in ks {
      assert false;
    }
  }

  /** A value of a map is stored under some key. */
  lemma ValueHasKey<T>(m: map<int, T>, v: T)
    requires v in m.Values
    ensures exists k :: k in m && m[k] == v
  {
    if forall k :: k in m ==> m[k] != v {
      assert false;
    }
  }

  /** Every non-empty finite set of integers has a least element. */
  lemma {:induction false} MinExists(ks: set<int>)
    requires ks != {}
    ensures exists m :: IsLeast(m, ks)
    decreases |ks|
  {
    HasElement(ks);
    var x :| x in ks;
    if IsLeast(x, ks) {
      return;
    }
    var z :| z in ks && z < x;
    var rest := ks - {x};
    assert z in rest;
    MinExists(rest);
    var m :| IsLeast(m, rest);
    assert IsLeast(m, ks) by {
      forall k | k in ks ensures m <= k {
        if k != x { assert k in rest; }
      }
    }
  }

  predicate IsLeast(m: int, ks: set<int>) {
    m in ks && forall k :: k in ks ==> m <= k
  }

  function MinOf(ks: set<int>): (m: int)
    requires ks != {}
    ensures IsLeast(m, ks)
  {
    MinExists(ks);
    var m :| IsLeast(m, ks);
    m
  }

  /** The keys in ascending order. */
  function SortedIds(ks: set<int>): (r: seq<int>)
    ensures forall k :: k in r <==> k in ks
    ensures |r| == |ks|
    decreases |ks|
  {
    if ks == {} then []
    else
      var m := MinOf(ks);
      [m] + SortedIds(ks - {m})
  }

  /** The order SortedIds lists the keys in is strictly ascending. */
  lemma {:induction false} SortedIdsAscending(ks: set<int>)
    ensures forall i, j :: 0 <= i < j < |SortedIds(ks)| ==> SortedIds(ks)[i] < SortedIds(ks)[j]
    decreases |ks|
  {
    if ks != {} {
      var m := MinOf(ks);
      var rest := SortedIds(ks - {m});
      SortedIdsAscending(ks - {m});
      var r := SortedIds(ks);
      assert r == [m] + rest;
      forall i, j | 0 <= i < j < |r| ensures r[i] < r[j] {
        assert r[j] == rest[j - 1] && rest[j - 1] in rest;
        if i == 0 {
          assert r[0] == m && IsLeast(m, ks);
          assert rest[j - 1] in ks && rest[j - 1] != m;
        } else {
          assert r[i] == rest[i - 1];
          assert rest[i - 1] < rest[j - 1];
        }
      }
    }
  }

  /** Every row of the table, once, in ascending id order. */
  function Rows<T>(m: map<int, T>): (r: seq<T>)
    ensures |r| == |m|
    ensures forall i :: 0 <= i < |r| ==> SortedIds(m.Keys)[i] in m && r[i] == m[SortedIds(m.Keys)[i]]
  {
    var ks := SortedIds(m.Keys);
    assert forall i :: 0 <= i < |ks| ==> ks[i] in ks;
    seq(|ks|, i requires 0 <= i < |ks| => m[ks[i]])
  }

  /** The rows are exactly the values of the table. */
  lemma RowsMembership<T>(m: map<int, T>)
    ensures forall x :: x in Rows(m) <==> x in m.Values
  {
    var ks := SortedIds(m.Keys);
    var r := Rows(m);
    forall x | x in r ensures x in m.Values {
      var i :| 0 <= i < |r| && r[i] == x;
      assert ks[i] in m && m[ks[i]] == x;
    }
    forall x | x in m.Values ensures x in r {
      ValueHasKey(m, x);
      var k :| k in m && m[k] == x;
      var i :| 0 <= i < |ks| && ks[i] == k;
      assert r[i] == x;
    }
  }

  /** `Where(f)`: the elements that satisfy f, in their original order. */
  function Filter<T(==)>(s: seq<T>, f: T -> bool): (r: seq<T>)
    ensures |r| <= |s|
    ensures forall i :: 0 <= i < |r| ==> r[i] in s && f(r[i])
    ensures forall x :: x in s && f(x) ==> x in r
    ensures NoDup(s) ==> NoDup(r)
  {
    if s == [] then []
    else if f(s[0]) then [s[0]] + Filter(s[1..], f)
    else Filter(s[1..], f)
  }

  /** `FirstOrDefault()`. */
  function First<T>(s: seq<T>): (r: Option<T>)
    ensures r.None? <==> s == []
    ensures r.Some? ==> r.value == s[0]
  {
    if s == [] then None else Some(s[0])
  }

  /** The rows of a table that satisfy f are none exactly when no key's row does. */
  lemma FilterRowsEmpty<T>(m: map<int, T>, f: T -> bool)
    ensures Filter(Rows(m), f) == [] <==> forall k :: k in m ==> !f(m[k])
  {
    var rows := Rows(m);
    var found := Filter(rows, f);
    RowsMembership(m);
    if found != [] {
      assert found[0] in rows && f(found[0]);
      ValueHasKey(m, found[0]);
    }
    forall k | k in m && f(m[k]) ensures found != [] {
      assert m[k] in m.Values;
      assert m[k] in found;
    }
  }

  /** `FirstOrDefault(f)` on a table: the first row in id order that satisfies f. */
  function FirstWhere<T(==)>(m: map<int, T>, f: T -> bool): (r: Option<T>)
    ensures r.None? <==> forall k :: k in m ==> !f(m[k])
    ensures r.Some? ==> r.value in m.Values && f(r.value)
  {
    FilterRowsEmpty(m, f);
    RowsMembership(m);
    First(Filter(Rows(m), f))
  }

  /** `Where(f)` on a table: the rows that satisfy f, in id order. */
  function Where<T(==)>(m: map<int, T>, f: T -> bool): (r: seq<T>)
    ensures |r| <= |m|
    ensures forall i :: 0 <= i < |r| ==> r[i] in m.Values && f(r[i])
    ensures forall k :: k in m && f(m[k]) ==> m[k] in r
  {
    var rows := Rows(m);
    RowsMembership(m);
    assert forall k :: k in m ==> m[k] in rows;
    Filter(rows, f)
  }

  /** `Select(f)` over every row of a table, in id order. */
  function SelectRows<T, U>(m: map<int, T>, f: T -> U): (r: seq<U>)
    ensures |r| == |m|
    ensures forall i :: 0 <= i < |r| ==> SortedIds(m.Keys)[i] in m && r[i] == f(m[SortedIds(m.Keys)[i]])
  {
    var ks := SortedIds(m.Keys);
    assert forall i :: 0 <= i < |ks| ==> ks[i] in ks;
    seq(|ks|, i requires 0 <= i < |ks| => f(m[ks[i]]))
  }

  /** Each selected value comes from a row, and each row's value is selected. */
  lemma SelectRowsMembership<T, U>(m: map<int, T>, f: T -> U)
    ensures forall i :: 0 <= i < |SelectRows(m, f)| ==> exists k :: k in m && SelectRows(m, f)[i] == f(m[k])
    ensures forall k :: k in m ==> f(m[k]) in SelectRows(m, f)
  {
    var ks := SortedIds(m.Keys);
    var r := SelectRows(m, f);
    forall i | 0 <= i < |r| ensures exists k :: k in m && r[i] == f(m[k]) {
      var k := ks[i];
      assert k in m && r[i] == f(m[k]);
    }
    forall k | k in m ensures f(m[k]) in r {
      var i :| 0 <= i < |ks| && ks[i] == k;
      assert r[i] == f(m[k]);
    }
  }

  /** `Select(f)` over a sequence. */
  function Select<T, U>(s: seq<T>, f: T -> U): (r: seq<U>)
    ensures |r| == |s|
    ensures forall i :: 0 <= i < |s| ==> r[i] == f(s[i])
  {
    seq(|s|, i requires 0 <= i < |s| => f(s[i]))
  }

  /** The image of a member of the projected sequence is in the projection. */
  lemma SelectMembership<T, U>(s: seq<T>, f: T -> U, x: T)
    requires x in s
    ensures f(x) in Select(s, f)
  {
    var i :| 0 <= i < |s| && s[i] == x;
    assert Select(s, f)[i] == f(x);
  }
}
