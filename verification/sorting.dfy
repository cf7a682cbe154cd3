/** The cursor's `sort("created_at", -1)`: documents ordered by their
    creation stamp, most recent first. */
module Sorting {
  import opened Documents

  /** The value a document is sorted by; MongoDB sorts a missing field as
      null. */
  function SortKey(d: Doc): Value {
    if CreatedAtName in d then d[CreatedAtName] else Null
  }

  /** Most recent first: no document is preceded by one with a smaller key. */
  predicate SortedDesc(s: seq<Doc>) {
    forall i, j | 0 <= i < j < |s| :: ValueLe(SortKey(s[j]), SortKey(s[i]))
  }

  /** Places `d` after every document whose key is at least its own. */
  function Insert(d: Doc, r: seq<Doc>): (t: seq<Doc>)
    ensures multiset(t) == multiset(r) + multiset{d}
  {
    if r == [] then [d]
    else if !ValueLe(SortKey(d), SortKey(r[0])) then [d] + r
    else
      assert r == [r[0]] + r[1..];
      [r[0]] + Insert(d, r[1..])
  }

  /** Inserting into a sorted run keeps it sorted. */
  lemma {:induction false} InsertSorted(d: Doc, r: seq<Doc>)
    requires SortedDesc(r)
    ensures SortedDesc(Insert(d, r))
  {
    if r == [] {
    } else if !ValueLe(SortKey(d), SortKey(r[0])) {
      InsertFrontSorted(d, r);
    } else {
      InsertSorted(d, r[1..]);
      InsertBehindSorted(d, r, Insert(d, r[1..]));
    }
  }

  /** A document with a strictly larger key may go in front of a sorted run. */
  lemma InsertFrontSorted(d: Doc, r: seq<Doc>)
    requires SortedDesc(r) && r != []
    requires !ValueLe(SortKey(d), SortKey(r[0]))
    ensures SortedDesc([d] + r)
  {
    ValueLeTotal(SortKey(d), SortKey(r[0]));
    forall j | 0 <= j < |r|
      ensures ValueLe(SortKey(r[j]), SortKey(d))
    {
      if j > 0 {
        ValueLeTransitive(SortKey(r[j]), SortKey(r[0]), SortKey(d));
      }
    }
  }

  /** A sorted run's head may go in front of any sorted arrangement of its
      tail plus a document whose key is at most the head's. */
  lemma InsertBehindSorted(d: Doc, r: seq<Doc>, rest: seq<Doc>)
    requires SortedDesc(r) && r != []
    requires ValueLe(SortKey(d), SortKey(r[0]))
    requires SortedDesc(rest)
    requires multiset(rest) == multiset(r[1..]) + multiset{d}
    ensures SortedDesc([r[0]] + rest)
  {
    var t := [r[0]] + rest;
    forall j | 0 < j < |t|
      ensures ValueLe(SortKey(t[j]), SortKey(t[0]))
    {
      var x := rest[j - 1];
      assert x in multiset(rest);
      if x != d {
        assert x in multiset(r[1..]);
        var k :| 0 <= k < |r[1..]| && r[1..][k] == x;
        assert r[k + 1] == x;
      }
    }
  }

  /** Insertion sort; documents with equal keys keep their input order
      (`SortDescStable`). */
  function SortDesc(s: seq<Doc>): (t: seq<Doc>)
    ensures multiset(t) == multiset(s)
  {
    if s == [] then []
    else
      var init := s[..|s| - 1];
      assert s == init + [s[|s| - 1]];
      Insert(s[|s| - 1], SortDesc(init))
  }

  /** The sort's output holds only documents of its input. */
  lemma SortDescMembers(s: seq<Doc>)
    ensures forall d | d in SortDesc(s) :: d in s
  {
    forall d | d in SortDesc(s)
      ensures d in s
    {
      assert d in multiset(SortDesc(s));
    }
  }

  /** The insertion sort's result is sorted, most recent first. */
  lemma {:induction false} SortDescSorted(s: seq<Doc>)
    ensures SortedDesc(SortDesc(s))
  {
    if s != [] {
      SortDescSorted(s[..|s| - 1]);
      InsertSorted(s[|s| - 1], SortDesc(s[..|s| - 1]));
    }
  }

  // ---------------------------------------------------------------------
  // Stability

  /** The documents of `s` whose sort key is `v`, in the order of `s`. */
  function WithKey(s: seq<Doc>, v: Value): seq<Doc> {
    if s == [] then []
    else (if SortKey(s[0]) == v then [s[0]] else []) + WithKey(s[1..], v)
  }

  lemma {:induction false} WithKeyAppend(a: seq<Doc>, b: seq<Doc>, v: Value)
    ensures WithKey(a + b, v) == WithKey(a, v) + WithKey(b, v)
  {
    if a == [] {
      assert a + b == b;
    } else {
      var x, a' := a[0], a[1..];
      assert a + b == [x] + (a' + b);
      assert a == [x] + a';
      WithKeyAppend(a', b, v);
      WithKeyCons(x, a' + b, v);
      WithKeyCons(x, a', v);
    }
  }

  lemma {:induction false} WithKeyNone(s: seq<Doc>, v: Value)
    requires forall i | 0 <= i < |s| :: SortKey(s[i]) != v
    ensures WithKey(s, v) == []
  {
    if s != [] {
      WithKeyNone(s[1..], v);
    }
  }

  /** Inserting `d` into a sorted run puts it behind every document with
      the same key and leaves their order alone. */
  lemma {:induction false} InsertStable(d: Doc, r: seq<Doc>, v: Value)
    requires SortedDesc(r)
    ensures WithKey(Insert(d, r), v) == WithKey(r, v) + (if SortKey(d) == v then [d] else [])
  {
    if r == [] {
      WithKeyCons(d, [], v);
    } else if !ValueLe(SortKey(d), SortKey(r[0])) {
      InsertFrontStable(d, r, v);
    } else {
      InsertStable(d, r[1..], v);
      assert Insert(d, r) == [r[0]] + Insert(d, r[1..]);
      assert r == [r[0]] + r[1..];
      ConsStable(r[0], Insert(d, r[1..]), r[1..], if SortKey(d) == v then [d] else [], v);
    }
  }

  lemma InsertFrontStable(d: Doc, r: seq<Doc>, v: Value)
    requires SortedDesc(r) && r != []
    requires !ValueLe(SortKey(d), SortKey(r[0]))
    ensures WithKey(Insert(d, r), v) == WithKey(r, v) + (if SortKey(d) == v then [d] else [])
  {
    WithKeyCons(d, r, v);
    if SortKey(d) == v {
      KeysBelowFront(d, r);
      WithKeyNone(r, v);
    }
  }

  /** Putting one document in front of two runs whose keyed parts differ
      by a fixed suffix keeps that difference. */
  lemma ConsStable(x: Doc, s: seq<Doc>, t: seq<Doc>, tail: seq<Doc>, v: Value)
    requires WithKey(s, v) == WithKey(t, v) + tail
    ensures WithKey([x] + s, v) == WithKey([x] + t, v) + tail
  {
    WithKeyCons(x, s, v);
    WithKeyCons(x, t, v);
  }

  lemma WithKeyCons(x: Doc, s: seq<Doc>, v: Value)
    ensures WithKey([x] + s, v) == (if SortKey(x) == v then [x] else []) + WithKey(s, v)
  {
    assert ([x] + s)[1..] == s;
  }

  /** A document with a strictly larger key than a sorted run's head shares
      its key with no document of the run. */
  lemma KeysBelowFront(d: Doc, r: seq<Doc>)
    requires SortedDesc(r) && r != []
    requires !ValueLe(SortKey(d), SortKey(r[0]))
    ensures forall i | 0 <= i < |r| :: SortKey(r[i]) != SortKey(d)
  {
    forall i | 0 <= i < |r|
      ensures SortKey(r[i]) != SortKey(d)
    {
      if i > 0 {
        assert ValueLe(SortKey(r[i]), SortKey(r[0]));
      } else {
        ValueLeReflexive(SortKey(r[0]));
      }
    }
  }

  /** The sort is stable: the documents with any one key come out in the
      order they came in. */
  lemma {:induction false} SortDescStable(s: seq<Doc>, v: Value)
    ensures WithKey(SortDesc(s), v) == WithKey(s, v)
  {
    if s != [] {
      var init, last := s[..|s| - 1], s[|s| - 1];
      var sortedInit := SortDesc(init);
      assert SortDesc(s) == Insert(last, sortedInit);
      SortDescStable(init, v);
      SortDescSorted(init);
      InsertStable(last, sortedInit, v);
      assert s == init + [last];
      WithKeyAppend(init, [last], v);
      WithKeyCons(last, [], v);
      assert [last] + [] == [last];
    }
  }
}
