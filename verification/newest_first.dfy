/** The ordering both mailbox views use: `sort((a, b) => b.timestamp - a.timestamp)`.
    The comparator puts larger timestamps first, and `Array.prototype.sort`
    is stable (ECMAScript 2019 onwards), so letters with equal timestamps
    keep the order in which they were stored. */
module NewestFirst {
  import opened Types

  /** Non-increasing by timestamp. */
  predicate Sorted(s: seq<Letter>) {
    forall i, j :: 0 <= i < j < |s| ==> s[i].timestamp >= s[j].timestamp
  }

  /** The letters of `s` stamped `t`, in their order in `s`. Two orderings
      that agree on `AtTime` for every `t` agree on how ties are broken. */
  function AtTime(s: seq<Letter>, t: int): seq<Letter> {
    if s == [] then []
    else (if s[0].timestamp == t then [s[0]] else []) + AtTime(s[1..], t)
  }

  lemma {:induction false} AtTimeMembers(s: seq<Letter>, t: int, x: Letter)
    ensures x in AtTime(s, t) <==> x in s && x.timestamp == t
  {
    if s != [] {
      AtTimeMembers(s[1..], t, x);
      assert s == [s[0]] + s[1..];
    }
  }

  /** Places `x` in front of every letter of `t` it does not sort after;
      `x` precedes the letters of equal timestamp, which keeps the sort
      below stable. */
  function Insert(x: Letter, t: seq<Letter>): (r: seq<Letter>)
    requires Sorted(t)
    ensures Sorted(r)
    ensures multiset(r) == multiset(t) + multiset{x}
    ensures forall k :: AtTime(r, k) == (if x.timestamp == k then [x] else []) + AtTime(t, k)
  {
    if t == [] || x.timestamp >= t[0].timestamp then
      var r := [x] + t;
      assert r[1..] == t;
      r
    else
      var rest := Insert(x, t[1..]);
      var r := [t[0]] + rest;
      InsertBehindHead(x, t, rest, r);
      r
  }

  /** The step of `Insert` that keeps the head of `t` in front. */
  lemma InsertBehindHead(x: Letter, t: seq<Letter>, rest: seq<Letter>, r: seq<Letter>)
    requires Sorted(t) && t != [] && x.timestamp < t[0].timestamp
    requires Sorted(rest) && multiset(rest) == multiset(t[1..]) + multiset{x}
    requires forall k :: AtTime(rest, k) == (if x.timestamp == k then [x] else []) + AtTime(t[1..], k)
    requires r == [t[0]] + rest
    ensures Sorted(r)
    ensures multiset(r) == multiset(t) + multiset{x}
    ensures forall k :: AtTime(r, k) == (if x.timestamp == k then [x] else []) + AtTime(t, k)
  {
    assert t == [t[0]] + t[1..];
    HeadBoundsRest(x, t, rest);
    assert r[1..] == rest;
    forall k
      ensures AtTime(r, k) == (if x.timestamp == k then [x] else []) + AtTime(t, k)
    {
      HeadStep(x, t, rest, r, k);
    }
  }

  lemma HeadBoundsRest(x: Letter, t: seq<Letter>, rest: seq<Letter>)
    requires Sorted(t) && t != [] && x.timestamp < t[0].timestamp
    requires multiset(rest) == multiset(t[1..]) + multiset{x}
    ensures forall i :: 0 <= i < |rest| ==> rest[i].timestamp <= t[0].timestamp
  {
    forall i | 0 <= i < |rest|
      ensures rest[i].timestamp <= t[0].timestamp
    {
      assert rest[i] in multiset(rest);
      if rest[i] != x {
        assert rest[i] in multiset(t[1..]);
        assert rest[i] in t[1..];
        var j :| 0 <= j < |t[1..]| && t[1..][j] == rest[i];
        assert t[j + 1] == rest[i];
      }
    }
  }

  lemma HeadStep(x: Letter, t: seq<Letter>, rest: seq<Letter>, r: seq<Letter>, k: int)
    requires t != [] && x.timestamp < t[0].timestamp
    requires AtTime(rest, k) == (if x.timestamp == k then [x] else []) + AtTime(t[1..], k)
    requires r == [t[0]] + rest
    ensures AtTime(r, k) == (if x.timestamp == k then [x] else []) + AtTime(t, k)
  {
    assert r[1..] == rest;
    assert AtTime(r, k) == (if t[0].timestamp == k then [t[0]] else []) + AtTime(rest, k);
    assert AtTime(t, k) == (if t[0].timestamp == k then [t[0]] else []) + AtTime(t[1..], k);
  }

  /** Stable sort, newest first. */
  function SortNewestFirst(s: seq<Letter>): (r: seq<Letter>)
    ensures Sorted(r)
    ensures multiset(r) == multiset(s)
    ensures forall k :: AtTime(r, k) == AtTime(s, k)
  {
    if s == [] then []
    else
      assert s == [s[0]] + s[1..];
      Insert(s[0], SortNewestFirst(s[1..]))
  }

  lemma AtTimeHead(s: seq<Letter>)
    requires s != []
    ensures AtTime(s, s[0].timestamp) != [] && AtTime(s, s[0].timestamp)[0] == s[0]
  {
  }

  /** Sortedness and per-timestamp order determine a sequence: there is
      exactly one stable newest-first ordering of a collection. */
  lemma {:induction false} SortedStableUnique(a: seq<Letter>, b: seq<Letter>)
    requires Sorted(a) && Sorted(b)
    requires forall t :: AtTime(a, t) == AtTime(b, t)
    ensures a == b
  {
    if a == [] && b != [] {
      AtTimeHead(b);
      assert false;
    } else if a != [] && b == [] {
      AtTimeHead(a);
      assert false;
    } else if a != [] {
      var m := a[0].timestamp;
      var n := b[0].timestamp;
      AtTimeHead(a);
      AtTimeHead(b);
      // b holds a letter stamped m, so its head is at least that recent
      AtTimeMembers(b, m, a[0]);
      assert a[0] in AtTime(b, m);
      assert n >= m;
      AtTimeMembers(a, n, b[0]);
      assert b[0] in AtTime(a, n);
      assert m >= n;
      assert a[0] == b[0];
      forall t
        ensures AtTime(a[1..], t) == AtTime(b[1..], t)
      {
        var p := if m == t then [a[0]] else [];
        assert AtTime(a, t) == p + AtTime(a[1..], t);
        assert AtTime(b, t) == p + AtTime(b[1..], t);
        assert AtTime(a[1..], t) == (p + AtTime(a[1..], t))[|p|..];
        assert AtTime(b[1..], t) == (p + AtTime(b[1..], t))[|p|..];
      }
      SortedStableUnique(a[1..], b[1..]);
      assert a == [a[0]] + a[1..];
      assert b == [b[0]] + b[1..];
    }
  }

  /** The elements of `s` in the opposite order. */
  function Reverse<T>(s: seq<T>): (r: seq<T>)
    ensures |r| == |s|
    ensures forall i :: 0 <= i < |s| ==> r[i] == s[|s| - 1 - i]
  {
    if s == [] then [] else Reverse(s[1..]) + [s[0]]
  }

  /** Stored with strictly increasing timestamps. */
  predicate StrictlyIncreasing(s: seq<Letter>) {
    forall i, j :: 0 <= i < j < |s| ==> s[i].timestamp < s[j].timestamp
  }

  lemma {:induction false} AtTimeAppend(a: seq<Letter>, b: seq<Letter>, t: int)
    ensures AtTime(a + b, t) == AtTime(a, t) + AtTime(b, t)
  {
    if a != [] {
      assert (a + b)[0] == a[0];
      assert (a + b)[1..] == a[1..] + b;
      AtTimeAppend(a[1..], b, t);
      var p := if a[0].timestamp == t then [a[0]] else [];
      assert AtTime(a + b, t) == p + AtTime(a[1..] + b, t);
      assert AtTime(a, t) == p + AtTime(a[1..], t);
    } else {
      assert a + b == b;
    }
  }

  lemma {:induction false} AtTimeNone(s: seq<Letter>, t: int)
    requires forall i :: 0 <= i < |s| ==> s[i].timestamp != t
    ensures AtTime(s, t) == []
  {
    if s != [] {
      AtTimeNone(s[1..], t);
    }
  }

  /** With distinct timestamps at most one letter carries any given one. */
  lemma {:induction false} AtTimeAtMostOne(s: seq<Letter>, t: int)
    requires StrictlyIncreasing(s)
    ensures |AtTime(s, t)| <= 1
  {
    if s != [] {
      AtTimeAtMostOne(s[1..], t);
      if s[0].timestamp == t {
        assert forall i :: 0 <= i < |s[1..]| ==> s[1..][i].timestamp != t by {
          forall i | 0 <= i < |s[1..]|
            ensures s[1..][i].timestamp != t
          {
            assert s[1..][i] == s[i + 1];
          }
        }
        AtTimeNone(s[1..], t);
      }
    }
  }

  lemma {:induction false} AtTimeReverse(s: seq<Letter>, t: int)
    requires StrictlyIncreasing(s)
    ensures AtTime(Reverse(s), t) == AtTime(s, t)
  {
    if s != [] {
      AtTimeReverse(s[1..], t);
      AtTimeAppend(Reverse(s[1..]), [s[0]], t);
      AtTimeAtMostOne(s, t);
      AtTimeAtMostOne(s[1..], t);
      assert AtTime([s[0]], t) == if s[0].timestamp == t then [s[0]] else [];
      if s[0].timestamp == t {
        assert AtTime(s, t) == [s[0]] + AtTime(s[1..], t);
      }
    }
  }

  /** Letters stored oldest to newest, with no two at the same instant, come
      out in exactly the reverse of stored order. */
  lemma IncreasingSortsToReverse(s: seq<Letter>)
    requires StrictlyIncreasing(s)
    ensures SortNewestFirst(s) == Reverse(s)
  {
    forall t
      ensures AtTime(Reverse(s), t) == AtTime(s, t)
    {
      AtTimeReverse(s, t);
    }
    SortedStableUnique(Reverse(s), SortNewestFirst(s));
  }
}
