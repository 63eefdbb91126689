/** The letter store: one insertion-ordered collection of letters, read and
    written whole. The persisted JSON array under the storage key is the
    value `st`; reading it is using `st`, saving it is returning the new
    value. */
module Storage {
  import opened Wrappers
  import opened Types
  import Seqs
  import opened NewestFirst

  type Store = seq<Letter>

  /** What a caller hands to `sendLetter`: a letter without id, timestamp
      and read flag. */
  datatype Draft = Draft(from: string, to: string, subject: string, content: string)

  /** Which side of a letter a mailbox view filters on. */
  datatype Side = Recipient | Sender

  function Party(l: Letter, side: Side): string {
    match side
    case Recipient => l.to
    case Sender => l.from
  }

  /** The stored letters whose `side` is `u`, in stored order. */
  function Select(st: Store, side: Side, u: string): (r: seq<Letter>)
    ensures forall i :: 0 <= i < |r| ==> Party(r[i], side) == u
    ensures forall l :: multiset(r)[l] == if Party(l, side) == u then multiset(st)[l] else 0
  {
    if st == [] then []
    else
      assert st == [st[0]] + st[1..];
      var rest := Select(st[1..], side, u);
      if Party(st[0], side) == u then [st[0]] + rest else rest
  }

  /** Sorting the selection keeps exactly the selected letters. */
  lemma ViewContents(st: Store, side: Side, u: string)
    ensures var r := SortNewestFirst(Select(st, side, u));
      && (forall i :: 0 <= i < |r| ==> Party(r[i], side) == u)
      && (forall l :: multiset(r)[l] == if Party(l, side) == u then multiset(st)[l] else 0)
  {
    var s := Select(st, side, u);
    var r := SortNewestFirst(s);
    forall i | 0 <= i < |r|
      ensures Party(r[i], side) == u
    {
      assert r[i] in multiset(r);
      assert multiset(s)[r[i]] > 0;
    }
  }

  /** The inbox of `u`: every stored letter addressed to `u` and nothing
      else, as many times as it is stored, newest first, ties in stored
      order. */
  function GetInbox(st: Store, u: string): (r: seq<Letter>)
    ensures forall i :: 0 <= i < |r| ==> r[i].to == u
    ensures forall l :: multiset(r)[l] == if l.to == u then multiset(st)[l] else 0
    ensures Sorted(r)
    ensures forall t :: AtTime(r, t) == AtTime(Select(st, Recipient, u), t)
  {
    ViewContents(st, Recipient, u);
    SortNewestFirst(Select(st, Recipient, u))
  }

  /** The sent view of `u`: the same as the inbox, filtering on the sender. */
  function GetSentLetters(st: Store, u: string): (r: seq<Letter>)
    ensures forall i :: 0 <= i < |r| ==> r[i].from == u
    ensures forall l :: multiset(r)[l] == if l.from == u then multiset(st)[l] else 0
    ensures Sorted(r)
    ensures forall t :: AtTime(r, t) == AtTime(Select(st, Sender, u), t)
  {
    ViewContents(st, Sender, u);
    SortNewestFirst(Select(st, Sender, u))
  }

  /** Any sequence with the inbox's ordering properties IS the inbox: the
      view is fully determined by the filter and the stable order. */
  lemma InboxIsTheStableOrder(st: Store, u: string, r: seq<Letter>)
    requires Sorted(r)
    requires forall t :: AtTime(r, t) == AtTime(Select(st, Recipient, u), t)
    ensures r == GetInbox(st, u)
  {
    SortedStableUnique(r, GetInbox(st, u));
  }

  /** The same for the sent view. */
  lemma SentIsTheStableOrder(st: Store, u: string, r: seq<Letter>)
    requires Sorted(r)
    requires forall t :: AtTime(r, t) == AtTime(Select(st, Sender, u), t)
    ensures r == GetSentLetters(st, u)
  {
    SortedStableUnique(r, GetSentLetters(st, u));
  }

  /** Appends the draft stamped with the caller-supplied id and timestamp
      (`sendLetter` draws them from `Date.now()` and `Math.random()`) and an
      unread flag. */
  function SendLetter(st: Store, d: Draft, id: string, ts: int): (st': Store)
    ensures |st'| == |st| + 1
    ensures st'[..|st|] == st
    ensures st'[|st|].id == id && st'[|st|].timestamp == ts && !st'[|st|].read
    ensures st'[|st|].from == d.from && st'[|st|].to == d.to
    ensures st'[|st|].subject == d.subject && st'[|st|].content == d.content
  {
    st + [Letter(id, d.from, d.to, d.subject, d.content, ts, false)]
  }

  /** `k` is the position of the first stored letter with this id. */
  predicate FirstWithId(st: Store, id: string, k: int) {
    0 <= k < |st| && st[k].id == id && forall j :: 0 <= j < k ==> st[j].id != id
  }

  /** Sets `read` on the first letter with this id; with no such letter the
      store is returned unchanged. */
  function MarkAsRead(st: Store, id: string): (st': Store)
    ensures |st'| == |st|
    ensures (forall i :: 0 <= i < |st| ==> st[i].id != id) ==> st' == st
    ensures forall k :: FirstWithId(st, id, k) ==>
      st'[k] == st[k].(read := true) &&
      forall j :: 0 <= j < |st| && j != k ==> st'[j] == st[j]
  {
    match Seqs.FindIndex(st, (l: Letter) => l.id == id)
    case None => st
    case Some(k) => st[k := st[k].(read := true)]
  }

  /** Marking a letter read never clears a read flag and changes no other
      field of any letter. */
  lemma MarkAsReadOnlySetsRead(st: Store, id: string)
    ensures forall i :: 0 <= i < |st| ==>
      MarkAsRead(st, id)[i].(read := st[i].read) == st[i]
    ensures forall i :: 0 <= i < |st| && st[i].read ==> MarkAsRead(st, id)[i].read
  {
    var st' := MarkAsRead(st, id);
    match Seqs.FindIndex(st, (l: Letter) => l.id == id)
    case None =>
    case Some(k) =>
      assert FirstWithId(st, id, k);
  }

  /** Marking the same id twice has the effect of marking it once. */
  lemma {:induction false} MarkAsReadIdempotent(st: Store, id: string)
    ensures MarkAsRead(MarkAsRead(st, id), id) == MarkAsRead(st, id)
  {
    var st' := MarkAsRead(st, id);
    match Seqs.FindIndex(st, (l: Letter) => l.id == id)
    case None =>
    case Some(k) =>
      assert FirstWithId(st, id, k);
      assert FirstWithId(st', id, k);
      var st'' := MarkAsRead(st', id);
      assert |st''| == |st'|;
      forall i | 0 <= i < |st'|
        ensures st''[i] == st'[i]
      {
      }
  }

  lemma InboxCountAfterAppend(st: Store, l: Letter, u: string, x: Letter)
    ensures multiset(GetInbox(st + [l], u))[x] ==
      multiset(GetInbox(st, u))[x] + if l.to == u && x == l then 1 else 0
  {
    assert multiset(st + [l]) == multiset(st) + multiset{l};
  }

  /** Appending one letter adds it to the inbox of its recipient only. */
  lemma InboxAfterAppend(st: Store, l: Letter, u: string)
    ensures multiset(GetInbox(st + [l], u)) ==
      multiset(GetInbox(st, u)) + if l.to == u then multiset{l} else multiset{}
  {
    var a := multiset(GetInbox(st + [l], u));
    var c := multiset(GetInbox(st, u));
    var e := if l.to == u then multiset{l} else multiset{};
    forall x
      ensures a[x] == (c + e)[x]
    {
      InboxCountAfterAppend(st, l, u, x);
    }
    assert a == c + e;
  }

  lemma SentCountAfterAppend(st: Store, l: Letter, u: string, x: Letter)
    ensures multiset(GetSentLetters(st + [l], u))[x] ==
      multiset(GetSentLetters(st, u))[x] + if l.from == u && x == l then 1 else 0
  {
    assert multiset(st + [l]) == multiset(st) + multiset{l};
  }

  /** Appending one letter adds it to the sent view of its sender only. */
  lemma SentAfterAppend(st: Store, l: Letter, u: string)
    ensures multiset(GetSentLetters(st + [l], u)) ==
      multiset(GetSentLetters(st, u)) + if l.from == u then multiset{l} else multiset{}
  {
    var a := multiset(GetSentLetters(st + [l], u));
    var c := multiset(GetSentLetters(st, u));
    var e := if l.from == u then multiset{l} else multiset{};
    forall x
      ensures a[x] == (c + e)[x]
    {
      SentCountAfterAppend(st, l, u, x);
    }
    assert a == c + e;
  }

  /** A sent letter shows up in the sender's sent view and the recipient's
      inbox, and (between two different accounts) in neither the sender's
      inbox nor the recipient's sent view. Each view of the two parties
      gains exactly that one record; the views of everybody else are
      unchanged. */
  lemma SentLetterPlacement(st: Store, d: Draft, id: string, ts: int, w: string)
    ensures var st' := SendLetter(st, d, id, ts);
      var l := st'[|st|];
      && l in GetSentLetters(st', d.from)
      && l in GetInbox(st', d.to)
      && (d.from != d.to ==> l !in GetInbox(st', d.from) && l !in GetSentLetters(st', d.to))
      && multiset(GetInbox(st', d.to)) == multiset(GetInbox(st, d.to)) + multiset{l}
      && multiset(GetSentLetters(st', d.from)) == multiset(GetSentLetters(st, d.from)) + multiset{l}
      && (w != d.to ==> GetInbox(st', w) == GetInbox(st, w))
      && (w != d.from ==> GetSentLetters(st', w) == GetSentLetters(st, w))
  {
    var st' := SendLetter(st, d, id, ts);
    var l := st'[|st|];
    assert st' == st + [l];
    InboxAfterAppend(st, l, d.to);
    SentAfterAppend(st, l, d.from);
    assert l in multiset(GetInbox(st', d.to));
    assert l in multiset(GetSentLetters(st', d.from));
    if w != d.to {
      OtherViewUnchanged(st, l, Recipient, w);
    }
    if w != d.from {
      OtherViewUnchanged(st, l, Sender, w);
    }
  }

  /** Appending a letter whose party is not `w` leaves `w`'s selection, and
      so `w`'s view, exactly as it was. */
  lemma OtherViewUnchanged(st: Store, l: Letter, side: Side, w: string)
    requires Party(l, side) != w
    ensures Select(st + [l], side, w) == Select(st, side, w)
  {
    SelectAppend(st, [l], side, w);
    assert Select([l], side, w) == [];
    assert Select(st, side, w) + [] == Select(st, side, w);
  }

  lemma {:induction false} SelectAll(st: Store, side: Side, u: string)
    requires forall i :: 0 <= i < |st| ==> Party(st[i], side) == u
    ensures Select(st, side, u) == st
  {
    if st != [] {
      SelectAll(st[1..], side, u);
      assert st == [st[0]] + st[1..];
    }
  }

  /** Selection keeps stored order: selecting from two stretches of the
      store one after the other is selecting from the whole. */
  lemma {:induction false} SelectAppend(a: Store, b: Store, side: Side, u: string)
    ensures Select(a + b, side, u) == Select(a, side, u) + Select(b, side, u)
  {
    if a == [] {
      assert a + b == b;
    } else {
      var ab := a + b;
      assert ab[0] == a[0];
      assert ab[1..] == a[1..] + b;
      SelectAppend(a[1..], b, side, u);
      var tail := Select(a[1..], side, u) + Select(b, side, u);
      if Party(a[0], side) == u {
        calc {
          Select(ab, side, u);
          [a[0]] + Select(ab[1..], side, u);
          [a[0]] + tail;
          ([a[0]] + Select(a[1..], side, u)) + Select(b, side, u);
        }
      } else {
        calc {
          Select(ab, side, u);
          Select(ab[1..], side, u);
          tail;
        }
      }
    }
  }

  /** Selecting and then taking one timestamp's letters is taking that
      timestamp's letters and then selecting: the order the views keep for
      ties is the stored order. */
  lemma {:induction false} SelectAtTime(st: Store, side: Side, u: string, t: int)
    ensures AtTime(Select(st, side, u), t) == Select(AtTime(st, t), side, u)
  {
    if st != [] {
      SelectAtTime(st[1..], side, u, t);
      var h := if st[0].timestamp == t then [st[0]] else [];
      assert AtTime(st, t) == h + AtTime(st[1..], t);
      SelectAppend(h, AtTime(st[1..], t), side, u);
      var sel := Select(st[1..], side, u);
      if Party(st[0], side) == u {
        assert Select(st, side, u) == [st[0]] + sel;
        assert ([st[0]] + sel)[1..] == sel;
      }
    }
  }

  /** A selection from a store stamped in strictly increasing order is
      stamped in strictly increasing order. */
  lemma {:induction false} SelectIncreasing(st: Store, side: Side, u: string)
    requires StrictlyIncreasing(st)
    ensures StrictlyIncreasing(Select(st, side, u))
  {
    if st != [] {
      SelectIncreasing(st[1..], side, u);
      var rest := Select(st[1..], side, u);
      forall k | 0 <= k < |rest|
        ensures st[0].timestamp < rest[k].timestamp
      {
        assert rest[k] in multiset(rest);
        assert rest[k] in multiset(st[1..]);
        var j :| 0 <= j < |st[1..]| && st[1..][j] == rest[k];
        assert st[j + 1] == rest[k];
      }
      if Party(st[0], side) == u {
        ConsIncreasing(st[0], rest);
      }
    }
  }

  /** A letter stamped before every letter of an increasing run extends it. */
  lemma ConsIncreasing(x: Letter, rest: seq<Letter>)
    requires StrictlyIncreasing(rest)
    requires forall k :: 0 <= k < |rest| ==> x.timestamp < rest[k].timestamp
    ensures StrictlyIncreasing([x] + rest)
  {
    var r := [x] + rest;
    forall p, q | 0 <= p < q < |r|
      ensures r[p].timestamp < r[q].timestamp
    {
      assert r[q] == rest[q - 1];
      if p > 0 {
        assert r[p] == rest[p - 1];
      }
    }
  }

  /** Letters sent at strictly increasing instants are listed in each
      user's inbox in exactly the reverse of the order they were sent,
      whatever else the store holds. */
  lemma InboxOfIncreasingIsReversed(st: Store, u: string)
    requires StrictlyIncreasing(st)
    ensures GetInbox(st, u) == Reverse(Select(st, Recipient, u))
  {
    SelectIncreasing(st, Recipient, u);
    IncreasingSortsToReverse(Select(st, Recipient, u));
  }

  /** One letter sent to an empty store: the recipient's inbox holds just
      that letter, unread; after marking its id it is read. */
  lemma SendThenReadScenario(d: Draft, id: string, ts: int)
    ensures var st := SendLetter([], d, id, ts);
      && |GetInbox(st, d.to)| == 1
      && GetInbox(st, d.to)[0].subject == d.subject
      && !GetInbox(st, d.to)[0].read
      && GetInbox(MarkAsRead(st, id), d.to) == [GetInbox(st, d.to)[0].(read := true)]
  {
    var st := SendLetter([], d, id, ts);
    var l := st[0];
    assert st == [l];
    SelectAll(st, Recipient, d.to);
    assert GetInbox(st, d.to) == [l];
    var st' := MarkAsRead(st, id);
    assert FirstWithId(st, id, 0);
    assert st' == [l.(read := true)];
    SelectAll(st', Recipient, d.to);
  }
}
