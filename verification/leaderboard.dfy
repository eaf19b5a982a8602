/**
 The leaderboard update: append the new entry, sort with the three-level
 comparator, keep the first `Capacity` entries. Times are integer ticks
 compared exactly. The library sort the program calls is not stable, so the
 update is specified by `IsRankedTop`, which admits every order of entries
 the comparator cannot tell apart; `Update` is one such result.
 */
module Leaderboard {
  import opened Counting

  /** One completed session. */
  datatype Entry = Entry(name: string, totalAttempts: int, totalTime: int, score: int)

  /** The leaderboard keeps this many entries. */
  const Capacity: nat := 10

  /**
   The ranking comparator: `a` ranks strictly ahead of `b` with fewer
   attempts, then with less time, then with a higher score: the strict part of
   the lexicographic order `KeyLe` on what the comparator looks at.
   */
  function Ahead(a: Entry, b: Entry): (r: bool)
    ensures r <==> KeyLe(KeyOf(a), KeyOf(b)) && KeyOf(a) != KeyOf(b)
  {
    if a.totalAttempts != b.totalAttempts then a.totalAttempts < b.totalAttempts
    else if a.totalTime != b.totalTime then a.totalTime < b.totalTime
    else a.score > b.score
  }

  predicate NotBehind(a: Entry, b: Entry) { !Ahead(b, a) }

  /** Neither entry ranks ahead of the other. */
  predicate Tied(a: Entry, b: Entry) { !Ahead(a, b) && !Ahead(b, a) }

  /** What the comparator looks at. */
  datatype Key = Key(attempts: int, time: int, score: int)

  function KeyOf(e: Entry): Key { Key(e.totalAttempts, e.totalTime, e.score) }

  lemma TiedIffSameKey(a: Entry, b: Entry)
    ensures Tied(a, b) <==> KeyOf(a) == KeyOf(b)
  {
  }

  /**
   The comparator is a strict weak ordering, as the library sort requires:
   irreflexive, transitive, and ties are transitive too.
   */
  lemma AheadIsStrictWeakOrder(a: Entry, b: Entry, c: Entry)
    ensures !Ahead(a, a)
    ensures Ahead(a, b) && Ahead(b, c) ==> Ahead(a, c)
    ensures Tied(a, b) && Tied(b, c) ==> Tied(a, c)
  {
  }

  /** Scores break a tie in attempts and time, the higher score first. */
  lemma ScoreBreaksTie()
    ensures Ahead(Entry("p", 2, 5, 3), Entry("q", 2, 5, 1))
    ensures !Ahead(Entry("q", 2, 5, 1), Entry("p", 2, 5, 3))
  {
  }

  /** No entry is ranked ahead of an earlier one. */
  predicate Sorted(s: seq<Entry>)
  {
    forall i, j :: 0 <= i < j < |s| ==> NotBehind(s[i], s[j])
  }

  /** Place `e` before the first entry of `s` it is not behind. */
  function Insert(e: Entry, s: seq<Entry>): (r: seq<Entry>)
    ensures multiset(r) == multiset(s) + multiset{e}
    decreases |s|
  {
    if |s| == 0 then [e]
    else if NotBehind(e, s[0]) then [e] + s
    else
      assert s == [s[0]] + s[1..];
      [s[0]] + Insert(e, s[1..])
  }

  lemma ConsSorted(x: Entry, t: seq<Entry>)
    requires Sorted(t)
    requires forall j :: 0 <= j < |t| ==> NotBehind(x, t[j])
    ensures Sorted([x] + t)
  {
  }

  /** Inserting into a sorted sequence keeps it sorted. */
  lemma {:induction false} InsertSorted(e: Entry, s: seq<Entry>)
    requires Sorted(s)
    ensures Sorted(Insert(e, s))
    decreases |s|
  {
    if |s| > 0 {
      if NotBehind(e, s[0]) {
        ConsSorted(e, s);
      } else {
        InsertSorted(e, s[1..]);
        InsertKeepsBound(s[0], e, s[1..]);
        ConsSorted(s[0], Insert(e, s[1..]));
      }
    }
  }

  /** An entry not behind `e` and not behind any entry of `s` is not behind any entry of the insertion. */
  lemma InsertKeepsBound(x: Entry, e: Entry, s: seq<Entry>)
    requires NotBehind(x, e)
    requires forall j :: 0 <= j < |s| ==> NotBehind(x, s[j])
    ensures forall j :: 0 <= j < |Insert(e, s)| ==> NotBehind(x, Insert(e, s)[j])
  {
    var r := Insert(e, s);
    forall j | 0 <= j < |r|
      ensures NotBehind(x, r[j])
    {
      assert r[j] in multiset(r);
      if r[j] != e {
        assert r[j] in multiset(s);
      }
    }
  }

  /** Insertion sort under the ranking comparator. */
  function SortEntries(s: seq<Entry>): (r: seq<Entry>)
    ensures Sorted(r)
    ensures multiset(r) == multiset(s)
    decreases |s|
  {
    if |s| == 0 then []
    else
      assert s == [s[0]] + s[1..];
      InsertSorted(s[0], SortEntries(s[1..]));
      Insert(s[0], SortEntries(s[1..]))
  }

  /** The first `Capacity` entries, or all of them when there are fewer. */
  function Top(s: seq<Entry>): (r: seq<Entry>)
    ensures |r| == if |s| < Capacity then |s| else Capacity
    ensures r == s[..|r|]
  {
    if |s| > Capacity then s[..Capacity] else s
  }

  /**
   `r` is what sorting `all` with the ranking comparator and keeping the first
   `Capacity` entries may produce, whatever order the sort leaves ties in.
   */
  ghost predicate IsRankedTop(all: seq<Entry>, r: seq<Entry>)
  {
    exists p :: Sorted(p) && multiset(p) == multiset(all) && r == Top(p)
  }

  /** The leaderboard after a session: the loaded entries plus the new one, ranked and cut. */
  function Update(board: seq<Entry>, e: Entry): (r: seq<Entry>)
    ensures IsRankedTop(board + [e], r)
    ensures |r| <= Capacity && Sorted(r)
  {
    var sorted := SortEntries(board + [e]);
    Top(sorted)
  }

  /** A ranked top has the expected length, is sorted, and holds only entries of `all`. */
  lemma RankedTopShape(all: seq<Entry>, r: seq<Entry>)
    requires IsRankedTop(all, r)
    ensures |r| == if |all| < Capacity then |all| else Capacity
    ensures Sorted(r)
    ensures multiset(r) <= multiset(all)
  {
    var p :| Sorted(p) && multiset(p) == multiset(all) && r == Top(p);
    assert |p| == |all| by {
      assert |p| == |multiset(p)| && |all| == |multiset(all)|;
    }
    PrefixRemainder(p, |r|);
  }

  /** Every entry cut from the board ranks no better than every entry kept. */
  lemma {:induction false} RankedTopKeepsBest(all: seq<Entry>, r: seq<Entry>)
    requires IsRankedTop(all, r)
    ensures forall x, y :: x in multiset(all) - multiset(r) && y in r ==> NotBehind(y, x)
  {
    var p :| Sorted(p) && multiset(p) == multiset(all) && r == Top(p);
    PrefixRemainder(p, |r|);
    SortedPrefixFirst(p, |r|);
  }

  lemma PrefixRemainder(p: seq<Entry>, k: nat)
    requires k <= |p|
    ensures multiset(p) - multiset(p[..k]) == multiset(p[k..])
    ensures multiset(p[..k]) <= multiset(p)
    ensures Sorted(p) ==> Sorted(p[..k])
  {
    assert p == p[..k] + p[k..];
  }

  /** In a sorted sequence no entry after position `k` ranks ahead of one before it. */
  lemma SortedPrefixFirst(p: seq<Entry>, k: nat)
    requires Sorted(p) && k <= |p|
    ensures forall x, y :: x in multiset(p[k..]) && y in p[..k] ==> NotBehind(y, x)
  {
    forall x, y | x in multiset(p[k..]) && y in p[..k]
      ensures NotBehind(y, x)
    {
      var j :| k <= j < |p| && p[j] == x by {
        assert x in p[k..];
      }
      var i :| 0 <= i < k && p[i] == y;
    }
  }

  /** Entries ranked strictly ahead of `e`. */
  function AheadOf(e: Entry): Entry -> bool { x => Ahead(x, e) }

  /** Entries ranked ahead of `e` or tied with it. */
  function NotBehindOf(e: Entry): Entry -> bool { x => NotBehind(x, e) }

  /** Counting over a permutation of the loaded entries plus `e`. */
  lemma CountWithNewEntry(p: seq<Entry>, board: seq<Entry>, e: Entry, f: Entry -> bool)
    requires multiset(p) == multiset(board + [e])
    ensures Count(p, f) == Count(board, f) + (if f(e) then 1 else 0)
  {
    CountPermutation(p, board + [e], f);
    CountConcat(board, [e], f);
    assert [e][1..] == [];
  }

  /** In a sorted sequence, only entries before a copy of `e` can rank strictly ahead of it. */
  lemma {:induction false} AheadOnlyBefore(p: seq<Entry>, i: nat, e: Entry)
    requires Sorted(p) && i < |p| && p[i] == e
    ensures Count(p, AheadOf(e)) <= i
  {
    CountNone(p[i..], AheadOf(e));
    assert p == p[..i] + p[i..];
    CountConcat(p[..i], p[i..], AheadOf(e));
  }

  /** In a sorted sequence, `e` at position `j` has at least `k + 1` entries not behind it when `k <= j`. */
  lemma {:induction false} NotBehindUpTo(p: seq<Entry>, k: nat, j: nat, e: Entry)
    requires Sorted(p) && k <= j < |p| && p[j] == e
    ensures Count(p, NotBehindOf(e)) >= k + 1
  {
    CountAll(p[..k], NotBehindOf(e));
    assert p[k..][j - k] == e;
    CountMember(p[k..], j - k, NotBehindOf(e));
    assert p == p[..k] + p[k..];
    CountConcat(p[..k], p[k..], NotBehindOf(e));
  }

  /**
   The new entry is kept when fewer than `Capacity` loaded entries rank
   ahead of it or tie with it, whatever order the sort leaves ties in.
   */
  lemma {:induction false} NewEntrySurvives(board: seq<Entry>, e: Entry, r: seq<Entry>)
    requires IsRankedTop(board + [e], r)
    requires Count(board, NotBehindOf(e)) < Capacity
    ensures e in r
  {
    var p :| Sorted(p) && multiset(p) == multiset(board + [e]) && r == Top(p);
    assert e in multiset(p);
    var j :| 0 <= j < |p| && p[j] == e;
    if j >= Capacity {
      NotBehindUpTo(p, Capacity, j, e);
      CountWithNewEntry(p, board, e, NotBehindOf(e));
      assert false;
    }
    assert r[j] == e;
  }

  /**
   The new entry is dropped when `Capacity` or more loaded entries rank
   strictly ahead of it.
   */
  lemma {:induction false} NewEntryDropped(board: seq<Entry>, e: Entry, r: seq<Entry>)
    requires IsRankedTop(board + [e], r)
    requires Count(board, AheadOf(e)) >= Capacity
    ensures e !in r
  {
    var p :| Sorted(p) && multiset(p) == multiset(board + [e]) && r == Top(p);
    if e in r {
      var i :| 0 <= i < |r| && r[i] == e;
      AheadOnlyBefore(p, i, e);
      CountWithNewEntry(p, board, e, AheadOf(e));
      assert false;
    }
  }

  /**
   With no loaded entry tied with it, the new entry survives exactly when
   fewer than `Capacity` loaded entries rank strictly ahead of it.
   */
  lemma {:induction false} NewEntrySurvivesIff(board: seq<Entry>, e: Entry, r: seq<Entry>)
    requires IsRankedTop(board + [e], r)
    requires forall i :: 0 <= i < |board| ==> !Tied(board[i], e)
    ensures e in r <==> Count(board, AheadOf(e)) < Capacity
  {
    CountCongruent(board, AheadOf(e), NotBehindOf(e));
    if Count(board, AheadOf(e)) < Capacity {
      NewEntrySurvives(board, e, r);
    } else {
      NewEntryDropped(board, e, r);
    }
  }

  /** An entry ranked strictly ahead of every loaded entry heads the new board. */
  lemma {:induction false} LeaderGoesFirst(board: seq<Entry>, e: Entry, r: seq<Entry>)
    requires IsRankedTop(board + [e], r)
    requires forall i :: 0 <= i < |board| ==> Ahead(e, board[i])
    ensures |r| > 0 && r[0] == e
  {
    CountNone(board, NotBehindOf(e));
    NewEntrySurvives(board, e, r);
    RankedTopShape(board + [e], r);
    var first := r[0];
    assert first in multiset(board + [e]);
    assert first == e || first in board;
  }

  /** The comparator keys of a sequence of entries, in order. */
  function KeysOf(s: seq<Entry>): (ks: seq<Key>)
    ensures |ks| == |s|
    ensures forall i :: 0 <= i < |s| ==> ks[i] == KeyOf(s[i])
  {
    seq(|s|, i requires 0 <= i < |s| => KeyOf(s[i]))
  }

  /** The ranking comparator read on keys: `a` is not behind `b`. */
  predicate KeyLe(a: Key, b: Key)
  {
    || a.attempts < b.attempts
    || (a.attempts == b.attempts && (a.time < b.time || (a.time == b.time && a.score >= b.score)))
  }

  predicate KeysSorted(ks: seq<Key>)
  {
    forall i, j :: 0 <= i < j < |ks| ==> KeyLe(ks[i], ks[j])
  }

  /** Removing the entry at `i` removes one occurrence of its key. */
  lemma KeysOfRemoveOne(t: seq<Entry>, i: nat)
    requires i < |t|
    ensures multiset(KeysOf(t)) == multiset(KeysOf(t[..i] + t[i + 1..])) + multiset{KeyOf(t[i])}
  {
    var ks := KeysOf(t);
    assert KeysOf(t[..i] + t[i + 1..]) == ks[..i] + ks[i + 1..];
    RemoveOne(ks, i);
  }

  lemma {:induction false} KeysOfPermutation(s: seq<Entry>, t: seq<Entry>)
    requires multiset(s) == multiset(t)
    ensures multiset(KeysOf(s)) == multiset(KeysOf(t))
    decreases |s|
  {
    if |s| == 0 {
      assert |t| == |multiset(t)|;
    } else {
      var i := MatchTail(s, t);
      var rest := t[..i] + t[i + 1..];
      KeysOfPermutation(s[1..], rest);
      KeysOfRemoveOne(t, i);
      KeysOfCons(s);
    }
  }

  lemma KeysOfCons(s: seq<Entry>)
    requires |s| > 0
    ensures multiset(KeysOf(s)) == multiset{KeyOf(s[0])} + multiset(KeysOf(s[1..]))
  {
    var ks := KeysOf(s);
    assert ks == [ks[0]] + ks[1..];
    assert ks[1..] == KeysOf(s[1..]);
  }

  /** The first of a sorted sequence of keys is not behind any of them. */
  lemma SortedHeadFirst(a: seq<Key>, k: Key)
    requires KeysSorted(a) && k in multiset(a)
    ensures KeyLe(a[0], k)
  {
    var j :| 0 <= j < |a| && a[j] == k;
    if j > 0 {
      assert KeyLe(a[0], a[j]);
    }
  }

  lemma SortedTail(a: seq<Key>)
    requires |a| > 0 && KeysSorted(a)
    ensures KeysSorted(a[1..])
  {
    forall i, j | 0 <= i < j < |a| - 1
      ensures KeyLe(a[1..][i], a[1..][j])
    {
      assert a[1..][i] == a[i + 1] && a[1..][j] == a[j + 1];
    }
  }

  /** Two sorted sequences of keys with the same elements are equal. */
  lemma {:induction false} SortedKeysUnique(a: seq<Key>, b: seq<Key>)
    requires KeysSorted(a) && KeysSorted(b) && multiset(a) == multiset(b)
    ensures a == b
    decreases |a|
  {
    assert |a| == |multiset(a)| == |multiset(b)| == |b|;
    if |a| > 0 {
      SortedHeadFirst(b, a[0]);
      SortedHeadFirst(a, b[0]);
      SameTails(a, b);
      SortedKeysUnique(a[1..], b[1..]);
    }
  }

  lemma SameTails(a: seq<Key>, b: seq<Key>)
    requires |a| > 0 && |b| > 0 && a[0] == b[0]
    requires KeysSorted(a) && KeysSorted(b) && multiset(a) == multiset(b)
    ensures KeysSorted(a[1..]) && KeysSorted(b[1..])
    ensures multiset(a[1..]) == multiset(b[1..])
    ensures a == [a[0]] + a[1..] && b == [b[0]] + b[1..]
  {
    SortedTail(a);
    SortedTail(b);
    assert a == [a[0]] + a[1..] && b == [b[0]] + b[1..];
    assert multiset(a[1..]) == multiset(a) - multiset{a[0]};
    assert multiset(b[1..]) == multiset(b) - multiset{b[0]};
  }

  /**
   Any two results the unstable sort may produce agree position by position
   up to ties: only the order of entries with equal attempts, time and score
   is left open.
   */
  lemma {:induction false} RankedTopUniqueUpToTies(all: seq<Entry>, r1: seq<Entry>, r2: seq<Entry>)
    requires IsRankedTop(all, r1) && IsRankedTop(all, r2)
    ensures |r1| == |r2|
    ensures forall i :: 0 <= i < |r1| ==> Tied(r1[i], r2[i])
  {
    var p1 :| Sorted(p1) && multiset(p1) == multiset(all) && r1 == Top(p1);
    var p2 :| Sorted(p2) && multiset(p2) == multiset(all) && r2 == Top(p2);
    assert |p1| == |multiset(all)| == |p2|;
    KeysOfPermutation(p1, p2);
    SortedKeysUnique(KeysOf(p1), KeysOf(p2));
    forall i | 0 <= i < |r1|
      ensures Tied(r1[i], r2[i])
    {
      assert KeyOf(p1[i]) == KeyOf(p2[i]);
      TiedIffSameKey(r1[i], r2[i]);
    }
  }

  /** Two tied entries may come out in either order. */
  lemma TiesMayGoEitherWay()
    ensures IsRankedTop([Entry("ann", 2, 5, 3), Entry("bob", 2, 5, 3)], [Entry("ann", 2, 5, 3), Entry("bob", 2, 5, 3)])
    ensures IsRankedTop([Entry("ann", 2, 5, 3), Entry("bob", 2, 5, 3)], [Entry("bob", 2, 5, 3), Entry("ann", 2, 5, 3)])
  {
    var ann, bob := Entry("ann", 2, 5, 3), Entry("bob", 2, 5, 3);
    assert Sorted([ann, bob]) && Top([ann, bob]) == [ann, bob];
    assert Sorted([bob, ann]) && Top([bob, ann]) == [bob, ann];
    assert multiset([bob, ann]) == multiset([ann, bob]);
  }

  function Abs(x: int): nat { if x < 0 then -x else x }

  /**
   The comparator as the program writes it, with times that differ by at most
   `tolerance` ticks treated as equal. It agrees with the exact comparator
   except on entries with equal attempts whose times differ, by at most
   `tolerance`: those are ranked by score alone.
   */
  function ToleranceAhead(a: Entry, b: Entry, tolerance: nat): (r: bool)
    ensures (a.totalAttempts != b.totalAttempts || Abs(a.totalTime - b.totalTime) > tolerance
             || a.totalTime == b.totalTime) ==> (r <==> Ahead(a, b))
    ensures a.totalAttempts == b.totalAttempts && Abs(a.totalTime - b.totalTime) <= tolerance ==>
      (r <==> a.score > b.score)
  {
    if a.totalAttempts != b.totalAttempts then a.totalAttempts < b.totalAttempts
    else if Abs(a.totalTime - b.totalTime) > tolerance then a.totalTime < b.totalTime
    else a.score > b.score
  }

  /** With no tolerance the written comparator is the exact one. */
  lemma ZeroToleranceIsExact(a: Entry, b: Entry)
    ensures ToleranceAhead(a, b, 0) == Ahead(a, b)
  {
  }

  /**
   Three entries with equal attempts whose times are `tolerance` ticks apart,
   and whose scores rise against the order of their times.
   */
  function CycleEntries(tolerance: nat): (es: seq<Entry>)
    ensures |es| == 3
  {
    [Entry("a", 1, 0, 1), Entry("b", 1, 2 * tolerance, 3), Entry("c", 1, tolerance, 2)]
  }

  /**
   With any positive tolerance the written comparator has a cycle: the first
   of `CycleEntries` ranks ahead of the second, the second ahead of the third,
   and the third ahead of the first.
   */
  lemma ToleranceComparatorCycles(tolerance: nat)
    requires tolerance > 0
    ensures
      var es := CycleEntries(tolerance);
      ToleranceAhead(es[0], es[1], tolerance) && ToleranceAhead(es[1], es[2], tolerance)
      && ToleranceAhead(es[2], es[0], tolerance)
  {
  }

  /** No entry is ranked ahead of an earlier one by the written comparator. */
  predicate ToleranceSorted(s: seq<Entry>, tolerance: nat)
  {
    forall i, j :: 0 <= i < j < |s| ==> !ToleranceAhead(s[j], s[i], tolerance)
  }

  /**
   Because of the cycle, no arrangement of `CycleEntries` is sorted by the
   written comparator, so the sort cannot deliver the ordering it is asked for.
   */
  lemma {:induction false} ToleranceCycleCannotBeSorted(tolerance: nat, p: seq<Entry>)
    requires tolerance > 0
    requires multiset(p) == multiset(CycleEntries(tolerance))
    ensures !ToleranceSorted(p, tolerance)
  {
    var es := CycleEntries(tolerance);
    ToleranceComparatorCycles(tolerance);
    assert |p| == 3 by {
      assert |p| == |multiset(p)| && |es| == |multiset(es)|;
    }
    var first := p[0];
    assert first in multiset(es);
    var k :| 0 <= k < 3 && es[k] == first;
    // the entry of the cycle that ranks ahead of `first`
    var ahead := es[(k + 2) % 3];
    assert ahead != first;
    assert ahead in multiset(p);
    var j :| 0 <= j < |p| && p[j] == ahead;
    assert 0 < j && ToleranceAhead(p[j], p[0], tolerance);
  }
}
