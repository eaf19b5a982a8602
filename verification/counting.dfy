/**
 Counting and summing over sequences: the reference definitions that the
 session statistics and the leaderboard properties are stated against.
 */
module Counting {

  /** Number of elements of `s` that satisfy `p`. */
  function Count<T>(s: seq<T>, p: T -> bool): (n: nat)
    ensures n <= |s|
  {
    if |s| == 0 then 0 else (if p(s[0]) then 1 else 0) + Count(s[1..], p)
  }

  /** Sum of a sequence of natural numbers. */
  function Sum(s: seq<nat>): nat
  {
    if |s| == 0 then 0 else s[0] + Sum(s[1..])
  }

  lemma {:induction false} CountConcat<T>(s: seq<T>, t: seq<T>, p: T -> bool)
    ensures Count(s + t, p) == Count(s, p) + Count(t, p)
    decreases |s|
  {
    if |s| == 0 {
      assert s + t == t;
    } else {
      assert (s + t)[1..] == s[1..] + t;
      CountConcat(s[1..], t, p);
    }
  }

  lemma {:induction false} SumConcat(s: seq<nat>, t: seq<nat>)
    ensures Sum(s + t) == Sum(s) + Sum(t)
    decreases |s|
  {
    if |s| == 0 {
      assert s + t == t;
    } else {
      assert (s + t)[1..] == s[1..] + t;
      SumConcat(s[1..], t);
    }
  }

  /** Removing the element at `i` removes one occurrence of it from the multiset. */
  lemma RemoveOne<T>(t: seq<T>, i: nat)
    requires i < |t|
    ensures t == t[..i] + [t[i]] + t[i + 1..]
    ensures multiset(t[..i] + t[i + 1..]) == multiset(t) - multiset{t[i]}
  {
    assert t == t[..i] + [t[i]] + t[i + 1..];
    assert multiset(t) == multiset(t[..i]) + multiset{t[i]} + multiset(t[i + 1..]);
  }

  /** Removing the element at `i` lowers the count by one exactly when that element satisfies `p`. */
  lemma CountRemoveOne<T>(t: seq<T>, i: nat, p: T -> bool)
    requires i < |t|
    ensures Count(t, p) == Count(t[..i] + t[i + 1..], p) + (if p(t[i]) then 1 else 0)
  {
    CountAround(t, i, p);
    CountConcat(t[..i], t[i + 1..], p);
  }

  /** The count splits into the part before `i`, the element at `i`, and the part after it. */
  lemma {:induction false} CountAround<T>(t: seq<T>, i: nat, p: T -> bool)
    requires i < |t|
    ensures Count(t, p) == Count(t[..i], p) + (if p(t[i]) then 1 else 0) + Count(t[i + 1..], p)
    decreases i
  {
    if i > 0 {
      CountAround(t[1..], i - 1, p);
      assert t[1..][..i - 1] == t[..i][1..];
      assert t[1..][i..] == t[i + 1..];
    }
  }

  /** Counting does not depend on the order of the elements. */
  lemma {:induction false} CountPermutation<T>(s: seq<T>, t: seq<T>, p: T -> bool)
    requires multiset(s) == multiset(t)
    ensures Count(s, p) == Count(t, p)
    decreases |s|
  {
    if |s| == 0 {
      assert |t| == |multiset(t)|;
    } else {
      var i := MatchTail(s, t);
      CountPermutation(s[1..], t[..i] + t[i + 1..], p);
      CountRemoveOne(t, i, p);
    }
  }

  /**
   For equal multisets, the first element of `s` sits at some index `i` of
   `t`, and what remains of both sides still has equal multisets.
   */
  lemma MatchTail<T>(s: seq<T>, t: seq<T>) returns (i: nat)
    requires |s| > 0 && multiset(s) == multiset(t)
    ensures i < |t| && t[i] == s[0]
    ensures multiset(s[1..]) == multiset(t[..i] + t[i + 1..])
  {
    assert s[0] in multiset(t);
    i :| 0 <= i < |t| && t[i] == s[0];
    RemoveOne(t, i);
    assert s == [s[0]] + s[1..];
  }

  /** Two predicates that agree on the elements of `s` count the same. */
  lemma {:induction false} CountCongruent<T>(s: seq<T>, p: T -> bool, q: T -> bool)
    requires forall i :: 0 <= i < |s| ==> p(s[i]) == q(s[i])
    ensures Count(s, p) == Count(s, q)
    decreases |s|
  {
    if |s| > 0 {
      CountCongruent(s[1..], p, q);
    }
  }

  lemma {:induction false} CountAll<T>(s: seq<T>, p: T -> bool)
    requires forall i :: 0 <= i < |s| ==> p(s[i])
    ensures Count(s, p) == |s|
    decreases |s|
  {
    if |s| > 0 {
      CountAll(s[1..], p);
    }
  }

  lemma {:induction false} CountNone<T>(s: seq<T>, p: T -> bool)
    requires forall i :: 0 <= i < |s| ==> !p(s[i])
    ensures Count(s, p) == 0
    decreases |s|
  {
    if |s| > 0 {
      CountNone(s[1..], p);
    }
  }

  lemma {:induction false} CountMember<T>(s: seq<T>, i: nat, p: T -> bool)
    requires i < |s| && p(s[i])
    ensures Count(s, p) >= 1
  {
    assert s == s[..i] + [s[i]] + s[i + 1..];
    CountConcat(s[..i] + [s[i]], s[i + 1..], p);
    CountConcat(s[..i], [s[i]], p);
  }

  lemma {:induction false} SumConstant(s: seq<nat>, c: nat)
    requires forall i :: 0 <= i < |s| ==> s[i] == c
    ensures Sum(s) == c * |s|
    decreases |s|
  {
    if |s| > 0 {
      SumConstant(s[1..], c);
    }
  }
}
