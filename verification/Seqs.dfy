/** Sequences of numbers without repetition. */
module Seqs {
  ghost predicate Distinct(s: seq<nat>) {
    forall i, j :: 0 <= i < j < |s| ==> s[i] != s[j]
  }

  /** The sequence without its first x. */
  function Remove(s: seq<nat>, x: nat): seq<nat> {
    if s == [] then [] else if s[0] == x then s[1..] else [s[0]] + Remove(s[1..], x)
  }

  lemma {:induction false} RemoveFacts(s: seq<nat>, x: nat)
    requires Distinct(s)
    ensures Distinct(Remove(s, x)) && forall y :: y in Remove(s, x) <==> y in s && y != x
  {
    if s != [] {
      assert s == [s[0]] + s[1..];
      RemoveFacts(s[1..], x);
      assert forall y :: y in s <==> y == s[0] || y in s[1..];
      assert s[0] !in s[1..];
    }
  }

  ghost function Below(n: nat): (r: set<nat>)
    ensures |r| == n && forall i: nat :: i in r <==> i < n
  {
    if n == 0 then {} else Below(n - 1) + {n - 1}
  }

  ghost function Members(s: seq<nat>): set<nat> {
    set x | x in s
  }

  lemma {:induction false} MembersSize(s: seq<nat>)
    requires Distinct(s)
    ensures |Members(s)| == |s|
  {
    if s != [] {
      MembersSize(s[1..]);
      assert s == [s[0]] + s[1..];
      assert Members(s) == {s[0]} + Members(s[1..]) && s[0] !in s[1..];
    }
  }

  lemma SubsetSize(s: set<nat>, t: set<nat>)
    requires s <= t
    ensures |s| <= |t| && (|s| == |t| ==> s == t)
  {
    assert t == s + (t - s);
  }

  /** A chain of distinct slots that has one less than all of them, and not k, has all but k. */
  lemma AllButOne(chain: seq<nat>, n: nat, k: nat)
    requires Distinct(chain) && k < n && k !in chain && forall x :: x in chain ==> x < n
    ensures |chain| < n && (|chain| == n - 1 <==> forall i :: 0 <= i < n && i != k ==> i in chain)
  {
    MembersSize(chain);
    var rest := Below(n) - {k};
    assert |rest| == n - 1;
    SubsetSize(Members(chain), rest);
    if |chain| == n - 1 {
      forall i | 0 <= i < n && i != k
        ensures i in chain
      {
        assert i in rest && i in Members(chain);
      }
    }
    if forall i :: 0 <= i < n && i != k ==> i in chain {
      SubsetSize(rest, Members(chain));
    }
  }

  /** A chain with fewer than n of the slots leaves one out. */
  lemma SomeLeft(chain: seq<nat>, n: nat)
    requires Distinct(chain) && |chain| < n
    ensures exists i :: 0 <= i < n && i !in chain
  {
    if forall i :: 0 <= i < n ==> i in chain {
      MembersSize(chain);
      SubsetSize(Below(n), Members(chain));
    }
  }
}
