/// Generic facts about sequences that the trace and rendering proofs use to regroup
/// concatenations and to locate elements in them.
module Seqs {

  // Regrouping concatenations.

  lemma Associate<T>(a: seq<T>, b: seq<T>, c: seq<T>)
    ensures a + (b + c) == a + b + c
  {
  }

  lemma ConsTwo<T>(a: T, b: T, rest: seq<T>)
    ensures [a] + ([b] + rest) == [a, b] + rest
  {
  }

  lemma RegroupThree<T>(a: T, b: T, c: T, rest: seq<T>)
    ensures [a] + ([b] + ([c] + rest)) == [a, b, c] + rest
  {
  }

  lemma RegroupAroundRun<T>(a: T, b: T, p: seq<T>, c: T, d: T, rest: seq<T>)
    ensures [a] + ([b] + (p + [c] + ([d] + rest))) == [a, b] + p + [c, d] + rest
  {
  }

  lemma AppendPair<T>(a: seq<T>, x: T, y: T)
    ensures a + [x] + [y] == a + [x, y]
  {
  }

  lemma AppendTwo<T>(a: seq<T>, x: T, y: T, rest: seq<T>)
    ensures a + [x] + [y] + rest == a + ([x] + ([y] + rest))
  {
  }

  lemma StagesThenConcat<T>(t: seq<T>, a: T, afterA: seq<T>, b: T, afterB: seq<T>, p: seq<T>, rest: seq<T>)
    requires t == [a] + afterA && afterA == [b] + afterB && afterB == p + rest
    ensures t == [a, b] + p + rest
  {
  }

lemma DropEmptyEnds<T>(e: seq<T>, a: seq<T>, b: seq<T>, c: seq<T>, k: seq<T>, d: seq<T>, f: seq<T>)
    requires e == [] && f == []
    ensures e + a + b + c + k + d + f == a + b + c + k + d
  {
  }

  // The head and the end of a concatenation.

  lemma HeadOfConcat<T>(t: seq<T>, head: seq<T>, rest: seq<T>)
    requires t == head + rest
    ensures |t| >= |head| && t[..|head|] == head
  {
  }

  lemma PrefixOfConcat<T>(a: seq<T>, b: seq<T>)
    ensures (a + b)[..|a|] == a
  {
  }

  lemma LastOne<T>(a: seq<T>, b: seq<T>, x: T)
    ensures var t := a + (b + [x]); |t| >= 1 && t[|t| - 1] == x
  {
  }

  lemma LastTwo<T>(a: seq<T>, b: seq<T>, x: T, y: T)
    ensures var t := a + (b + [x, y]); |t| >= 2 && t[|t| - 2..] == [x, y]
  {
    var t := a + (b + [x, y]);
    assert t[|t| - 2..] == [t[|t| - 2], t[|t| - 1]];
  }

  lemma EndsWithPair<T>(a: seq<T>, b: seq<T>, x: T, y: T)
    ensures var t := a + b + [x, y];
            x in t && y in t && |t| >= 2 && t[|t| - 2..] == [x, y]
  {
    var t := a + b + [x, y];
    assert t[|t| - 2] == x;
  }

  // Membership.

  lemma InLeft<T>(p: seq<T>, q: seq<T>, x: T)
    requires x in p
    ensures x in p + q
  {
  }

  lemma InRight<T>(p: seq<T>, q: seq<T>, j: nat)
    requires j < |q|
    ensures q[j] in p + q
  {
    assert (p + q)[|p| + j] == q[j];
  }

  lemma AbsentFromBoth<T>(a: seq<T>, b: seq<T>, x: T)
    requires x !in a && x !in b
    ensures x !in a + b
  {
  }

  lemma AbsentFromPrefix<T>(s: seq<T>, n: nat, x: T)
    requires n <= |s| && x !in s
    ensures x !in s[..n]
  {
  }

  lemma PrefixMembers<T>(s: seq<T>, p: seq<T>)
    requires |p| <= |s| && p == s[..|p|]
    ensures forall x :: x in p ==> x in s
  {
    forall x | x in p
      ensures x in s
    {
      var i :| 0 <= i < |p| && p[i] == x;
      assert s[i] == x;
    }
  }
}
