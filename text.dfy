/// Substring search, as `std::string::find(...) != npos` (or `contains`) uses it
/// in the label and folder heuristics of both credential-store clients.
module Text {

  /** `p` occurs in `s` starting at position `i`. */
  predicate OccursAt(s: string, p: string, i: int)
  {
    0 <= i <= |s| - |p| && s[i..i + |p|] == p
  }

  /** `s.find(p) != std::string::npos`: `p` starts `s`, or occurs in what follows its
      first character. */
  predicate Contains(s: string, p: string)
    decreases |s|
  {
    |p| <= |s| && (s[..|p|] == p || Contains(s[1..], p))
  }

  /** The recursive test agrees with "`p` occurs at some position of `s`". */
  lemma {:induction false} ContainsIffOccurs(s: string, p: string)
    ensures Contains(s, p) <==> exists i :: OccursAt(s, p, i)
    decreases |s|
  {
    if |p| <= |s| {
      if s[..|p|] == p {
        assert OccursAt(s, p, 0);
      } else {
        ContainsIffOccurs(s[1..], p);
        if Contains(s[1..], p) {
          var i :| OccursAt(s[1..], p, i);
          assert s[1..][i..i + |p|] == s[i + 1..i + 1 + |p|];
          assert OccursAt(s, p, i + 1);
        }
        if exists i :: OccursAt(s, p, i) {
          var i :| OccursAt(s, p, i);
          assert i > 0;
          assert s[1..][i - 1..i - 1 + |p|] == s[i..i + |p|];
          assert OccursAt(s[1..], p, i - 1);
        }
      }
    }
  }

  /** `s.find(p, from)`: the first position at or after `from` where `p` occurs, scanning
      left to right, or -1 for `npos`. */
  function Find(s: string, p: string, from: nat): (r: int)
    ensures r == -1 || (from <= r && OccursAt(s, p, r))
    ensures forall j :: from <= j && (r == -1 || j < r) ==> !OccursAt(s, p, j)
    decreases |s| - from
  {
    if from + |p| > |s| then -1
    else if s[from..from + |p|] == p then from
    else Find(s, p, from + 1)
  }

  /** The search from the start succeeds exactly when `p` occurs in `s`. */
  lemma FindAgreesWithContains(s: string, p: string)
    ensures Find(s, p, 0) != -1 <==> Contains(s, p)
  {
    ContainsIffOccurs(s, p);
    if Find(s, p, 0) != -1 {
      assert OccursAt(s, p, Find(s, p, 0));
    }
  }

  lemma ContainsSelf(p: string)
    ensures Contains(p, p)
  {
    assert p[..|p|] == p;
  }

  /** Text appended after a string keeps what it holds. */
  lemma {:induction false} ContainsLeft(x: string, y: string, p: string)
    requires Contains(x, p)
    ensures Contains(x + y, p)
    decreases |x|
  {
    assert (x + y)[..|p|] == x[..|p|];
    if x[..|p|] != p {
      ContainsLeft(x[1..], y, p);
      assert (x + y)[1..] == x[1..] + y;
    }
  }

  /** Text prepended before a string keeps what it holds. */
  lemma {:induction false} ContainsRight(x: string, y: string, p: string)
    requires Contains(y, p)
    ensures Contains(x + y, p)
    decreases |x|
  {
    if x == [] {
      assert x + y == y;
    } else {
      ContainsRight(x[1..], y, p);
      assert (x + y)[1..] == x[1..] + y;
    }
  }

  /** A string lacking the first character of `p` does not hold `p`. */
  lemma {:induction false} MissingFirstChar(s: string, p: string)
    requires |p| > 0 && forall i :: 0 <= i < |s| ==> s[i] != p[0]
    ensures !Contains(s, p)
    decreases |s|
  {
    if |p| <= |s| {
      assert s[..|p|][0] != p[0];
      TailLacks(s, p[0]);
      MissingFirstChar(s[1..], p);
    }
  }

  lemma TailLacks(s: string, c: char)
    requires |s| > 0 && forall i :: 1 <= i < |s| ==> s[i] != c
    ensures forall i :: 0 <= i < |s[1..]| ==> s[1..][i] != c
  {
    forall i | 0 <= i < |s[1..]|
      ensures s[1..][i] != c
    {
      assert s[1..][i] == s[i + 1];
    }
  }

  /** A string whose second character differs from that of `p`, and which holds the first
      character of `p` at most at its head, does not hold `p`. */
  lemma NotHeadThenMissing(s: string, p: string)
    requires |s| >= 2 && |p| >= 2 && s[1] != p[1]
    requires forall i :: 1 <= i < |s| ==> s[i] != p[0]
    ensures !Contains(s, p)
  {
    if |p| <= |s| {
      assert s[..|p|][1] != p[1];
    }
    TailLacks(s, p[0]);
    MissingFirstChar(s[1..], p);
  }
}
