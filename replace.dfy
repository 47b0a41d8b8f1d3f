/**
 * Literal replace-all, as Python's `str.replace(target, replacement)` does it
 * for a non-empty target: scan left to right, and at every position where the
 * target starts, emit the replacement and continue after the occurrence.
 */
module Replace {

  ghost predicate OccursAt(s: string, t: string, i: nat) {
    i + |t| <= |s| && s[i..i + |t|] == t
  }

  /** `t` occurs somewhere in `s`. */
  ghost predicate Occurs(s: string, t: string) {
    exists i: nat :: OccursAt(s, t, i)
  }

  function ReplaceAll(s: string, t: string, r: string): string
    requires t != []
    decreases |s|
  {
    if |s| < |t| then s
    else if s[..|t|] == t then r + ReplaceAll(s[|t|..], t, r)
    else [s[0]] + ReplaceAll(s[1..], t, r)
  }

  lemma MulStep(k: int, d: int)
    ensures (1 + k) * d == k * d + d
  {
  }

  /**
   * The number of occurrences ReplaceAll replaces: non-overlapping, found
   * left to right, so together they fit in the text.
   */
  function Count(s: string, t: string): (n: nat)
    requires t != []
    ensures n * |t| <= |s|
    decreases |s|
  {
    if |s| < |t| then 0
    else if s[..|t|] == t then
      var k := Count(s[|t|..], t);
      MulStep(k, |t|);
      1 + k
    else Count(s[1..], t)
  }

  /** Every replaced occurrence changes the length by |r| - |t|. */
  lemma {:induction false} ReplaceAllLength(s: string, t: string, r: string)
    requires t != []
    ensures |ReplaceAll(s, t, r)| == |s| + Count(s, t) * (|r| - |t|)
    decreases |s|
  {
    if |s| < |t| {
    } else if s[..|t|] == t {
      ReplaceAllLength(s[|t|..], t, r);
      MulStep(Count(s[|t|..], t), |r| - |t|);
    } else {
      ReplaceAllLength(s[1..], t, r);
    }
  }

  lemma OccursInTail(s: string, t: string, i: nat)
    requires s != [] && OccursAt(s[1..], t, i)
    ensures OccursAt(s, t, i + 1)
  {
    assert s[1..][i..i + |t|] == s[i + 1..i + 1 + |t|];
  }

  lemma OccursFromTail(s: string, t: string)
    requires s != [] && Occurs(s[1..], t)
    ensures Occurs(s, t)
  {
    var i: nat :| OccursAt(s[1..], t, i);
    OccursInTail(s, t, i);
  }

  lemma OccursPastFirst(s: string, t: string)
    requires t != [] && |s| >= |t| && s[..|t|] != t && Occurs(s, t)
    ensures Occurs(s[1..], t)
  {
    var i: nat :| OccursAt(s, t, i);
    assert i != 0;
    assert s[1..][i - 1..i - 1 + |t|] == s[i..i + |t|];
    assert OccursAt(s[1..], t, i - 1);
  }

  /** There is nothing to replace exactly when the target does not occur. */
  lemma {:induction false} CountZeroIffAbsent(s: string, t: string)
    requires t != []
    ensures Count(s, t) == 0 <==> !Occurs(s, t)
    decreases |s|
  {
    if |s| < |t| {
      forall i: nat ensures !OccursAt(s, t, i) {
      }
    } else if s[..|t|] == t {
      assert OccursAt(s, t, 0);
    } else {
      CountZeroIffAbsent(s[1..], t);
      if Occurs(s[1..], t) {
        OccursFromTail(s, t);
      }
      if Occurs(s, t) {
        OccursPastFirst(s, t);
      }
    }
  }

  /** A target that does not occur leaves the text as it was. */
  lemma {:induction false} ReplaceAbsent(s: string, t: string, r: string)
    requires t != [] && !Occurs(s, t)
    ensures ReplaceAll(s, t, r) == s
    decreases |s|
  {
    if |s| >= |t| {
      assert !OccursAt(s, t, 0);
      if Occurs(s[1..], t) {
        OccursFromTail(s, t);
      }
      ReplaceAbsent(s[1..], t, r);
      assert s == [s[0]] + s[1..];
    }
  }

  /** Replacing the target by itself changes nothing. */
  lemma {:induction false} ReplaceByItself(s: string, t: string)
    requires t != []
    ensures ReplaceAll(s, t, t) == s
    decreases |s|
  {
    if |s| < |t| {
    } else if s[..|t|] == t {
      ReplaceByItself(s[|t|..], t);
      assert s == s[..|t|] + s[|t|..];
    } else {
      ReplaceByItself(s[1..], t);
      assert s == [s[0]] + s[1..];
    }
  }

  /**
   * Replace-all is not exhaustive: a new occurrence can form across a
   * replaced one. With target "ab" and an empty replacement, "aabb" becomes
   * "ab", which still holds the target.
   */
  lemma ReplaceNotExhaustive(s: string, t: string, r: string)
    requires s == "aabb" && t == "ab" && r == ""
    ensures ReplaceAll(s, t, r) == "ab" && Occurs(ReplaceAll(s, t, r), t)
  {
    assert s[..2][1] != t[1];
    assert s[1..] == "abb";
    assert s[1..][..2] == t;
    assert s[1..][2..] == "b";
    assert ReplaceAll("b", t, r) == "b";
    assert ReplaceAll(s, t, r) == "a" + ("" + "b");
    assert OccursAt("ab", t, 0);
  }

  /**
   * A target without a line feed never reaches a final line feed: replacing
   * over `s` followed by a line feed gives the replacement over `s`, followed
   * by that line feed.
   */
  lemma {:induction false} ReplaceBeforeBreak(s: string, t: string, r: string)
    requires t != [] && '\n' !in t
    ensures ReplaceAll(s + "\n", t, r) == ReplaceAll(s, t, r) + "\n"
    decreases |s|
  {
    var u := s + "\n";
    if |u| < |t| {
    } else if |s| < |t| {
      assert u[..|t|] == u;
      assert u[..|t|] != t by {
        assert u[|t| - 1] == '\n';
      }
      if s == [] {
        assert u == "\n";
        assert u[1..] == [];
      } else {
        assert u[1..] == s[1..] + "\n";
        ReplaceBeforeBreak(s[1..], t, r);
        assert ReplaceAll(s[1..], t, r) == s[1..];
        assert s == [s[0]] + s[1..];
      }
    } else if s[..|t|] == t {
      assert u[..|t|] == s[..|t|];
      assert u[|t|..] == s[|t|..] + "\n";
      ReplaceBeforeBreak(s[|t|..], t, r);
    } else {
      assert u[..|t|] == s[..|t|];
      assert u[1..] == s[1..] + "\n";
      ReplaceBeforeBreak(s[1..], t, r);
    }
  }
}
