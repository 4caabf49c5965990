/** The `String::replace` rewrite that `done` and `undone` apply to one task
    line, and what it does to the "[ ]" / "[x]" status markers. */
module Replace {

  /** The marker that starts a pending task line. */
  const PENDING: string := "[ ]"
  /** The marker that `done` writes in place of every PENDING. */
  const DONE: string := "[x]"

  /** `pat` occurs in `s` starting at position `i`. */
  predicate OccursAt(s: string, pat: string, i: nat)
  {
    i + |pat| <= |s| && s[i..i + |pat|] == pat
  }

  /** `pat` occurs somewhere in `s`. */
  predicate Occurs(s: string, pat: string)
  {
    exists i: nat | i <= |s| :: OccursAt(s, pat, i)
  }

  /** Rust's `s.replace(pat, rep)` for a non-empty pattern: scanning from the
      left, every non-overlapping occurrence of `pat` is replaced by `rep`. */
  function ReplaceAll(s: string, pat: string, rep: string): string
    requires pat != []
    decreases |s|
  {
    if |s| < |pat| then s
    else if s[..|pat|] == pat then rep + ReplaceAll(s[|pat|..], pat, rep)
    else [s[0]] + ReplaceAll(s[1..], pat, rep)
  }

  /** Two three-character markers "[c]" and "[d]" with distinct middle
      characters that are not brackets: PENDING and DONE, in either order. */
  predicate MarkerPair(p: string, r: string)
  {
    |p| == 3 && |r| == 3 &&
    p[0] == '[' && r[0] == '[' && p[2] == ']' && r[2] == ']' &&
    p[1] != r[1] && p[1] != '[' && p[1] != ']' && r[1] != '[' && r[1] != ']'
  }

  lemma MarkersArePairs()
    ensures MarkerPair(PENDING, DONE) && MarkerPair(DONE, PENDING)
  {
  }

  /** Occurrences in a suffix are the occurrences in the whole string,
      shifted. */
  lemma OccursInSuffix(s: string, pat: string, k: nat, i: nat)
    requires k <= |s|
    ensures OccursAt(s[k..], pat, i) <==> OccursAt(s, pat, k + i)
  {
    if k + i + |pat| <= |s| {
      assert s[k..][i..i + |pat|] == s[k + i..k + i + |pat|];
    }
  }

  /** A string with no occurrence of `pat` is left exactly as it was: this is
      why `done` on a line that is already done silently succeeds. */
  lemma {:induction false} ReplaceAllNoOccurrence(s: string, pat: string, rep: string)
    requires pat != [] && !Occurs(s, pat)
    ensures ReplaceAll(s, pat, rep) == s
    decreases |s|
  {
    if |s| >= |pat| {
      assert !OccursAt(s, pat, 0);
      forall i: nat | i <= |s[1..]| ensures !OccursAt(s[1..], pat, i) {
        OccursInSuffix(s, pat, 1, i);
      }
      ReplaceAllNoOccurrence(s[1..], pat, rep);
    }
  }

  /** Swapping one marker for the other preserves the length and changes
      exactly the middle character of every marker in the line: two markers
      cannot overlap, so the left-to-right scan replaces each of them, and
      every other character stays as it was. */
  lemma {:induction false} ReplaceAllPointwise(s: string, p: string, r: string)
    requires MarkerPair(p, r)
    ensures |ReplaceAll(s, p, r)| == |s|
    ensures forall i :: 0 <= i < |s| ==>
      ReplaceAll(s, p, r)[i] == (if 1 <= i && OccursAt(s, p, i - 1) then r[1] else s[i])
    ensures forall i :: 0 <= i < |s| ==>
      ReplaceAll(s, p, r)[i] == s[i] || (s[i] == p[1] && ReplaceAll(s, p, r)[i] == r[1])
    decreases |s|
  {
    var t := ReplaceAll(s, p, r);
    if |s| >= |p| {
      var k := if s[..|p|] == p then |p| else 1;
      ReplaceAllPointwise(s[k..], p, r);
      forall i | 0 <= i < |s|
        ensures t[i] == (if 1 <= i && OccursAt(s, p, i - 1) then r[1] else s[i])
      {
        if i > k {
          OccursInSuffix(s, p, k, i - 1 - k);
          assert t[i] == ReplaceAll(s[k..], p, r)[i - k];
          assert s[i] == s[k..][i - k];
        } else if i == k {
          assert t[i] == ReplaceAll(s[k..], p, r)[0];
          assert s[i] == s[k..][0];
          if k == |p| {
            assert s[i - 1] == p[2];
          } else {
            assert !OccursAt(s, p, 0);
          }
        } else if k == |p| {
          assert s[i] == p[i];
          if i == 2 {
            assert s[1] == p[1];
          }
        }
      }
    }
  }

  /** The first character of a rewritten non-empty string. */
  lemma FirstAfterReplace(s: string, p: string, r: string)
    requires MarkerPair(p, r) && s != []
    ensures ReplaceAll(s, p, r) != []
    ensures ReplaceAll(s, p, r)[0] == if |s| >= |p| && s[..|p|] == p then r[0] else s[0]
  {
  }

  /** When `s` does not start with the pattern, the rewritten string starts
      with the same three characters as `s` unless a marker was written at
      position 1 or 2 (a marker starts with '['). */
  lemma PrefixAfterReplace(s: string, p: string, r: string)
    requires MarkerPair(p, r) && |s| >= |p| && s[..|p|] != p
    ensures |ReplaceAll(s, p, r)| >= |p|
    ensures var t := ReplaceAll(s, p, r);
      t[1] != '[' && t[2] != '[' ==> t[..|p|] == s[..|p|]
  {
    ReplaceAllPointwise(s, p, r);
    var t := ReplaceAll(s, p, r);
    var u := ReplaceAll(s[1..], p, r);
    assert t == [s[0]] + u;
    FirstAfterReplace(s[1..], p, r);
    if u[0] != '[' {
      assert u[0] == s[1];
      if |s[1..]| >= |p| {
        assert s[1..][..|p|] != p;
        assert u == [s[1]] + ReplaceAll(s[2..], p, r);
        FirstAfterReplace(s[2..], p, r);
      }
    }
  }

  /** Replace-all leaves no occurrence of the pattern behind: after `done` the
      line holds no "[ ]" at all, and after `undone` no "[x]". */
  lemma {:induction false} ReplaceAllRemovesEvery(s: string, p: string, r: string)
    requires MarkerPair(p, r)
    ensures !Occurs(ReplaceAll(s, p, r), p)
    decreases |s|
  {
    var t := ReplaceAll(s, p, r);
    if |s| >= |p| {
      var k := if s[..|p|] == p then |p| else 1;
      var u := ReplaceAll(s[k..], p, r);
      ReplaceAllRemovesEvery(s[k..], p, r);
      ReplaceAllPointwise(s, p, r);
      assert t[k..] == u;
      if k == 1 {
        PrefixAfterReplace(s, p, r);
      }
      forall i: nat | i <= |t| ensures !OccursAt(t, p, i) {
        if i >= k {
          OccursInSuffix(t, p, k, i - k);
        } else if k == |p| {
          assert t[..|p|] == r;
          assert t[i] == r[i];
        }
      }
    }
  }

  /** A line changes under replace-all exactly when it holds the pattern. */
  lemma ReplaceAllUnchangedIff(s: string, p: string, r: string)
    requires MarkerPair(p, r)
    ensures ReplaceAll(s, p, r) == s <==> !Occurs(s, p)
  {
    if !Occurs(s, p) {
      ReplaceAllNoOccurrence(s, p, r);
    } else {
      ReplaceAllRemovesEvery(s, p, r);
    }
  }

  /** Swapping the markers one way and then back restores a line that held
      none of the second marker to begin with. */
  lemma {:induction false} ReplaceAllRoundTrip(s: string, p: string, r: string)
    requires MarkerPair(p, r) && !Occurs(s, r)
    ensures ReplaceAll(ReplaceAll(s, p, r), r, p) == s
    decreases |s|
  {
    var t := ReplaceAll(s, p, r);
    if |s| < |p| {
    } else {
      forall i: nat | i <= |s[1..]| ensures !OccursAt(s[1..], r, i) {
        OccursInSuffix(s, r, 1, i);
      }
      if s[..|p|] == p {
        forall i: nat | i <= |s[|p|..]| ensures !OccursAt(s[|p|..], r, i) {
          OccursInSuffix(s, r, |p|, i);
        }
        ReplaceAllRoundTrip(s[|p|..], p, r);
        var u := ReplaceAll(s[|p|..], p, r);
        assert t == r + u;
        assert t[..|r|] == r && t[|r|..] == u;
        assert s == p + s[|p|..];
      } else {
        ReplaceAllRoundTrip(s[1..], p, r);
        var u := ReplaceAll(s[1..], p, r);
        assert t == [s[0]] + u;
        // the rewritten string cannot start with r, since s does not
        PrefixAfterReplace(s, p, r);
        assert !OccursAt(s, r, 0);
        assert t[..|r|] != r;
        assert t[1..] == u;
      }
    }
  }
}
