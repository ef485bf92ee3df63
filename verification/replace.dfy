/** Python's `str.replace(pat, rep)`, the primitive of the rule-based
    simplifier, with its leftmost, non-overlapping scan. */
module Replace {
  import opened Wrappers
  import opened PyStr

  /** `s.replace("", rep)`: `rep` before every character and once more at
      the end. */
  function ReplaceEmpty(s: string, rep: string): (r: string)
    ensures |r| == |s| + (|s| + 1) * |rep|
  {
    if s == [] then rep else rep + [s[0]] + ReplaceEmpty(s[1..], rep)
  }

  /** `list(s)`: each character as a string of its own. */
  function Characters(s: string): (cs: seq<string>)
    ensures |cs| == |s|
  {
    seq(|s|, i requires 0 <= i < |s| => [s[i]])
  }

  /** Replacing the empty pattern is joining the characters of `s`, in
      order, with `rep`, and putting `rep` at both ends:
      `s.replace("", rep) == rep + rep.join(list(s)) + rep` for non-empty
      `s`, and `rep` alone for the empty string. */
  lemma {:induction false} ReplaceEmptyIsJoin(s: string, rep: string)
    ensures s == [] ==> ReplaceEmpty(s, rep) == rep
    ensures s != [] ==> ReplaceEmpty(s, rep) == rep + Join(rep, Characters(s)) + rep
    decreases |s|
  {
    if |s| == 1 {
      assert Join(rep, Characters(s)) == [s[0]];
      assert s[1..] == [];
    } else if |s| > 1 {
      var t := s[1..];
      ReplaceEmptyIsJoin(t, rep);
      assert Characters(s)[1..] == Characters(t);
      assert Join(rep, Characters(s)) == [s[0]] + rep + Join(rep, Characters(t));
    }
  }

  /** `s.replace(pat, rep)`: scanning left to right, each place where `pat`
      starts is replaced by `rep` and the scan resumes after it, so the
      occurrences replaced never overlap. A replacement no longer than the
      pattern never lengthens the text, and one no shorter never shortens
      it. */
  function ReplaceAll(s: string, pat: string, rep: string): (r: string)
    ensures pat != [] && |rep| <= |pat| ==> |r| <= |s|
    ensures pat != [] && |rep| >= |pat| ==> |r| >= |s|
    decreases |s|
  {
    if pat == [] then ReplaceEmpty(s, rep)
    else if StartsWith(s, pat) then rep + ReplaceAll(s[|pat|..], pat, rep)
    else if s == [] then []
    else [s[0]] + ReplaceAll(s[1..], pat, rep)
  }

  /** A text in which the pattern does not occur is left unchanged. */
  lemma {:induction false} ReplaceAbsent(s: string, pat: string, rep: string)
    requires pat != [] && !Contains(s, pat)
    ensures ReplaceAll(s, pat, rep) == s
    decreases |s|
  {
    if s != [] {
      ReplaceAbsent(s[1..], pat, rep);
    }
  }

  /** The find-based reading of `replace`: the text up to the leftmost
      occurrence (the index `find` reports) is kept, that occurrence becomes
      `rep`, and the text after it is processed in the same way. */
  lemma {:induction false} ReplaceAtLeftmost(s: string, pat: string, rep: string, i: nat)
    requires pat != [] && Find(s, pat) == Some(i)
    ensures ReplaceAll(s, pat, rep) == s[..i] + rep + ReplaceAll(s[i + |pat|..], pat, rep)
    decreases i
  {
    if i == 0 {
      var after := ReplaceAll(s[|pat|..], pat, rep);
      assert ReplaceAll(s, pat, rep) == rep + after;
      assert s[..i] + rep + after == rep + after;
    } else {
      ReplaceAtLeftmost(s[1..], pat, rep, i - 1);
      LeftmostStep(s, pat, rep, i);
    }
  }

  /** The inductive step of `ReplaceAtLeftmost`: a first character that
      does not start the pattern is copied. */
  lemma LeftmostStep(s: string, pat: string, rep: string, i: nat)
    requires pat != [] && 0 < i && i + |pat| <= |s|
    requires !StartsWith(s, pat)
    requires ReplaceAll(s[1..], pat, rep)
          == s[1..][..i - 1] + rep + ReplaceAll(s[1..][i - 1 + |pat|..], pat, rep)
    ensures ReplaceAll(s, pat, rep) == s[..i] + rep + ReplaceAll(s[i + |pat|..], pat, rep)
  {
    var t := s[1..];
    var after := ReplaceAll(s[i + |pat|..], pat, rep);
    assert t[i - 1 + |pat|..] == s[i + |pat|..];
    assert ReplaceAll(s, pat, rep) == [s[0]] + ReplaceAll(t, pat, rep);
    assert [s[0]] + t[..i - 1] == s[..i];
    Regroup([s[0]], t[..i - 1], rep, after);
  }

  /** Wherever the pattern occurs, its replacement shows up in the result:
      the leftmost occurrence is always replaced. */
  lemma ReplaceIntroducesReplacement(s: string, pat: string, rep: string)
    requires pat != [] && Contains(s, pat)
    ensures Contains(ReplaceAll(s, pat, rep), rep)
  {
    var i := Find(s, pat).value;
    ReplaceAtLeftmost(s, pat, rep, i);
    var r := ReplaceAll(s, pat, rep);
    ContainsMiddle(s[..i], rep, ReplaceAll(s[i + |pat|..], pat, rep));
  }

  lemma {:induction false} ReplaceEmptyWithNothing(s: string)
    ensures ReplaceEmpty(s, []) == s
    decreases |s|
  {
    if s != [] {
      ReplaceEmptyWithNothing(s[1..]);
    }
  }

  /** Replacing a pattern by itself changes nothing. */
  lemma {:induction false} ReplaceWithItself(s: string, pat: string)
    ensures ReplaceAll(s, pat, pat) == s
    decreases |s|
  {
    if pat == [] {
      ReplaceEmptyWithNothing(s);
    } else if StartsWith(s, pat) {
      var t := s[|pat|..];
      ReplaceWithItself(t, pat);
      assert ReplaceAll(s, pat, pat) == pat + ReplaceAll(t, pat, pat);
      assert s[..|pat|] + t == s;
    } else if s != [] {
      var t := s[1..];
      ReplaceWithItself(t, pat);
      assert ReplaceAll(s, pat, pat) == [s[0]] + ReplaceAll(t, pat, pat);
      assert [s[0]] + t == s;
    }
  }

  /** One round of the find loop: the text consumed so far, then the text
      before the next occurrence and the replacement, then the rest. */
  lemma FindStep(done: string, rest: string, pat: string, rep: string, j: nat)
    requires pat != [] && Find(rest, pat) == Some(j)
    ensures done + ReplaceAll(rest, pat, rep)
         == (done + rest[..j] + rep) + ReplaceAll(rest[j + |pat|..], pat, rep)
  {
    ReplaceAtLeftmost(rest, pat, rep, j);
    Regroup(done, rest[..j], rep, ReplaceAll(rest[j + |pat|..], pat, rep));
  }

  lemma Regroup(a: string, b: string, c: string, d: string)
    ensures a + (b + c + d) == (a + b + c) + d
  {
  }

  /** `str.replace` as CPython runs it: repeatedly `find` the next
      occurrence from the current position, copy the text before it and
      the replacement, and continue after the occurrence. */
  method ReplaceByFind(s: string, pat: string, rep: string) returns (r: string)
    ensures r == ReplaceAll(s, pat, rep)
  {
    if pat == [] {
      return ReplaceEmpty(s, rep);
    }
    r := [];
    var rest := s;
    while Find(rest, pat).Some?
      invariant r + ReplaceAll(rest, pat, rep) == ReplaceAll(s, pat, rep)
      decreases |rest|
    {
      var j := Find(rest, pat).value;
      FindStep(r, rest, pat, rep, j);
      r := r + rest[..j] + rep;
      rest := rest[j + |pat|..];
    }
    ReplaceAbsent(rest, pat, rep);
    r := r + rest;
  }
}
