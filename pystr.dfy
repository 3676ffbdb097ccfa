/** The Python `str` operations the generator relies on: `startswith`,
    `endswith`, the substring test `needle in haystack` and `replace`. */
module PyStr {

  /** `s.startswith(prefix)` */
  predicate StartsWith(s: string, prefix: string) {
    |prefix| <= |s| && s[..|prefix|] == prefix
  }

  /** `s.endswith(suffix)` */
  predicate EndsWith(s: string, suffix: string) {
    |suffix| <= |s| && s[|s| - |suffix|..] == suffix
  }

  /** `needle` occurs in `s` starting at index `i`. */
  ghost predicate OccursAt(s: string, needle: string, i: int) {
    0 <= i && i + |needle| <= |s| && s[i..i + |needle|] == needle
  }

  /** Python's `needle in haystack` for two strings: a substring test (the
      empty string is in every string). */
  predicate Contains(haystack: string, needle: string)
    decreases |haystack|
  {
    StartsWith(haystack, needle) || (|haystack| > 0 && Contains(haystack[1..], needle))
  }

  /** The scanning test agrees with the positional definition of a substring. */
  lemma {:induction false} ContainsIff(haystack: string, needle: string)
    ensures Contains(haystack, needle) <==> exists i :: OccursAt(haystack, needle, i)
    decreases |haystack|
  {
    if StartsWith(haystack, needle) {
      assert OccursAt(haystack, needle, 0);
    } else if |haystack| == 0 {
      assert |needle| > 0;
    } else {
      ContainsIff(haystack[1..], needle);
      ShiftOccurrences(haystack, needle);
    }
  }

  /** The occurrences in a non-empty string are the one at its start, if any,
      and those in its tail, shifted by one. */
  lemma ShiftOccurrences(haystack: string, needle: string)
    requires |haystack| > 0
    ensures (exists i :: OccursAt(haystack, needle, i))
            <==> StartsWith(haystack, needle) || exists j :: OccursAt(haystack[1..], needle, j)
  {
    var tail := haystack[1..];
    forall j | OccursAt(tail, needle, j) ensures OccursAt(haystack, needle, j + 1) {
      assert tail[j..j + |needle|] == haystack[j + 1..j + 1 + |needle|];
    }
    forall i | OccursAt(haystack, needle, i) && i > 0 ensures OccursAt(tail, needle, i - 1) {
      assert tail[i - 1..i - 1 + |needle|] == haystack[i..i + |needle|];
    }
    if StartsWith(haystack, needle) {
      assert OccursAt(haystack, needle, 0);
    }
  }

  /** An occurrence at a known position makes `Contains` true. */
  lemma OccursAtContains(haystack: string, needle: string, i: int)
    requires OccursAt(haystack, needle, i)
    ensures Contains(haystack, needle)
  {
    ContainsIff(haystack, needle);
  }

  /** An occurrence in a part of a string is an occurrence in the whole. */
  lemma ContainsInConcat(a: string, b: string, c: string, needle: string)
    requires Contains(b, needle)
    ensures Contains(a + b + c, needle)
  {
    ContainsIff(b, needle);
    var i :| OccursAt(b, needle, i);
    assert (a + b + c)[|a| + i..|a| + i + |needle|] == b[i..i + |needle|];
    OccursAtContains(a + b + c, needle, |a| + i);
  }

  /** No character of `a` occurs in `b`. */
  ghost predicate Disjoint(a: string, b: string) {
    forall i :: 0 <= i < |a| ==> a[i] !in b
  }

  /** `s.replace("", rep)`: Python inserts `rep` before every character and at
      the end. */
  function Interleave(s: string, rep: string): string
  {
    if |s| == 0 then rep else rep + [s[0]] + Interleave(s[1..], rep)
  }

  /** `s.replace(target, rep)`: every non-overlapping occurrence of `target`,
      found scanning left to right, is replaced by `rep`. */
  function Replace(s: string, target: string, rep: string): string
    decreases |s|
  {
    if |target| == 0 then Interleave(s, rep)
    else if |s| == 0 then ""
    else if StartsWith(s, target) then rep + Replace(s[|target|..], target, rep)
    else [s[0]] + Replace(s[1..], target, rep)
  }

  /** A string without the target is left as it is. */
  lemma {:induction false} ReplaceAbsent(s: string, target: string, rep: string)
    requires !Contains(s, target)
    ensures Replace(s, target, rep) == s
    decreases |s|
  {
    if |s| > 0 {
      ReplaceAbsent(s[1..], target, rep);
    }
  }

  /** Replacing the target by itself changes nothing. */
  lemma {:induction false} ReplaceSelf(s: string, target: string)
    ensures Replace(s, target, target) == s
    decreases |s|
  {
    if |target| == 0 {
      InterleaveEmpty(s);
    } else if |s| > 0 {
      if StartsWith(s, target) {
        ReplaceSelf(s[|target|..], target);
        assert s == s[..|target|] + s[|target|..];
      } else {
        ReplaceSelf(s[1..], target);
        assert s == [s[0]] + s[1..];
      }
    }
  }

  lemma {:induction false} InterleaveEmpty(s: string)
    ensures Interleave(s, "") == s
    decreases |s|
  {
    if |s| > 0 {
      InterleaveEmpty(s[1..]);
      assert s == [s[0]] + s[1..];
    }
  }

  /** When the target occurs, the replacement text appears in the result. */
  lemma {:induction false} ReplaceIntroduces(s: string, target: string, rep: string)
    requires Contains(s, target)
    ensures Contains(Replace(s, target, rep), rep)
    decreases |s|
  {
    var r := Replace(s, target, rep);
    if |target| == 0 {
      assert r[..|rep|] == rep;
    } else if StartsWith(s, target) {
      assert r[..|rep|] == rep;
    } else {
      ReplaceIntroduces(s[1..], target, rep);
      ContainsInConcat([s[0]], Replace(s[1..], target, rep), "", rep);
      assert [s[0]] + Replace(s[1..], target, rep) + "" == r;
    }
  }

  /** A prefix made of characters foreign to the target survives the
      replacement. */
  lemma {:induction false} ReplaceKeepsPrefix(s: string, w: string, target: string, rep: string)
    requires |target| > 0 && Disjoint(w, target)
    requires StartsWith(s, w)
    ensures StartsWith(Replace(s, target, rep), w)
    decreases |s|
  {
    if |w| > 0 {
      assert s[0] == w[0] && w[0] !in target;
      assert !StartsWith(s, target) by {
        if |target| <= |s| {
          assert s[..|target|][0] == s[0];
          assert target[0] in target;
        }
      }
      assert s[1..][..|w| - 1] == w[1..];
      ReplaceKeepsPrefix(s[1..], w[1..], target, rep);
      assert Replace(s, target, rep) == [s[0]] + Replace(s[1..], target, rep);
    }
  }

  /** A non-empty string whose characters do not occur in the target is not
      broken up by removing or replacing the target. */
  lemma {:induction false} ReplacePreserves(s: string, w: string, target: string, rep: string)
    requires |target| > 0 && |w| > 0 && Disjoint(w, target)
    requires Contains(s, w)
    ensures Contains(Replace(s, target, rep), w)
    decreases |s|
  {
    var r := Replace(s, target, rep);
    ContainsIff(s, w);
    var i :| OccursAt(s, w, i);
    if StartsWith(s, w) {
      ReplaceKeepsPrefix(s, w, target, rep);
    } else if StartsWith(s, target) {
      assert i >= |target| by {
        assert s[i] == w[0] && w[0] !in target;
        forall k | 0 <= k < |target|
          ensures s[k] == target[k] && s[k] in target
        {
          assert s[..|target|][k] == s[k];
        }
      }
      var t := s[|target|..];
      OccursInSuffix(s, w, i, |target|);
      ReplacePreserves(t, w, target, rep);
      ContainsInConcat(rep, Replace(t, target, rep), "", w);
      assert rep + Replace(t, target, rep) + "" == r;
    } else {
      assert i != 0;
      OccursInSuffix(s, w, i, 1);
      ReplacePreserves(s[1..], w, target, rep);
      ContainsInConcat([s[0]], Replace(s[1..], target, rep), "", w);
      assert [s[0]] + Replace(s[1..], target, rep) + "" == r;
    }
  }

  /** A prefix `[x] + d` survives the replacement when `d` is non-empty and
      foreign to the target and the target does not end in `x`: no occurrence
      of the target can reach into it. */
  lemma ReplaceKeepsMarkedPrefix(s: string, x: char, d: string, target: string, rep: string)
    requires |target| > 0 && |d| > 0 && Disjoint(d, target) && target[|target| - 1] != x
    requires StartsWith(s, [x] + d)
    ensures StartsWith(Replace(s, target, rep), [x] + d)
  {
    assert s[0] == x && s[1] == d[0] && d[0] !in target;
    assert !StartsWith(s, target) by {
      if |target| == 1 {
        assert target[|target| - 1] == target[0];
      } else if |target| <= |s| {
        assert target[1] in target;
      }
    }
    assert s[1..][..|d|] == d;
    ReplaceKeepsPrefix(s[1..], d, target, rep);
    assert Replace(s, target, rep) == [s[0]] + Replace(s[1..], target, rep);
  }

  /** The same protection for an occurrence of `[x] + d` anywhere in the
      string, such as a minus sign followed by digits. */
  lemma {:induction false} ReplacePreservesMarked(s: string, x: char, d: string, target: string, rep: string)
    requires |target| > 0 && |d| > 0 && Disjoint(d, target) && target[|target| - 1] != x
    requires Contains(s, [x] + d)
    ensures Contains(Replace(s, target, rep), [x] + d)
    decreases |s|
  {
    var w := [x] + d;
    var r := Replace(s, target, rep);
    ContainsIff(s, w);
    var i :| OccursAt(s, w, i);
    if StartsWith(s, w) {
      ReplaceKeepsMarkedPrefix(s, x, d, target, rep);
    } else if StartsWith(s, target) {
      MarkedAfterTarget(s, x, d, target, i);
      var t := s[|target|..];
      OccursInSuffix(s, w, i, |target|);
      ReplacePreservesMarked(t, x, d, target, rep);
      ContainsInConcat(rep, Replace(t, target, rep), "", w);
      assert rep + Replace(t, target, rep) + "" == r;
    } else {
      assert i != 0;
      OccursInSuffix(s, w, i, 1);
      ReplacePreservesMarked(s[1..], x, d, target, rep);
      ContainsInConcat([s[0]], Replace(s[1..], target, rep), "", w);
      assert [s[0]] + Replace(s[1..], target, rep) + "" == r;
    }
  }

  /** An occurrence of `[x] + d` in a string that starts with the target lies
      wholly after it. */
  lemma MarkedAfterTarget(s: string, x: char, d: string, target: string, i: int)
    requires |target| > 0 && |d| > 0 && Disjoint(d, target) && target[|target| - 1] != x
    requires StartsWith(s, target) && OccursAt(s, [x] + d, i)
    ensures i >= |target|
  {
    assert s[i] == x && s[i + 1] == d[0];
    assert s[i + 1] !in target;
    assert s[i] != target[|target| - 1];
    forall k | 0 <= k < |target|
      ensures s[k] == target[k] && s[k] in target
    {
      assert s[..|target|][k] == s[k];
    }
  }

  /** An occurrence at or after `m` is an occurrence in the suffix from `m`. */
  lemma OccursInSuffix(s: string, w: string, i: int, m: int)
    requires 0 <= m <= i && OccursAt(s, w, i)
    ensures Contains(s[m..], w)
  {
    assert s[m..][i - m..i - m + |w|] == s[i..i + |w|];
    OccursAtContains(s[m..], w, i - m);
  }

  /** If the result of a replacement starts with characters that all belong
      to the target, and the replacement text starts with a character foreign
      to the target, the input starts with the same characters. */
  lemma {:induction false} ReplacePrefixBack(s: string, w: string, target: string, rep: string)
    requires |target| > 0 && |rep| > 0 && Disjoint(rep, target)
    requires forall i :: 0 <= i < |w| ==> w[i] in target
    ensures StartsWith(Replace(s, target, rep), w) ==> StartsWith(s, w)
    decreases |s|
  {
    var r := Replace(s, target, rep);
    if |w| > 0 && |s| > 0 {
      if StartsWith(s, target) {
        assert r[0] == rep[0] && rep[0] !in target && w[0] in target;
      } else {
        var t := Replace(s[1..], target, rep);
        assert r == [s[0]] + t;
        ReplacePrefixBack(s[1..], w[1..], target, rep);
        if StartsWith(r, w) {
          assert t[..|w| - 1] == r[1..|w|];
          assert s[..|w|] == [s[0]] + s[1..][..|w| - 1];
        }
      }
    }
  }

  /** When the replacement text is non-empty and shares no character with the
      target, no occurrence of the target is left afterwards. */
  lemma {:induction false} ReplaceRemovesAll(s: string, target: string, rep: string)
    requires |target| > 0 && |rep| > 0 && Disjoint(rep, target)
    ensures !Contains(Replace(s, target, rep), target)
    decreases |s|
  {
    if |s| == 0 {
      assert Replace(s, target, rep) == "";
    } else if StartsWith(s, target) {
      ReplaceRemovesAll(s[|target|..], target, rep);
      NoTargetAfterForeignPrefix(rep, Replace(s[|target|..], target, rep), target);
    } else {
      ReplaceRemovesAll(s[1..], target, rep);
      NoTargetAfterKeptChar(s, target, rep);
    }
  }

  /** Text foreign to the target, put in front of text without the target,
      creates no occurrence. */
  lemma {:induction false} NoTargetAfterForeignPrefix(rep: string, t: string, target: string)
    requires |target| > 0 && Disjoint(rep, target)
    requires !Contains(t, target)
    ensures !Contains(rep + t, target)
    decreases |rep|
  {
    if |rep| == 0 {
      assert rep + t == t;
    } else {
      var r := rep + t;
      assert r[1..] == rep[1..] + t;
      assert r[0] == rep[0];
      assert target[0] in target;
      assert Disjoint(rep[1..], target) by {
        forall i | 0 <= i < |rep[1..]| ensures rep[1..][i] !in target {
          assert rep[1..][i] == rep[i + 1];
        }
      }
      NoTargetAfterForeignPrefix(rep[1..], t, target);
    }
  }

  /** The step of `ReplaceRemovesAll` where the first character is copied. */
  lemma NoTargetAfterKeptChar(s: string, target: string, rep: string)
    requires |target| > 0 && |rep| > 0 && Disjoint(rep, target)
    requires |s| > 0 && !StartsWith(s, target)
    requires !Contains(Replace(s[1..], target, rep), target)
    ensures !Contains(Replace(s, target, rep), target)
  {
    var r := Replace(s, target, rep);
    assert r == [s[0]] + Replace(s[1..], target, rep);
    assert r[1..] == Replace(s[1..], target, rep);
    KeptCharStartsNoTarget(s, target, rep);
  }

  /** No occurrence starts at the copied first character. */
  lemma KeptCharStartsNoTarget(s: string, target: string, rep: string)
    requires |target| > 0 && |rep| > 0 && Disjoint(rep, target)
    requires |s| > 0 && !StartsWith(s, target)
    ensures !StartsWith(Replace(s, target, rep), target)
  {
    var t := Replace(s[1..], target, rep);
    assert Replace(s, target, rep) == [s[0]] + t;
    assert s == [s[0]] + s[1..];
    ConsStartsWith(s[0], t, target);
    ConsStartsWith(s[0], s[1..], target);
    TailInWhole(target);
    ReplacePrefixBack(s[1..], target[1..], target, rep);
  }

  /** A string built from a first character starts with `w` exactly when the
      character is `w`'s first and the rest starts with the rest of `w`. */
  lemma ConsStartsWith(x: char, t: string, w: string)
    requires |w| > 0
    ensures StartsWith([x] + t, w) <==> x == w[0] && StartsWith(t, w[1..])
  {
    if |w| <= |t| + 1 {
      assert ([x] + t)[..|w|] == [x] + t[..|w| - 1];
    }
  }

  /** Every character of a string's tail is a character of the string. */
  lemma TailInWhole(w: string)
    requires |w| > 0
    ensures forall k :: 0 <= k < |w[1..]| ==> w[1..][k] in w
  {
    forall k | 0 <= k < |w[1..]| ensures w[1..][k] in w {
      assert w[1..][k] == w[k + 1];
    }
  }
}
