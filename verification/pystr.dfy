/** The handful of Python `str` operations the fixer relies on, with their Python 2 semantics:
    substring test (`sub in s`), `s.split(sep)` on a one-character separator, `s.replace(c, w)`
    for a one-character `c`, `s[:-1]` and truthiness. */
module PyStr {

  /** Python truthiness of a `str`: only the empty string is false. */
  predicate Truthy(s: string) {
    |s| > 0
  }

  predicate IsPrefix(p: string, s: string) {
    |p| <= |s| && s[..|p|] == p
  }

  predicate IsSuffix(p: string, s: string) {
    |p| <= |s| && s[|s| - |p|..] == p
  }

  /** `sub` occurs in `s` starting at position `i`. */
  ghost predicate OccursAt(s: string, sub: string, i: int) {
    0 <= i && i + |sub| <= |s| && s[i..i + |sub|] == sub
  }

  /** Python's `sub in s` for two strings, scanning `s` from the left. */
  predicate Contains(s: string, sub: string)
    decreases |s|
  {
    IsPrefix(sub, s) || (|s| > 0 && Contains(s[1..], sub))
  }

  /** The scan agrees with the positional definition of an occurrence. */
  lemma {:induction false} ContainsIffOccurs(s: string, sub: string)
    ensures Contains(s, sub) <==> exists i :: OccursAt(s, sub, i)
    decreases |s|
  {
    if |s| > 0 {
      ContainsIffOccurs(s[1..], sub);
      if IsPrefix(sub, s) {
        assert OccursAt(s, sub, 0);
      }
      if Contains(s[1..], sub) {
        var i :| OccursAt(s[1..], sub, i);
        assert s[i + 1..i + 1 + |sub|] == s[1..][i..i + |sub|];
        assert OccursAt(s, sub, i + 1);
      }
      if exists i :: OccursAt(s, sub, i) {
        var i :| OccursAt(s, sub, i);
        if i > 0 {
          assert s[1..][i - 1..i - 1 + |sub|] == s[i..i + |sub|];
          assert OccursAt(s[1..], sub, i - 1);
        } else {
          assert IsPrefix(sub, s);
        }
      }
    } else if |sub| == 0 {
      assert OccursAt(s, sub, 0);
    }
  }

  /** An occurrence at a known position makes the substring test succeed. */
  lemma ContainsAt(s: string, sub: string, i: int)
    requires OccursAt(s, sub, i)
    ensures Contains(s, sub)
  {
    ContainsIffOccurs(s, sub);
  }

  /** A string contains each of its infixes. */
  lemma ContainsMiddle(a: string, b: string, c: string)
    ensures Contains(a + b + c, b)
  {
    assert (a + b + c)[|a|..|a| + |b|] == b;
    ContainsAt(a + b + c, b, |a|);
  }

  /** A substring with a character that `s` lacks does not occur in `s`. */
  lemma NotContainsMissingChar(s: string, sub: string, k: int)
    requires 0 <= k < |sub| && sub[k] !in s
    ensures !Contains(s, sub)
  {
    ContainsIffOccurs(s, sub);
  }

  /** Number of occurrences of `c` in `s`. */
  function Count(s: string, c: char): (n: nat)
    ensures n <= |s|
    ensures n > 0 <==> c in s
    decreases |s|
  {
    if |s| == 0 then 0
    else
      assert s == [s[0]] + s[1..];
      (if s[0] == c then 1 else 0) + Count(s[1..], c)
  }

  /** Python's `s.replace(target, subst)` for a one-character `target`: every occurrence of `target`,
      left to right, is substituted by `subst`; everything else is kept in order. */
  function Replace(s: string, target: char, subst: string): (r: string)
    ensures |r| == |s| + Count(s, target) * (|subst| - 1)
    ensures target !in subst ==> target !in r
    decreases |s|
  {
    if |s| == 0 then []
    else
      var rest := Replace(s[1..], target, subst);
      if s[0] == target then
        assert |subst + rest| == |s| + (Count(s[1..], target) + 1) * (|subst| - 1);
        subst + rest
      else
        [s[0]] + rest
  }

  lemma {:induction false} ReplaceAppend(a: string, b: string, target: char, subst: string)
    ensures Replace(a + b, target, subst) == Replace(a, target, subst) + Replace(b, target, subst)
    decreases |a|
  {
    if |a| > 0 {
      assert (a + b)[1..] == a[1..] + b;
      ReplaceAppend(a[1..], b, target, subst);
    } else {
      assert a + b == b;
    }
  }

  /** A string without `target` is left untouched. */
  lemma {:induction false} ReplaceAbsent(s: string, target: char, subst: string)
    requires target !in s
    ensures Replace(s, target, subst) == s
    decreases |s|
  {
    if |s| > 0 {
      assert target !in s[1..] by { assert forall k :: 0 <= k < |s[1..]| ==> s[1..][k] == s[k + 1]; }
      ReplaceAbsent(s[1..], target, subst);
    }
  }

  /** Python's `s.split(sep)` for a one-character `sep`: the pieces between consecutive
      separators, empty pieces included, so there is always one more piece than separators. */
  function Split(s: string, sep: char): (tokens: seq<string>)
    ensures |tokens| == Count(s, sep) + 1
    ensures forall k :: 0 <= k < |tokens| ==> sep !in tokens[k]
    decreases |s|
  {
    if |s| == 0 then [""]
    else
      var rest := Split(s[1..], sep);
      if s[0] == sep then [""] + rest
      else [[s[0]] + rest[0]] + rest[1..]
  }

  /** Python's `sep.join(tokens)` for a one-character `sep`. */
  function Join(tokens: seq<string>, sep: char): string
    requires |tokens| >= 1
    decreases |tokens|
  {
    if |tokens| == 1 then tokens[0] else tokens[0] + [sep] + Join(tokens[1..], sep)
  }

  /** Joining the pieces back with the separator restores the string. */
  lemma {:induction false} SplitJoin(s: string, sep: char)
    ensures Join(Split(s, sep), sep) == s
    decreases |s|
  {
    if |s| > 0 {
      var rest := Split(s[1..], sep);
      SplitJoin(s[1..], sep);
      if s[0] == sep {
        assert ([""] + rest)[1..] == rest;
        assert s == [sep] + s[1..];
      } else {
        var t := [[s[0]] + rest[0]] + rest[1..];
        assert s == [s[0]] + s[1..];
        if |rest| > 1 {
          assert t[1..] == rest[1..];
        }
      }
    }
  }

  /** A string without the separator is a single piece. */
  lemma {:induction false} SplitPlain(a: string, sep: char)
    requires sep !in a
    ensures Split(a, sep) == [a]
    decreases |a|
  {
    if |a| > 0 {
      assert sep !in a[1..] by { assert forall k :: 0 <= k < |a[1..]| ==> a[1..][k] == a[k + 1]; }
      SplitPlain(a[1..], sep);
      assert [a[0]] + a[1..] == a;
    }
  }

  /** A separator-free prefix followed by a separator is split off as the first piece. */
  lemma {:induction false} SplitAfter(a: string, b: string, sep: char)
    requires sep !in a
    ensures Split(a + [sep] + b, sep) == [a] + Split(b, sep)
    decreases |a|
  {
    var s := a + [sep] + b;
    if |a| == 0 {
      assert s[1..] == b;
    } else {
      assert s[1..] == a[1..] + [sep] + b;
      assert sep !in a[1..] by { assert forall k :: 0 <= k < |a[1..]| ==> a[1..][k] == a[k + 1]; }
      SplitAfter(a[1..], b, sep);
      assert [a[0]] + a[1..] == a;
    }
  }

  /** Splitting a join of separator-free pieces gives the pieces back. */
  lemma {:induction false} JoinSplit(tokens: seq<string>, sep: char)
    requires |tokens| >= 1
    requires forall k :: 0 <= k < |tokens| ==> sep !in tokens[k]
    ensures Split(Join(tokens, sep), sep) == tokens
    decreases |tokens|
  {
    if |tokens| == 1 {
      SplitPlain(tokens[0], sep);
    } else {
      JoinSplit(tokens[1..], sep);
      SplitAfter(tokens[0], Join(tokens[1..], sep), sep);
      assert [tokens[0]] + tokens[1..] == tokens;
    }
  }

  /** Python's `s[:-1]`: everything but the last character; the empty string stays empty. */
  function DropLast(s: string): (r: string)
    ensures |s| == 0 ==> r == []
    ensures |s| > 0 ==> r + [s[|s| - 1]] == s
  {
    if |s| == 0 then [] else s[..|s| - 1]
  }
}
