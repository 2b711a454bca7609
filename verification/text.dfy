/** Models of the Python `str` methods the response formatter relies on:
    `strip`, `startswith`, `endswith`, `split`, `join` and `replace`, plus
    `count`, which measures what `replace` rewrites. Strings are `seq<char>`,
    sequences of Unicode scalar values. */
module Text {

  /** The characters Python's `str.strip()` (no argument) removes: those for
      which `str.isspace()` holds. */
  predicate IsSpace(ch: char) {
    || ('\U{9}' <= ch <= '\U{D}')      // \t \n \v \f \r
    || ('\U{1C}' <= ch <= '\U{20}')    // file/group/record/unit separators, space
    || ch == '\U{85}' || ch == '\U{A0}' || ch == '\U{1680}'
    || ('\U{2000}' <= ch <= '\U{200A}')
    || ch == '\U{2028}' || ch == '\U{2029}' || ch == '\U{202F}'
    || ch == '\U{205F}' || ch == '\U{3000}'
  }

  /** The argument of `str.strip`: none (whitespace), or a string read as a
      SET of characters, so `strip("**")` removes every `'*'`, not one pair. */
  datatype StripArg = Whitespace | Chars(chars: string)

  predicate Strippable(ch: char, arg: StripArg) {
    match arg
    case Whitespace => IsSpace(ch)
    case Chars(cs) => ch in cs
  }

  /** Every character of `s` with index in `[lo, hi)` is strippable. */
  predicate StrippableRange(s: string, arg: StripArg, lo: int, hi: int)
    requires 0 <= lo <= hi <= |s|
  {
    forall k :: lo <= k < hi ==> Strippable(s[k], arg)
  }

  predicate AllStrippable(s: string, arg: StripArg) {
    StrippableRange(s, arg, 0, |s|)
  }

  /** `str.lstrip`: the suffix left after the maximal strippable prefix. */
  function LStrip(s: string, arg: StripArg): (r: string)
    ensures |r| <= |s| && r == s[|s| - |r|..]
    ensures StrippableRange(s, arg, 0, |s| - |r|)
    ensures r != [] ==> !Strippable(r[0], arg)
    decreases |s|
  {
    if |s| > 0 && Strippable(s[0], arg) then LStrip(s[1..], arg) else s
  }

  /** `str.rstrip`: the prefix left after the maximal strippable suffix. */
  function RStrip(s: string, arg: StripArg): (r: string)
    ensures |r| <= |s| && r == s[..|r|]
    ensures StrippableRange(s, arg, |r|, |s|)
    ensures r != [] ==> !Strippable(r[|r| - 1], arg)
    decreases |s|
  {
    if |s| > 0 && Strippable(s[|s| - 1], arg) then RStrip(s[..|s| - 1], arg) else s
  }

  /** `str.strip`: `s[i..j]` for the maximal strippable margins `s[..i]` and
      `s[j..]`; the result neither starts nor ends with a strippable character. */
  function Strip(s: string, arg: StripArg): (r: string)
    ensures |r| <= |s|
    ensures r != [] ==> !Strippable(r[0], arg) && !Strippable(r[|r| - 1], arg)
  {
    RStrip(LStrip(s, arg), arg)
  }

  /** The margins Strip removes are strippable, and nothing else is removed. */
  lemma StripSlice(s: string, arg: StripArg) returns (i: nat, j: nat)
    ensures i <= j <= |s| && Strip(s, arg) == s[i..j]
    ensures StrippableRange(s, arg, 0, i) && StrippableRange(s, arg, j, |s|)
  {
    var l := LStrip(s, arg);
    var r := RStrip(l, arg);
    i := |s| - |l|;
    j := i + |r|;
    forall k | j <= k < |s|
      ensures Strippable(s[k], arg)
    {
      assert s[k] == l[k - i];
    }
  }

  /** Strip yields the empty string exactly when every character is strippable. */
  lemma StripEmpty(s: string, arg: StripArg)
    ensures Strip(s, arg) == [] <==> AllStrippable(s, arg)
  {
    var i, j := StripSlice(s, arg);
    if Strip(s, arg) != [] {
      assert !Strippable(s[i], arg);
    }
  }

  /** Conversely, any split of `s` into strippable margins around a middle
      that neither starts nor ends with a strippable character is the one
      Strip finds. */
  lemma StripExact(s: string, arg: StripArg, i: nat, j: nat)
    requires i <= j <= |s|
    requires StrippableRange(s, arg, 0, i) && StrippableRange(s, arg, j, |s|)
    requires i < j ==> !Strippable(s[i], arg) && !Strippable(s[j - 1], arg)
    ensures Strip(s, arg) == s[i..j]
  {
    var i', j' := StripSlice(s, arg);
    var r := Strip(s, arg);
    if i' < j' {
      assert r[0] == s[i'] && r[|r| - 1] == s[j' - 1];
    }
  }

  /** Stripping twice is stripping once. */
  lemma StripIdempotent(s: string, arg: StripArg)
    ensures Strip(Strip(s, arg), arg) == Strip(s, arg)
  {
    var r := Strip(s, arg);
    StripExact(r, arg, 0, |r|);
  }

  predicate StartsWith(s: string, prefix: string) {
    |prefix| <= |s| && s[..|prefix|] == prefix
  }

  predicate EndsWith(s: string, suffix: string) {
    |suffix| <= |s| && s[|s| - |suffix|..] == suffix
  }

  /** `s.split(sep)` for a one-character separator: never an empty list,
      and no piece holds `sep`. */
  function Split(s: string, sep: char): (pieces: seq<string>)
    ensures |pieces| >= 1
    ensures forall k :: 0 <= k < |pieces| ==> sep !in pieces[k]
    decreases |s|
  {
    if |s| == 0 then [""]
    else
      var rest := Split(s[1..], sep);
      if s[0] == sep then [""] + rest
      else [[s[0]] + rest[0]] + rest[1..]
  }

  /** `sep.join(lines)` for a one-character separator. */
  function Join(lines: seq<string>, sep: char): string
    decreases |lines|
  {
    if |lines| == 0 then ""
    else if |lines| == 1 then lines[0]
    else lines[0] + [sep] + Join(lines[1..], sep)
  }

  /** Split yields one more piece than there are separators. */
  lemma {:induction false} SplitCount(s: string, sep: char)
    ensures |Split(s, sep)| == multiset(s)[sep] + 1
    decreases |s|
  {
    if |s| > 0 {
      SplitCount(s[1..], sep);
      assert s == [s[0]] + s[1..];
    }
  }

  /** Joining separator-free lines puts exactly one separator between each
      neighbouring pair. */
  lemma {:induction false} JoinCount(lines: seq<string>, sep: char)
    requires lines != []
    requires forall k :: 0 <= k < |lines| ==> sep !in lines[k]
    ensures multiset(Join(lines, sep))[sep] == |lines| - 1
    decreases |lines|
  {
    if |lines| > 1 {
      JoinCount(lines[1..], sep);
      assert sep !in lines[0];
    }
  }

  /** Joining the pieces of a split gives back the string. */
  lemma {:induction false} JoinSplit(s: string, sep: char)
    ensures Join(Split(s, sep), sep) == s
    decreases |s|
  {
    if |s| > 0 {
      var rest := Split(s[1..], sep);
      JoinSplit(s[1..], sep);
      var pieces := Split(s, sep);
      if s[0] == sep {
        assert pieces == [""] + rest;
        assert pieces[1..] == rest;
        assert Join(pieces, sep) == pieces[0] + [sep] + Join(rest, sep);
        assert s == [sep] + s[1..];
      } else {
        assert pieces == [[s[0]] + rest[0]] + rest[1..];
        if |rest| == 1 {
          assert Join(pieces, sep) == [s[0]] + rest[0];
        } else {
          assert pieces[1..] == rest[1..];
          assert Join(pieces, sep) == [s[0]] + rest[0] + [sep] + Join(rest[1..], sep);
          assert Join(rest, sep) == rest[0] + [sep] + Join(rest[1..], sep);
        }
        assert s == [s[0]] + s[1..];
      }
    }
  }

  lemma {:induction false} SplitNoSeparator(a: string, sep: char)
    requires sep !in a
    ensures Split(a, sep) == [a]
    decreases |a|
  {
    if |a| > 0 {
      SplitNoSeparator(a[1..], sep);
      assert [a[0]] + a[1..] == a;
    }
  }

  lemma {:induction false} SplitAtSeparator(a: string, sep: char, b: string)
    requires sep !in a
    ensures Split(a + [sep] + b, sep) == [a] + Split(b, sep)
    decreases |a|
  {
    var s := a + [sep] + b;
    if |a| == 0 {
      assert s[1..] == b;
    } else {
      assert s[1..] == a[1..] + [sep] + b;
      SplitAtSeparator(a[1..], sep, b);
      assert [a[0]] + a[1..] == a;
    }
  }

  /** Splitting a join of separator-free lines gives back the lines. */
  lemma {:induction false} SplitJoin(lines: seq<string>, sep: char)
    requires lines != []
    requires forall k :: 0 <= k < |lines| ==> sep !in lines[k]
    ensures Split(Join(lines, sep), sep) == lines
    decreases |lines|
  {
    if |lines| == 1 {
      SplitNoSeparator(lines[0], sep);
    } else {
      SplitJoin(lines[1..], sep);
      SplitAtSeparator(lines[0], sep, Join(lines[1..], sep));
    }
  }

  /** `pat` occurs in `s` starting at index `i`. */
  predicate OccursAt(s: string, pat: string, i: nat) {
    i + |pat| <= |s| && s[i..i + |pat|] == pat
  }

  /** `s.count(pat)`: non-overlapping occurrences found scanning left to right. */
  function Count(s: string, pat: string): nat
    requires pat != []
    decreases |s|
  {
    if |s| < |pat| then 0
    else if s[..|pat|] == pat then 1 + Count(s[|pat|..], pat)
    else Count(s[1..], pat)
  }

  /** `s.replace(pat, rep)`: every non-overlapping occurrence of `pat`, found
      scanning left to right, replaced by `rep`. */
  function Replace(s: string, pat: string, rep: string): string
    requires pat != []
    decreases |s|
  {
    if |s| < |pat| then s
    else if s[..|pat|] == pat then rep + Replace(s[|pat|..], pat, rep)
    else [s[0]] + Replace(s[1..], pat, rep)
  }

  /** No occurrence of `pat` in `s` starts before index `n`. */
  predicate NoOccurrenceBefore(s: string, pat: string, n: nat) {
    forall i: nat :: i < n ==> !OccursAt(s, pat, i)
  }

  /** Dropping the first character keeps "no occurrence starts early". */
  lemma NoOccurrenceTail(s: string, pat: string, n: nat)
    requires 0 < n && 0 < |s| && NoOccurrenceBefore(s, pat, n)
    ensures NoOccurrenceBefore(s[1..], pat, n - 1)
  {
    forall i: nat | i < n - 1
      ensures !OccursAt(s[1..], pat, i)
    {
      assert !OccursAt(s, pat, i + 1);
      if i + |pat| <= |s[1..]| {
        assert s[1..][i..i + |pat|] == s[i + 1..i + 1 + |pat|];
      }
    }
  }

  /** The leftmost occurrence is the one rewritten first: when no occurrence
      starts inside `a`, Replace copies `a`, rewrites the `pat` right after
      it, and carries on with the rest. */
  lemma {:induction false} ReplaceFirst(a: string, pat: string, rep: string, b: string)
    requires pat != [] && NoOccurrenceBefore(a + pat + b, pat, |a|)
    ensures Replace(a + pat + b, pat, rep) == a + rep + Replace(b, pat, rep)
    decreases |a|
  {
    var s := a + pat + b;
    if |a| == 0 {
      assert s == pat + b;
      assert s[..|pat|] == pat && s[|pat|..] == b;
    } else {
      var t := a[1..] + pat + b;
      assert !OccursAt(s, pat, 0);
      assert s[1..] == t;
      NoOccurrenceTail(s, pat, |a|);
      assert Replace(s, pat, rep) == [a[0]] + Replace(t, pat, rep);
      ReplaceFirst(a[1..], pat, rep, b);
      assert [a[0]] + (a[1..] + rep + Replace(b, pat, rep)) == ([a[0]] + a[1..]) + rep + Replace(b, pat, rep);
      assert [a[0]] + a[1..] == a;
    }
  }

  /** The `count` twin of ReplaceFirst: the occurrence right after `a` is
      counted once, and counting carries on after it. */
  lemma {:induction false} CountFirst(a: string, pat: string, b: string)
    requires pat != [] && NoOccurrenceBefore(a + pat + b, pat, |a|)
    ensures Count(a + pat + b, pat) == 1 + Count(b, pat)
    decreases |a|
  {
    var s := a + pat + b;
    if |a| == 0 {
      assert s == pat + b;
      assert s[..|pat|] == pat && s[|pat|..] == b;
    } else {
      assert !OccursAt(s, pat, 0);
      assert s[1..] == a[1..] + pat + b;
      NoOccurrenceTail(s, pat, |a|);
      CountFirst(a[1..], pat, b);
    }
  }

  /** Every character of a replacement's result comes from `s` or from `rep`. */
  lemma {:induction false} ReplaceChars(s: string, pat: string, rep: string, ch: char)
    requires pat != []
    requires ch in Replace(s, pat, rep)
    ensures ch in s || ch in rep
    decreases |s|
  {
    if |s| >= |pat| {
      if s[..|pat|] == pat {
        if ch !in rep {
          ReplaceChars(s[|pat|..], pat, rep, ch);
        }
      } else if ch != s[0] {
        ReplaceChars(s[1..], pat, rep, ch);
      }
    }
  }

  /** Each replacement changes the length by `|rep| - |pat|`. */
  lemma {:induction false} ReplaceLength(s: string, pat: string, rep: string)
    requires pat != []
    ensures |Replace(s, pat, rep)| + Count(s, pat) * |pat| == |s| + Count(s, pat) * |rep|
    decreases |s|
  {
    if |s| >= |pat| {
      if s[..|pat|] == pat {
        var t := s[|pat|..];
        ReplaceLength(t, pat, rep);
        MulSucc(Count(t, pat), |pat|);
        MulSucc(Count(t, pat), |rep|);
      } else {
        ReplaceLength(s[1..], pat, rep);
      }
    }
  }

  lemma MulSucc(c: nat, n: nat)
    ensures (c + 1) * n == c * n + n
  {
  }

  /** Where `pat` occurs nowhere, Replace changes nothing. */
  lemma {:induction false} ReplaceAbsent(s: string, pat: string, rep: string)
    requires pat != []
    requires forall i: nat :: i <= |s| ==> !OccursAt(s, pat, i)
    ensures Replace(s, pat, rep) == s
    ensures Count(s, pat) == 0
    decreases |s|
  {
    if |s| >= |pat| {
      assert !OccursAt(s, pat, 0);
      forall i: nat | i <= |s[1..]|
        ensures !OccursAt(s[1..], pat, i)
      {
        assert !OccursAt(s, pat, i + 1);
      }
      ReplaceAbsent(s[1..], pat, rep);
    }
  }

  /** A string that lacks the pattern's first character holds no occurrence. */
  lemma ReplaceMissingFirstChar(s: string, pat: string, rep: string)
    requires pat != [] && pat[0] !in s
    ensures forall i: nat :: i <= |s| ==> !OccursAt(s, pat, i)
    ensures Replace(s, pat, rep) == s
  {
    ReplaceAbsent(s, pat, rep);
  }
}
