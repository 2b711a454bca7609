/** What `clean_response` guarantees, line by line and for the whole text. */
module FormatterProperties {
  import opened Text
  import opened Formatter

  /** A heading loses ALL its leading and trailing stars, not one `**` pair:
      if `line[..i]` and `line[j..]` are all `'*'` and `line[i..j]` neither
      starts nor ends with one, the result is `line[i..j] + ":"`. */
  lemma HeadingStripsAllStars(line: string, i: nat, j: nat)
    requires IsBold(line)
    requires i <= j <= |line|
    requires forall k :: 0 <= k < i ==> line[k] == '*'
    requires forall k :: j <= k < |line| ==> line[k] == '*'
    requires i < j ==> line[i] != '*' && line[j - 1] != '*'
    ensures CleanLine(line) == line[i..j] + ":"
  {
    StripExact(line, Chars(BoldMarker), i, j);
  }

  /** `**X**` becomes `X:` for every label X without a star at either end
      (the empty label included: `****` becomes `:`). */
  lemma HeadingOfLabel(name: string)
    requires Unstarred(name)
    ensures CleanLine(BoldMarker + name + BoldMarker) == name + ":"
  {
    var line := BoldMarker + name + BoldMarker;
    assert line[2..2 + |name|] == name;
    HeadingStripsAllStars(line, 2, 2 + |name|);
  }

  /** The two markers may overlap: a line of two or more stars and nothing
      else is a heading, and its label is empty. */
  lemma HeadingOnlyStars(line: string)
    requires |line| >= 2 && forall k :: 0 <= k < |line| ==> line[k] == '*'
    ensures RuleFor(line) == BoldHeading && CleanLine(line) == ":"
  {
    assert line[..2] == BoldMarker && line[|line| - 2..] == BoldMarker;
    HeadingStripsAllStars(line, |line|, |line|);
  }

  /** A `- Source:` line can never be a heading, so the source rule is the one
      applied; it produces `Source:` followed by the remainder with every
      further `- Source:` in it rewritten as well. */
  lemma SourceRule(line: string)
    requires StartsWith(line, SourcePrefix)
    ensures RuleFor(line) == SourceLine
    ensures CleanLine(line) == SourceLabel + Replace(line[|SourcePrefix|..], SourcePrefix, SourceLabel)
  {
    assert line[0] == '-';
  }

  /** When the remainder holds no further `- Source:`, it is kept verbatim. */
  lemma SourceRemainderKept(line: string)
    requires StartsWith(line, SourcePrefix)
    requires forall i: nat :: i <= |line| - |SourcePrefix| ==> !OccursAt(line[|SourcePrefix|..], SourcePrefix, i)
    ensures CleanLine(line) == SourceLabel + line[|SourcePrefix|..]
  {
    SourceRule(line);
    ReplaceAbsent(line[|SourcePrefix|..], SourcePrefix, SourceLabel);
  }

  /** A source line whose remainder has no `'-'` keeps that remainder. */
  lemma SourceNoRepeat(rest: string)
    requires '-' !in rest
    ensures CleanLine(SourcePrefix + rest) == SourceLabel + rest
  {
    var line := SourcePrefix + rest;
    assert line[|SourcePrefix|..] == rest;
    ReplaceMissingFirstChar(rest, SourcePrefix, SourceLabel);
    SourceRemainderKept(line);
  }

  /** A second `- Source:` later in a source line is rewritten too:
      `replace` acts on every occurrence, not only the leading one. `a` may
      hold anything in which no `- Source:` starts, a `'-'` included. */
  lemma TwoSources(a: string, b: string)
    requires NoOccurrenceBefore(a + SourcePrefix + b, SourcePrefix, |a|)
    requires NoOccurrenceBefore(b, SourcePrefix, |b| + 1)
    ensures CleanLine(SourcePrefix + a + SourcePrefix + b) == SourceLabel + a + SourceLabel + b
  {
    var line := SourcePrefix + a + SourcePrefix + b;
    var rest := a + SourcePrefix + b;
    assert line == SourcePrefix + rest;
    assert line[|SourcePrefix|..] == rest;
    SourceRule(line);
    ReplaceFirst(a, SourcePrefix, SourceLabel, b);
    ReplaceAbsent(b, SourcePrefix, SourceLabel);
    assert Replace(rest, SourcePrefix, SourceLabel) == a + SourceLabel + b;
  }

  lemma HeadingChars(line: string, ch: char)
    requires ch in Heading(line)
    ensures ch in line || ch == ':'
  {
    var i, j := StripSlice(line, Chars(BoldMarker));
    var name := line[i..j];
    assert Heading(line) == name + ":";
    if ch != ':' {
      var k :| 0 <= k < |name| && name[k] == ch;
      assert line[i + k] == ch;
    }
  }

  lemma SourceRewriteChars(line: string, ch: char)
    requires StartsWith(line, SourcePrefix)
    requires ch in SourceRewrite(line)
    ensures ch in line
  {
    ReplaceChars(line, SourcePrefix, SourceLabel, ch);
    if ch in SourceLabel {
      assert SourceLabel == line[2..9];
      var k :| 0 <= k < 7 && SourceLabel[k] == ch;
      assert line[2 + k] == ch;
    }
  }

  /** Rewriting introduces no character except `':'`. */
  lemma CleanLineChars(line: string, ch: char)
    requires ch in CleanLine(line)
    ensures ch in line || ch == ':'
  {
    match RuleFor(line)
    case BoldHeading => HeadingChars(line, ch);
    case SourceLine => SourceRewriteChars(line, ch);
    case Unchanged =>
  }

  /** No rewritten line holds a newline. */
  lemma FormattedLinesHaveNoNewline(text: string)
    ensures forall k :: 0 <= k < |FormatLines(InputLines(text))| ==>
              Newline !in FormatLines(InputLines(text))[k]
  {
    var lines := InputLines(text);
    forall k | 0 <= k < |lines|
      ensures Newline !in CleanLine(lines[k])
    {
      if Newline in CleanLine(lines[k]) {
        CleanLineChars(lines[k], Newline);
      }
    }
  }

  /** The output splits back into exactly the rewritten input lines: the line
      count is preserved and output line `k` is input line `k` rewritten. */
  lemma ResponseLines(text: string)
    ensures Split(CleanResponse(text), Newline) == FormatLines(InputLines(text))
  {
    FormattedLinesHaveNoNewline(text);
    SplitJoin(FormatLines(InputLines(text)), Newline);
  }

  /** The output holds exactly as many newlines as the trimmed input. */
  lemma ResponseNewlines(text: string)
    ensures multiset(CleanResponse(text))[Newline] == multiset(Strip(text, Whitespace))[Newline]
  {
    FormattedLinesHaveNoNewline(text);
    JoinCount(FormatLines(InputLines(text)), Newline);
    SplitCount(Strip(text, Whitespace), Newline);
  }

  /** A text none of whose lines matches a rule comes out as the trimmed text:
      the split/join round trip. */
  lemma PassThrough(text: string)
    requires forall k :: 0 <= k < |InputLines(text)| ==> RuleFor(InputLines(text)[k]) == Unchanged
    ensures CleanResponse(text) == Strip(text, Whitespace)
  {
    var lines := InputLines(text);
    assert FormatLines(lines) == lines;
    JoinSplit(Strip(text, Whitespace), Newline);
  }

  /** Text that is newline-free lines joined, between whitespace margins,
      comes out as those lines rewritten and joined: the margins go and each
      line is rewritten on its own. */
  lemma ResponseOfLines(pre: string, lines: seq<string>, post: string)
    requires AllStrippable(pre, Whitespace) && AllStrippable(post, Whitespace)
    requires lines != [] && forall k :: 0 <= k < |lines| ==> Newline !in lines[k]
    requires var body := Join(lines, Newline);
             body != [] ==> !IsSpace(body[0]) && !IsSpace(body[|body| - 1])
    ensures CleanResponse(pre + Join(lines, Newline) + post) == Join(FormatLines(lines), Newline)
  {
    var body := Join(lines, Newline);
    var text := pre + body + post;
    var i, j := |pre|, |pre| + |body|;
    assert text[i..j] == body;
    forall k | 0 <= k < i
      ensures Strippable(text[k], Whitespace)
    {
      assert text[k] == pre[k];
    }
    forall k | j <= k < |text|
      ensures Strippable(text[k], Whitespace)
    {
      assert text[k] == post[k - j];
    }
    if i < j {
      assert text[i] == body[0] && text[j - 1] == body[|body| - 1];
    }
    StripExact(text, Whitespace, i, j);
    SplitJoin(lines, Newline);
  }

  /** Stripping the text before formatting it changes nothing, since the
      formatter strips it first itself. */
  lemma PreStripRedundant(text: string)
    ensures CleanResponse(Strip(text, Whitespace)) == CleanResponse(text)
  {
    StripIdempotent(text, Whitespace);
  }

  /** A one-line text with no whitespace at either end is formatted as that
      line alone. */
  lemma SingleLineResponse(line: string)
    requires Newline !in line
    requires line != [] ==> !IsSpace(line[0]) && !IsSpace(line[|line| - 1])
    ensures CleanResponse(line) == CleanLine(line)
  {
    ResponseOfLines("", [line], "");
    assert "" + line + "" == line;
  }

  lemma SourceLineUnstarred(rest: string)
    requires rest == [] || rest[|rest| - 1] != '*'
    ensures Unstarred(SourcePrefix + rest)
  {
    var name := SourcePrefix + rest;
    assert name[0] == '-';
    assert name[|name| - 1] != '*' by {
      if rest == [] {
        assert name == SourcePrefix;
      } else {
        assert name[|name| - 1] == rest[|rest| - 1];
      }
    }
  }

  lemma SourceLineNoNewline(rest: string)
    requires Newline !in rest
    ensures Newline !in SourcePrefix + rest
  {
    assert forall k :: 0 <= k < |SourcePrefix| ==> SourcePrefix[k] != Newline;
  }

  /** A heading whose label is a source line comes out as that source line
      plus `':'`. */
  lemma HeadingOfSourceLine(rest: string)
    requires Newline !in rest
    requires rest == [] || rest[|rest| - 1] != '*'
    ensures CleanResponse(BoldMarker + (SourcePrefix + rest) + BoldMarker) == SourcePrefix + rest + ":"
  {
    var name := SourcePrefix + rest;
    var line := BoldMarker + name + BoldMarker;
    SourceLineNoNewline(rest);
    assert Newline !in line;
    SourceLineUnstarred(rest);
    HeadingOfLabel(name);
    SingleLineResponse(line);
  }

  /** A source line whose remainder has no `'-'` and ends in `':'`, as the
      heading rule leaves it, is rewritten once more. */
  lemma SourceAfterHeading(rest: string)
    requires '-' !in rest && Newline !in rest
    ensures CleanResponse(SourcePrefix + rest + ":") == SourceLabel + (rest + ":")
    ensures SourceLabel + (rest + ":") != SourcePrefix + rest + ":"
  {
    var r := rest + ":";
    SourceLineNoNewline(r);
    assert (SourcePrefix + r)[0] == '-' && (SourcePrefix + r)[|SourcePrefix + r| - 1] == ':';
    SingleLineResponse(SourcePrefix + r);
    SourceNoRepeat(r);
    assert SourcePrefix + rest + ":" == SourcePrefix + r;
    assert (SourceLabel + r)[0] == 'S';
  }

  /** The formatter is not idempotent: `**- Source: X**` becomes
      `- Source: X:`, which a second pass rewrites to `Source: X:`. */
  lemma NotIdempotent(rest: string)
    requires '-' !in rest && Newline !in rest
    requires rest == [] || rest[|rest| - 1] != '*'
    ensures var once := CleanResponse(BoldMarker + (SourcePrefix + rest) + BoldMarker);
            && once == SourcePrefix + rest + ":"
            && CleanResponse(once) == SourceLabel + (rest + ":")
            && CleanResponse(once) != once
  {
    HeadingOfSourceLine(rest);
    SourceAfterHeading(rest);
  }
}
