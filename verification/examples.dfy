/** Worked inputs for `clean_response`: small general lemmas about texts of a
    given shape, each followed by the concrete text it covers. The concrete
    texts are written with the formatter's named markers (`BoldMarker` is
    `**`, `SourcePrefix` is `- Source:`, `SourceLabel` is `Source:`). */
module FormatterExamples {
  import opened Text
  import opened Formatter
  import opened FormatterProperties

  /** `**Bitcoin**` becomes `Bitcoin:`. */
  lemma HeadingBitcoin()
    ensures CleanLine(BoldMarker + "Bitcoin" + BoldMarker) == "Bitcoin:"
  {
    HeadingOfLabel("Bitcoin");
  }

  /** `***X***` becomes `X:`: every surrounding star goes, not one pair. */
  lemma HeadingExtraStars()
    ensures CleanLine("*" + BoldMarker + "X" + BoldMarker + "*") == "X:"
  {
    HeadingStripsAllStars("*" + BoldMarker + "X" + BoldMarker + "*", 3, 4);
  }

  /** A bulleted source line of the shape the prompt asks for loses its
      bullet and keeps its remainder. */
  lemma SourceCoinDesk()
    ensures CleanLine(SourcePrefix + " CoinDesk (https://www.coindesk.com/markets)")
         == SourceLabel + " CoinDesk (https://www.coindesk.com/markets)"
  {
    SourceNoRepeat(" CoinDesk (https://www.coindesk.com/markets)");
  }

  lemma JoinTwo(s: seq<string>)
    requires |s| == 2
    ensures Join(s, Newline) == s[0] + [Newline] + s[1]
  {
    assert s[1..] == [s[1]];
  }

  lemma JoinThree(s: seq<string>)
    requires |s| == 3
    ensures Join(s, Newline) == s[0] + [Newline] + (s[1] + [Newline] + s[2])
  {
    assert s[1..][1..] == [s[2]];
    JoinTwo(s[1..]);
  }

  lemma MixedBody(plain: string, rest: string, name: string)
    requires plain != [] && !IsSpace(plain[0])
    requires Newline !in plain && Newline !in rest && Newline !in name
    ensures var b, c := SourcePrefix + rest, BoldMarker + name + BoldMarker;
            && Newline !in b && Newline !in c
            && var body := Join([plain, b, c], Newline);
               body != [] && !IsSpace(body[0]) && !IsSpace(body[|body| - 1])
  {
    var b, c := SourcePrefix + rest, BoldMarker + name + BoldMarker;
    JoinThree([plain, b, c]);
    var body := plain + [Newline] + (b + [Newline] + c);
    assert body[0] == plain[0] && body[|body| - 1] == '*';
    assert forall k :: 0 <= k < |SourcePrefix| ==> SourcePrefix[k] != Newline;
  }

  /** A plain line, a source line and a heading between whitespace margins:
      the margins go, the source line loses its bullet and the heading its
      stars. The spaces after the closing `**` belong to the right margin, so
      the whole-text trim removes them and the heading still matches. */
  lemma MixedResponse(plain: string, rest: string, name: string)
    requires RuleFor(plain) == Unchanged && plain != [] && !IsSpace(plain[0])
    requires '-' !in rest
    requires Unstarred(name)
    requires Newline !in plain && Newline !in rest && Newline !in name
    ensures CleanResponse("  " + (plain + [Newline] + (SourcePrefix + rest + [Newline] + (BoldMarker + name + BoldMarker))) + "  \n")
         == plain + [Newline] + (SourceLabel + rest + [Newline] + (name + ":"))
  {
    var lines := [plain, SourcePrefix + rest, BoldMarker + name + BoldMarker];
    MixedBody(plain, rest, name);
    ResponseOfLines("  ", lines, "  \n");
    JoinThree(lines);
    var out := FormatLines(lines);
    SourceNoRepeat(rest);
    HeadingOfLabel(name);
    assert out[0] == plain && out[1] == SourceLabel + rest && out[2] == name + ":";
    JoinThree(out);
  }

  /** `"  Hello\n- Source: X\n**Y**  \n"` becomes `"Hello\nSource: X\nY:"`. */
  lemma ResponseHello()
    ensures CleanResponse("  " + ("Hello" + [Newline] + (SourcePrefix + " X" + [Newline] + (BoldMarker + "Y" + BoldMarker))) + "  \n")
         == "Hello" + [Newline] + (SourceLabel + " X" + [Newline] + "Y:")
  {
    MixedResponse("Hello", " X", "Y");
  }

  /** A heading with spaces after its closing `**` that is not at the end of
      the text is not a heading: the line is kept as it is. */
  lemma PaddedHeadingKept(name: string, pad: string, next: string)
    requires pad != [] && AllStrippable(pad, Whitespace) && Newline !in pad
    requires Newline !in name && Newline !in next
    requires RuleFor(next) == Unchanged && next != [] && !IsSpace(next[|next| - 1])
    ensures var text := BoldMarker + name + BoldMarker + pad + [Newline] + next;
            CleanResponse(text) == text
  {
    var line := BoldMarker + name + BoldMarker + pad;
    assert line[|line| - 1] == pad[|pad| - 1];
    assert !EndsWith(line, BoldMarker);
    assert line[0] == '*';
    assert RuleFor(line) == Unchanged;
    assert Newline !in line;
    JoinTwo([line, next]);
    var text := line + [Newline] + next;
    assert text[0] == '*' && text[|text| - 1] == next[|next| - 1];
    ResponseOfLines("", [line, next], "");
    assert "" + text + "" == text;
    var out := FormatLines([line, next]);
    assert out[0] == line && out[1] == next;
    JoinTwo(out);
  }

  /** `"**Y**  \nZ"` is kept as it is. */
  lemma ResponsePaddedHeading()
    ensures CleanResponse(BoldMarker + "Y" + BoldMarker + "  " + [Newline] + "Z")
         == BoldMarker + "Y" + BoldMarker + "  " + [Newline] + "Z"
  {
    PaddedHeadingKept("Y", "  ", "Z");
  }

  /** Empty and all-whitespace texts give the empty string. */
  lemma ResponseBlank(text: string)
    requires text == "" || text == " \t\n "
    ensures CleanResponse(text) == ""
  {
    // Both texts are all whitespace; CleanResponse's own contract applies.
  }
}
