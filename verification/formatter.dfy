/** The response formatter (`clean_response`): the pass that rewrites the
    generative model's raw completion into the line convention the downstream
    consumer reads. The whole text is trimmed of whitespace, split on `'\n'`,
    each line is rewritten by the first rule it matches, and the lines are
    joined back with `'\n'`. */
module Formatter {
  import opened Text

  const BoldMarker: string := "**"
  const SourcePrefix: string := "- Source:"
  const SourceLabel: string := "Source:"
  const Newline: char := '\n'

  /** The rewrite a line receives. */
  datatype Rule = BoldHeading | SourceLine | Unchanged

  /** The heading test: starts with `**` and ends with `**`. The two markers
      may overlap (`**` and `***` pass), and no whitespace is tolerated, so
      `**Y**  ` fails. */
  predicate IsBold(line: string) {
    StartsWith(line, BoldMarker) && EndsWith(line, BoldMarker)
  }

  /** The tests are tried in order and the first one passed wins. A line
      that starts with `- Source:` starts with `'-'`, so it is never a heading
      and always gets the source rule. */
  function RuleFor(line: string): (r: Rule)
    ensures r == BoldHeading <==> IsBold(line)
    ensures StartsWith(line, SourcePrefix) ==> r == SourceLine
    ensures r == Unchanged <==> !IsBold(line) && !StartsWith(line, SourcePrefix)
  {
    if IsBold(line) then
      assert line[0] == BoldMarker[0];
      BoldHeading
    else if StartsWith(line, SourcePrefix) then SourceLine
    else Unchanged
  }

  /** No `'*'` at either end: the shape of a name the heading rule produces. */
  predicate Unstarred(name: string) {
    name == [] || (name[0] != '*' && name[|name| - 1] != '*')
  }

  /** The heading rule: every leading and trailing `'*'` removed (`strip`
      takes `"**"` as a set of characters), then `':'` appended. The result
      never passes the heading test again. */
  function Heading(line: string): (r: string)
    ensures |r| > 0 && r[|r| - 1] == ':' && Unstarred(r[..|r| - 1])
    ensures !IsBold(r)
  {
    var name := Strip(line, Chars(BoldMarker));
    assert (name + ":")[..|name|] == name;
    name + ":"
  }

  /** The source rule: `line.replace("- Source:", "Source:")`, which rewrites
      every occurrence, not only the leading one. */
  function SourceRewrite(line: string): (r: string)
    requires StartsWith(line, SourcePrefix)
    ensures StartsWith(r, SourceLabel)
    ensures |r| + 2 * Count(line, SourcePrefix) == |line|
  {
    ReplaceLength(line, SourcePrefix, SourceLabel);
    Replace(line, SourcePrefix, SourceLabel)
  }

  /** One line rewritten by the first rule it matches; a line matching none
      is kept as it is. Only the empty line maps to the empty line. */
  function CleanLine(line: string): (r: string)
    ensures RuleFor(line) == Unchanged ==> r == line
    ensures r == [] <==> line == []
  {
    match RuleFor(line)
    case BoldHeading =>
      assert |line| >= |BoldMarker| > 0;
      Heading(line)
    case SourceLine =>
      assert |line| >= |SourcePrefix| > 0;
      SourceRewrite(line)
    case Unchanged => line
  }

  /** The per-line loop: line `k` of the output is line `k` of the input,
      rewritten, and depends on nothing else. */
  function FormatLines(lines: seq<string>): (out: seq<string>)
    ensures |out| == |lines|
    ensures forall k :: 0 <= k < |lines| ==> out[k] == CleanLine(lines[k])
  {
    seq(|lines|, k requires 0 <= k < |lines| => CleanLine(lines[k]))
  }

  /** The lines the formatter works on: the trimmed text split on `'\n'`. */
  function InputLines(text: string): (lines: seq<string>)
    ensures lines != []
  {
    Split(Strip(text, Whitespace), Newline)
  }

  /** `clean_response`. Only an empty or all-whitespace reply comes out
      empty. */
  function CleanResponse(text: string): (r: string)
    ensures r == [] <==> AllStrippable(text, Whitespace)
  {
    Join(FormatLines(InputLines(text)), Newline)
  }
}
