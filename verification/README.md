# Response formatter of the investment-news fetcher

The fetcher asks a generative-text service for investment news, reformats the
reply, and writes it to `investment_news.txt`. Only the reformatting step,
`clean_response` (`1.py:14-27`), is modelled here. It is a pure string
transformation:

1. The whole reply is stripped of surrounding whitespace (`text.strip()`).
2. The stripped text is split on `"\n"`.
3. Each line is rewritten by the first rule it matches:
   - **heading**: the line starts with `**` and ends with `**`. Every leading
     and trailing `'*'` is removed and `':'` is appended.
   - **source**: the line starts with `- Source:`. Every occurrence of
     `- Source:` in it becomes `Source:`.
   - **otherwise**: the line is kept as it is.
4. The lines are joined back with `"\n"`.

Files:

- `text.dfy`, module `Text`: the Python `str` methods the formatter uses:
  `strip` (no argument, or a set of characters), `startswith`, `endswith`,
  `split` (one-character separator), `join` and `replace`. `Count` models
  `str.count`, which the formatter never calls. It serves as the measure of
  how much `replace` rewrites.
  - `strip` is characterised by its slice and margins.
  - `split` and `join` come with round trips in both directions and with
    separator counts.
  - `replace` comes with its leftmost-occurrence step, its length change,
    its no-occurrence identity and the characters it can produce.
- `formatter.dfy`, module `Formatter`: `clean_response` itself. `RuleFor`
  gives the first-match rule, `Heading` and `SourceRewrite` give the two
  rewrites, `CleanLine` handles one line, `FormatLines` is the loop, and
  `CleanResponse` is the whole function.
- `properties.dfy`, module `FormatterProperties`: what the formatter
  guarantees for every input.
- `examples.dfy`, module `FormatterExamples`: lemmas about texts of a given
  shape, each with the concrete text it covers.

Strings are `seq<char>`, sequences of Unicode scalar values. A Python 3
`str` can also hold lone surrogates (U+D800–U+DFFF); see "## Left out".
`Text.IsSpace` is the set of characters for which Python's `str.isspace()`
holds. That set is U+0009–U+000D, U+001C–U+0020, U+0085, U+00A0, U+1680,
U+2000–U+200A, U+2028, U+2029, U+202F, U+205F and U+3000. `str.strip()`
removes exactly these.

Three details of the code shape the model:

- `line.strip("**")` takes its argument as a set of characters. It removes
  every leading and trailing `'*'`, not one pair, so `***X***` becomes `X:`
  and `****` becomes `:`.
- `line.replace("- Source:", "Source:")` rewrites every non-overlapping
  occurrence, found scanning left to right, not only the leading one. So
  `- Source: a - Source: b` becomes `Source: a Source: b`. The remainder is
  kept verbatim only when it holds no further `- Source:`.
- The heading test has no tolerance for whitespace. `"  Hello\n- Source: X\n**Y**  \n"`
  gives `"Hello\nSource: X\nY:"` only because the padded heading is the
  last line: the whole-text strip removes its spaces (`ResponseHello`). The
  same heading followed by another line keeps its spaces and is passed
  through unchanged (`ResponsePaddedHeading`).

## Model

| member | source | states |
|---|---|---|
| Text.LStrip | 1.py:16 | the result is a suffix of the input; everything removed is strippable; the result does not start with a strippable character |
| Text.RStrip | 1.py:16 | the result is a prefix of the input; everything removed is strippable; the result does not end with a strippable character |
| Text.Strip | 1.py:16 | a stripped string is no longer than the input and neither starts nor ends with a strippable character |
| Text.StripSlice | 1.py:16 | `strip` returns a slice `s[i..j]` whose margins `s[..i]` and `s[j..]` are entirely strippable |
| Text.StripExact | 1.py:21 | any split into strippable margins around a middle with non-strippable ends is the one `strip` finds, so `strip("**")` removes all surrounding stars |
| Text.StripEmpty | 1.py:16 | stripping yields the empty string exactly when every character is strippable |
| Text.StripIdempotent | 1.py:16 | stripping a stripped string changes nothing |
| Text.Split | 1.py:16 | `split` never returns an empty list and no piece contains the separator |
| Text.SplitCount | 1.py:16 | `split` returns one more piece than there are separators in the string |
| Text.JoinSplit | 1.py:16-27 | joining the pieces of a split with the same separator gives back the original string |
| Text.SplitJoin | 1.py:27 | splitting a join of separator-free lines gives back exactly those lines |
| Text.JoinCount | 1.py:27 | joining n separator-free lines puts exactly n − 1 separators in the result |
| Text.ReplaceFirst | 1.py:23 | the leftmost occurrence is rewritten first: when no occurrence of the pattern starts inside `a`, `replace` on `a + pat + b` gives `a + new` followed by the replacement of `b` |
| Text.CountFirst | 1.py:23 | the occurrence right after such an `a` is counted once, and counting carries on in `b` |
| Text.ReplaceChars | 1.py:23 | every character of a `replace` result comes from the string or from the replacement |
| Text.ReplaceLength | 1.py:23 | each occurrence replaced changes the length by `len(new) − len(old)`, with occurrences counted as `str.count` counts them |
| Text.ReplaceAbsent | 1.py:23 | where the pattern occurs at no index, `replace` returns the string unchanged and the count is 0 |
| Text.ReplaceMissingFirstChar | 1.py:23 | a string lacking the pattern's first character contains no occurrence, so `replace` leaves it unchanged |
| Formatter.RuleFor | 1.py:20-25 | the heading rule applies exactly to lines passing the heading test; a line starting with `- Source:` always gets the source rule, because it cannot pass the heading test; a line is left unchanged exactly when it passes neither test |
| Formatter.Heading | 1.py:20-21 | a heading becomes a non-empty line ending in `':'`; the label before the colon neither starts nor ends with `'*'`, and the result never passes the heading test again |
| Formatter.SourceRewrite | 1.py:22-23 | a `- Source:` line becomes a line starting with `Source:` that is 2 characters shorter for each `- Source:` in the input |
| Formatter.CleanLine | 1.py:19-25 | a line matching neither rule is copied unchanged; the output line is empty exactly when the input line is |
| Formatter.FormatLines | 1.py:17-25 | the loop keeps the number of lines; output line k is input line k rewritten and depends on nothing else |
| Formatter.InputLines | 1.py:16 | the stripped text always splits into at least one line |
| Formatter.CleanResponse | 1.py:14-27 | the result is empty exactly when the reply is empty or all whitespace |
| FormatterProperties.HeadingStripsAllStars | 1.py:20-21 | a heading becomes its slice between the maximal leading and trailing star runs, followed by `':'` |
| FormatterProperties.HeadingOfLabel | 1.py:20-21 | `**X**` becomes `X:` for every label X without a star at either end, the empty label included |
| FormatterProperties.HeadingOnlyStars | 1.py:20-21 | the two markers may overlap: any line of two or more stars and nothing else is a heading and becomes `:` |
| FormatterProperties.SourceRule | 1.py:20-23 | a `- Source:` line is never a heading, so the source rule applies; its output is `Source:` followed by the remainder with every further `- Source:` rewritten |
| FormatterProperties.SourceRemainderKept | 1.py:22-23 | when the remainder after `- Source:` contains no further `- Source:`, the output is `Source:` followed by the remainder verbatim |
| FormatterProperties.TwoSources | 1.py:22-23 | a source line holding `- Source:` twice has both rewritten: `- Source:a- Source:b` becomes `Source:aSource:b` whenever no further `- Source:` starts in `a` or `b`; `a` may contain `'-'` |
| FormatterProperties.SourceNoRepeat | 1.py:22-23 | a `- Source:` line whose remainder has no `'-'` keeps that remainder |
| FormatterProperties.CleanLineChars | 1.py:19-25 | rewriting a line introduces no character except `':'` |
| FormatterProperties.FormattedLinesHaveNoNewline | 1.py:16-25 | no rewritten line contains a newline |
| FormatterProperties.ResponseLines | 1.py:16-27 | the output splits back into exactly the rewritten input lines, so the line count is preserved line for line |
| FormatterProperties.ResponseNewlines | 1.py:16-27 | the output contains exactly as many newlines as the stripped input |
| FormatterProperties.PassThrough | 1.py:16-27 | when no line matches a rule, the output is the stripped input |
| FormatterProperties.ResponseOfLines | 1.py:16-27 | a non-empty list of newline-free lines whose joined text neither starts nor ends with whitespace, placed between all-whitespace margins, comes out as those lines rewritten and joined |
| FormatterProperties.PreStripRedundant | 1.py:77 | stripping the reply before calling the formatter changes nothing |
| FormatterProperties.SingleLineResponse | 1.py:16-27 | a one-line text without surrounding whitespace is formatted as that line alone |
| FormatterProperties.HeadingOfSourceLine | 1.py:20-21 | for every R without a newline and not ending in `'*'`, `**- Source:R**` becomes `- Source:R:` |
| FormatterProperties.SourceAfterHeading | 1.py:22-23 | for every R without `'-'` and without a newline, `- Source:R:` becomes `Source:R:`, which differs from it |
| FormatterProperties.NotIdempotent | 1.py:14-27 | for every R without `'-'`, without a newline and not ending in `'*'`, a second pass over the output of `**- Source:R**` changes it again, so the formatter is not idempotent |
| FormatterExamples.HeadingBitcoin | 1.py:20-21 | `**Bitcoin**` becomes `Bitcoin:` |
| FormatterExamples.HeadingExtraStars | 1.py:20-21 | `***X***` becomes `X:` |
| FormatterExamples.SourceCoinDesk | 1.py:22-23 | `- Source: CoinDesk (https://www.coindesk.com/markets)` becomes `Source: CoinDesk (https://www.coindesk.com/markets)` |
| FormatterExamples.MixedResponse | 1.py:14-27 | a plain line (matching no rule, not starting with whitespace), a source line whose remainder has no `'-'`, and a heading whose label has no star at either end, all newline-free, between whitespace margins: the margins go, the bullet is dropped and the stars are stripped |
| FormatterExamples.ResponseHello | 1.py:14-27 | `"  Hello\n- Source: X\n**Y**  \n"` becomes `"Hello\nSource: X\nY:"` |
| FormatterExamples.PaddedHeadingKept | 1.py:20 | a heading with a newline-free label, padded with newline-free whitespace and followed by a line that matches no rule and does not end in whitespace fails the heading test; the text is kept unchanged |
| FormatterExamples.ResponsePaddedHeading | 1.py:20 | `"**Y**  \nZ"` is kept as it is |
| FormatterExamples.ResponseBlank | 1.py:16-27 | the empty text and `" \t\n "` both give the empty string |

## Left out

- Loading the API key from the environment and configuring the client
  (`1.py:1-12`): this is I/O through a foreign library.
- The call to the generative-text service and its empty-reply check
  (`1.py:29-77`): this is a network client. The prompt (`1.py:31-70`) is
  static text. The extra `.strip()` at `1.py:77` is covered by
  `PreStripRedundant`.
- Writing `investment_news.txt` and the top-level script call and message
  (`1.py:79-86`): this is file I/O and console output.
- Text.Replace: requires a non-empty pattern. Python's `replace` with an
  empty pattern inserts the replacement before, between and after every
  character (`"ab".replace("", "-") == "-a-b-"`). The
  formatter only ever passes the fixed pattern `- Source:`, so that case is
  not modelled. The same holds for `Text.Count`.
- Text.Split: models only a one-character separator, the only kind the
  formatter uses. `Text.Join` is likewise limited to a one-character
  separator.
- Lone surrogates (U+D800–U+DFFF): a Python `str` may hold them, but a Dafny
  `char` cannot, so such replies are outside the model. The formatter's
  behaviour on them would not differ. No surrogate is whitespace, `'*'` or a
  character of `- Source:`, so a surrogate is only ever copied.
