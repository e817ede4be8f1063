# EPub title and author normalisation, modelled in Dafny

This project models how the e-book renaming tool in `src/epub_info.py` turns
the title and author read from an EPub file into a file name. There are five
kinds of operation.

- **The three character rewriters.** Full-width letters and digits become
  ASCII. The ten characters `< > : " / \ | ! ? *` become their full-width
  forms. Full-width round brackets become ASCII ones.
- **`format_book_author`.** The first two rewriters, in that order.
- **`format_book_title`.** A fixed pipeline with these steps, in order:
  1. the three rewriters;
  2. promotional `【…】` spans and imprint spans in `(`, `＜` or `〈` brackets
     are deleted;
  3. colons become spaces, and whitespace runs collapse to one space;
  4. the numbering steps run: bracketed numbers, kanji numerals, the four
     circled-digit families, and a digit run before the `.epub` extension;
  5. whitespace collapses again, and whitespace before `.epub` is removed.
- **The numbering steps.** Each step first *searches* for the first match of
  one pattern and takes the number from it. It then *replaces every match* of
  a sometimes looser pattern with that same number. The number is padded
  with `zfill(2)`, except in the kanji step, which writes the mapped value as
  it is.
- **The rename command.** The line printed for each file:
  `Genre: G ` (when asked for) + `rename "<name>" "[<author>]<title>"`.

The model is pure, as the source is.

- Every step is a Dafny `function` on `string`.
- Every regular expression is a case of one `Pattern` datatype.
- `Regex.Match` says what Python's backtracking engine matches at the start
  of a text, with its leftmost-first, lazy and greedy rules.
- `Regex.Sub` scans like `re.sub`; `Regex.Search` returns the leftmost match,
  like `re.search`.

The modules are:

- `Chars`: character classes, `int`, `str` and `zfill(2)` on digit strings;
- `Rewriters`: the three rewriters;
- `Regex`: the patterns and the `re` semantics;
- `Annotations`: what lines 165-166 delete;
- `Numbering`: lines 81-127 and 174-201;
- `Title`: `format_book_author`, `format_book_title` and the rename command;
- `Worked`: the examples in the source's comments, and whole titles put
  through `format_book_title`, proved on the model.

Where the code and its comments disagree, the model follows the code.

- The doc comment of `replace_unsafe_symbol_to_safe_symbol` gives `”` and
  `￥` as the images of `"` and `\`. The code's shift gives U+FF02 and U+FF3C,
  as `Rewriters.ReplaceUnsafeSymbols` states.
- A kanji numeral before the extension is first written unpadded:
  `xxx 参巻.epub` becomes `xxx 3 .epub`. The digit step of lines 195-201
  then pads it again, so the title ends as `xxx 03.epub`
  (`Worked.KanjiVolumeTitle`), with two digits and not one.
- The kanji class of line 122 is built with `'|'.join`, so it also admits
  `|`. `dict.get` maps that to `None`, and `Numbering.KanjiValue` writes
  `None` for it. Inside `format_book_title` no `|` survives line 160.

## Model

| member | source | states |
|---|---|---|
| Chars.Decimal | src/epub_info.py:99 | `str(n)` for a natural number: a non-empty digit string with no leading zero whose value is `n`; it has one digit exactly when `n < 10` |
| Chars.ZFill2 | src/epub_info.py:99 | `zfill(2)`: pads on the left with `0` to length 2 and never truncates; the input is kept as the suffix |
| Chars.TwoDigit | src/epub_info.py:99 | `str(int(g)).zfill(2)`: all digits, at least two of them, with the same value as `g`; exactly two when the value is below 100; no leading zero when wider |
| Chars.DecimalCanonical | src/epub_info.py:99 | round trip: `str(int(s)) == s` for every digit string without a leading zero |
| Chars.LeadingZeros | src/epub_info.py:99 | leading zeros do not change `int(s)` |
| Chars.TwoDigitLeadingZeros | src/epub_info.py:99 | the padded number ignores leading zeros in the group |
| Chars.TwoDigitCanonical | src/epub_info.py:99 | a group of two or more digits without a leading zero is written back unchanged |
| Chars.TwoDigitSingle | src/epub_info.py:99 | a single digit `d` is written `0d` |
| Rewriters.ReplaceFullwidthAlnum | src/epub_info.py:24-34 | each character of `Ａ-Ｚａ-ｚ０-９` becomes the ASCII letter or digit 0xFEE0 lower; every other character is kept; the length is kept; no full-width letter or digit remains |
| Rewriters.ReplaceUnsafeSymbols | src/epub_info.py:37-61 | each of the ten unsafe symbols (`< > : " / \ ! ? *` and the vertical bar) becomes the character 0xFEE0 higher, one of the ten full-width forms; every other character is kept; the length is kept; none of the ten remains |
| Rewriters.ReplaceFullwidthBrackets | src/epub_info.py:64-78 | `（` becomes `(` and `）` becomes `)`; every other character is kept; no full-width bracket remains |
| Rewriters.ReplaceFullwidthAlnumIdempotent | src/epub_info.py:24-34 | running the rewriter twice gives what running it once gives |
| Rewriters.ReplaceUnsafeSymbolsIdempotent | src/epub_info.py:37-61 | running the rewriter twice gives what running it once gives |
| Rewriters.ReplaceFullwidthBracketsIdempotent | src/epub_info.py:64-78 | running the rewriter twice gives what running it once gives |
| Rewriters.ReplaceFullwidthAlnumInvertsWiden | src/epub_info.py:24-34 | widening every character of an ASCII alphanumeric text and then rewriting gives the text back |
| Rewriters.ReplaceFullwidthAlnumChanges | src/epub_info.py:34 | a character changes exactly when it is a full-width letter or digit |
| Rewriters.ReplaceUnsafeSymbolsChanges | src/epub_info.py:61 | a character changes exactly when it is one of the ten unsafe symbols |
| Rewriters.UnsafeSymbolsKeepHalfwidth | src/epub_info.py:140-141 | the symbol rewriter brings back no full-width letter or digit |
| Rewriters.BracketsKeepSafe | src/epub_info.py:159-161 | the bracket rewriter brings back no full-width letter or digit and no unsafe symbol |
| Title.FormatBookAuthor | src/epub_info.py:130-143 | each character goes through the alphanumeric rewrite and then the symbol rewrite; the length is kept, so `""` stays `""`; no full-width letter or digit and no unsafe symbol remains |
| Title.RewriteChars | src/epub_info.py:159-161 | after the three rewriters no character is a full-width letter, digit or bracket, or an unsafe symbol |
| Title.ReplaceColons | src/epub_info.py:167 | `：` and `:` become a space, every other character is kept |
| Title.StripAnnotations | src/epub_info.py:165-166 | the two deletions; `Title.StripAnnotationsKeeps`, `Annotations.NoSpanUnchanged`, `Annotations.NoOpenerUnchanged` and `Annotations.OneSpanRemoved` carry its contract |
| Title.CollapseSpaces | src/epub_info.py:168 | `\s+` → ` `; `Title.CollapseSpacesSingle`, `Title.CollapseSpacesFixed` and `Title.CollapseSpacesKeeps` carry its contract |
| Title.StripSpaceBeforeExt | src/epub_info.py:205 | `\s+(?=\.epub)` → nothing; `Title.StripSpaceBeforeExtCanonical`, `Title.StripSpaceBeforeExtFixed` and `Title.StripSpaceBeforeExtKeeps` carry its contract |
| Title.Prepare | src/epub_info.py:159-168 | lines 159-168; `Title.PrepareClean`, `Title.PrepareFixed` and `Title.PrepareNoSpan` carry its contract |
| Title.NormaliseNumbers | src/epub_info.py:171-201 | the numbering steps in order; `Title.NormaliseNumbersKeeps`, `Title.NormaliseNumbersClears` and `Title.NormaliseNumbersFixed` carry its contract |
| Title.Finish | src/epub_info.py:204-205 | lines 204-205; `Title.FinishCanonical`, `Title.FinishFixed` and `Title.FinishIdempotent` carry its contract |
| Title.FormatBookTitle | src/epub_info.py:146-207 | the whole pipeline; `Title.FormatBookTitleNormal`, `Title.FormatBookTitleFixed` and the whole-title lemmas of `Worked` carry its contract |
| Regex.Match | src/epub_info.py:97-205 | a match at the start of a text consumes at least one character and no more than the text; what its group captures fits the pattern (digits, one numeral, or nothing) |
| Regex.MatchRoundNumber | src/epub_info.py:97-105 | `\s*\(\s*(\d+)\s*\)` with each of its four tails: a match captures a non-empty run of digits |
| Regex.RoundBracket | src/epub_info.py:97 | the bracketed part `\s*\(\s*(\d+)\s*\)`: a match captures a non-empty run of digits |
| Regex.BracketBeforeExt | src/epub_info.py:102 | `\s*\(\s*(\d+)\s*\)\s*` matched only where `.epub` follows it |
| Regex.MatchNumeral | src/epub_info.py:122-125 | `\s*([C])\s*巻?\s*`: a match captures exactly one character of the class |
| Regex.MatchDigitsBeforeExt | src/epub_info.py:201 | `\s*\d+巻?\s*(?=\.epub)`: a match captures a non-empty run of digits |
| Regex.TokenAt | src/epub_info.py:165-166 | a listed token found at a position is directly followed by a closer |
| Regex.LazyAnnotation | src/epub_info.py:165-166 | the lazy `.*?` ends a match past its start and captures nothing |
| Regex.MatchAnnotation | src/epub_info.py:165-166 | the two annotation patterns at the start of a text; `Annotations.AnnotationSpans` proves that they match exactly when the text starts with an opener, enough one-line content, a listed token and a closer, and that the match is the shortest such span |
| Regex.FirstMatch | src/epub_info.py:97 | the scan of `re.search`: the position found matches and no earlier one does; when nothing is found, no position matches |
| Regex.Search | src/epub_info.py:97 | a found match is non-empty and its group fits the pattern |
| Regex.SearchLeftmost | src/epub_info.py:97 | `re.search` returns the match at the leftmost position where the pattern matches |
| Regex.SearchNone | src/epub_info.py:97 | `re.search` finds nothing when no position matches |
| Regex.FirstMatchNone | src/epub_info.py:97 | the scan finds nothing when no position from its start on matches |
| Regex.FirstMatchFrom | src/epub_info.py:97 | the scan stops at the first matching position |
| Regex.SubNoMatch | src/epub_info.py:100 | `re.sub` leaves a text unchanged when the pattern matches nowhere |
| Regex.SubCopies | src/epub_info.py:100 | where no match starts, `re.sub` copies the character and goes on |
| Regex.SubReplaces | src/epub_info.py:100 | where a match starts, `re.sub` writes the replacement and goes on after the match |
| Regex.SubPrefix | src/epub_info.py:100 | a prefix in which no match starts is copied unchanged |
| Regex.SubOnce | src/epub_info.py:100 | with one match, none before it and none after it, only that match is replaced |
| Regex.SubRemovesClass | src/epub_info.py:125 | when a match starts at every character of a class and the replacement has none, the result has none |
| Regex.SubKeeps | src/epub_info.py:100 | a property shared by every character of the text and of the replacement holds of every character of the result |
| Regex.Sub | src/epub_info.py:100 | the left-to-right scan of `re.sub`; `Regex.SubNoMatch`, `Regex.SubCopies`, `Regex.SubReplaces`, `Regex.SubPrefix` and `Regex.SubOnce` state what it copies and what it replaces |
| Annotations.TokenAtSpec | src/epub_info.py:165-166 | the token search finds a token exactly when some listed token fits, and reports its length |
| Annotations.LazyAnnotationSpec | src/epub_info.py:165-166 | the lazy search ends at the first content length, reached without crossing a newline, at which a token fits; if it finds nothing, no token fits at any such length |
| Annotations.AnnotationSpans | src/epub_info.py:165-166 | an annotation matches exactly when the text starts with an opener, enough one-line content, a listed token and a closer; the match is the shortest such span |
| Annotations.SpanMatch | src/epub_info.py:165-166 | a span whose closer is the only one from its token on is matched in full |
| Annotations.WholeMatchRemoved | src/epub_info.py:165-166 | a text that is one whole match is deleted |
| Annotations.OneSpanRemoved | src/epub_info.py:165-166 | with no opener before or after one matched span, the deletion removes that span and nothing else |
| Annotations.MatchThenNoOpener | src/epub_info.py:165-166 | after a matched span with no opener behind it, the rest is kept |
| Annotations.NoTokenBeforeByClosers | src/epub_info.py:165-166 | when no text between a position and a closer is a listed token, no token fits there |
| Annotations.NoOpenerUnchanged | src/epub_info.py:165-166 | a text without an opener is left unchanged |
| Annotations.NoSpanUnchanged | src/epub_info.py:165-166 | when no text between an opener and a later closer is a listed token, the deletion leaves the text unchanged |
| Annotations.NoSpanAt | src/epub_info.py:165-166 | under the same condition no annotation match starts at a given position |
| Annotations.SpanInText | src/epub_info.py:165-166 | a span found in a suffix of the text is a span of the text itself, moved by the suffix's start |
| Annotations.PromotionExample | src/epub_info.py:165 | `【電子版限定特典付き】` is deleted entirely |
| Annotations.PromotionExampleFacts | src/epub_info.py:165 | `【電子版限定特典付き】` is a span with content `電子版限定` and token `特典付き`, and its only closer is the last character |
| Annotations.PromotionTokensShort | src/epub_info.py:165 | every promotional token has at most four characters |
| Numbering.PadRoundNumberWithoutBracket | src/epub_info.py:81-107 | a text without `(` is left unchanged |
| Numbering.PadRoundNumber | src/epub_info.py:81-107 | the bracketed-number step, its first half and then its second; `Numbering.PadRoundNumberWithoutBracket` and `Numbering.PadRoundNumberKeeps` state what it keeps, and `Worked.SpacedBracketShape` and `Worked.BracketBeforeExtShape` what it writes |
| Numbering.PadRoundNumberSpaced | src/epub_info.py:97-100 | the first half; `Numbering.PadRoundNumberSpacedFirst`, `Numbering.PadRoundNumberSpacedOne` and `Numbering.PadRoundNumberSpacedKeeps` carry its contract |
| Numbering.PadRoundNumberBeforeExt | src/epub_info.py:102-105 | the second half; `Numbering.PadRoundNumberBeforeExtFirst`, `Numbering.PadRoundNumberBeforeExtOne` and `Numbering.PadRoundNumberBeforeExtKeeps` carry its contract |
| Numbering.NoOpenerNoRoundNumber | src/epub_info.py:97-105 | without `(` no bracketed-number pattern matches anywhere |
| Numbering.PadRoundNumberSpacedFirst | src/epub_info.py:97-100 | when a bracketed number followed by whitespace first occurs at `i`, every bracketed number is replaced by ` NN ` built from the number at `i` |
| Numbering.PadRoundNumberBeforeExtFirst | src/epub_info.py:102-105 | when a bracketed number before `.epub` first occurs at `i`, every bracketed number before `.epub` is replaced by ` NN` built from the number at `i` |
| Numbering.RoundNumberNeedsStart | src/epub_info.py:97-105 | a bracketed number can only start at whitespace or `(` |
| Numbering.RoundNumberNotBefore | src/epub_info.py:97-105 | no bracketed number starts in a prefix free of whitespace and `(` |
| Numbering.RoundNumberSpacedTail | src/epub_info.py:97-100 | where the searched pattern (`\s+` tail) matches, the replaced pattern (`\s*` tail) matches the same span |
| Numbering.RoundNumberExtTail | src/epub_info.py:102-105 | where the searched pattern matches through `.epub`, the replaced pattern matches the same span without the extension |
| Numbering.RoundNumberReplacedOnce | src/epub_info.py:100 | a single bracketed number, with no `(` after it, is the only part replaced |
| Numbering.PadRoundNumberSpacedOne | src/epub_info.py:97-100 | one bracketed number followed by whitespace becomes ` NN ` and the rest of the text is kept |
| Numbering.PadRoundNumberBeforeExtOne | src/epub_info.py:102-105 | one bracketed number before `.epub` becomes ` NN` and the rest of the text is kept |
| Numbering.CircledValue | src/epub_info.py:177 | `chr(ord(c) - offset).zfill(2)` for a circled digit is `0` followed by a digit from 1 to 9 |
| Numbering.KanjiValue | src/epub_info.py:124 | `str(d.get(c))` for a kanji numeral; `Numbering.KanjiValueWritable` and `Numbering.KanjiValueNotNumeral` state what it is made of, and `Worked.KanjiVolumeValue` that `参` gives `3` |
| Numbering.TwoDigitWritable | src/epub_info.py:99 | a padded number consists of spaces and digits |
| Numbering.KanjiValueWritable | src/epub_info.py:124 | the kanji replacement consists of spaces, digits and the letters of `None` |
| Numbering.PadRoundNumberKeeps | src/epub_info.py:81-107 | the bracketed-number step writes only spaces and digits, so it keeps any property they have |
| Numbering.PadRoundNumberSpacedKeeps | src/epub_info.py:97-100 | the first half of the step writes only spaces and digits |
| Numbering.PadRoundNumberBeforeExtKeeps | src/epub_info.py:102-105 | the second half of the step writes only spaces and digits |
| Numbering.PadKanjiNumberKeeps | src/epub_info.py:110-127 | the kanji step writes only spaces, digits and `None` |
| Numbering.PadCircledKeeps | src/epub_info.py:174-193 | a circled-digit step writes only spaces and digits |
| Numbering.PadTrailingNumberKeeps | src/epub_info.py:195-201 | the trailing-number step writes only spaces and digits |
| Numbering.PadTrailingNumberFirst | src/epub_info.py:198-201 | when a digit run before `巻?\s*.epub` first occurs at `i`, every such run, with the whitespace around it and an optional `巻`, is replaced by ` NN` built from the run at `i` |
| Numbering.PadTrailingNumber | src/epub_info.py:195-201 | the digit step; `Numbering.PadTrailingNumberFirst`, `Numbering.PadTrailingNumberOne`, `Numbering.PadTrailingNumberAbsent` and `Numbering.PadTrailingNumberKeeps` carry its contract |
| Numbering.PadTrailingNumberAbsent | src/epub_info.py:195-201 | a text without a digit is left unchanged |
| Numbering.TrailingNumberNeedsStart | src/epub_info.py:198-201 | both trailing-number patterns can only start at whitespace or a digit |
| Numbering.NoDigitNoTrailingNumber | src/epub_info.py:201 | without a digit the replaced pattern matches nowhere |
| Numbering.PadTrailingNumberOne | src/epub_info.py:195-201 | one digit run before the extension becomes ` NN` and the rest of the text is kept |
| Numbering.TrailingNumberNotBefore | src/epub_info.py:198-201 | no trailing number starts in a prefix free of whitespace and digits |
| Numbering.TrailingNumberReplacedOnce | src/epub_info.py:201 | a single digit run, with no digit after it, is the only part replaced |
| Numbering.KanjiSpaceFree | src/epub_info.py:122 | no kanji numeral is whitespace |
| Numbering.KanjiNumeralsHigh | src/epub_info.py:122 | the kanji class holds the vertical bar and characters from U+4E00 on only |
| Numbering.CircledSpaceFree | src/epub_info.py:175-193 | no circled digit is whitespace |
| Numbering.NumeralMatchesAt | src/epub_info.py:122-125 | a numeral pattern matches wherever a numeral of its class stands |
| Numbering.NumeralSearchFirst | src/epub_info.py:122 | the search finds the first numeral of the class in the text |
| Numbering.NumeralAbsent | src/epub_info.py:122-125 | without a numeral of the class the pattern matches nowhere |
| Numbering.PadKanjiNumberAbsent | src/epub_info.py:110-127 | a text without a kanji numeral or the vertical bar is left unchanged |
| Numbering.PadKanjiNumberFirst | src/epub_info.py:122-125 | every kanji numeral, with the whitespace around it and an optional `巻`, becomes ` N ` where `N` is the value of the first numeral; none is left |
| Numbering.PadKanjiNumber | src/epub_info.py:110-127 | the kanji step; `Numbering.PadKanjiNumberFirst`, `Numbering.PadKanjiNumberAbsent`, `Numbering.PadKanjiNumberRemovesAll` and `Numbering.PadKanjiNumberKeeps` carry its contract |
| Numbering.KanjiValueNotNumeral | src/epub_info.py:124 | the kanji replacement holds no kanji numeral |
| Numbering.NumeralRemoved | src/epub_info.py:125 | replacing every numeral of a class by text without one leaves none |
| Numbering.PadCircledAbsent | src/epub_info.py:174-193 | a text without a digit of the family is left unchanged |
| Numbering.PadCircledFirst | src/epub_info.py:175-178 | every circled digit of the family, with the whitespace around it and an optional `巻`, becomes ` 0N ` where `N` is the first one's digit (its offset from the family's first character, plus 1); none is left |
| Numbering.PadCircled | src/epub_info.py:174-193 | one circled-digit step; `Numbering.PadCircledFirst`, `Numbering.PadCircledAbsent`, `Numbering.PadCircledRemovesAll` and `Numbering.PadCircledKeeps` carry its contract |
| Numbering.PadCircledAll | src/epub_info.py:174-193 | the four families in order; `Title.PadCircledAllClears`, `Title.PadCircledAllKeeps` and `Title.PadCircledAllAbsent` carry its contract |
| Numbering.CircledRepl | src/epub_info.py:177 | the replacement for a circled digit is ` 0N ` and holds no digit of the family |
| Numbering.PadKanjiNumberRemovesAll | src/epub_info.py:110-127 | after the kanji step no kanji numeral is left |
| Numbering.PadCircledRemovesAll | src/epub_info.py:174-193 | after a circled-digit step no digit of that family is left |
| Title.CollapseSpacesHead | src/epub_info.py:168 | a character other than whitespace is copied by the collapse |
| Title.CollapseSpacesSingle | src/epub_info.py:168 | after `\s+` → ` `, whitespace is single ASCII spaces, never two in a row |
| Title.StripSpaceBeforeExtHead | src/epub_info.py:205 | a character other than whitespace is copied by the removal |
| Title.StripSpaceBeforeExtDot | src/epub_info.py:205 | where whitespace before `.epub` is removed, the result goes on with `.` |
| Title.StripSpaceBeforeExtPrefix | src/epub_info.py:205 | the removal deletes only whitespace before a `.`, so a result prefix without whitespace or `.` was a prefix of the text |
| Title.SingleSpacedTail | src/epub_info.py:204 | a single-spaced text stays single-spaced without its first character |
| Title.StripAfterKeptSpace | src/epub_info.py:205 | a kept space is followed neither by whitespace nor by `.epub` |
| Title.StripSpaceBeforeExtCanonical | src/epub_info.py:204-205 | on single-spaced text the removal keeps it single-spaced and leaves no whitespace before `.epub` |
| Title.CleanWritable | src/epub_info.py:171-201 | spaces, digits and `None` are clean characters |
| Title.ClearedWritable | src/epub_info.py:171-201 | spaces, digits and `None` are not numerals |
| Title.AsciiCleared | src/epub_info.py:122 | no ASCII character but the vertical bar is a kanji numeral or a circled digit |
| Title.PadCircledClears | src/epub_info.py:174-193 | one circled-digit step clears its family and keeps the earlier families cleared |
| Title.PadCircledAllKeeps | src/epub_info.py:174-193 | the four circled-digit steps keep what every numbering step keeps |
| Title.PadCircledAllClears | src/epub_info.py:174-193 | after the four circled-digit steps no circled digit is left |
| Title.PadCircledAllAbsent | src/epub_info.py:174-193 | a text without a circled digit of any family passes the four steps unchanged |
| Title.NormaliseNumbersKeeps | src/epub_info.py:171-201 | the numbering steps keep every property that spaces, digits and `None` have |
| Title.NormaliseNumbersClears | src/epub_info.py:171-201 | after the numbering steps no kanji numeral and no circled digit is left |
| Title.NormaliseNumbersFixed | src/epub_info.py:171-201 | a text without `(`, digit, kanji numeral or circled digit passes the numbering steps unchanged |
| Title.StripAnnotationsKeeps | src/epub_info.py:165-166 | deleting annotations adds no character |
| Title.CollapseSpacesKeeps | src/epub_info.py:168 | the collapse adds only spaces |
| Title.StripSpaceBeforeExtKeeps | src/epub_info.py:205 | the removal adds no character |
| Title.ReplaceColonsClean | src/epub_info.py:167 | line 167 removes the colons that the symbol rewriter made full-width |
| Title.PrepareClean | src/epub_info.py:159-168 | after lines 159-168 no full-width letter, digit, bracket or colon and no unsafe symbol is left |
| Title.FinishKeeps | src/epub_info.py:204-205 | the final clean-up adds only spaces |
| Title.FinishClears | src/epub_info.py:204-205 | the final clean-up brings back no numeral |
| Title.FinishCanonical | src/epub_info.py:204-205 | after the final clean-up whitespace is single ASCII spaces, never two in a row and never before `.epub` |
| Title.FormatBookTitleNormal | src/epub_info.py:146-207 | the title holds no full-width letter, digit, bracket or colon, no unsafe symbol, no kanji numeral and no circled digit; its whitespace is single ASCII spaces, never two in a row and never before `.epub` |
| Title.CollapseSpacesFixed | src/epub_info.py:168 | the collapse leaves single-spaced text unchanged |
| Title.SingleSpaceMatch | src/epub_info.py:168 | in single-spaced text a space is a whole match of `\s+` by itself |
| Title.StripSpaceBeforeExtFixed | src/epub_info.py:205 | the removal leaves text without whitespace before `.epub` unchanged |
| Title.SpacesBeforeExtNone | src/epub_info.py:205 | in text without whitespace before `.epub`, `\s+(?=\.epub)` matches nowhere |
| Title.FinishFixed | src/epub_info.py:204-205 | the final clean-up leaves single-spaced text without whitespace before `.epub` unchanged |
| Title.FinishIdempotent | src/epub_info.py:204-205 | the final clean-up is idempotent |
| Title.RewriteCharsFixed | src/epub_info.py:159-161 | the three rewriters leave half-width text unchanged |
| Title.PrepareFixed | src/epub_info.py:159-168 | lines 159-168 leave unchanged a clean, single-spaced title without an annotation opener |
| Title.PrepareNoSpan | src/epub_info.py:159-168 | a clean, single-spaced title without `【` in which no imprint token sits between an opener and a later closer passes lines 159-168 unchanged |
| Title.FormatBookTitleFixed | src/epub_info.py:146-207 | a title already free of full-width characters, unsafe symbols, annotation openers, numerals and digits, single-spaced and without whitespace before `.epub`, is its own `format_book_title` |
| Title.FormatBookTitleStable | src/epub_info.py:146-207 | on such titles `format_book_title` is idempotent |
| Title.FormatBookTitleEmpty | src/epub_info.py:146-207 | the empty title stays empty |
| Title.BracketedNameSafe | src/epub_info.py:329 | square brackets around a safe author, followed by a clean title, give a name free of unsafe symbols |
| Title.RenameTargetSafe | src/epub_info.py:329 | the new name in the rename command holds no unsafe symbol, so no `"` can end its quotation early |
| Title.RenameTarget | src/epub_info.py:329 | `[author]title.epub` from the normalised author and title; `Title.RenameTargetSafe` carries its contract |
| Title.RenameCommand | src/epub_info.py:329 | the printed line; `Title.RenameCommandLastField` carries its contract |
| Title.RenameCommandLastField | src/epub_info.py:329 | the line begins with `Genre: ` exactly when the genre is shown and with `rename "` otherwise; its last quoted field is the new name, and no `"` inside the name can end that field early |
| Worked.TwoDigitDropsZeros | src/epub_info.py:99 | the group `007` is written `07` |
| Worked.TwoDigitKeepsWide | src/epub_info.py:99 | the group `123` is written `123`, not truncated |
| Worked.SpacedDigitMatch | src/epub_info.py:97 | ` (d) ` followed by a non-space matches as the bracket and one space, capturing `d` |
| Worked.GluedDigitMatch | src/epub_info.py:97 | `(d) ` followed by a non-space matches, capturing `d` |
| Worked.BracketNumber | src/epub_info.py:97 | `(g)` after at most one space is the bracketed part of the patterns, capturing the digits `g` |
| Worked.ExtNumberMatch | src/epub_info.py:97-102 | `(g).epub` after at most one space matches the pattern of line 102 through the extension, and not the pattern of line 97 |
| Worked.BeforeExtWithoutBracket | src/epub_info.py:102-105 | without `(` the second half of the step changes nothing |
| Worked.SpacedBracketExample | src/epub_info.py:87 | `xxx (1) yyy.epub` becomes `xxx 01 yyy.epub` |
| Worked.SpacedBracketShape | src/epub_info.py:97-105 | ` (d) ` after a prefix without whitespace or `(`, followed by a non-space and no further `(`, becomes ` 0d ` and the rest is kept |
| Worked.GluedBracketExample | src/epub_info.py:88 | `xxx(1) yyy.epub` becomes `xxx 01 yyy.epub` |
| Worked.BracketBeforeExtExample | src/epub_info.py:89 | `xxx (1).epub` becomes `xxx 01.epub` |
| Worked.BracketBeforeExtShape | src/epub_info.py:97-105 | `(g)` or ` (g)` right before the extension, after a prefix without whitespace or `(`, becomes ` NN` with `NN` the padded `g`, and the rest is kept |
| Worked.TrailingDigitShape | src/epub_info.py:195-201 | `xxx` followed by a digit `d`, an optional `巻` and `.epub` becomes `xxx 0d.epub` |
| Worked.VolumeExample | src/epub_info.py:196 | `xxx1巻.epub` becomes `xxx 01.epub` |
| Worked.BareNumberExample | src/epub_info.py:197 | `xxx1.epub` becomes `xxx 01.epub` |
| Worked.RoundChain | src/epub_info.py:97-105 | when the first half of the step leaves no `(`, the second half changes nothing |
| Worked.NumeralNeedsStart | src/epub_info.py:122-125 | a numeral match of either class needs whitespace or a numeral at its start |
| Worked.KanjiVolumeMatch | src/epub_info.py:122 | ` 参巻.epub` starts with a match of three characters capturing `参` |
| Worked.KanjiVolumeShape | src/epub_info.py:122-125 | the kanji step turns `xxx 参巻.epub` into `xxx 3 .epub` |
| Worked.SpacedNumberAhead | src/epub_info.py:198 | in `g.epub` or `g .epub` the search of line 198 captures `g` |
| Worked.SpacedNumberBeforeExt | src/epub_info.py:201 | ` g.epub` or ` g .epub` starts with a match of all but the extension, capturing `g` |
| Worked.SpacedNumberShape | src/epub_info.py:195-201 | ` g` or ` g ` right before the extension, after a prefix without whitespace or digit, becomes ` NN` glued to the extension, with `NN` the padded `g` |
| Worked.SpacedDigitShape | src/epub_info.py:195-201 | the digit step turns `xxx d .epub` into `xxx 0d.epub` |
| Worked.KanjiVolumeExample | src/epub_info.py:171-201 | the kanji step and then the digit step turn `xxx 参巻.epub` into `xxx 03.epub` |
| Worked.CircledAbsentAscii | src/epub_info.py:174-193 | the circled-digit steps leave ASCII text unchanged |
| Worked.KanjiVolumeNumbers | src/epub_info.py:171-201 | all numbering steps turn `xxx 参巻.epub` into `xxx 03.epub` |
| Worked.NumbersChain | src/epub_info.py:171-201 | the numbering steps compose in the order of lines 171-201: brackets, then kanji, then the circled families, then the trailing digits |
| Worked.KanjiVolumeTitle | src/epub_info.py:146-207 | `format_book_title` turns `xxx 参巻.epub` into `xxx 03.epub` |
| Worked.BracketSubTitle | src/epub_info.py:146-207 | `format_book_title` turns `Title (1) Sub.epub` into `Title 01 Sub.epub` |
| Worked.BracketExtTitle | src/epub_info.py:146-207 | `format_book_title` turns `Title(12).epub` into `Title 12.epub` |
| Worked.CircledBeforeExtShape | src/epub_info.py:174-193 | a circled digit right before the extension, after a prefix without whitespace or digit of its family, becomes ` 0d ` |
| Worked.CircledTitle | src/epub_info.py:146-207 | `format_book_title` turns `Title①.epub` into `Title 01.epub` |

## Left out

- `\d` is modelled as the ASCII digits only. Python's `re` also accepts other Unicode decimal digits, which `int()` would then read.
- Chars.TwoDigit: does not model the limit on converting a digit string to an `int`, which CPython applies from 3.11 on (and in the 3.7-3.10 security releases): `int()` at lines 99, 104 and 200 raises `ValueError` for a group of more than 4300 digits, which stops the rename listing, whereas the model reads a group of any length.
- `\s` is Python's full `str.isspace` set. No other Unicode table is modelled.
- `get_epub_info` is not modelled: it parses the EPub's XML through foreign libraries. The title and author reach the model as strings.
- `show_rename`, `unpack`, `count_image`, the argument validators and the `fire` command line are not modelled. They are file-system I/O, loops over directories and retries with sleeps.
- The cp932 encode and decode with `backslashreplace` of line 329 is not modelled. `Title.RenameCommand` is the string before that round trip.
- `src/compress_dir.py` is not part of this model. It does directory listing, archiving and an interactive prompt.
- `format_book_title` is not idempotent in general. `Title.FormatBookTitleStable` proves it only for titles already in normal form, without digits, numerals or annotation openers. In `【a` newline `b付き】.epub` the newline stops the lazy `.+?` of line 165. Line 168 then turns the newline into a space, so a second run deletes the span.
- The lazy `.*?` of line 166 can cross a closing bracket: in `A (1) x (ノベルズ).epub` the whole of `(1) x (ノベルズ)` is deleted. `Regex.LazyAnnotation` and `Annotations.AnnotationSpans` capture this in general. No lemma works through that text: the proof is too costly for the solver.
