/** The numbering steps of src/epub_info.py: lines 81-127 and 174-201.
    Each step searches for the FIRST match of one pattern, takes the number
    from it, and then replaces EVERY match of a (sometimes looser) pattern
    with that same number. */
module Numbering {
  import opened Chars
  import opened Regex

  /** `pad_numeric_only_string_enclosed_in_round_brackets` (lines 81-107). */
  function PadRoundNumber(text: string): (r: string)
  {
    PadRoundNumberBeforeExt(PadRoundNumberSpaced(text))
  }

  /** Lines 97-100: a bracketed number followed by whitespace. */
  function PadRoundNumberSpaced(text: string): (r: string)
  {
    match Search(RoundNumber(SpacesPlus), text)
    case Some(h) => Sub(RoundNumber(SpacesStar), text, " " + TwoDigit(h.group) + " ")
    case None => text
  }

  /** Lines 102-105: a bracketed number right before the extension. */
  function PadRoundNumberBeforeExt(text: string): (r: string)
  {
    match Search(RoundNumber(ThenExt), text)
    case Some(h) => Sub(RoundNumber(BeforeExt), text, " " + TwoDigit(h.group))
    case None => text
  }

  /** A text without `(` is left unchanged. */
  lemma PadRoundNumberWithoutBracket(text: string)
    requires forall k :: 0 <= k < |text| ==> text[k] != '('
    ensures PadRoundNumber(text) == text
  {
    NoOpenerNoRoundNumber(text, SpacesPlus);
    NoOpenerNoRoundNumber(text, ThenExt);
  }

  /** A round-bracket number needs a `(`. */
  lemma NoOpenerNoRoundNumber(text: string, tail: Tail)
    requires forall k :: 0 <= k < |text| ==> text[k] != '('
    ensures forall k :: 0 <= k <= |text| ==> !MatchesAt(RoundNumber(tail), text, k)
  {
    forall k | 0 <= k <= |text| ensures !MatchesAt(RoundNumber(tail), text, k) {
      var t := text[k..];
      var a := Run(t, IsSpace);
      assert a < |t| ==> t[a] == text[k + a];
    }
  }

  /** Lines 97-100: the number is taken from the LEFTMOST bracketed number
      followed by whitespace, and every bracketed number is replaced by it. */
  lemma PadRoundNumberSpacedFirst(text: string, i: nat)
    requires i <= |text| && MatchesAt(RoundNumber(SpacesPlus), text, i)
    requires forall j :: 0 <= j < i ==> !MatchesAt(RoundNumber(SpacesPlus), text, j)
    ensures PadRoundNumberSpaced(text)
         == Sub(RoundNumber(SpacesStar), text, " " + TwoDigit(Match(RoundNumber(SpacesPlus), text[i..]).value.group) + " ")
  {
    SearchLeftmost(RoundNumber(SpacesPlus), text, i);
  }

  /** Lines 102-105: the number is taken from the LEFTMOST bracketed number
      before the extension, and every such number is replaced by it. */
  lemma PadRoundNumberBeforeExtFirst(text: string, i: nat)
    requires i <= |text| && MatchesAt(RoundNumber(ThenExt), text, i)
    requires forall j :: 0 <= j < i ==> !MatchesAt(RoundNumber(ThenExt), text, j)
    ensures PadRoundNumberBeforeExt(text)
         == Sub(RoundNumber(BeforeExt), text, " " + TwoDigit(Match(RoundNumber(ThenExt), text[i..]).value.group))
  {
    SearchLeftmost(RoundNumber(ThenExt), text, i);
  }

  /** Neither a space nor `(`: no bracketed number starts here. */
  lemma RoundNumberNeedsStart(t: string, tail: Tail)
    requires t != [] && !IsSpace(t[0]) && t[0] != '('
    ensures Match(RoundNumber(tail), t).None?
  {
  }

  /** No bracketed number starts before `m` when no space or `(` occurs
      there. */
  lemma RoundNumberNotBefore(text: string, m: nat, tail: Tail)
    requires m <= |text|
    requires forall k :: 0 <= k < m ==> !IsSpace(text[k]) && text[k] != '('
    ensures forall k :: 0 <= k < m ==> !MatchesAt(RoundNumber(tail), text, k)
  {
    forall k | 0 <= k < m ensures !MatchesAt(RoundNumber(tail), text, k) {
      assert text[k..][0] == text[k];
      RoundNumberNeedsStart(text[k..], tail);
    }
  }

  /** The looser patterns of lines 100 and 105 match wherever the searched
      ones of lines 97 and 102 do, over the same bracketed number. */
  lemma RoundNumberSpacedTail(t: string, h: Hit)
    requires Match(RoundNumber(SpacesPlus), t) == Some(h)
    ensures Match(RoundNumber(SpacesStar), t) == Some(h)
  {
  }

  lemma RoundNumberExtTail(t: string, n: nat, g: string)
    requires Match(RoundNumber(ThenExt), t) == Some(Hit(n + |Ext|, g))
    ensures Match(RoundNumber(BeforeExt), t) == Some(Hit(n, g))
  {
    assert Match(RoundNumber(ThenExt), t) == MatchRoundNumber(ThenExt, t);
    assert Match(RoundNumber(BeforeExt), t) == MatchRoundNumber(BeforeExt, t);
  }

  /** One bracketed number at `m`, none before it and no `(` after it: only
      that number is replaced. */
  lemma RoundNumberReplacedOnce(text: string, m: nat, tail: Tail, h: Hit, repl: string)
    requires m + h.len <= |text|
    requires forall k :: 0 <= k < m ==> !MatchesAt(RoundNumber(tail), text, k)
    requires Match(RoundNumber(tail), text[m..]) == Some(h)
    requires forall k :: m + h.len <= k < |text| ==> text[k] != '('
    ensures Sub(RoundNumber(tail), text, repl) == text[..m] + repl + text[m + h.len..]
  {
    NoOpenerNoRoundNumber(text[m + h.len..], tail);
    SubOnce(RoundNumber(tail), text, m, h, repl);
  }

  /** A single bracketed number followed by whitespace, at `m`, with no
      space or `(` before it and no `(` after it, becomes ` NN `. */
  lemma PadRoundNumberSpacedOne(text: string, m: nat, n: nat, g: string)
    requires m + n <= |text|
    requires forall k :: 0 <= k < m ==> !IsSpace(text[k]) && text[k] != '('
    requires Match(RoundNumber(SpacesPlus), text[m..]) == Some(Hit(n, g))
    requires forall k :: m + n <= k < |text| ==> text[k] != '('
    ensures AllDigits(g)
    ensures PadRoundNumberSpaced(text) == text[..m] + (" " + TwoDigit(g) + " ") + text[m + n..]
  {
    RoundNumberSpacedValue(text, m, g);
    RoundNumberSpacedSub(text, m, n, g, " " + TwoDigit(g) + " ");
  }

  lemma RoundNumberSpacedSub(text: string, m: nat, n: nat, g: string, repl: string)
    requires m + n <= |text|
    requires forall k :: 0 <= k < m ==> !IsSpace(text[k]) && text[k] != '('
    requires Match(RoundNumber(SpacesPlus), text[m..]) == Some(Hit(n, g))
    requires forall k :: m + n <= k < |text| ==> text[k] != '('
    ensures Sub(RoundNumber(SpacesStar), text, repl) == text[..m] + repl + text[m + n..]
  {
    RoundNumberNotBefore(text, m, SpacesStar);
    RoundNumberSpacedTail(text[m..], Hit(n, g));
    RoundNumberReplacedOnce(text, m, SpacesStar, Hit(n, g), repl);
  }

  lemma RoundNumberSpacedValue(text: string, m: nat, g: string)
    requires m <= |text|
    requires forall k :: 0 <= k < m ==> !IsSpace(text[k]) && text[k] != '('
    requires Match(RoundNumber(SpacesPlus), text[m..]).Some? && Match(RoundNumber(SpacesPlus), text[m..]).value.group == g
    ensures AllDigits(g)
    ensures PadRoundNumberSpaced(text) == Sub(RoundNumber(SpacesStar), text, " " + TwoDigit(g) + " ")
  {
    RoundNumberNotBefore(text, m, SpacesPlus);
    PadRoundNumberSpacedFirst(text, m);
  }

  /** A single bracketed number right before the extension, at `m`, with no
      space or `(` before it and no `(` after it, becomes ` NN`. */
  lemma PadRoundNumberBeforeExtOne(text: string, m: nat, n: nat, g: string)
    requires m + n <= |text|
    requires forall k :: 0 <= k < m ==> !IsSpace(text[k]) && text[k] != '('
    requires Match(RoundNumber(ThenExt), text[m..]) == Some(Hit(n + |Ext|, g))
    requires forall k :: m + n <= k < |text| ==> text[k] != '('
    ensures AllDigits(g)
    ensures PadRoundNumberBeforeExt(text) == text[..m] + (" " + TwoDigit(g)) + text[m + n..]
  {
    RoundNumberBeforeExtValue(text, m, g);
    RoundNumberBeforeExtSub(text, m, n, g, " " + TwoDigit(g));
  }

  lemma RoundNumberBeforeExtSub(text: string, m: nat, n: nat, g: string, repl: string)
    requires m + n <= |text|
    requires forall k :: 0 <= k < m ==> !IsSpace(text[k]) && text[k] != '('
    requires Match(RoundNumber(ThenExt), text[m..]) == Some(Hit(n + |Ext|, g))
    requires forall k :: m + n <= k < |text| ==> text[k] != '('
    ensures Sub(RoundNumber(BeforeExt), text, repl) == text[..m] + repl + text[m + n..]
  {
    RoundNumberNotBefore(text, m, BeforeExt);
    RoundNumberExtTail(text[m..], n, g);
    RoundNumberReplacedOnce(text, m, BeforeExt, Hit(n, g), repl);
  }

  lemma RoundNumberBeforeExtValue(text: string, m: nat, g: string)
    requires m <= |text|
    requires forall k :: 0 <= k < m ==> !IsSpace(text[k]) && text[k] != '('
    requires Match(RoundNumber(ThenExt), text[m..]).Some? && Match(RoundNumber(ThenExt), text[m..]).value.group == g
    ensures AllDigits(g)
    ensures PadRoundNumberBeforeExt(text) == Sub(RoundNumber(BeforeExt), text, " " + TwoDigit(g))
  {
    RoundNumberNotBefore(text, m, ThenExt);
    PadRoundNumberBeforeExtFirst(text, m);
  }

  /** The value `kanji_mapping.get(c)` of line 124, as the f-string writes it:
      `None` for a character outside the mapping, which only `|` can be. */
  function KanjiValue(c: char): (r: string) {
    match c
    case '壱' => "1"
    case '弐' => "2"
    case '参' => "3"
    case '肆' => "4"
    case '伍' => "5"
    case '陸' => "6"
    case '漆' => "7"
    case '捌' => "8"
    case '玖' => "9"
    case '拾' => "10"
    case '什' => "10"
    case _ => "None"
  }

  /** `pad_kanji_number` (lines 110-127). */
  function PadKanjiNumber(text: string): (r: string)
  {
    match Search(Numeral(Kanji), text)
    case Some(h) => Sub(Numeral(Kanji), text, " " + KanjiValue(h.group[0]) + " ")
    case None => text
  }

  /** The four circled-digit families of lines 174-193: the first character
      of each range and the offset the source subtracts from it. */
  datatype Family = Family(first: char, offset: int)

  const Families: seq<Family> := [
    Family('①', 0x242F),
    Family('⑴', 0x2443),
    Family('⒈', 0x2457),
    Family('⓵', 0x24C4)
  ]

  /** Every family's offset takes its first character to `1`, and its nine
      characters lie in the Enclosed Alphanumerics block. */
  predicate WellOffset(f: Family) {
    && f.first as int - f.offset == '1' as int
    && 0x2460 <= f.first as int <= 0x24F7
  }

  /** `chr(ord(c) - offset).zfill(2)` for a character of the family. */
  function CircledValue(f: Family, c: char): (r: string)
    requires WellOffset(f) && InClass(Circled(f.first), c)
    ensures |r| == 2 && r[0] == '0' && '1' <= r[1] <= '9'
  {
    ZFill2([(c as int - f.offset) as char])
  }

  /** One block of lines 175-193. */
  function PadCircled(f: Family, text: string): (r: string)
    requires WellOffset(f)
  {
    match Search(Numeral(Circled(f.first)), text)
    case Some(h) => Sub(Numeral(Circled(f.first)), text, " " + CircledValue(f, h.group[0]) + " ")
    case None => text
  }

  /** Lines 174-193: the four families in order. */
  function PadCircledAll(text: string): (r: string)
  {
    assert forall i :: 0 <= i < |Families| ==> WellOffset(Families[i]);
    PadCircled(Families[3], PadCircled(Families[2], PadCircled(Families[1], PadCircled(Families[0], text))))
  }

  /** Lines 195-201: a digit run right before `巻?\s*.epub`. */
  function PadTrailingNumber(text: string): (r: string)
  {
    match Search(DigitsAhead, text)
    case Some(h) => Sub(DigitsBeforeExt, text, " " + TwoDigit(h.group))
    case None => text
  }

  // ---- Which characters the numbering steps write.

  /** `P` holds of every character a numbering step can write: the space,
      the ASCII digits, and the letters of `None`. */
  predicate Writable(P: char -> bool) {
    && P(' ') && P('N') && P('o') && P('n') && P('e')
    && forall c :: IsDigit(c) ==> P(c)
  }

  lemma TwoDigitWritable(g: string, P: char -> bool)
    requires AllDigits(g) && Writable(P)
    ensures AllChars(" " + TwoDigit(g) + " ", P) && AllChars(" " + TwoDigit(g), P)
  {
    var d := TwoDigit(g);
    assert AllChars(d, P);
    assert AllChars(" ", P);
    AllCharsJoin(" ", d, P);
    AllCharsJoin(" " + d, " ", P);
  }

  lemma PadRoundNumberKeeps(text: string, P: char -> bool)
    requires Writable(P) && AllChars(text, P)
    ensures AllChars(PadRoundNumber(text), P)
  {
    PadRoundNumberSpacedKeeps(text, P);
    PadRoundNumberBeforeExtKeeps(PadRoundNumberSpaced(text), P);
  }

  lemma PadRoundNumberSpacedKeeps(text: string, P: char -> bool)
    requires Writable(P) && AllChars(text, P)
    ensures AllChars(PadRoundNumberSpaced(text), P)
  {
    match Search(RoundNumber(SpacesPlus), text)
    case Some(h) =>
      TwoDigitWritable(h.group, P);
      SubKeeps(RoundNumber(SpacesStar), text, " " + TwoDigit(h.group) + " ", P);
    case None =>
  }

  lemma PadRoundNumberBeforeExtKeeps(text: string, P: char -> bool)
    requires Writable(P) && AllChars(text, P)
    ensures AllChars(PadRoundNumberBeforeExt(text), P)
  {
    match Search(RoundNumber(ThenExt), text)
    case Some(h) =>
      TwoDigitWritable(h.group, P);
      SubKeeps(RoundNumber(BeforeExt), text, " " + TwoDigit(h.group), P);
    case None =>
  }

  lemma KanjiValueWritable(c: char, P: char -> bool)
    requires Writable(P)
    ensures AllChars(" " + KanjiValue(c) + " ", P)
  {
    assert IsDigit('1') && IsDigit('0');
  }

  lemma PadKanjiNumberKeeps(text: string, P: char -> bool)
    requires Writable(P) && AllChars(text, P)
    ensures AllChars(PadKanjiNumber(text), P)
  {
    match Search(Numeral(Kanji), text)
    case Some(h) =>
      KanjiValueWritable(h.group[0], P);
      SubKeeps(Numeral(Kanji), text, " " + KanjiValue(h.group[0]) + " ", P);
    case None =>
  }

  lemma PadCircledKeeps(f: Family, text: string, P: char -> bool)
    requires WellOffset(f) && Writable(P) && AllChars(text, P)
    ensures AllChars(PadCircled(f, text), P)
  {
    match Search(Numeral(Circled(f.first)), text)
    case Some(h) =>
      var v := CircledValue(f, h.group[0]);
      assert IsDigit(v[0]) && IsDigit(v[1]);
      assert AllChars(v, P) && AllChars(" ", P);
      AllCharsJoin(" ", v, P);
      AllCharsJoin(" " + v, " ", P);
      SubKeeps(Numeral(Circled(f.first)), text, " " + v + " ", P);
    case None =>
  }

  lemma PadTrailingNumberKeeps(text: string, P: char -> bool)
    requires Writable(P) && AllChars(text, P)
    ensures AllChars(PadTrailingNumber(text), P)
  {
    match Search(DigitsAhead, text)
    case Some(h) =>
      TwoDigitWritable(h.group, P);
      SubKeeps(DigitsBeforeExt, text, " " + TwoDigit(h.group), P);
    case None =>
  }

  // ---- The trailing number step.

  /** Lines 198-201: the number is taken from the LEFTMOST digit run before
      `巻?\s*.epub`, and every such run (with the spaces before it and a
      `巻` after it) is replaced by it. */
  lemma PadTrailingNumberFirst(text: string, i: nat)
    requires i <= |text| && MatchesAt(DigitsAhead, text, i)
    requires forall j :: 0 <= j < i ==> !MatchesAt(DigitsAhead, text, j)
    ensures PadTrailingNumber(text)
         == Sub(DigitsBeforeExt, text, " " + TwoDigit(Match(DigitsAhead, text[i..]).value.group))
  {
    SearchLeftmost(DigitsAhead, text, i);
  }

  /** Neither a space nor a digit: no trailing number starts here. */
  lemma TrailingNumberNeedsStart(t: string)
    requires t != [] && !IsSpace(t[0]) && !IsDigit(t[0])
    ensures Match(DigitsAhead, t).None? && Match(DigitsBeforeExt, t).None?
  {
  }

  /** Without a digit there is no trailing number at all. */
  lemma NoDigitNoTrailingNumber(text: string)
    requires forall k :: 0 <= k < |text| ==> !IsDigit(text[k])
    ensures forall k :: 0 <= k <= |text| ==> !MatchesAt(DigitsBeforeExt, text, k)
  {
    forall k | 0 <= k <= |text| ensures !MatchesAt(DigitsBeforeExt, text, k) {
      var t := text[k..];
      var a := Run(t, IsSpace);
      assert a < |t| ==> t[a..][0] == text[k + a];
    }
  }

  /** Without a digit the trailing-number step changes nothing, whatever
      the search of line 198 returns. */
  lemma PadTrailingNumberAbsent(text: string)
    requires forall k :: 0 <= k < |text| ==> !IsDigit(text[k])
    ensures PadTrailingNumber(text) == text
  {
    NoDigitNoTrailingNumber(text);
    match Search(DigitsAhead, text)
    case Some(h) => SubNoMatch(DigitsBeforeExt, text, " " + TwoDigit(h.group));
    case None =>
  }

  /** A single trailing number at `m`, with no space or digit before it and
      no digit after it, becomes ` NN`. */
  lemma PadTrailingNumberOne(text: string, m: nat, n: nat, g: string)
    requires m + n <= |text|
    requires forall k :: 0 <= k < m ==> !IsSpace(text[k]) && !IsDigit(text[k])
    requires Match(DigitsAhead, text[m..]).Some? && Match(DigitsAhead, text[m..]).value.group == g
    requires Match(DigitsBeforeExt, text[m..]) == Some(Hit(n, g))
    requires forall k :: m + n <= k < |text| ==> !IsDigit(text[k])
    ensures AllDigits(g)
    ensures PadTrailingNumber(text) == text[..m] + (" " + TwoDigit(g)) + text[m + n..]
  {
    TrailingNumberValue(text, m, g);
    TrailingNumberSub(text, m, n, g, " " + TwoDigit(g));
  }

  lemma TrailingNumberSub(text: string, m: nat, n: nat, g: string, repl: string)
    requires m + n <= |text|
    requires forall k :: 0 <= k < m ==> !IsSpace(text[k]) && !IsDigit(text[k])
    requires Match(DigitsBeforeExt, text[m..]) == Some(Hit(n, g))
    requires forall k :: m + n <= k < |text| ==> !IsDigit(text[k])
    ensures Sub(DigitsBeforeExt, text, repl) == text[..m] + repl + text[m + n..]
  {
    TrailingNumberReplacedOnce(text, m, Hit(n, g), repl);
  }

  lemma TrailingNumberValue(text: string, m: nat, g: string)
    requires m <= |text|
    requires forall k :: 0 <= k < m ==> !IsSpace(text[k]) && !IsDigit(text[k])
    requires Match(DigitsAhead, text[m..]).Some? && Match(DigitsAhead, text[m..]).value.group == g
    ensures AllDigits(g)
    ensures PadTrailingNumber(text) == Sub(DigitsBeforeExt, text, " " + TwoDigit(g))
  {
    TrailingNumberNotBefore(text, m);
    PadTrailingNumberFirst(text, m);
  }

  lemma TrailingNumberNotBefore(text: string, m: nat)
    requires m <= |text|
    requires forall k :: 0 <= k < m ==> !IsSpace(text[k]) && !IsDigit(text[k])
    ensures forall k :: 0 <= k < m ==> !MatchesAt(DigitsAhead, text, k) && !MatchesAt(DigitsBeforeExt, text, k)
  {
    forall k | 0 <= k < m ensures !MatchesAt(DigitsAhead, text, k) && !MatchesAt(DigitsBeforeExt, text, k) {
      assert text[k..][0] == text[k];
      TrailingNumberNeedsStart(text[k..]);
    }
  }

  lemma TrailingNumberReplacedOnce(text: string, m: nat, h: Hit, repl: string)
    requires m + h.len <= |text|
    requires forall k :: 0 <= k < m ==> !IsSpace(text[k]) && !IsDigit(text[k])
    requires Match(DigitsBeforeExt, text[m..]) == Some(h)
    requires forall k :: m + h.len <= k < |text| ==> !IsDigit(text[k])
    ensures Sub(DigitsBeforeExt, text, repl) == text[..m] + repl + text[m + h.len..]
  {
    TrailingNumberNotBefore(text, m);
    NoDigitNoTrailingNumber(text[m + h.len..]);
    SubOnce(DigitsBeforeExt, text, m, h, repl);
  }

  // ---- The numeral steps: every numeral is replaced, by the first one's value.

  /** The numeral classes used by the source hold no whitespace. */
  predicate SpaceFree(cls: NumeralClass) {
    forall c :: InClass(cls, c) ==> !IsSpace(c)
  }

  lemma KanjiSpaceFree()
    ensures SpaceFree(Kanji)
  {
    KanjiNumeralsHigh();
  }

  /** Apart from `|`, the kanji numerals lie in the CJK Unified Ideographs
      block, far above every space and every ASCII character. */
  lemma KanjiNumeralsHigh()
    ensures forall c :: InClass(Kanji, c) ==> c == '|' || c as int >= 0x4E00
  {
    assert forall i :: 0 <= i < |KanjiNumerals| ==> KanjiNumerals[i] as int >= 0x4E00;
    forall c | InClass(Kanji, c) ensures c == '|' || c as int >= 0x4E00 {
      if c != '|' {
        var i :| 0 <= i < |KanjiNumerals| && KanjiNumerals[i] == c;
      }
    }
  }

  lemma CircledSpaceFree(f: Family)
    requires WellOffset(f)
    ensures SpaceFree(Circled(f.first))
  {
  }

  /** Every numeral starts a match of its pattern. */
  lemma NumeralMatchesAt(cls: NumeralClass, s: string, k: nat)
    requires SpaceFree(cls) && k < |s| && InClass(cls, s[k])
    ensures MatchesAt(Numeral(cls), s, k)
  {
    assert s[k..][0] == s[k];
  }

  /** The search finds the first numeral of the class. */
  lemma {:induction false} NumeralSearchFirst(cls: NumeralClass, s: string, i: nat)
    requires SpaceFree(cls) && i < |s| && InClass(cls, s[i])
    requires forall j :: 0 <= j < i ==> !InClass(cls, s[j])
    ensures Search(Numeral(cls), s).Some? && Search(Numeral(cls), s).value.group == [s[i]]
  {
    NumeralMatchesAt(cls, s, i);
    var k := FirstMatch(Numeral(cls), s, 0).value;
    var t := s[k..];
    var a := Run(t, IsSpace);
    assert a < |t| && InClass(cls, t[a]);
    assert t[a] == s[k + a];
  }

  /** A numeral class absent from the text: nothing matches, nothing changes. */
  lemma NumeralAbsent(cls: NumeralClass, s: string)
    requires SpaceFree(cls) && forall j :: 0 <= j < |s| ==> !InClass(cls, s[j])
    ensures Search(Numeral(cls), s).None?
    ensures forall k :: 0 <= k < |s| ==> !MatchesAt(Numeral(cls), s, k)
  {
    forall k | 0 <= k <= |s| ensures !MatchesAt(Numeral(cls), s, k) {
      var t := s[k..];
      var a := Run(t, IsSpace);
      assert a < |t| ==> t[a] == s[k + a];
    }
  }

  /** `pad_kanji_number` leaves a text without kanji numerals (or `|`)
      unchanged. */
  lemma PadKanjiNumberAbsent(text: string)
    requires forall j :: 0 <= j < |text| ==> !InClass(Kanji, text[j])
    ensures PadKanjiNumber(text) == text
  {
    KanjiSpaceFree();
    NumeralAbsent(Kanji, text);
  }

  /** Otherwise every numeral, with the spaces around it and a following
      `巻`, is replaced by ` N `, N the value of the FIRST numeral, and no
      numeral is left. */
  lemma PadKanjiNumberFirst(text: string, i: nat)
    requires i < |text| && InClass(Kanji, text[i])
    requires forall j :: 0 <= j < i ==> !InClass(Kanji, text[j])
    ensures PadKanjiNumber(text) == Sub(Numeral(Kanji), text, " " + KanjiValue(text[i]) + " ")
    ensures forall k :: 0 <= k < |PadKanjiNumber(text)| ==> !InClass(Kanji, PadKanjiNumber(text)[k])
  {
    KanjiSpaceFree();
    NumeralSearchFirst(Kanji, text, i);
    var h := Search(Numeral(Kanji), text).value;
    assert h.group[0] == text[i];
    KanjiValueNotNumeral(text[i]);
    NumeralRemoved(Kanji, text, " " + KanjiValue(text[i]) + " ");
  }

  lemma KanjiValueNotNumeral(c: char)
    ensures forall k :: 0 <= k < |" " + KanjiValue(c) + " "| ==> !InClass(Kanji, (" " + KanjiValue(c) + " ")[k])
  {
    var v := KanjiValue(c);
    assert v == "1" || v == "2" || v == "3" || v == "4" || v == "5" || v == "6" || v == "7"
      || v == "8" || v == "9" || v == "10" || v == "None";
  }

  /** Replacing every match of a numeral pattern by a text without numerals
      leaves no numeral. */
  lemma NumeralRemoved(cls: NumeralClass, text: string, repl: string)
    requires SpaceFree(cls)
    requires forall k :: 0 <= k < |repl| ==> !InClass(cls, repl[k])
    ensures forall k :: 0 <= k < |Sub(Numeral(cls), text, repl)| ==> !InClass(cls, Sub(Numeral(cls), text, repl)[k])
  {
    forall k | 0 <= k < |text| && InClass(cls, text[k]) ensures MatchesAt(Numeral(cls), text, k) {
      NumeralMatchesAt(cls, text, k);
    }
    assert ClassStartsMatch(Numeral(cls), text, c => InClass(cls, c));
    SubRemovesClass(Numeral(cls), text, repl, c => InClass(cls, c));
  }

  lemma PadCircledAbsent(f: Family, text: string)
    requires WellOffset(f)
    requires forall j :: 0 <= j < |text| ==> !InClass(Circled(f.first), text[j])
    ensures PadCircled(f, text) == text
  {
    CircledSpaceFree(f);
    NumeralAbsent(Circled(f.first), text);
  }

  /** Every circled digit of the family, with the spaces around it and a
      following `巻`, becomes ` 0N `, N the digit of the FIRST one. */
  lemma PadCircledFirst(f: Family, text: string, i: nat)
    requires WellOffset(f)
    requires i < |text| && InClass(Circled(f.first), text[i])
    requires forall j :: 0 <= j < i ==> !InClass(Circled(f.first), text[j])
    ensures PadCircled(f, text) == Sub(Numeral(Circled(f.first)), text, " 0" + [DigitChar(1 + text[i] as int - f.first as int)] + " ")
    ensures forall k :: 0 <= k < |PadCircled(f, text)| ==> !InClass(Circled(f.first), PadCircled(f, text)[k])
  {
    var cls := Circled(f.first);
    CircledSpaceFree(f);
    NumeralSearchFirst(cls, text, i);
    var h := Search(Numeral(cls), text).value;
    assert h.group[0] == text[i];
    var repl := " " + CircledValue(f, text[i]) + " ";
    CircledRepl(f, text[i]);
    assert PadCircled(f, text) == Sub(Numeral(cls), text, repl);
    NumeralRemoved(cls, text, repl);
  }

  /** The replacement a circled digit `c` gives: ` 0N `, where N is its place
      in the family counted from 1. */
  lemma CircledRepl(f: Family, c: char)
    requires WellOffset(f) && InClass(Circled(f.first), c)
    ensures " " + CircledValue(f, c) + " " == " 0" + [DigitChar(1 + c as int - f.first as int)] + " "
    ensures forall k :: 0 <= k < |" " + CircledValue(f, c) + " "| ==> !InClass(Circled(f.first), (" " + CircledValue(f, c) + " ")[k])
  {
    var v := CircledValue(f, c);
    assert v == "0" + [DigitChar(1 + c as int - f.first as int)];
    assert " " + v + " " == [' ', v[0], v[1], ' '];
  }

  /** After `pad_kanji_number` no kanji numeral (nor `|`) is left. */
  lemma PadKanjiNumberRemovesAll(text: string)
    ensures forall k :: 0 <= k < |PadKanjiNumber(text)| ==> !InClass(Kanji, PadKanjiNumber(text)[k])
  {
    if k :| 0 <= k < |text| && InClass(Kanji, text[k]) {
      FirstOccurrence(text, c => InClass(Kanji, c), k);
      var i :| 0 <= i <= k && InClass(Kanji, text[i]) && forall j :: 0 <= j < i ==> !InClass(Kanji, text[j]);
      PadKanjiNumberFirst(text, i);
    } else {
      PadKanjiNumberAbsent(text);
    }
  }

  /** After one circled-digit step no digit of that family is left. */
  lemma PadCircledRemovesAll(f: Family, text: string)
    requires WellOffset(f)
    ensures forall k :: 0 <= k < |PadCircled(f, text)| ==> !InClass(Circled(f.first), PadCircled(f, text)[k])
  {
    var cls := Circled(f.first);
    if k :| 0 <= k < |text| && InClass(cls, text[k]) {
      FirstOccurrence(text, c => InClass(cls, c), k);
      var i :| 0 <= i <= k && InClass(cls, text[i]) && forall j :: 0 <= j < i ==> !InClass(cls, text[j]);
      PadCircledFirst(f, text, i);
    } else {
      PadCircledAbsent(f, text);
    }
  }
}
