/** The worked cases that src/epub_info.py gives in its doc comments and
    comments (lines 87-89 and 196-197), and the two `zfill` cases of the
    round-bracket step, proved of the model.

    Each case is split in three: a lemma that reads the characters off the
    concrete title, a lemma that proves the step on any title with those
    characters, and the case itself, which joins the two. */
module Worked {
  import opened Chars
  import opened Regex
  import opened Numbering
  import Title

  // ---- `str(int(g)).zfill(2)`.

  /** `(007)` is written `07`. */
  lemma TwoDigitDropsZeros(s: string)
    requires |s| == 3 && s[0] == '0' && s[1] == '0' && s[2] == '7'
    ensures TwoDigit(s) == ['0', '7']
  {
    assert s[2..] == ['7'];
    TwoDigitLeadingZeros(s, 2);
    TwoDigitSingle('7');
  }

  /** `(123)` is written `123`: `zfill` never truncates. */
  lemma TwoDigitKeepsWide(s: string)
    requires |s| == 3 && s[0] == '1' && s[1] == '2' && s[2] == '3'
    ensures TwoDigit(s) == s
  {
    TwoDigitCanonical(s);
  }

  /** One digit is written with a leading zero, in both replacements. */
  lemma PaddedDigit(d: char)
    requires IsDigit(d)
    ensures " " + TwoDigit([d]) + " " == [' ', '0', d, ' ']
    ensures " " + TwoDigit([d]) == [' ', '0', d]
  {
    TwoDigitSingle(d);
  }

  // ---- Matches of one bracketed digit.

  lemma RunExactly(t: string, P: char -> bool, n: nat)
    requires n <= |t| && (forall k :: 0 <= k < n ==> P(t[k])) && (n < |t| ==> !P(t[n]))
    ensures Run(t, P) == n
  {
  }

  /** `(g)`, after `a` spaces (none or one), with `g` a run of digits, is
      the bracket of the round-bracket patterns. */
  lemma BracketNumber(t: string, a: nat, g: string)
    requires a <= 1 && g != [] && AllDigits(g) && a + |g| + 2 <= |t| && (a == 1 ==> t[0] == ' ')
    requires t[a] == '(' && t[a + 1..a + 1 + |g|] == g && t[a + 1 + |g|] == ')'
    ensures RoundBracket(t) == Some(Hit(a + |g| + 2, g))
  {
    RunExactly(t, IsSpace, a);
    BracketDigits(t[a + 1..], g);
    assert t[a + 1..][|g|..] == t[a + 1 + |g|..];
  }

  /** `g)` after the `(`: no space, then the digits of `g`, then `)`. */
  lemma BracketDigits(u: string, g: string)
    requires g != [] && AllDigits(g) && |g| < |u| && u[..|g|] == g && u[|g|] == ')'
    ensures Run(u, IsSpace) == 0 && Run(u, IsDigit) == |g| && Run(u[|g|..], IsSpace) == 0
    ensures u[0..0 + |g|] == g
  {
    assert forall k :: 0 <= k < |g| ==> u[k] == g[k];
    RunExactly(u, IsSpace, 0);
    RunExactly(u, IsDigit, |g|);
    RunExactly(u[|g|..], IsSpace, 0);
  }

  /** ` (d) ` before a character that is not a space. */
  lemma SpacedDigitMatch(t: string)
    requires |t| > 5 && t[0] == ' ' && t[1] == '(' && IsDigit(t[2]) && t[3] == ')' && t[4] == ' ' && !IsSpace(t[5])
    ensures Match(RoundNumber(SpacesPlus), t) == Some(Hit(5, [t[2]]))
  {
    assert t[2..3] == [t[2]];
    BracketNumber(t, 1, [t[2]]);
    RunExactly(t[4..], IsSpace, 1);
    assert Match(RoundNumber(SpacesPlus), t) == MatchRoundNumber(SpacesPlus, t);
  }

  /** `(d) ` before a character that is not a space. */
  lemma GluedDigitMatch(t: string)
    requires |t| > 4 && t[0] == '(' && IsDigit(t[1]) && t[2] == ')' && t[3] == ' ' && !IsSpace(t[4])
    ensures Match(RoundNumber(SpacesPlus), t) == Some(Hit(4, [t[1]]))
  {
    assert t[1..2] == [t[1]];
    BracketNumber(t, 0, [t[1]]);
    RunExactly(t[3..], IsSpace, 1);
    assert Match(RoundNumber(SpacesPlus), t) == MatchRoundNumber(SpacesPlus, t);
  }

  /** `(g).epub`, after `a` spaces (none or one): a bracketed number before
      the extension, and not one followed by whitespace. */
  lemma ExtNumberMatch(t: string, a: nat, g: string)
    requires a <= 1 && g != [] && AllDigits(g) && |t| == a + |g| + 2 + |Ext| && (a == 1 ==> t[0] == ' ')
    requires t[a] == '(' && t[a + 1..a + 1 + |g|] == g && t[a + 1 + |g|] == ')' && t[a + |g| + 2..] == Ext
    ensures Match(RoundNumber(ThenExt), t) == Some(Hit(a + |g| + 2 + |Ext|, g))
    ensures Match(RoundNumber(SpacesPlus), t).None?
  {
    BracketNumber(t, a, g);
    ExtTail(t[a + |g| + 2..]);
    ExtNumberThenExt(t, a + |g| + 2, g);
    ExtNumberNotSpaced(t, a + |g| + 2, g);
  }

  /** The extension starts with no whitespace. */
  lemma ExtTail(e: string)
    requires e == Ext
    ensures Run(e, IsSpace) == 0 && e[0..] == e && StartsWith(e, Ext)
  {
    RunExactly(e, IsSpace, 0);
  }

  lemma ExtNumberThenExt(t: string, n: nat, g: string)
    requires n <= |t| && RoundBracket(t) == Some(Hit(n, g))
    requires Run(t[n..], IsSpace) == 0 && t[n..][0..] == t[n..] && StartsWith(t[n..], Ext)
    ensures Match(RoundNumber(ThenExt), t) == Some(Hit(n + |Ext|, g))
  {
    BracketThenExt(t, n, g);
    assert Match(RoundNumber(ThenExt), t) == MatchRoundNumber(ThenExt, t);
  }

  lemma BracketThenExt(t: string, n: nat, g: string)
    requires n <= |t| && RoundBracket(t) == Some(Hit(n, g))
    requires Run(t[n..], IsSpace) == 0 && t[n..][0..] == t[n..] && StartsWith(t[n..], Ext)
    ensures BracketBeforeExt(t) == Some(Hit(n, g))
  {
  }

  lemma ExtNumberNotSpaced(t: string, n: nat, g: string)
    requires n <= |t| && RoundBracket(t) == Some(Hit(n, g)) && Run(t[n..], IsSpace) == 0
    ensures Match(RoundNumber(SpacesPlus), t).None?
  {
    assert Match(RoundNumber(SpacesPlus), t) == MatchRoundNumber(SpacesPlus, t);
  }

  predicate NoOpener(t: string) {
    forall k :: 0 <= k < |t| ==> t[k] != '('
  }

  lemma NoOpenerJoin(a: string, b: string, c: string)
    requires NoOpener(a) && NoOpener(b) && NoOpener(c)
    ensures NoOpener(a + b + c)
  {
  }

  lemma BeforeExtWithoutBracket(text: string)
    requires NoOpener(text)
    ensures PadRoundNumberBeforeExt(text) == text
  {
    NoOpenerNoRoundNumber(text, ThenExt);
  }

  // ---- Line 87: `xxx (1) yyy.epub` becomes `xxx 01 yyy.epub`.

  lemma SpacedBracketExample(text: string)
    requires text == "xxx (1) yyy.epub"
    ensures PadRoundNumber(text) == "xxx 01 yyy.epub"
  {
    SpacedBracketFacts(text);
    SpacedBracketShape(text, 3);
  }

  lemma SpacedBracketFacts(text: string)
    requires text == "xxx (1) yyy.epub"
    ensures |text| == 16 && text[..3] + [' ', '0', text[5], ' '] + text[8..] == "xxx 01 yyy.epub"
    ensures forall k :: 0 <= k < 3 ==> !IsSpace(text[k]) && text[k] != '('
    ensures text[3] == ' ' && text[4] == '(' && IsDigit(text[5]) && text[6] == ')' && text[7] == ' '
    ensures !IsSpace(text[8]) && forall k :: 8 <= k < |text| ==> text[k] != '('
  {
  }

  /** ` (d) ` after a prefix without whitespace or `(`, before a character
      that is not whitespace, and no `(` after it: the round-bracket step
      writes ` 0d `. */
  lemma SpacedBracketShape(text: string, i: nat)
    requires i + 5 < |text| && forall k :: 0 <= k < i ==> !IsSpace(text[k]) && text[k] != '('
    requires text[i] == ' ' && text[i + 1] == '(' && IsDigit(text[i + 2]) && text[i + 3] == ')' && text[i + 4] == ' '
    requires !IsSpace(text[i + 5]) && forall k :: i + 5 <= k < |text| ==> text[k] != '('
    ensures PadRoundNumber(text) == text[..i] + [' ', '0', text[i + 2], ' '] + text[i + 5..]
  {
    SpacedBracketNoOpener(text, i);
    SpacedBracketFirstHalf(text, i);
    RoundChain(text, text[..i] + [' ', '0', text[i + 2], ' '] + text[i + 5..]);
  }

  /** The result of the first half holds no `(`. */
  lemma SpacedBracketNoOpener(text: string, i: nat)
    requires i + 5 < |text| && forall k :: 0 <= k < i ==> text[k] != '('
    requires IsDigit(text[i + 2]) && forall k :: i + 5 <= k < |text| ==> text[k] != '('
    ensures NoOpener(text[..i] + [' ', '0', text[i + 2], ' '] + text[i + 5..])
  {
    NoOpenerJoin(text[..i], [' ', '0', text[i + 2], ' '], text[i + 5..]);
  }

  /** When the first half of the round-bracket step leaves no `(`, the
      second half changes nothing. */
  lemma RoundChain(text: string, r1: string)
    requires PadRoundNumberSpaced(text) == r1 && NoOpener(r1)
    ensures PadRoundNumber(text) == r1
  {
    BeforeExtWithoutBracket(r1);
  }

  lemma SpacedBracketFirstHalf(text: string, i: nat)
    requires i + 5 < |text| && forall k :: 0 <= k < i ==> !IsSpace(text[k]) && text[k] != '('
    requires text[i] == ' ' && text[i + 1] == '(' && IsDigit(text[i + 2]) && text[i + 3] == ')' && text[i + 4] == ' '
    requires !IsSpace(text[i + 5]) && forall k :: i + 5 <= k < |text| ==> text[k] != '('
    ensures PadRoundNumberSpaced(text) == text[..i] + [' ', '0', text[i + 2], ' '] + text[i + 5..]
  {
    SpacedDigitMatch(text[i..]);
    PadRoundNumberSpacedOne(text, i, 5, [text[i + 2]]);
    PaddedDigit(text[i + 2]);
  }

  // ---- Line 88: `xxx(1) yyy.epub` becomes `xxx 01 yyy.epub`.

  lemma GluedBracketExample(text: string)
    requires text == "xxx(1) yyy.epub"
    ensures PadRoundNumber(text) == "xxx 01 yyy.epub"
  {
    GluedBracketFacts(text);
    GluedBracketShape(text);
  }

  lemma GluedBracketFacts(text: string)
    requires text == "xxx(1) yyy.epub"
    ensures |text| == 15 && text[..3] + [' ', '0', text[4], ' '] + text[7..] == "xxx 01 yyy.epub"
    ensures forall k :: 0 <= k < 3 ==> text[k] == 'x'
    ensures text[3] == '(' && IsDigit(text[4]) && text[5] == ')' && text[6] == ' ' && text[7] == 'y'
    ensures forall k :: 7 <= k < |text| ==> text[k] != '('
  {
  }

  lemma GluedBracketShape(text: string)
    requires |text| == 15 && forall k :: 0 <= k < 3 ==> text[k] == 'x'
    requires text[3] == '(' && IsDigit(text[4]) && text[5] == ')' && text[6] == ' ' && text[7] == 'y'
    requires forall k :: 7 <= k < |text| ==> text[k] != '('
    ensures PadRoundNumber(text) == text[..3] + [' ', '0', text[4], ' '] + text[7..]
  {
    GluedBracketNoOpener(text);
    GluedBracketFirstHalf(text);
    RoundChain(text, text[..3] + [' ', '0', text[4], ' '] + text[7..]);
  }

  /** The result of the first half holds no `(`. */
  lemma GluedBracketNoOpener(text: string)
    requires |text| == 15 && forall k :: 0 <= k < 3 ==> text[k] == 'x'
    requires IsDigit(text[4]) && forall k :: 7 <= k < |text| ==> text[k] != '('
    ensures NoOpener(text[..3] + [' ', '0', text[4], ' '] + text[7..])
  {
    NoOpenerJoin(text[..3], [' ', '0', text[4], ' '], text[7..]);
  }

  lemma GluedBracketFirstHalf(text: string)
    requires |text| == 15 && forall k :: 0 <= k < 3 ==> text[k] == 'x'
    requires text[3] == '(' && IsDigit(text[4]) && text[5] == ')' && text[6] == ' ' && text[7] == 'y'
    requires forall k :: 7 <= k < |text| ==> text[k] != '('
    ensures PadRoundNumberSpaced(text) == text[..3] + [' ', '0', text[4], ' '] + text[7..]
  {
    GluedBracketReplaced(text);
    PaddedDigit(text[4]);
  }

  lemma GluedBracketReplaced(text: string)
    requires |text| == 15 && forall k :: 0 <= k < 3 ==> text[k] == 'x'
    requires text[3] == '(' && IsDigit(text[4]) && text[5] == ')' && text[6] == ' ' && text[7] == 'y'
    requires forall k :: 7 <= k < |text| ==> text[k] != '('
    ensures PadRoundNumberSpaced(text) == text[..3] + (" " + TwoDigit([text[4]]) + " ") + text[7..]
  {
    GluedDigitMatch(text[3..]);
    PadRoundNumberSpacedOne(text, 3, 4, [text[4]]);
  }

  // ---- Line 89: `xxx (1).epub` becomes `xxx 01.epub`.

  lemma BracketBeforeExtExample(text: string)
    requires text == "xxx (1).epub"
    ensures PadRoundNumber(text) == "xxx 01.epub"
  {
    BracketBeforeExtFacts(text);
    BracketBeforeExtShape(text, 3, 1, [text[5]]);
    PaddedDigit(text[5]);
  }

  lemma BracketBeforeExtFacts(text: string)
    requires text == "xxx (1).epub"
    ensures |text| == 12 && text[..3] + [' ', '0', text[5]] + text[7..] == "xxx 01.epub"
    ensures forall k :: 0 <= k < 3 ==> !IsSpace(text[k]) && text[k] != '('
    ensures text[3] == ' ' && text[4] == '(' && IsDigit(text[5]) && text[5..6] == [text[5]] && text[6] == ')' && text[7..] == Ext
  {
  }

  /** `(g)`, after `a` spaces (none or one), right before the extension and
      after a prefix without whitespace or `(`: the round-bracket step writes
      ` NN` glued to the extension. */
  lemma BracketBeforeExtShape(text: string, i: nat, a: nat, g: string)
    requires a <= 1 && g != [] && AllDigits(g) && |text| == i + a + |g| + 2 + |Ext|
    requires forall k :: 0 <= k < i ==> !IsSpace(text[k]) && text[k] != '('
    requires (a == 1 ==> text[i] == ' ') && text[i + a] == '(' && text[i + a + 1..i + a + 1 + |g|] == g
    requires text[i + a + 1 + |g|] == ')' && text[i + a + |g| + 2..] == Ext
    ensures PadRoundNumber(text) == text[..i] + (" " + TwoDigit(g)) + text[i + a + |g| + 2..]
  {
    BracketBeforeExtFirstHalf(text, i, a, g);
    BracketBeforeExtSecondHalf(text, i, a, g);
  }

  /** No bracketed number is followed by whitespace. */
  lemma BracketBeforeExtFirstHalf(text: string, i: nat, a: nat, g: string)
    requires a <= 1 && g != [] && AllDigits(g) && |text| == i + a + |g| + 2 + |Ext|
    requires forall k :: 0 <= k < i ==> !IsSpace(text[k]) && text[k] != '('
    requires (a == 1 ==> text[i] == ' ') && text[i + a] == '(' && text[i + a + 1..i + a + 1 + |g|] == g
    requires text[i + a + 1 + |g|] == ')' && text[i + a + |g| + 2..] == Ext
    ensures PadRoundNumberSpaced(text) == text
  {
    RoundNumberNotBefore(text, i, SpacesPlus);
    BracketBeforeExtAtBracket(text, i, a, g);
    BracketNoOpenerAfter(text, i, a, g);
    BracketBeforeExtAfter(text, i + a + 1);
    NoSpacedNumberAnywhere(text, i, a);
  }

  /** No match before `i`, at `i` or `i + a`, or after `i + a`: no match
      at all, and line 97 leaves the text as it is. */
  lemma NoSpacedNumberAnywhere(text: string, i: nat, a: nat)
    requires a <= 1 && i + a + 1 <= |text|
    requires forall k :: 0 <= k < i ==> !MatchesAt(RoundNumber(SpacesPlus), text, k)
    requires !MatchesAt(RoundNumber(SpacesPlus), text, i) && !MatchesAt(RoundNumber(SpacesPlus), text, i + a)
    requires forall k :: i + a + 1 <= k <= |text| ==> !MatchesAt(RoundNumber(SpacesPlus), text, k)
    ensures PadRoundNumberSpaced(text) == text
  {
    NoMatchBetween(RoundNumber(SpacesPlus), text, i, a);
  }

  lemma NoMatchBetween(p: Pattern, s: string, i: nat, a: nat)
    requires a <= 1 && i + a + 1 <= |s|
    requires forall k :: 0 <= k < i ==> !MatchesAt(p, s, k)
    requires !MatchesAt(p, s, i) && !MatchesAt(p, s, i + a)
    requires forall k :: i + a + 1 <= k <= |s| ==> !MatchesAt(p, s, k)
    ensures Search(p, s) == None
  {
    FirstMatchNone(p, s, i + a + 1);
    assert FirstMatch(p, s, i + a) == None;
    if a == 1 {
      assert FirstMatch(p, s, i) == FirstMatch(p, s, i + 1);
    }
    FirstMatchSkip(p, s, 0, i);
  }

  /** Positions without a match do not change where the scan stops. */
  lemma {:induction false} FirstMatchSkip(p: Pattern, s: string, j: nat, i: nat)
    requires j <= i <= |s|
    requires forall k :: j <= k < i ==> !MatchesAt(p, s, k)
    ensures FirstMatch(p, s, j) == FirstMatch(p, s, i)
    decreases i - j
  {
    if j < i {
      FirstMatchSkip(p, s, j + 1, i);
    }
  }

  /** Neither at the space nor at the `(` does a bracketed number followed
      by whitespace start. */
  lemma BracketBeforeExtAtBracket(text: string, i: nat, a: nat, g: string)
    requires a <= 1 && g != [] && AllDigits(g) && |text| == i + a + |g| + 2 + |Ext|
    requires (a == 1 ==> text[i] == ' ') && text[i + a] == '(' && text[i + a + 1..i + a + 1 + |g|] == g
    requires text[i + a + 1 + |g|] == ')' && text[i + a + |g| + 2..] == Ext
    ensures !MatchesAt(RoundNumber(SpacesPlus), text, i) && !MatchesAt(RoundNumber(SpacesPlus), text, i + a)
  {
    if a == 0 {
      NoSpacedNumberAt(text, i, 0, g);
    } else {
      NoSpacedNumberAt(text, i, 1, g);
      NoSpacedNumberAfterSpace(text, i, g);
    }
  }

  /** At the `(` after the space, no bracketed number followed by
      whitespace starts either. */
  lemma NoSpacedNumberAfterSpace(text: string, i: nat, g: string)
    requires g != [] && AllDigits(g) && |text| == i + 1 + |g| + 2 + |Ext|
    requires text[i + 1] == '(' && text[i + 1 + 1..i + 1 + 1 + |g|] == g
    requires text[i + 1 + 1 + |g|] == ')' && text[i + 1 + |g| + 2..] == Ext
    ensures !MatchesAt(RoundNumber(SpacesPlus), text, i + 1)
  {
    NoSpacedNumberAt(text, i + 1, 0, g);
  }

  lemma NoSpacedNumberAt(text: string, j: nat, a: nat, g: string)
    requires a <= 1 && g != [] && AllDigits(g) && |text| == j + a + |g| + 2 + |Ext|
    requires (a == 1 ==> text[j] == ' ') && text[j + a] == '(' && text[j + a + 1..j + a + 1 + |g|] == g
    requires text[j + a + 1 + |g|] == ')' && text[j + a + |g| + 2..] == Ext
    ensures !MatchesAt(RoundNumber(SpacesPlus), text, j)
  {
    BracketShift(text, j, a, g);
    ExtNumberMatch(text[j..], a, g);
  }

  /** The bracket at `i` is the bracket at the start of `text[i..]`. */
  lemma BracketShift(text: string, i: nat, a: nat, g: string)
    requires |text| == i + a + |g| + 2 + |Ext|
    requires text[i + a + 1..i + a + 1 + |g|] == g && text[i + a + |g| + 2..] == Ext
    ensures text[i..][a + 1..a + 1 + |g|] == g && text[i..][a + |g| + 2..] == Ext
  {
    var t := text[i..];
    assert t[a + 1..a + 1 + |g|] == text[i + a + 1..i + a + 1 + |g|];
    assert t[a + |g| + 2..] == text[i + a + |g| + 2..];
  }

  /** After the `(`, the digits, `)` and the extension hold no `(`. */
  lemma BracketNoOpenerAfter(text: string, i: nat, a: nat, g: string)
    requires AllDigits(g) && |text| == i + a + |g| + 2 + |Ext|
    requires text[i + a + 1..i + a + 1 + |g|] == g
    requires text[i + a + 1 + |g|] == ')' && text[i + a + |g| + 2..] == Ext
    ensures forall k :: i + a + 1 <= k < |text| ==> text[k] != '('
  {
    forall k | i + a + 1 <= k < |text| ensures text[k] != '(' {
      if k < i + a + 1 + |g| {
        assert text[k] == g[k - (i + a + 1)];
      } else if k > i + a + 1 + |g| {
        assert text[k] == Ext[k - (i + a + |g| + 2)];
      }
    }
  }

  /** From `j` on there is no `(`: no bracketed number starts there. */
  lemma BracketBeforeExtAfter(text: string, j: nat)
    requires j <= |text| && forall k :: j <= k < |text| ==> text[k] != '('
    ensures forall k :: j <= k <= |text| ==> !MatchesAt(RoundNumber(SpacesPlus), text, k)
  {
    var rest := text[j..];
    NoOpenerNoRoundNumber(rest, SpacesPlus);
    forall k | j <= k <= |text| ensures !MatchesAt(RoundNumber(SpacesPlus), text, k) {
      assert rest[k - j..] == text[k..];
    }
  }

  lemma BracketBeforeExtSecondHalf(text: string, i: nat, a: nat, g: string)
    requires a <= 1 && g != [] && AllDigits(g) && |text| == i + a + |g| + 2 + |Ext|
    requires forall k :: 0 <= k < i ==> !IsSpace(text[k]) && text[k] != '('
    requires (a == 1 ==> text[i] == ' ') && text[i + a] == '(' && text[i + a + 1..i + a + 1 + |g|] == g
    requires text[i + a + 1 + |g|] == ')' && text[i + a + |g| + 2..] == Ext
    ensures PadRoundNumberBeforeExt(text) == text[..i] + (" " + TwoDigit(g)) + text[i + a + |g| + 2..]
  {
    var n := a + |g| + 2;
    BracketBeforeExtTail(text, i, a, g, n);
    PadRoundNumberBeforeExtOne(text, i, n, g);
  }

  /** The bracket at `i + a` and the extension after it are one match of
      line 105, and no bracket opens after it. */
  lemma BracketBeforeExtTail(text: string, i: nat, a: nat, g: string, n: nat)
    requires a <= 1 && g != [] && AllDigits(g) && n == a + |g| + 2 && |text| == i + n + |Ext|
    requires (a == 1 ==> text[i] == ' ') && text[i + a] == '(' && text[i + a + 1..i + a + 1 + |g|] == g
    requires text[i + a + 1 + |g|] == ')' && text[i + n..] == Ext
    ensures Match(RoundNumber(ThenExt), text[i..]) == Some(Hit(n + |Ext|, g))
    ensures forall k :: i + n <= k < |text| ==> text[k] != '('
  {
    BracketShift(text, i, a, g);
    ExtNumberMatch(text[i..], a, g);
    ExtNoOpener(text, i + n);
  }

  lemma ExtNoOpener(text: string, n: nat)
    requires n <= |text| && text[n..] == Ext
    ensures forall k :: n <= k < |text| ==> text[k] != '('
  {
    assert forall k :: n <= k < |text| ==> text[k] == text[n..][k - n];
  }

  // ---- Lines 196-197: `xxx1巻.epub` and `xxx1.epub` become `xxx 01.epub`.

  /** `d巻.epub` (`v == 1`) or `d.epub` (`v == 0`): a digit run before the
      extension, for the search of line 198 and the replacement of line 201. */
  lemma TrailingDigitMatch(t: string, v: nat)
    requires v <= 1 && |t| == 1 + v + |Ext| && IsDigit(t[0]) && (v == 1 ==> t[1] == Volume) && t[1 + v..] == Ext
    ensures Match(DigitsAhead, t) == Some(Hit(1, [t[0]]))
    ensures Match(DigitsBeforeExt, t) == Some(Hit(1 + v, [t[0]]))
  {
    TrailingDigitAhead(t, v);
    TrailingDigitBeforeExt(t, v);
  }

  /** `巻?\s*\.epub` holds of `巻.epub` and of `.epub`. */
  lemma ExtAheadAt(u: string, v: nat)
    requires v <= 1 && |u| == v + |Ext| && (v == 1 ==> u[0] == Volume) && u[v..] == Ext
    ensures ExtAhead(u)
  {
    var e := u[v..];
    assert e[0] == '.';
    RunExactly(e, IsSpace, 0);
    assert e[0..] == e;
  }

  lemma TrailingDigitAhead(t: string, v: nat)
    requires v <= 1 && |t| == 1 + v + |Ext| && IsDigit(t[0]) && (v == 1 ==> t[1] == Volume) && t[1 + v..] == Ext
    ensures Match(DigitsAhead, t) == Some(Hit(1, [t[0]]))
  {
    assert t[1..][v..] == t[1 + v..];
    ExtAheadAt(t[1..], v);
    RunExactly(t, IsDigit, 1);
    assert t[..1] == [t[0]];
  }

  lemma TrailingDigitBeforeExt(t: string, v: nat)
    requires v <= 1 && |t| == 1 + v + |Ext| && IsDigit(t[0]) && (v == 1 ==> t[1] == Volume) && t[1 + v..] == Ext
    ensures Match(DigitsBeforeExt, t) == Some(Hit(1 + v, [t[0]]))
  {
    var e := t[1 + v..];
    assert e[0] == '.';
    RunExactly(e, IsSpace, 0);
    assert e[0..] == e;
    RunExactly(t, IsSpace, 0);
    RunExactly(t, IsDigit, 1);
    assert t[0..1] == [t[0]];
  }

  lemma TrailingDigitShape(text: string, v: nat)
    requires v <= 1 && |text| == 4 + v + |Ext| && forall k :: 0 <= k < 3 ==> text[k] == 'x'
    requires IsDigit(text[3]) && (v == 1 ==> text[4] == Volume) && text[4 + v..] == Ext
    ensures PadTrailingNumber(text) == text[..3] + [' ', '0', text[3]] + text[4 + v..]
  {
    TrailingDigitReplaced(text, v);
    PaddedDigit(text[3]);
  }

  lemma TrailingDigitReplaced(text: string, v: nat)
    requires v <= 1 && |text| == 4 + v + |Ext| && forall k :: 0 <= k < 3 ==> text[k] == 'x'
    requires IsDigit(text[3]) && (v == 1 ==> text[4] == Volume) && text[4 + v..] == Ext
    ensures PadTrailingNumber(text) == text[..3] + (" " + TwoDigit([text[3]])) + text[4 + v..]
  {
    TrailingDigitFits(text, v);
    PadTrailingNumberOne(text, 3, 1 + v, [text[3]]);
  }

  lemma TrailingDigitFits(text: string, v: nat)
    requires v <= 1 && |text| == 4 + v + |Ext| && forall k :: 0 <= k < 3 ==> text[k] == 'x'
    requires IsDigit(text[3]) && (v == 1 ==> text[4] == Volume) && text[4 + v..] == Ext
    ensures forall k :: 0 <= k < 3 ==> !IsSpace(text[k]) && !IsDigit(text[k])
    ensures Match(DigitsAhead, text[3..]).Some? && Match(DigitsAhead, text[3..]).value.group == [text[3]]
    ensures Match(DigitsBeforeExt, text[3..]) == Some(Hit(1 + v, [text[3]]))
    ensures forall k :: 4 + v <= k < |text| ==> !IsDigit(text[k])
  {
    assert text[3..][1 + v..] == Ext;
    TrailingDigitMatch(text[3..], v);
    var e := text[4 + v..];
    ExtNoDigit(e);
    forall k | 4 + v <= k < |text| ensures !IsDigit(text[k]) {
      assert text[k] == e[k - (4 + v)];
    }
  }

  lemma ExtNoDigit(e: string)
    requires e == Ext
    ensures forall k :: 0 <= k < |e| ==> !IsDigit(e[k])
  {
  }

  lemma VolumeExample(text: string)
    requires text == "xxx1巻.epub"
    ensures PadTrailingNumber(text) == "xxx 01.epub"
  {
    VolumeFacts(text);
    TrailingDigitShape(text, 1);
  }

  lemma VolumeFacts(text: string)
    requires text == "xxx1巻.epub"
    ensures |text| == 10 && text[..3] + [' ', '0', text[3]] + text[5..] == "xxx 01.epub"
    ensures forall k :: 0 <= k < 3 ==> text[k] == 'x'
    ensures IsDigit(text[3]) && text[4] == Volume && text[5..] == Ext
  {
  }

  lemma BareNumberExample(text: string)
    requires text == "xxx1.epub"
    ensures PadTrailingNumber(text) == "xxx 01.epub"
  {
    BareNumberFacts(text);
    TrailingDigitShape(text, 0);
  }

  lemma BareNumberFacts(text: string)
    requires text == "xxx1.epub"
    ensures |text| == 9 && text[..3] + [' ', '0', text[3]] + text[4..] == "xxx 01.epub"
    ensures forall k :: 0 <= k < 3 ==> text[k] == 'x'
    ensures IsDigit(text[3]) && text[4..] == Ext
  {
  }

  // ---- A kanji volume number before the extension: `xxx 参巻.epub`.
  // The kanji step writes the number unpadded, and the digit step of
  // lines 195-201 pads it again.

  /** The kanji step turns ` 参巻` into ` 3 `. */
  lemma KanjiVolumeShape(text: string)
    requires |text| == 6 + |Ext| && forall k :: 0 <= k < 3 ==> text[k] == 'x'
    requires text[3] == ' ' && text[4] == '参' && text[5] == Volume && text[6..] == Ext
    ensures PadKanjiNumber(text) == text[..3] + " 3 " + text[6..]
  {
    KanjiVolumeValue(text);
    KanjiVolumeOnce(text, " 3 ");
  }

  /** The search of line 122 finds `参`, whose value is `3`. */
  lemma KanjiVolumeValue(text: string)
    requires |text| == 6 + |Ext| && forall k :: 0 <= k < 3 ==> text[k] == 'x'
    requires text[3] == ' ' && text[4] == '参'
    ensures PadKanjiNumber(text) == Sub(Numeral(Kanji), text, " 3 ")
  {
    KanjiVolumeFirst(text);
    assert " " + "3" + " " == " 3 ";
    KanjiFirstValue(text, 4, "3");
  }

  /** `参` is the first kanji numeral of the text, and its value is `3`. */
  lemma KanjiVolumeFirst(text: string)
    requires |text| > 4 && forall k :: 0 <= k < 3 ==> text[k] == 'x'
    requires text[3] == ' ' && text[4] == '参'
    ensures InClass(Kanji, text[4]) && KanjiValue(text[4]) == "3"
    ensures forall j :: 0 <= j < 4 ==> !InClass(Kanji, text[j])
  {
    KanjiNumeralsHigh();
    assert KanjiNumerals[2] == '参';
  }

  /** The kanji step replaces with the value `v` of the first numeral. */
  lemma KanjiFirstValue(text: string, i: nat, v: string)
    requires i < |text| && InClass(Kanji, text[i]) && KanjiValue(text[i]) == v
    requires forall j :: 0 <= j < i ==> !InClass(Kanji, text[j])
    ensures PadKanjiNumber(text) == Sub(Numeral(Kanji), text, " " + v + " ")
  {
    PadKanjiNumberFirst(text, i);
  }

  lemma KanjiVolumeOnce(text: string, repl: string)
    requires |text| == 6 + |Ext| && forall k :: 0 <= k < 3 ==> text[k] == 'x'
    requires text[3] == ' ' && text[4] == '参' && text[5] == Volume && text[6..] == Ext
    ensures Sub(Numeral(Kanji), text, repl) == text[..3] + repl + text[6..]
  {
    KanjiVolumeNotBefore(text);
    KanjiVolumeMatch(text[3..]);
    KanjiVolumeNotAfter(text[6..]);
    SubOnce(Numeral(Kanji), text, 3, Hit(3, ['参']), repl);
  }

  lemma KanjiVolumeNotBefore(text: string)
    requires |text| > 3 && forall k :: 0 <= k < 3 ==> text[k] == 'x'
    ensures forall k :: 0 <= k < 3 ==> !MatchesAt(Numeral(Kanji), text, k)
  {
    KanjiNumeralsHigh();
    forall k | 0 <= k < 3 ensures !MatchesAt(Numeral(Kanji), text, k) {
      NumeralNeedsStart(Kanji, text[k..]);
    }
  }

  lemma KanjiVolumeNotAfter(e: string)
    requires e == Ext
    ensures NoMatch(Numeral(Kanji), e)
  {
    KanjiSpaceFree();
    KanjiNumeralsHigh();
    NumeralAbsent(Kanji, e);
  }

  /** A numeral match needs whitespace or a numeral at its start. */
  lemma NumeralNeedsStart(cls: NumeralClass, t: string)
    requires t != [] && !IsSpace(t[0]) && !InClass(cls, t[0])
    ensures Match(Numeral(cls), t).None?
  {
    RunExactly(t, IsSpace, 0);
  }

  /** ` 参巻.epub` starts with a match of three characters capturing `参`. */
  lemma KanjiVolumeMatch(t: string)
    requires |t| == 3 + |Ext| && t[0] == ' ' && t[1] == '参' && t[2] == Volume && t[3..] == Ext
    ensures Match(Numeral(Kanji), t) == Some(Hit(3, ['参']))
  {
    RunExactly(t, IsSpace, 1);
    RunExactly(t[2..], IsSpace, 0);
    assert t[3..][0] == '.';
    RunExactly(t[3..], IsSpace, 0);
  }

  /** The digit step pads the unpadded ` d ` before the extension. */
  lemma SpacedDigitShape(u: string)
    requires |u| == 6 + |Ext| && forall k :: 0 <= k < 3 ==> u[k] == 'x'
    requires u[3] == ' ' && IsDigit(u[4]) && u[5] == ' ' && u[6..] == Ext
    ensures PadTrailingNumber(u) == u[..3] + [' ', '0', u[4]] + u[6..]
  {
    assert u[4..5] == [u[4]];
    SpacedNumberShape(u, 3, [u[4]], 1);
    PaddedDigit(u[4]);
  }

  /** ` g` or ` g ` (`s` spaces, none or one) right before the extension,
      after a prefix without whitespace or digit: the search of line 198
      captures `g`, and the replacement of line 201 writes ` NN` glued to the
      extension. */
  lemma SpacedNumberShape(u: string, i: nat, g: string, s: nat)
    requires s <= 1 && g != [] && AllDigits(g) && |u| == i + 1 + |g| + s + |Ext|
    requires forall k :: 0 <= k < i ==> !IsSpace(u[k]) && !IsDigit(u[k])
    requires u[i] == ' ' && u[i + 1..i + 1 + |g|] == g && (s == 1 ==> u[i + 1 + |g|] == ' ')
    requires u[i + 1 + |g| + s..] == Ext
    ensures PadTrailingNumber(u) == u[..i] + (" " + TwoDigit(g)) + u[i + 1 + |g| + s..]
  {
    SpacedNumberFacts(u, i, g, s);
    SpacedNumberNotBefore(u, i);
    TrailingChain(u, i, 1 + |g| + s, g);
  }

  /** The two matches of ` g` or ` g ` before the extension. */
  lemma SpacedNumberFacts(u: string, i: nat, g: string, s: nat)
    requires s <= 1 && g != [] && AllDigits(g) && |u| == i + 1 + |g| + s + |Ext|
    requires u[i] == ' ' && u[i + 1..i + 1 + |g|] == g && (s == 1 ==> u[i + 1 + |g|] == ' ')
    requires u[i + 1 + |g| + s..] == Ext
    ensures Match(DigitsAhead, u[i + 1..]) == Some(Hit(|g|, g))
    ensures Match(DigitsBeforeExt, u[i..]) == Some(Hit(1 + |g| + s, g))
  {
    SpacedNumberShift(u, i, g, s);
    SpacedNumberAhead(u[i + 1..], g, s);
    SpacedNumberBeforeExt(u[i..], g, s);
  }

  /** The search of line 198 captures `g` just after `i`, no digit run
      starts earlier, and the replacement of line 201 takes exactly `n`
      characters at `i`: the digit step writes ` NN` there. */
  lemma TrailingChain(u: string, i: nat, n: nat, g: string)
    requires i + n + |Ext| == |u| && forall k :: 0 <= k < i ==> !IsSpace(u[k]) && !IsDigit(u[k])
    requires forall j :: 0 <= j < i + 1 ==> !MatchesAt(DigitsAhead, u, j)
    requires i + 1 <= |u| && Match(DigitsAhead, u[i + 1..]).Some? && Match(DigitsAhead, u[i + 1..]).value.group == g
    requires Match(DigitsBeforeExt, u[i..]) == Some(Hit(n, g)) && u[i + n..] == Ext
    ensures PadTrailingNumber(u) == u[..i] + (" " + TwoDigit(g)) + u[i + n..]
  {
    PadTrailingNumberFirst(u, i + 1);
    SpacedNumberSub(u, i, n, g, " " + TwoDigit(g));
  }

  /** The number at `i` is the number at the start of `u[i..]`. */
  lemma SpacedNumberShift(u: string, i: nat, g: string, s: nat)
    requires |u| == i + 1 + |g| + s + |Ext|
    requires u[i + 1..i + 1 + |g|] == g && (s == 1 ==> u[i + 1 + |g|] == ' ') && u[i + 1 + |g| + s..] == Ext
    ensures u[i..][1..1 + |g|] == g && u[i + 1..][..|g|] == g
    ensures u[i..][1 + |g| + s..] == Ext && u[i + 1..][|g| + s..] == Ext
  {
    assert u[i..][1..1 + |g|] == u[i + 1..i + 1 + |g|];
    assert u[i + 1..][..|g|] == u[i + 1..i + 1 + |g|];
    assert u[i..][1 + |g| + s..] == u[i + 1 + |g| + s..];
    assert u[i + 1..][|g| + s..] == u[i + 1 + |g| + s..];
  }

  /** No digit run starts before the space at `i`, nor at it. */
  lemma SpacedNumberNotBefore(u: string, i: nat)
    requires i < |u| && u[i] == ' '
    requires forall k :: 0 <= k < i ==> !IsSpace(u[k]) && !IsDigit(u[k])
    ensures forall j :: 0 <= j < i + 1 ==> !MatchesAt(DigitsAhead, u, j)
  {
    TrailingNumberNotBefore(u, i);
    RunExactly(u[i..], IsDigit, 0);
  }

  /** `g.epub` or `g .epub` matches the search of line 198, capturing `g`. */
  lemma SpacedNumberAhead(t: string, g: string, s: nat)
    requires s <= 1 && g != [] && AllDigits(g) && |t| == |g| + s + |Ext|
    requires t[..|g|] == g && (s == 1 ==> t[|g|] == ' ') && t[|g| + s..] == Ext
    ensures Match(DigitsAhead, t) == Some(Hit(|g|, g))
  {
    assert forall k :: 0 <= k < |g| ==> t[k] == g[k];
    var v := t[|g|..];
    assert v[s..] == Ext;
    RunExactly(t, IsDigit, |g|);
    RunExactly(v, IsSpace, s);
  }

  /** The replacement of line 201 takes the match at `i` and nothing else. */
  lemma SpacedNumberSub(u: string, i: nat, n: nat, g: string, repl: string)
    requires i + n + |Ext| == |u| && forall k :: 0 <= k < i ==> !IsSpace(u[k]) && !IsDigit(u[k])
    requires Match(DigitsBeforeExt, u[i..]) == Some(Hit(n, g)) && u[i + n..] == Ext
    ensures Sub(DigitsBeforeExt, u, repl) == u[..i] + repl + u[i + n..]
  {
    ExtNoDigit(u[i + n..]);
    assert forall k :: i + n <= k < |u| ==> u[k] == u[i + n..][k - (i + n)];
    TrailingNumberSub(u, i, n, g, repl);
  }

  /** ` g.epub` or ` g .epub` starts with a match of all but the extension. */
  lemma SpacedNumberBeforeExt(t: string, g: string, s: nat)
    requires s <= 1 && g != [] && AllDigits(g) && |t| == 1 + |g| + s + |Ext|
    requires t[0] == ' ' && t[1..1 + |g|] == g && (s == 1 ==> t[1 + |g|] == ' ') && t[1 + |g| + s..] == Ext
    ensures Match(DigitsBeforeExt, t) == Some(Hit(1 + |g| + s, g))
  {
    var b := 1 + |g|;
    assert forall k :: 0 <= k < |g| ==> t[1..][k] == g[k];
    assert t[b + s..][0] == '.';
    RunExactly(t, IsSpace, 1);
    RunExactly(t[1..], IsDigit, |g|);
    RunExactly(t[b..], IsSpace, s);
    assert t[b..][s..] == t[b + s..];
  }

  /** `xxx 参巻.epub` ends the numbering steps as `xxx 03.epub`. */
  lemma KanjiVolumeExample(text: string)
    requires text == "xxx 参巻.epub"
    ensures PadTrailingNumber(PadKanjiNumber(text)) == "xxx 03.epub"
  {
    KanjiVolumeFacts(text);
    KanjiVolumeShape(text);
    var u := text[..3] + " 3 " + text[6..];
    SpacedDigitFacts(u);
    SpacedDigitShape(u);
  }

  lemma KanjiVolumeFacts(text: string)
    requires text == "xxx 参巻.epub"
    ensures |text| == 6 + |Ext| && forall k :: 0 <= k < 3 ==> text[k] == 'x'
    ensures text[3] == ' ' && text[4] == '参' && text[5] == Volume && text[6..] == Ext
    ensures text[..3] + " 3 " + text[6..] == "xxx 3 .epub"
  {
  }

  lemma SpacedDigitFacts(u: string)
    requires u == "xxx 3 .epub"
    ensures |u| == 6 + |Ext| && forall k :: 0 <= k < 3 ==> u[k] == 'x'
    ensures u[3] == ' ' && IsDigit(u[4]) && u[5] == ' ' && u[6..] == Ext
    ensures u[..3] + [' ', '0', u[4]] + u[6..] == "xxx 03.epub"
  {
  }

  /** The numbering steps of lines 171-201 turn `xxx 参巻.epub` into
      `xxx 03.epub`. */
  lemma KanjiVolumeNumbers(text: string)
    requires text == "xxx 参巻.epub"
    ensures Title.NormaliseNumbers(text) == "xxx 03.epub"
  {
    KanjiVolumeRound(text);
    KanjiVolumeKanji(text);
    KanjiVolumeExample(text);
    KanjiVolumeCircled("xxx 3 .epub");
    NumbersChain(text, text, "xxx 3 .epub", "xxx 3 .epub", "xxx 03.epub");
  }

  /** The four numbering steps, one result at a time. */
  lemma NumbersChain(text: string, a: string, b: string, c: string, w: string)
    requires PadRoundNumber(text) == a && PadKanjiNumber(a) == b
    requires PadCircledAll(b) == c && PadTrailingNumber(c) == w
    ensures Title.NormaliseNumbers(text) == w
  {
  }

  lemma KanjiVolumeRound(text: string)
    requires text == "xxx 参巻.epub"
    ensures PadRoundNumber(text) == text
  {
    assert forall k :: 0 <= k < |text| ==> text[k] != '(';
    PadRoundNumberWithoutBracket(text);
  }

  lemma KanjiVolumeKanji(text: string)
    requires text == "xxx 参巻.epub"
    ensures PadKanjiNumber(text) == "xxx 3 .epub"
  {
    KanjiVolumeFacts(text);
    KanjiVolumeShape(text);
  }

  lemma KanjiVolumeCircled(u: string)
    requires u == "xxx 3 .epub"
    ensures PadCircledAll(u) == u
  {
    CircledAbsentAscii(u);
  }

  /** The circled-digit steps leave ASCII text unchanged. */
  lemma CircledAbsentAscii(u: string)
    requires forall k :: 0 <= k < |u| ==> u[k] as int < 0x80
    ensures PadCircledAll(u) == u
  {
    assert forall i :: 0 <= i < |Families| ==> WellOffset(Families[i]);
    PadCircledAbsent(Families[0], u);
    PadCircledAbsent(Families[1], u);
    PadCircledAbsent(Families[2], u);
    PadCircledAbsent(Families[3], u);
  }

  /** `format_book_title` turns `xxx 参巻.epub` into `xxx 03.epub`: the
      kanji step writes ` 3 `, and the digit step pads it. */
  lemma KanjiVolumeTitle(title: string)
    requires title == "xxx 参巻.epub"
    ensures Title.FormatBookTitle(title) == "xxx 03.epub"
  {
    KanjiVolumeTitleFacts(title);
    Title.PrepareFixed(title);
    KanjiVolumeNumbers(title);
    PaddedTitleFacts("xxx 03.epub");
    Title.FinishFixed("xxx 03.epub");
  }

  lemma KanjiVolumeTitleFacts(title: string)
    requires title == "xxx 参巻.epub"
    ensures AllChars(title, Title.Clean) && Title.SingleSpaced(title)
    ensures AllChars(title, c => c !in Promotion.openers && c !in Imprint.openers)
  {
    KanjiVolumeClean(title);
    KanjiVolumeSpaced(title);
    KanjiVolumeNoOpener(title);
  }

  lemma KanjiVolumeClean(title: string)
    requires title == "xxx 参巻.epub"
    ensures AllChars(title, Title.Clean)
  {
  }

  lemma KanjiVolumeSpaced(title: string)
    requires title == "xxx 参巻.epub"
    ensures Title.SingleSpaced(title)
  {
  }

  lemma KanjiVolumeNoOpener(title: string)
    requires title == "xxx 参巻.epub"
    ensures AllChars(title, c => c !in Promotion.openers && c !in Imprint.openers)
  {
  }

  lemma PaddedTitleFacts(t: string)
    requires t == "xxx 03.epub"
    ensures Title.SingleSpaced(t) && Title.NoSpaceBeforeExt(t)
  {
    assert forall k :: 0 <= k < |t| && IsSpace(t[k]) ==> k == 3;
    assert t[4..][0] != Ext[0];
  }

  // ---- `format_book_title` on whole titles (lines 146-207).

  /** The kanji and circled-digit steps leave ASCII text without `|`
      unchanged. */
  lemma NumeralsAbsentAscii(u: string)
    requires forall k :: 0 <= k < |u| ==> u[k] as int < 0x80 && u[k] != '|'
    ensures PadKanjiNumber(u) == u && PadCircledAll(u) == u
  {
    KanjiNumeralsHigh();
    PadKanjiNumberAbsent(u);
    CircledAbsentAscii(u);
  }

  /** No `.epub` behind the space that starts `v`. */
  lemma NotExtAhead(v: string)
    requires |v| > 1 && v[0] == ' ' && !IsSpace(v[1]) && v[1] != '.'
    ensures !ExtAhead(v)
  {
    RunExactly(v, IsSpace, 1);
    assert v[1..][0] != Ext[0];
  }

  /** `format_book_title` turns `Title (1) Sub.epub` into
      `Title 01 Sub.epub`: the bracketed number between words is padded
      and keeps a space on each side. */
  lemma BracketSubTitle(title: string)
    requires title == "Title (1) Sub.epub"
    ensures Title.FormatBookTitle(title) == "Title 01 Sub.epub"
  {
    BracketSubTitleSteps(title, "Title 01 Sub.epub");
  }

  lemma BracketSubTitleSteps(title: string, u: string)
    requires title == "Title (1) Sub.epub" && u == "Title 01 Sub.epub"
    ensures Title.FormatBookTitle(title) == u
  {
    BracketSubTitleFacts(title);
    BracketSubTitleNoSpan(title);
    Title.PrepareNoSpan(title);
    BracketSubTitleNumbers(title, u);
    BracketSubTitleDone(u);
    Title.FinishFixed(u);
  }

  lemma BracketSubTitleFacts(title: string)
    requires title == "Title (1) Sub.epub"
    ensures AllChars(title, Title.Clean) && Title.SingleSpaced(title)
    ensures AllChars(title, c => c !in Promotion.openers)
  {
    BracketSubTitleClean(title);
    BracketSubTitleSpaced(title);
    BracketSubTitleNoOpener(title);
  }

  lemma BracketSubTitleClean(title: string)
    requires title == "Title (1) Sub.epub"
    ensures AllChars(title, Title.Clean)
  {
  }

  lemma BracketSubTitleSpaced(title: string)
    requires title == "Title (1) Sub.epub"
    ensures Title.SingleSpaced(title)
  {
  }

  lemma BracketSubTitleNoOpener(title: string)
    requires title == "Title (1) Sub.epub"
    ensures AllChars(title, c => c !in Promotion.openers)
  {
  }

  /** The only bracket of `Title (1) Sub.epub` holds `1`, not an imprint. */
  lemma BracketSubTitleNoSpan(title: string)
    requires title == "Title (1) Sub.epub"
    ensures forall m, i, k :: (0 <= m < i <= k < |title| && title[m] in Imprint.openers && title[k] in Imprint.closers)
                                ==> title[i..k] !in Imprint.tokens
  {
    BracketSubTitleBrackets(title);
    forall m, i, k | 0 <= m < i <= k < |title| && title[m] in Imprint.openers && title[k] in Imprint.closers
      ensures title[i..k] !in Imprint.tokens
    {
      NotImprintDigits(title[i..k]);
    }
  }

  lemma BracketSubTitleBrackets(title: string)
    requires title == "Title (1) Sub.epub"
    ensures forall m :: 0 <= m < |title| && title[m] in Imprint.openers ==> m == 6
    ensures forall k :: 0 <= k < |title| && title[k] in Imprint.closers ==> k == 8
    ensures forall i :: 7 <= i <= 8 ==> AllDigits(title[i..8])
  {
  }


  lemma BracketSubTitleNumbers(title: string, u: string)
    requires title == "Title (1) Sub.epub" && u == "Title 01 Sub.epub"
    ensures Title.NormaliseNumbers(title) == u
  {
    BracketSubTitleShape(title, u);
    BracketSubTitleRound(title, u);
    NumeralsAbsentAscii(u);
    BracketSubTitleTrailing(u);
    NumbersChain(title, u, u, u, u);
  }

  lemma BracketSubTitleRound(title: string, u: string)
    requires title == "Title (1) Sub.epub" && u == "Title 01 Sub.epub"
    ensures PadRoundNumber(title) == u
  {
    BracketSubTitleShape(title, u);
    SpacedBracketShape(title, 5);
  }

  lemma BracketSubTitleShape(text: string, u: string)
    requires text == "Title (1) Sub.epub" && u == "Title 01 Sub.epub"
    ensures 10 < |text| && forall k :: 0 <= k < 5 ==> !IsSpace(text[k]) && text[k] != '('
    ensures text[5] == ' ' && text[6] == '(' && IsDigit(text[7]) && text[8] == ')' && text[9] == ' '
    ensures !IsSpace(text[10]) && forall k :: 10 <= k < |text| ==> text[k] != '('
    ensures text[..5] + [' ', '0', text[7], ' '] + text[10..] == u
    ensures forall k :: 0 <= k < |u| ==> u[k] as int < 0x80 && u[k] != '|'
  {
  }

  /** The digits of `Title 01 Sub.epub` are not right before the
      extension: the digit step leaves it alone. */
  lemma BracketSubTitleTrailing(u: string)
    requires u == "Title 01 Sub.epub"
    ensures PadTrailingNumber(u) == u
  {
    forall j | 0 <= j <= |u| ensures !MatchesAt(DigitsAhead, u, j) {
      if j == 6 || j == 7 {
        BracketSubTitleDigits(u, j);
      } else {
        RunExactly(u[j..], IsDigit, 0);
      }
    }
    SearchNone(DigitsAhead, u);
  }

  lemma BracketSubTitleDigits(u: string, j: nat)
    requires u == "Title 01 Sub.epub" && 6 <= j <= 7
    ensures Match(DigitsAhead, u[j..]).None?
  {
    BracketSubTitleDigitsShape(u, j);
    NotExtAhead(u[8..]);
    DigitsNotAhead(u[j..], 8 - j);
  }

  lemma BracketSubTitleDigitsShape(u: string, j: nat)
    requires u == "Title 01 Sub.epub" && 6 <= j <= 7
    ensures forall k :: 0 <= k < 8 - j ==> IsDigit(u[j..][k])
    ensures !IsDigit(u[j..][8 - j]) && u[j..][8 - j..] == u[8..]
    ensures |u[8..]| > 1 && u[8..][0] == ' ' && !IsSpace(u[8..][1]) && u[8..][1] != '.'
  {
  }

  /** A digit run not followed by the extension is no match of the search
      of line 198. */
  lemma DigitsNotAhead(v: string, d: nat)
    requires d < |v| && (forall k :: 0 <= k < d ==> IsDigit(v[k])) && !IsDigit(v[d])
    requires !ExtAhead(v[d..])
    ensures Match(DigitsAhead, v).None?
  {
    RunExactly(v, IsDigit, d);
  }

  lemma BracketSubTitleDone(t: string)
    requires t == "Title 01 Sub.epub"
    ensures Title.SingleSpaced(t) && Title.NoSpaceBeforeExt(t)
  {
    assert forall k :: 0 <= k < |t| && IsSpace(t[k]) ==> k == 5 || k == 8;
    assert t[6..][0] != Ext[0] && t[9..][0] != Ext[0];
  }

  /** `format_book_title` turns `Title(12).epub` into `Title 12.epub`: the
      bracketed number before the extension loses its brackets and gains a
      space, and the digit step leaves two digits as they are. */
  lemma BracketExtTitle(title: string)
    requires title == "Title(12).epub"
    ensures Title.FormatBookTitle(title) == "Title 12.epub"
  {
    BracketExtTitleSteps(title, "Title 12.epub");
  }

  lemma BracketExtTitleSteps(title: string, u: string)
    requires title == "Title(12).epub" && u == "Title 12.epub"
    ensures Title.FormatBookTitle(title) == u
  {
    BracketExtTitleFacts(title);
    BracketExtTitleNoSpan(title);
    Title.PrepareNoSpan(title);
    BracketExtTitleNumbers(title, u);
    BracketExtTitleDone(u);
    Title.FinishFixed(u);
  }

  lemma BracketExtTitleFacts(title: string)
    requires title == "Title(12).epub"
    ensures AllChars(title, Title.Clean) && Title.SingleSpaced(title)
    ensures AllChars(title, c => c !in Promotion.openers)
  {
    BracketExtTitleClean(title);
    BracketExtTitleSpaced(title);
    BracketExtTitleNoOpener(title);
  }

  lemma BracketExtTitleClean(title: string)
    requires title == "Title(12).epub"
    ensures AllChars(title, Title.Clean)
  {
  }

  lemma BracketExtTitleSpaced(title: string)
    requires title == "Title(12).epub"
    ensures Title.SingleSpaced(title)
  {
  }

  lemma BracketExtTitleNoOpener(title: string)
    requires title == "Title(12).epub"
    ensures AllChars(title, c => c !in Promotion.openers)
  {
  }

  /** The only bracket of `Title(12).epub` holds `12`, not an imprint. */
  lemma BracketExtTitleNoSpan(title: string)
    requires title == "Title(12).epub"
    ensures forall m, i, k :: (0 <= m < i <= k < |title| && title[m] in Imprint.openers && title[k] in Imprint.closers)
                                ==> title[i..k] !in Imprint.tokens
  {
    BracketExtTitleBrackets(title);
    forall m, i, k | 0 <= m < i <= k < |title| && title[m] in Imprint.openers && title[k] in Imprint.closers
      ensures title[i..k] !in Imprint.tokens
    {
      NotImprintDigits(title[i..k]);
    }
  }

  lemma BracketExtTitleBrackets(title: string)
    requires title == "Title(12).epub"
    ensures forall m :: 0 <= m < |title| && title[m] in Imprint.openers ==> m == 5
    ensures forall k :: 0 <= k < |title| && title[k] in Imprint.closers ==> k == 8
    ensures forall i :: 6 <= i <= 8 ==> AllDigits(title[i..8])
  {
  }

  /** Digits alone, or nothing, are no imprint token. */
  lemma NotImprintDigits(w: string)
    requires AllDigits(w)
    ensures w !in Imprint.tokens
  {
    ImprintTokensStart();
  }

  lemma ImprintTokensStart()
    ensures forall i :: 0 <= i < |Imprint.tokens| ==> Imprint.tokens[i] != [] && !IsDigit(Imprint.tokens[i][0])
  {
  }

  lemma BracketExtTitleNumbers(title: string, u: string)
    requires title == "Title(12).epub" && u == "Title 12.epub"
    ensures Title.NormaliseNumbers(title) == u
  {
    BracketExtTitleShape(title, u, "12");
    BracketExtTitleRound(title, u, "12");
    NumeralsAbsentAscii(u);
    BracketExtTitleTrailing(u, "12");
    NumbersChain(title, u, u, u, u);
  }

  lemma BracketExtTitleRound(title: string, u: string, g: string)
    requires title == "Title(12).epub" && u == "Title 12.epub" && g == "12"
    ensures PadRoundNumber(title) == u
  {
    BracketExtTitleShape(title, u, g);
    BracketBeforeExtShape(title, 5, 0, g);
    TwoDigitCanonical(g);
  }

  lemma BracketExtTitleShape(text: string, u: string, g: string)
    requires text == "Title(12).epub" && u == "Title 12.epub" && g == "12"
    ensures g != [] && AllDigits(g) && |g| >= 2 && g[0] != '0' && |text| == 5 + 0 + |g| + 2 + |Ext|
    ensures forall k :: 0 <= k < 5 ==> !IsSpace(text[k]) && text[k] != '('
    ensures text[5] == '(' && text[6..6 + |g|] == g && text[6 + |g|] == ')' && text[5 + |g| + 2..] == Ext
    ensures text[..5] + (" " + g) + text[5 + |g| + 2..] == u
    ensures forall k :: 0 <= k < |u| ==> u[k] as int < 0x80 && u[k] != '|'
  {
  }

  /** Two digits before the extension stay as they are. */
  lemma BracketExtTitleTrailing(u: string, g: string)
    requires u == "Title 12.epub" && g == "12"
    ensures PadTrailingNumber(u) == u
  {
    BracketExtTitleGlued(u, g);
    SpacedNumberShape(u, 5, g, 0);
    TwoDigitCanonical(g);
  }

  lemma BracketExtTitleGlued(u: string, g: string)
    requires u == "Title 12.epub" && g == "12"
    ensures g != [] && AllDigits(g) && |g| >= 2 && g[0] != '0' && |u| == 5 + 1 + |g| + 0 + |Ext|
    ensures forall k :: 0 <= k < 5 ==> !IsSpace(u[k]) && !IsDigit(u[k])
    ensures u[5] == ' ' && u[6..6 + |g|] == g && u[6 + |g| + 0..] == Ext
    ensures u[..5] + (" " + g) + u[6 + |g| + 0..] == u
  {
  }

  lemma BracketExtTitleDone(t: string)
    requires t == "Title 12.epub"
    ensures Title.SingleSpaced(t) && Title.NoSpaceBeforeExt(t)
  {
    assert forall k :: 0 <= k < |t| && IsSpace(t[k]) ==> k == 5;
    assert t[6..][0] != Ext[0];
  }

  /** `format_book_title` turns `Title①.epub` into `Title 01.epub`: the
      circled-digit step writes ` 01 `, and the digit step glues it to the
      extension. */
  lemma CircledTitle(title: string)
    requires title == "Title①.epub"
    ensures Title.FormatBookTitle(title) == "Title 01.epub"
  {
    CircledTitleSteps(title, "Title 01 .epub", "Title 01.epub");
  }

  lemma CircledTitleSteps(title: string, v: string, u: string)
    requires title == "Title①.epub" && v == "Title 01 .epub" && u == "Title 01.epub"
    ensures Title.FormatBookTitle(title) == u
  {
    CircledTitleFacts(title);
    Title.PrepareFixed(title);
    CircledTitleNumbers(title, v, u);
    CircledTitleDone(u);
    Title.FinishFixed(u);
  }

  lemma CircledTitleFacts(title: string)
    requires title == "Title①.epub"
    ensures AllChars(title, Title.Clean) && Title.SingleSpaced(title)
    ensures AllChars(title, c => c !in Promotion.openers && c !in Imprint.openers)
  {
    CircledTitleClean(title);
    CircledTitleSpaced(title);
    CircledTitleNoOpener(title);
  }

  lemma CircledTitleClean(title: string)
    requires title == "Title①.epub"
    ensures AllChars(title, Title.Clean)
  {
  }

  lemma CircledTitleSpaced(title: string)
    requires title == "Title①.epub"
    ensures Title.SingleSpaced(title)
  {
  }

  lemma CircledTitleNoOpener(title: string)
    requires title == "Title①.epub"
    ensures AllChars(title, c => c !in Promotion.openers && c !in Imprint.openers)
  {
  }

  lemma CircledTitleNumbers(title: string, v: string, u: string)
    requires title == "Title①.epub" && v == "Title 01 .epub" && u == "Title 01.epub"
    ensures Title.NormaliseNumbers(title) == u
  {
    CircledTitleRound(title);
    CircledTitleKanji(title);
    CircledTitleCircled(title, v);
    CircledTitleTrailing(v, u, "01");
    NumbersChain(title, title, title, v, u);
  }

  lemma CircledTitleRound(title: string)
    requires title == "Title①.epub"
    ensures PadRoundNumber(title) == title
  {
    assert forall k :: 0 <= k < |title| ==> title[k] != '(';
    PadRoundNumberWithoutBracket(title);
  }

  lemma CircledTitleKanji(title: string)
    requires title == "Title①.epub"
    ensures PadKanjiNumber(title) == title
  {
    KanjiNumeralsHigh();
    assert forall k :: 0 <= k < |title| ==> title[k] as int < 0x4E00 && title[k] != '|';
    PadKanjiNumberAbsent(title);
  }

  lemma CircledTitleCircled(title: string, v: string)
    requires title == "Title①.epub" && v == "Title 01 .epub"
    ensures PadCircledAll(title) == v
  {
    CircledTitleShape(title, v);
    CircledBeforeExtAll(title, 5, v);
  }

  lemma CircledTitleShape(text: string, v: string)
    requires text == "Title①.epub" && v == "Title 01 .epub"
    ensures WellOffset(Families[0]) && |text| == 5 + 1 + |Ext|
    ensures forall k :: 0 <= k < 5 ==> !IsSpace(text[k]) && !InClass(Circled(Families[0].first), text[k])
    ensures InClass(Circled(Families[0].first), text[5]) && text[6..] == Ext
    ensures text[..5] + (" 0" + [DigitChar(1 + text[5] as int - Families[0].first as int)] + " ") + text[6..] == v
    ensures forall k :: 0 <= k < |v| ==> v[k] as int < 0x80
  {
    assert DigitChar(1) == '1';
  }

  /** A circled digit of family `f` right before the extension, after a
      prefix without whitespace or digit of the family, is replaced by
      ` 0d `. */
  lemma CircledBeforeExtShape(f: Family, text: string, i: nat)
    requires WellOffset(f) && |text| == i + 1 + |Ext|
    requires forall k :: 0 <= k < i ==> !IsSpace(text[k]) && !InClass(Circled(f.first), text[k])
    requires InClass(Circled(f.first), text[i]) && text[i + 1..] == Ext
    ensures PadCircled(f, text) == text[..i] + (" 0" + [DigitChar(1 + text[i] as int - f.first as int)] + " ") + text[i + 1..]
  {
    PadCircledFirst(f, text, i);
    CircledOnce(f, text, i, " 0" + [DigitChar(1 + text[i] as int - f.first as int)] + " ");
  }

  lemma CircledOnce(f: Family, text: string, i: nat, repl: string)
    requires WellOffset(f) && |text| == i + 1 + |Ext|
    requires forall k :: 0 <= k < i ==> !IsSpace(text[k]) && !InClass(Circled(f.first), text[k])
    requires InClass(Circled(f.first), text[i]) && text[i + 1..] == Ext
    ensures Sub(Numeral(Circled(f.first)), text, repl) == text[..i] + repl + text[i + 1..]
  {
    forall k | 0 <= k < i ensures !MatchesAt(Numeral(Circled(f.first)), text, k) {
      NumeralNeedsStart(Circled(f.first), text[k..]);
    }
    CircledMatch(f, text[i..]);
    CircledNotAfter(f, text[i + 1..]);
    SubOnce(Numeral(Circled(f.first)), text, i, Hit(1, [text[i]]), repl);
  }

  /** `d.epub`, with `d` a circled digit, starts with a match of `d`. */
  lemma CircledMatch(f: Family, t: string)
    requires WellOffset(f) && |t| == 1 + |Ext| && InClass(Circled(f.first), t[0]) && t[1..] == Ext
    ensures Match(Numeral(Circled(f.first)), t) == Some(Hit(1, [t[0]]))
  {
    CircledSpaceFree(f);
    RunExactly(t, IsSpace, 0);
    assert t[1..][0] == '.';
    RunExactly(t[1..], IsSpace, 0);
  }

  lemma CircledNotAfter(f: Family, e: string)
    requires WellOffset(f) && e == Ext
    ensures NoMatch(Numeral(Circled(f.first)), e)
  {
    CircledSpaceFree(f);
    NumeralAbsent(Circled(f.first), e);
  }

  /** A digit of the first circled family right before the extension, in
      otherwise ASCII text, is the only one the circled-digit steps see. */
  lemma CircledBeforeExtAll(text: string, i: nat, v: string)
    requires WellOffset(Families[0]) && |text| == i + 1 + |Ext|
    requires forall k :: 0 <= k < i ==> !IsSpace(text[k]) && !InClass(Circled(Families[0].first), text[k])
    requires InClass(Circled(Families[0].first), text[i]) && text[i + 1..] == Ext
    requires text[..i] + (" 0" + [DigitChar(1 + text[i] as int - Families[0].first as int)] + " ") + text[i + 1..] == v
    requires forall k :: 0 <= k < |v| ==> v[k] as int < 0x80
    ensures PadCircledAll(text) == v
  {
    CircledBeforeExtShape(Families[0], text, i);
    CircledChain(text, v);
  }

  /** After the first family, the other three find nothing in ASCII text. */
  lemma CircledChain(text: string, u: string)
    requires WellOffset(Families[0]) && PadCircled(Families[0], text) == u
    requires forall k :: 0 <= k < |u| ==> u[k] as int < 0x80
    ensures PadCircledAll(text) == u
  {
    assert forall i :: 0 <= i < |Families| ==> WellOffset(Families[i]);
    PadCircledAbsent(Families[1], u);
    PadCircledAbsent(Families[2], u);
    PadCircledAbsent(Families[3], u);
  }

  /** ` 01 ` before the extension is glued to it. */
  lemma CircledTitleTrailing(v: string, u: string, g: string)
    requires v == "Title 01 .epub" && u == "Title 01.epub" && g == "01"
    ensures PadTrailingNumber(v) == u
  {
    CircledTitleGlued(v, u, g);
    SpacedNumberShape(v, 5, g, 1);
    TwoDigitLeadingZeros(g, 1);
    TwoDigitSingle(g[1]);
  }

  lemma CircledTitleGlued(v: string, u: string, g: string)
    requires v == "Title 01 .epub" && u == "Title 01.epub" && g == "01"
    ensures g != [] && AllDigits(g) && |g| == 2 && g[0] == '0' && g[1..] == [g[1]] && |v| == 5 + 1 + |g| + 1 + |Ext|
    ensures forall k :: 0 <= k < 5 ==> !IsSpace(v[k]) && !IsDigit(v[k])
    ensures v[5] == ' ' && v[6..6 + |g|] == g && v[6 + |g|] == ' ' && v[6 + |g| + 1..] == Ext
    ensures v[..5] + (" " + ['0', g[1]]) + v[6 + |g| + 1..] == u
  {
  }

  lemma CircledTitleDone(t: string)
    requires t == "Title 01.epub"
    ensures Title.SingleSpaced(t) && Title.NoSpaceBeforeExt(t)
  {
    assert forall k :: 0 <= k < |t| && IsSpace(t[k]) ==> k == 5;
    assert t[6..][0] != Ext[0];
  }
}
