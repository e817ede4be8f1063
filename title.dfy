/** `format_book_author` and `format_book_title` of src/epub_info.py
    (lines 130-207), and the rename command printed at line 329. */
module Title {
  import opened Chars
  import opened Rewriters
  import opened Regex
  import opened Numbering
  import opened Annotations

  /** `format_book_author` (lines 130-143). */
  function FormatBookAuthor(author: string): (r: string)
    ensures |r| == |author|
    ensures forall k :: 0 <= k < |author| ==> r[k] == ToFullwidthSymbol(ToHalfwidthAlnum(author[k]))
    ensures forall k :: 0 <= k < |r| ==> !IsFullwidthAlnum(r[k]) && !IsUnsafeSymbol(r[k])
  {
    var t := ReplaceFullwidthAlnum(author);
    UnsafeSymbolsKeepHalfwidth(t);
    ReplaceUnsafeSymbols(t)
  }

  /** Line 167: `re.sub(r'[：:]', ' ', …)`. */
  function ReplaceColons(text: string): (r: string)
    ensures |r| == |text|
    ensures forall k :: 0 <= k < |text| ==> r[k] == if text[k] in {'：', ':'} then ' ' else text[k]
  {
    Translate(text, c => if c in {'：', ':'} then ' ' else c)
  }

  /** Lines 168 and 204: every whitespace run becomes one space. */
  function CollapseSpaces(text: string): (r: string) {
    Sub(Spaces, text, " ")
  }

  /** Line 205: whitespace right before `.epub` is removed. */
  function StripSpaceBeforeExt(text: string): (r: string) {
    Sub(SpacesBeforeExt, text, "")
  }

  /** Lines 165-166: promotional and imprint annotations are removed. */
  function StripAnnotations(text: string): (r: string) {
    Sub(Bracketed(Imprint), Sub(Bracketed(Promotion), text, ""), "")
  }

  /** Lines 171-201: the numbering steps, in order. */
  function NormaliseNumbers(text: string): (r: string) {
    PadTrailingNumber(PadCircledAll(PadKanjiNumber(PadRoundNumber(text))))
  }

  /** Lines 159-161: the three character rewriters, in order. */
  function RewriteChars(title: string): (r: string)
    ensures forall k :: 0 <= k < |r| ==> Halfwidth(r[k])
  {
    var t := ReplaceFullwidthAlnum(title);
    UnsafeSymbolsKeepHalfwidth(t);
    var u := ReplaceUnsafeSymbols(t);
    BracketsKeepSafe(u);
    ReplaceFullwidthBrackets(u)
  }

  /** `format_book_title` (lines 146-207). */
  function FormatBookTitle(title: string): (r: string) {
    Finish(NormaliseNumbers(Prepare(title)))
  }

  /** Lines 159-168: the character rewriters, the annotation removal, the
      colons and the first whitespace collapse. */
  function Prepare(title: string): (r: string) {
    CollapseSpaces(ReplaceColons(StripAnnotations(RewriteChars(title))))
  }

  /** Lines 204-205: the final whitespace clean-up. */
  function Finish(text: string): (r: string) {
    StripSpaceBeforeExt(CollapseSpaces(text))
  }

  /** The command of line 329, before its cp932 round trip. */
  function RenameCommand(showGenre: bool, genre: string, fileName: string, author: string, title: string): (r: string) {
    (if showGenre then "Genre: " + genre + " " else "")
    + "rename \"" + fileName + "\" \"" + RenameTarget(author, title) + "\""
  }

  /** The new file name: the normalised author in square brackets, then the
      normalised title with the extension. */
  function RenameTarget(author: string, title: string): (r: string) {
    "[" + FormatBookAuthor(author) + "]" + FormatBookTitle(title + Ext)
  }

  // ---- What a normalised title is made of.

  /** No full-width letter or digit, no unsafe symbol, no full-width
      bracket: what the three rewriters guarantee. */
  predicate Halfwidth(c: char) {
    !IsFullwidthAlnum(c) && !IsUnsafeSymbol(c) && !IsFullwidthBracket(c)
  }

  /** `Halfwidth`, and no full-width colon either. */
  predicate Clean(c: char) {
    Halfwidth(c) && c != '：'
  }

  /** Not in the kanji class, nor in the first `n` circled-digit families. */
  predicate Cleared(n: nat, c: char) {
    !InClass(Kanji, c) && forall i :: 0 <= i < n && i < |Families| ==> !InClass(Circled(Families[i].first), c)
  }

  /** No numeral of the numbering steps: no kanji numeral and no circled
      digit of the four families. */
  predicate NotNumeral(c: char) {
    Cleared(|Families|, c)
  }

  /** Whitespace is single ASCII spaces, never two in a row. */
  predicate SingleSpaced(s: string) {
    forall k :: 0 <= k < |s| && IsSpace(s[k]) ==> s[k] == ' ' && (k + 1 < |s| ==> !IsSpace(s[k + 1]))
  }

  /** No whitespace directly before `.epub`. */
  predicate NoSpaceBeforeExt(s: string) {
    forall k :: 0 <= k < |s| && IsSpace(s[k]) ==> !StartsWith(s[k + 1..], Ext)
  }

  // ---- Whitespace: lines 168, 204 and 205.

  lemma CollapseSpacesHead(t: string)
    requires t != [] && !IsSpace(t[0])
    ensures CollapseSpaces(t) == [t[0]] + CollapseSpaces(t[1..])
  {
  }

  /** After collapsing, whitespace is single ASCII spaces. */
  lemma {:induction false} CollapseSpacesSingle(s: string)
    ensures SingleSpaced(CollapseSpaces(s))
    decreases |s|
  {
    if s != [] {
      if IsSpace(s[0]) {
        var n := Run(s, IsSpace);
        var rest := s[n..];
        CollapseSpacesSingle(rest);
        var r := CollapseSpaces(s);
        assert r == " " + CollapseSpaces(rest);
        if rest != [] {
          CollapseSpacesHead(rest);
        }
        forall k | 0 <= k < |r| && IsSpace(r[k])
          ensures r[k] == ' ' && (k + 1 < |r| ==> !IsSpace(r[k + 1]))
        {
          if k > 0 {
            assert r[k] == CollapseSpaces(rest)[k - 1];
          }
        }
      } else {
        CollapseSpacesHead(s);
        CollapseSpacesSingle(s[1..]);
        var r := CollapseSpaces(s);
        forall k | 0 <= k < |r| && IsSpace(r[k])
          ensures r[k] == ' ' && (k + 1 < |r| ==> !IsSpace(r[k + 1]))
        {
          assert r[k] == CollapseSpaces(s[1..])[k - 1];
        }
      }
    }
  }

  lemma StripSpaceBeforeExtHead(t: string)
    requires t != [] && !IsSpace(t[0])
    ensures StripSpaceBeforeExt(t) == [t[0]] + StripSpaceBeforeExt(t[1..])
  {
  }

  /** Where whitespace before `.epub` is removed, the result goes on with
      the `.` of `.epub`. */
  lemma StripSpaceBeforeExtDot(t: string)
    requires Match(SpacesBeforeExt, t).Some?
    ensures var r := StripSpaceBeforeExt(t); r != [] && r[0] == '.'
  {
    var rest := t[Match(SpacesBeforeExt, t).value.len..];
    assert StartsWith(rest, Ext);
    StripSpaceBeforeExtHead(rest);
  }

  /** The removal only deletes whitespace that a `.` follows, so a prefix of
      the result free of whitespace and of `.` was already a prefix of the
      text. */
  lemma {:induction false} StripSpaceBeforeExtPrefix(t: string, w: string)
    requires forall k :: 0 <= k < |w| ==> !IsSpace(w[k]) && w[k] != '.'
    requires StartsWith(StripSpaceBeforeExt(t), w)
    ensures StartsWith(t, w)
    decreases |t|
  {
    if w != [] {
      assert t != [];
      if Match(SpacesBeforeExt, t).Some? {
        StripSpaceBeforeExtDot(t);
        assert false;
      } else {
        var r := StripSpaceBeforeExt(t);
        assert r == [t[0]] + StripSpaceBeforeExt(t[1..]);
        assert StripSpaceBeforeExt(t[1..])[..|w| - 1] == r[1..|w|];
        StripSpaceBeforeExtPrefix(t[1..], w[1..]);
        assert t[..|w|] == [t[0]] + t[1..][..|w| - 1];
      }
    }
  }

  lemma SingleSpacedTail(s: string)
    requires s != [] && SingleSpaced(s)
    ensures SingleSpaced(s[1..])
  {
    forall k | 0 <= k < |s[1..]| && IsSpace(s[1..][k])
      ensures s[1..][k] == ' ' && (k + 1 < |s[1..]| ==> !IsSpace(s[1..][k + 1]))
    {
      assert s[1..][k] == s[k + 1];
    }
  }

  /** A kept space is followed neither by whitespace nor by `.epub`. */
  lemma StripAfterKeptSpace(s: string)
    requires SingleSpaced(s) && |s| >= 2 && IsSpace(s[0]) && !StartsWith(s[1..], Ext)
    ensures var r1 := StripSpaceBeforeExt(s[1..]); !IsSpace(r1[0]) && !StartsWith(r1, Ext)
  {
    var r1 := StripSpaceBeforeExt(s[1..]);
    assert !IsSpace(s[1]);
    StripSpaceBeforeExtHead(s[1..]);
    var r2 := StripSpaceBeforeExt(s[2..]);
    assert s[1..][1..] == s[2..];
    assert r1 == [s[1]] + r2;
    if StartsWith(r1, Ext) {
      assert StartsWith(r2, "epub") by {
        assert r2[..4] == r1[1..5];
      }
      StripSpaceBeforeExtPrefix(s[2..], "epub");
      assert false;
    }
  }

  /** On single-spaced text the removal keeps it single-spaced and leaves no
      whitespace before `.epub`. */
  lemma {:induction false} StripSpaceBeforeExtCanonical(s: string)
    requires SingleSpaced(s)
    ensures SingleSpaced(StripSpaceBeforeExt(s)) && NoSpaceBeforeExt(StripSpaceBeforeExt(s))
    decreases |s|
  {
    if s != [] {
      var r := StripSpaceBeforeExt(s);
      SingleSpacedTail(s);
      StripSpaceBeforeExtCanonical(s[1..]);
      var r1 := StripSpaceBeforeExt(s[1..]);
      if Match(SpacesBeforeExt, s).Some? {
        assert r == r1;
      } else {
        assert r == [s[0]] + r1;
        if IsSpace(s[0]) && |s| >= 2 {
          StripAfterKeptSpace(s);
        }
        forall k | 0 <= k < |r| && IsSpace(r[k])
          ensures r[k] == ' ' && (k + 1 < |r| ==> !IsSpace(r[k + 1])) && !StartsWith(r[k + 1..], Ext)
        {
          assert r[k + 1..] == r1[k..];
          if k > 0 {
            assert r[k] == r1[k - 1];
          }
        }
      }
    }
  }

  // ---- Numbering: lines 171-201.

  lemma CleanWritable()
    ensures Writable(Clean)
  {
  }

  lemma ClearedWritable(n: nat)
    ensures Writable(c => Cleared(n, c))
  {
    forall c | c as int < 0x80 && c != '|' ensures Cleared(n, c) {
      AsciiCleared(n, c);
    }
  }

  /** No ASCII character but `|` is a numeral. */
  lemma AsciiCleared(n: nat, c: char)
    requires c as int < 0x80 && c != '|'
    ensures Cleared(n, c)
  {
    KanjiNumeralsHigh();
    assert forall i :: 0 <= i < |Families| ==> Families[i].first as int >= 0x2460;
  }

  /** One circled-digit step clears its family and keeps the earlier ones
      cleared. */
  lemma PadCircledClears(n: nat, text: string)
    requires n < |Families| && AllChars(text, c => Cleared(n, c))
    ensures AllChars(PadCircled(Families[n], text), c => Cleared(n + 1, c))
  {
    var f := Families[n];
    assert WellOffset(f);
    ClearedWritable(n);
    PadCircledKeeps(f, text, c => Cleared(n, c));
    PadCircledRemovesAll(f, text);
  }

  /** The circled-digit steps keep what every numbering step keeps. */
  lemma PadCircledAllKeeps(text: string, P: char -> bool)
    requires Writable(P) && AllChars(text, P)
    ensures AllChars(PadCircledAll(text), P)
  {
    assert forall i :: 0 <= i < |Families| ==> WellOffset(Families[i]);
    PadCircledKeeps(Families[0], text, P);
    var c0 := PadCircled(Families[0], text);
    PadCircledKeeps(Families[1], c0, P);
    var c1 := PadCircled(Families[1], c0);
    PadCircledKeeps(Families[2], c1, P);
    var c2 := PadCircled(Families[2], c1);
    PadCircledKeeps(Families[3], c2, P);
  }

  /** The circled-digit steps clear all four families. */
  lemma PadCircledAllClears(text: string)
    requires AllChars(text, c => Cleared(0, c))
    ensures AllChars(PadCircledAll(text), NotNumeral)
  {
    PadCircledClears(0, text);
    var c0 := PadCircled(Families[0], text);
    PadCircledClears(1, c0);
    var c1 := PadCircled(Families[1], c0);
    PadCircledClears(2, c1);
    var c2 := PadCircled(Families[2], c1);
    PadCircledClears(3, c2);
  }

  /** The numbering steps write only spaces, digits and `None`, so they keep
      any property those characters have. */
  lemma NormaliseNumbersKeeps(text: string, P: char -> bool)
    requires Writable(P) && AllChars(text, P)
    ensures AllChars(NormaliseNumbers(text), P)
  {
    PadRoundNumberKeeps(text, P);
    PadKanjiNumberKeeps(PadRoundNumber(text), P);
    PadCircledAllKeeps(PadKanjiNumber(PadRoundNumber(text)), P);
    PadTrailingNumberKeeps(PadCircledAll(PadKanjiNumber(PadRoundNumber(text))), P);
  }

  /** After the numbering steps no kanji numeral and no circled digit is
      left. */
  lemma NormaliseNumbersClears(text: string)
    ensures AllChars(NormaliseNumbers(text), NotNumeral)
  {
    var b := PadKanjiNumber(PadRoundNumber(text));
    PadKanjiNumberRemovesAll(PadRoundNumber(text));
    assert AllChars(b, c => Cleared(0, c));
    PadCircledAllClears(b);
    ClearedWritable(|Families|);
    PadTrailingNumberKeeps(PadCircledAll(b), NotNumeral);
  }

  // ---- The whole of `format_book_title`.

  lemma StripAnnotationsKeeps(t: string, P: char -> bool)
    requires AllChars(t, P)
    ensures AllChars(StripAnnotations(t), P)
  {
    SubKeeps(Bracketed(Promotion), t, "", P);
    SubKeeps(Bracketed(Imprint), Sub(Bracketed(Promotion), t, ""), "", P);
  }

  lemma CollapseSpacesKeeps(t: string, P: char -> bool)
    requires AllChars(t, P) && P(' ')
    ensures AllChars(CollapseSpaces(t), P)
  {
    SubKeeps(Spaces, t, " ", P);
  }

  lemma StripSpaceBeforeExtKeeps(t: string, P: char -> bool)
    requires AllChars(t, P)
    ensures AllChars(StripSpaceBeforeExt(t), P)
  {
    SubKeeps(SpacesBeforeExt, t, "", P);
  }

  /** Line 167 removes the colons the symbol rewriter made full-width. */
  lemma ReplaceColonsClean(t: string)
    requires AllChars(t, Halfwidth)
    ensures AllChars(ReplaceColons(t), Clean)
  {
  }

  /** Lines 159-168: after the rewriters, the annotation removal, the colon
      replacement and the first collapse every character is `Clean`. */
  lemma PrepareClean(title: string)
    ensures AllChars(Prepare(title), Clean)
  {
    StripAnnotationsKeeps(RewriteChars(title), Halfwidth);
    ReplaceColonsClean(StripAnnotations(RewriteChars(title)));
    CollapseSpacesKeeps(ReplaceColons(StripAnnotations(RewriteChars(title))), Clean);
  }

  /** The final clean-up writes only spaces. */
  lemma FinishKeeps(text: string, P: char -> bool)
    requires AllChars(text, P) && P(' ')
    ensures AllChars(Finish(text), P)
  {
    CollapseSpacesKeeps(text, P);
    StripSpaceBeforeExtKeeps(CollapseSpaces(text), P);
  }

  /** The final clean-up brings back no numeral. */
  lemma FinishClears(text: string)
    requires AllChars(text, NotNumeral)
    ensures AllChars(Finish(text), NotNumeral)
  {
    FinishKeeps(text, NotNumeral);
  }

  /** After the final clean-up whitespace is single ASCII spaces, and none
      is left before `.epub`. */
  lemma FinishCanonical(text: string)
    ensures SingleSpaced(Finish(text)) && NoSpaceBeforeExt(Finish(text))
  {
    CollapseSpacesSingle(text);
    StripSpaceBeforeExtCanonical(CollapseSpaces(text));
  }

  /** The collapse leaves single-spaced text unchanged. */
  lemma {:induction false} CollapseSpacesFixed(s: string)
    requires SingleSpaced(s)
    ensures CollapseSpaces(s) == s
    decreases |s|
  {
    if s != [] {
      SingleSpacedTail(s);
      CollapseSpacesFixed(s[1..]);
      if IsSpace(s[0]) {
        SingleSpaceMatch(s);
        SubReplaces(Spaces, s, " ", Hit(1, ""));
        assert s == " " + s[1..];
      } else {
        CollapseSpacesHead(s);
        assert s == [s[0]] + s[1..];
      }
    }
  }

  /** A single space matches `\s+` alone. */
  lemma SingleSpaceMatch(s: string)
    requires s != [] && IsSpace(s[0]) && SingleSpaced(s)
    ensures s[0] == ' ' && Match(Spaces, s) == Some(Hit(1, ""))
  {
    assert 1 < |s| ==> !IsSpace(s[1]);
  }

  /** The removal leaves text without whitespace before `.epub` unchanged. */
  lemma StripSpaceBeforeExtFixed(s: string)
    requires NoSpaceBeforeExt(s)
    ensures StripSpaceBeforeExt(s) == s
  {
    forall k | 0 <= k < |s| ensures !MatchesAt(SpacesBeforeExt, s, k) {
      SpacesBeforeExtNone(s, k);
    }
    SubNoMatch(SpacesBeforeExt, s, "");
  }

  lemma SpacesBeforeExtNone(s: string, k: nat)
    requires k < |s| && NoSpaceBeforeExt(s)
    ensures !MatchesAt(SpacesBeforeExt, s, k)
  {
    var t := s[k..];
    var n := Run(t, IsSpace);
    if n > 0 {
      assert s[k + n - 1] == t[n - 1];
      assert s[k + n..] == t[n..];
    }
  }

  /** The final clean-up leaves canonical text unchanged. */
  lemma FinishFixed(text: string)
    requires SingleSpaced(text) && NoSpaceBeforeExt(text)
    ensures Finish(text) == text
  {
    CollapseSpacesFixed(text);
    StripSpaceBeforeExtFixed(text);
  }

  /** The final clean-up is idempotent: its result is already canonical. */
  lemma FinishIdempotent(text: string)
    ensures Finish(Finish(text)) == Finish(text)
  {
    FinishCanonical(text);
    FinishFixed(Finish(text));
  }

  /** The three rewriters leave half-width text unchanged. */
  lemma RewriteCharsFixed(title: string)
    requires AllChars(title, Halfwidth)
    ensures RewriteChars(title) == title
  {
    var t := ReplaceFullwidthAlnum(title);
    assert t == title;
    var u := ReplaceUnsafeSymbols(t);
    assert u == title;
    assert ReplaceFullwidthBrackets(u) == title;
  }

  /** Lines 159-168 leave unchanged a clean, single-spaced title without an
      annotation opener. */
  lemma PrepareFixed(title: string)
    requires AllChars(title, Clean) && SingleSpaced(title)
    requires AllChars(title, c => c !in Promotion.openers && c !in Imprint.openers)
    ensures Prepare(title) == title
  {
    RewriteCharsFixed(title);
    NoOpenerUnchanged(Promotion, title);
    NoOpenerUnchanged(Imprint, title);
    assert ReplaceColons(title) == title;
    CollapseSpacesFixed(title);
  }

  /** The circled-digit steps leave text without a circled digit unchanged. */
  lemma PadCircledAllAbsent(text: string)
    requires AllChars(text, NotNumeral)
    ensures PadCircledAll(text) == text
  {
    forall i | 0 <= i < |Families|
      ensures WellOffset(Families[i])
      ensures forall j :: 0 <= j < |text| ==> !InClass(Circled(Families[i].first), text[j])
    {
    }
    PadCircledAbsent(Families[0], text);
    PadCircledAbsent(Families[1], text);
    PadCircledAbsent(Families[2], text);
    PadCircledAbsent(Families[3], text);
  }

  /** Lines 171-201 leave unchanged a text without `(`, without a numeral
      and without an ASCII digit. */
  lemma NormaliseNumbersFixed(text: string)
    requires forall k :: 0 <= k < |text| ==> text[k] != '(' && !IsDigit(text[k])
    requires AllChars(text, NotNumeral)
    ensures NormaliseNumbers(text) == text
  {
    PadRoundNumberWithoutBracket(text);
    PadKanjiNumberAbsent(text);
    PadCircledAllAbsent(text);
    PadTrailingNumberAbsent(text);
  }

  /** The stable point of `format_book_title`: a title already in the form
      it produces (clean, single-spaced, nothing before `.epub`), with no
      annotation opener, no numeral and no ASCII digit, comes back
      unchanged. */
  lemma FormatBookTitleFixed(title: string)
    requires AllChars(title, Clean) && SingleSpaced(title) && NoSpaceBeforeExt(title)
    requires AllChars(title, c => c !in Promotion.openers && c !in Imprint.openers)
    requires AllChars(title, NotNumeral) && forall k :: 0 <= k < |title| ==> !IsDigit(title[k])
    ensures FormatBookTitle(title) == title
  {
    PrepareFixed(title);
    assert forall k :: 0 <= k < |title| ==> title[k] != '(' by {
      assert '(' in Imprint.openers;
    }
    NormaliseNumbersFixed(title);
    FinishFixed(title);
  }

  /** On such a title, running `format_book_title` twice gives what running
      it once gives. */
  lemma FormatBookTitleStable(title: string)
    requires AllChars(title, Clean) && SingleSpaced(title) && NoSpaceBeforeExt(title)
    requires AllChars(title, c => c !in Promotion.openers && c !in Imprint.openers)
    requires AllChars(title, NotNumeral) && forall k :: 0 <= k < |title| ==> !IsDigit(title[k])
    ensures FormatBookTitle(FormatBookTitle(title)) == FormatBookTitle(title)
  {
    FormatBookTitleFixed(title);
  }

  /** The empty title stays empty. */
  lemma FormatBookTitleEmpty()
    ensures FormatBookTitle("") == ""
  {
    FormatBookTitleFixed("");
  }

  /** Lines 159-168 leave unchanged a clean, single-spaced title without a
      promotional opener whose imprint openers start no span: no stretch
      after one of them and up to a closer is a listed imprint. */
  lemma PrepareNoSpan(title: string)
    requires AllChars(title, Clean) && SingleSpaced(title)
    requires AllChars(title, c => c !in Promotion.openers)
    requires forall m, i, k :: (0 <= m < i <= k < |title| && title[m] in Imprint.openers && title[k] in Imprint.closers)
                                 ==> title[i..k] !in Imprint.tokens
    ensures Prepare(title) == title
  {
    RewriteCharsFixed(title);
    NoOpenerUnchanged(Promotion, title);
    NoSpanUnchanged(Imprint, title);
    assert ReplaceColons(title) == title;
    CollapseSpacesFixed(title);
  }

  /** What `format_book_title` produces: no full-width letter, digit or
      bracket, no character unsafe in a file name, no full-width colon, no
      kanji or circled numeral; whitespace is single ASCII spaces, and none
      is left before `.epub`. */
  lemma FormatBookTitleNormal(title: string)
    ensures AllChars(FormatBookTitle(title), Clean) && AllChars(FormatBookTitle(title), NotNumeral)
    ensures SingleSpaced(FormatBookTitle(title)) && NoSpaceBeforeExt(FormatBookTitle(title))
  {
    var n := NormaliseNumbers(Prepare(title));
    PrepareClean(title);
    CleanWritable();
    NormaliseNumbersKeeps(Prepare(title), Clean);
    NormaliseNumbersClears(Prepare(title));
    FinishKeeps(n, Clean);
    FinishClears(n);
    FinishCanonical(n);
  }

  /** Square brackets around an author and a title free of unsafe
      characters give a name free of them. */
  lemma BracketedNameSafe(a: string, t: string)
    requires AllChars(a, c => !IsUnsafeSymbol(c)) && AllChars(t, Clean)
    ensures AllChars("[" + a + "]" + t, c => !IsUnsafeSymbol(c))
  {
    var target := "[" + a + "]" + t;
    forall k | 0 <= k < |target| ensures !IsUnsafeSymbol(target[k]) {
      if 0 < k <= |a| {
        assert target[k] == a[k - 1];
      } else if |a| + 1 < k {
        assert target[k] == t[k - |a| - 2];
      }
    }
  }

  /** The new name in the rename command holds no character unsafe in a
      file name, so in particular no `"` can end its quotation early. */
  lemma RenameTargetSafe(author: string, title: string)
    ensures AllChars(RenameTarget(author, title), c => !IsUnsafeSymbol(c))
  {
    FormatBookTitleNormal(title + Ext);
    BracketedNameSafe(FormatBookAuthor(author), FormatBookTitle(title + Ext));
  }

  /** The printed command starts with the genre exactly when it is asked
      for, and its last quoted field is the new name, which no `"` inside
      can cut short. */
  lemma RenameCommandLastField(showGenre: bool, genre: string, fileName: string, author: string, title: string)
    ensures var r := RenameCommand(showGenre, genre, fileName, author, title);
            |r| >= 8 && (showGenre ==> r[..7] == "Genre: ") && (!showGenre ==> r[..8] == "rename \"")
    ensures var r := RenameCommand(showGenre, genre, fileName, author, title);
            var w := RenameTarget(author, title);
            && |r| >= |w| + 2 && r[|r| - 1] == '"' && r[|r| - |w| - 2] == '"'
            && r[|r| - |w| - 1..|r| - 1] == w
            && forall k :: |r| - |w| - 1 <= k < |r| - 1 ==> r[k] != '"'
  {
    var w := RenameTarget(author, title);
    RenameTargetSafe(author, title);
    NoQuoteIn(w);
    var g := if showGenre then "Genre: " + genre + " " else "";
    QuotedLast(g + "rename \"" + fileName + "\" \"", w);
    CommandStart(showGenre, genre, fileName, w);
  }

  lemma NoQuoteIn(w: string)
    requires AllChars(w, c => !IsUnsafeSymbol(c))
    ensures forall k :: 0 <= k < |w| ==> w[k] != '"'
  {
    assert IsUnsafeSymbol('"');
  }

  /** `w` in double quotes at the end of a line is its last quoted field. */
  lemma QuotedLast(pre: string, w: string)
    requires |pre| > 0 && pre[|pre| - 1] == '"'
    requires forall k :: 0 <= k < |w| ==> w[k] != '"'
    ensures var r := pre + w + "\"";
            && |r| >= |w| + 2 && r[|r| - 1] == '"' && r[|r| - |w| - 2] == '"'
            && r[|r| - |w| - 1..|r| - 1] == w
            && forall k :: |r| - |w| - 1 <= k < |r| - 1 ==> r[k] != '"'
  {
    var r := pre + w + "\"";
    forall k | |r| - |w| - 1 <= k < |r| - 1 ensures r[k] == w[k - (|r| - |w| - 1)] {
    }
    assert r[|r| - |w| - 1..|r| - 1] == w;
  }

  lemma CommandStart(showGenre: bool, genre: string, fileName: string, w: string)
    ensures var r := (if showGenre then "Genre: " + genre + " " else "") + "rename \"" + fileName + "\" \"" + w + "\"";
            |r| >= 8 && (showGenre ==> r[..7] == "Genre: ") && (!showGenre ==> r[..8] == "rename \"")
  {
  }
}
