/** The three character-class rewriters of src/epub_info.py (lines 24-78).
    Each is a `re.sub` over a one-character class whose replacement shifts
    the matched code point by 0xFEE0; every other character is copied. */
module Rewriters {
  import opened Chars

  /** ASCII letters and digits: the images of the full-width ones. */
  predicate IsAsciiAlnum(c: char) {
    'A' <= c <= 'Z' || 'a' <= c <= 'z' || '0' <= c <= '9'
  }

  function ToHalfwidthAlnum(c: char): char {
    if IsFullwidthAlnum(c) then (c as int - FullwidthOffset) as char else c
  }

  function ToFullwidthSymbol(c: char): char {
    if IsUnsafeSymbol(c) then (c as int + FullwidthOffset) as char else c
  }

  function ToHalfwidthBracket(c: char): char {
    if IsFullwidthBracket(c) then (c as int - FullwidthOffset) as char else c
  }

  /** `replace_fullwidth_alpha_numeral_to_halfwidth`. */
  function ReplaceFullwidthAlnum(text: string): (r: string)
    ensures |r| == |text|
    ensures forall k :: 0 <= k < |text| ==>
      if IsFullwidthAlnum(text[k])
      then r[k] as int == text[k] as int - 0xFEE0 && IsAsciiAlnum(r[k])
      else r[k] == text[k]
    ensures forall k :: 0 <= k < |r| ==> !IsFullwidthAlnum(r[k])
  {
    Translate(text, ToHalfwidthAlnum)
  }

  /** `replace_unsafe_symbol_to_safe_symbol`. The doc comment of the source
      lists `”` and `￥` as the images of `"` and `\`; the shift yields
      U+FF02 and U+FF3C, as stated here. */
  function ReplaceUnsafeSymbols(text: string): (r: string)
    ensures |r| == |text|
    ensures forall k :: 0 <= k < |text| ==>
      if IsUnsafeSymbol(text[k])
      then r[k] as int == text[k] as int + 0xFEE0 && r[k] in FullwidthSymbols
      else r[k] == text[k]
    ensures forall k :: 0 <= k < |r| ==> !IsUnsafeSymbol(r[k])
  {
    Translate(text, ToFullwidthSymbol)
  }

  /** The images of the ten unsafe symbols, in the order of the class. */
  const FullwidthSymbols: set<char> :=
    {'＜', '＞', '：', '\U{FF02}', '／', '\U{FF3C}', '｜', '！', '？', '＊'}

  /** `replace_fullwidth_round_brackets_to_halfwidth`. */
  function ReplaceFullwidthBrackets(text: string): (r: string)
    ensures |r| == |text|
    ensures forall k :: 0 <= k < |text| ==>
      r[k] == match text[k] case '（' => '(' case '）' => ')' case c => c
    ensures forall k :: 0 <= k < |r| ==> !IsFullwidthBracket(r[k])
  {
    Translate(text, ToHalfwidthBracket)
  }

  // ---- Partners: idempotence, and the inverse of the alphanumeric rewrite.

  lemma ReplaceFullwidthAlnumIdempotent(text: string)
    ensures ReplaceFullwidthAlnum(ReplaceFullwidthAlnum(text)) == ReplaceFullwidthAlnum(text)
  {
    TranslateIdempotent(text, ToHalfwidthAlnum);
  }

  lemma ReplaceUnsafeSymbolsIdempotent(text: string)
    ensures ReplaceUnsafeSymbols(ReplaceUnsafeSymbols(text)) == ReplaceUnsafeSymbols(text)
  {
    TranslateIdempotent(text, ToFullwidthSymbol);
  }

  lemma ReplaceFullwidthBracketsIdempotent(text: string)
    ensures ReplaceFullwidthBrackets(ReplaceFullwidthBrackets(text)) == ReplaceFullwidthBrackets(text)
  {
    TranslateIdempotent(text, ToHalfwidthBracket);
  }

  /** The full-width form of an ASCII letter or digit. */
  function Widen(c: char): (w: char)
    requires IsAsciiAlnum(c)
    ensures IsFullwidthAlnum(w)
  {
    (c as int + FullwidthOffset) as char
  }

  /** Widening every character of an ASCII alphanumeric text and then
      running the rewriter gives the text back. */
  lemma {:induction false} ReplaceFullwidthAlnumInvertsWiden(s: string)
    requires forall k :: 0 <= k < |s| ==> IsAsciiAlnum(s[k])
    ensures ReplaceFullwidthAlnum(seq(|s|, k requires 0 <= k < |s| => Widen(s[k]))) == s
  {
    var w := seq(|s|, k requires 0 <= k < |s| => Widen(s[k]));
    var r := ReplaceFullwidthAlnum(w);
    forall k | 0 <= k < |s| ensures r[k] == s[k] {
      assert IsFullwidthAlnum(w[k]);
    }
  }

  /** A character is changed by the rewriter exactly when it is in the
      rewriter's class; the other two rewriters behave alike. */
  lemma ReplaceFullwidthAlnumChanges(text: string, k: nat)
    requires k < |text|
    ensures ReplaceFullwidthAlnum(text)[k] != text[k] <==> IsFullwidthAlnum(text[k])
  {
  }

  lemma ReplaceUnsafeSymbolsChanges(text: string, k: nat)
    requires k < |text|
    ensures ReplaceUnsafeSymbols(text)[k] != text[k] <==> IsUnsafeSymbol(text[k])
  {
  }

  // ---- What each rewriter leaves alone: needed when they are chained.

  lemma UnsafeSymbolsKeepHalfwidth(text: string)
    requires forall k :: 0 <= k < |text| ==> !IsFullwidthAlnum(text[k])
    ensures forall k :: 0 <= k < |text| ==> !IsFullwidthAlnum(ReplaceUnsafeSymbols(text)[k])
  {
  }

  lemma BracketsKeepSafe(text: string)
    requires forall k :: 0 <= k < |text| ==> !IsFullwidthAlnum(text[k]) && !IsUnsafeSymbol(text[k])
    ensures forall k :: 0 <= k < |text| ==>
      var c := ReplaceFullwidthBrackets(text)[k]; !IsFullwidthAlnum(c) && !IsUnsafeSymbol(c)
  {
  }
}
