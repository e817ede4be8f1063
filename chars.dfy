/** Character classes and small string helpers shared by the title and
    author normalisers of src/epub_info.py.

    Strings are sequences of Unicode scalar values, as Python's `str` is. */
module Chars {

  /** Python's `\s` in a `str` pattern: the characters `str.isspace()` accepts
      (ASCII tab to carriage return, the four information separators, space,
      NEL, no-break space, ogham space mark, the typographic spaces,
      line/paragraph separators, narrow no-break space, medium mathematical
      space and the ideographic space U+3000). */
  predicate IsSpace(c: char) {
    || '\t' <= c <= '\r'
    || '\U{1C}' <= c <= ' '
    || c == '\U{85}' || c == '\U{A0}' || c == '\U{1680}'
    || '\U{2000}' <= c <= '\U{200A}'
    || c == '\U{2028}' || c == '\U{2029}' || c == '\U{202F}' || c == '\U{205F}'
    || c == '\U{3000}'
  }

  /** `\d`, restricted to the ASCII digits. */
  predicate IsDigit(c: char) {
    '0' <= c <= '9'
  }

  /** The class `[Ａ-Ｚａ-ｚ０-９]` of line 34. */
  predicate IsFullwidthAlnum(c: char) {
    || 'Ａ' <= c <= 'Ｚ'
    || 'ａ' <= c <= 'ｚ'
    || '０' <= c <= '９'
  }

  /** The class `[<>:"\/\\|!?*]` of line 61: the ten characters that are
      unsafe in a file name on NTFS (with `!` added by the author). */
  predicate IsUnsafeSymbol(c: char) {
    c in {'<', '>', ':', '"', '/', '\\', '|', '!', '?', '*'}
  }

  /** The class `[（）]` of line 78. */
  predicate IsFullwidthBracket(c: char) {
    c == '（' || c == '）'
  }

  /** The distance between an ASCII character and its full-width form. */
  const FullwidthOffset: int := 0xFEE0

  /** Every character of `s` satisfies `P`. */
  predicate AllChars(s: string, P: char -> bool) {
    forall k :: 0 <= k < |s| ==> P(s[k])
  }

  lemma ConcatAssoc(a: string, b: string, c: string)
    ensures a + (b + c) == a + b + c
  {
  }

  /** The first character followed by the next `k - 1` is the first `k`. */
  lemma ConsPrefix(s: string, k: nat, x: string)
    requires 0 < k <= |s|
    ensures [s[0]] + (s[1..][..k - 1] + x) == s[..k] + x
  {
    assert [s[0]] + s[1..][..k - 1] == s[..k];
  }

  lemma AllCharsJoin(a: string, b: string, P: char -> bool)
    requires AllChars(a, P) && AllChars(b, P)
    ensures AllChars(a + b, P)
  {
    forall k | 0 <= k < |a + b| ensures P((a + b)[k]) {
      if k >= |a| {
        assert (a + b)[k] == b[k - |a|];
      }
    }
  }

  /** True when `w` is a prefix of `t`. */
  predicate StartsWith(t: string, w: string) {
    |w| <= |t| && t[..|w|] == w
  }

  /** The file extension every title carries when it is normalised. */
  const Ext: string := ".epub"

  /** Length of the longest prefix of `t` whose characters all satisfy `P`:
      what a greedy `P*` consumes. */
  function Run(t: string, P: char -> bool): (n: nat)
    ensures n <= |t|
    ensures forall k :: 0 <= k < n ==> P(t[k])
    ensures n < |t| ==> !P(t[n])
  {
    if t != [] && P(t[0]) then 1 + Run(t[1..], P) else 0
  }

  /** The run of digits at the start of `u` is all digits. */
  lemma RunDigits(u: string)
    ensures AllDigits(u[..Run(u, IsDigit)])
  {
  }

  /** Apply `f` to every character, as `re.sub` over a one-character class
      with a function replacement does. */
  function Translate(s: string, f: char -> char): (r: string)
    ensures |r| == |s|
    ensures forall k :: 0 <= k < |s| ==> r[k] == f(s[k])
  {
    if s == [] then [] else [f(s[0])] + Translate(s[1..], f)
  }

  /** Translating twice with an idempotent map is translating once. */
  lemma TranslateIdempotent(s: string, f: char -> char)
    requires forall c :: f(f(c)) == f(c)
    ensures Translate(Translate(s, f), f) == Translate(s, f)
  {
  }

  // ---- Decimal numbers: Python's int(...) on a digit string, str(...) on a
  // ---- non-negative int, and str.zfill(2).

  function DigitValue(c: char): (d: nat)
    requires IsDigit(c)
    ensures d < 10
  {
    c as int - '0' as int
  }

  function DigitChar(d: nat): (c: char)
    requires d < 10
    ensures IsDigit(c) && DigitValue(c) == d
  {
    ('0' as int + d) as char
  }

  predicate AllDigits(s: string) {
    forall k :: 0 <= k < |s| ==> IsDigit(s[k])
  }

  /** `int(s)` for a string of ASCII digits. */
  function DigitsValue(s: string): nat
    requires AllDigits(s)
  {
    if s == [] then 0 else 10 * DigitsValue(s[..|s| - 1]) + DigitValue(s[|s| - 1])
  }

  /** `str(n)`: the decimal numeral of `n`, without leading zeros. */
  function Decimal(n: nat): (r: string)
    ensures r != [] && AllDigits(r)
    ensures |r| > 1 ==> r[0] != '0'
    ensures DigitsValue(r) == n
    ensures n < 10 <==> |r| == 1
    ensures n < 100 ==> |r| <= 2
  {
    if n < 10 then [DigitChar(n)]
    else
      var r := Decimal(n / 10) + [DigitChar(n % 10)];
      assert r[..|r| - 1] == Decimal(n / 10);
      r
  }

  /** `s.zfill(2)` for a string without a sign: pad on the left with `0`
      up to two characters, never truncate. */
  function ZFill2(s: string): (r: string)
    ensures |r| == if |s| < 2 then 2 else |s|
    ensures r[|r| - |s|..] == s
    ensures forall k :: 0 <= k < |r| - |s| ==> r[k] == '0'
  {
    if |s| >= 2 then s
    else if |s| == 1 then ['0'] + s
    else "00"
  }

  /** `str(int(s)).zfill(2)`: the number written by every numbering step. */
  function TwoDigit(s: string): (r: string)
    requires AllDigits(s)
    ensures AllDigits(r) && |r| >= 2
    ensures DigitsValue(r) == DigitsValue(s)
    ensures DigitsValue(s) < 100 ==> |r| == 2
    ensures |r| > 2 ==> r[0] != '0'
  {
    var d := Decimal(DigitsValue(s));
    var r := ZFill2(d);
    LeadingZeros(r, |r| - |d|);
    r
  }

  /** `str(int(s)) == s` for a numeral without leading zeros. */
  lemma {:induction false} DecimalCanonical(s: string)
    requires s != [] && AllDigits(s) && (|s| > 1 ==> s[0] != '0')
    ensures Decimal(DigitsValue(s)) == s
    decreases |s|
  {
    var p := s[..|s| - 1];
    var d := DigitValue(s[|s| - 1]);
    if p == [] {
      assert DigitsValue(s) == d;
      assert s == [s[0]];
    } else {
      DecimalCanonical(p);
      DecimalAppend(p, s[|s| - 1]);
      assert s == p + [s[|s| - 1]];
    }
  }

  /** Appending a digit to a canonical numeral gives a canonical numeral. */
  lemma DecimalAppend(p: string, c: char)
    requires p != [] && AllDigits(p) && p[0] != '0' && IsDigit(c)
    requires Decimal(DigitsValue(p)) == p
    ensures Decimal(DigitsValue(p + [c])) == p + [c]
  {
    CanonicalNonZero(p);
    DigitsValueAppend(p, c);
    DecimalStep(DigitsValue(p), c);
  }

  lemma CanonicalNonZero(p: string)
    requires p != [] && AllDigits(p) && p[0] != '0' && Decimal(DigitsValue(p)) == p
    ensures DigitsValue(p) != 0
  {
    assert Decimal(0) == ['0'];
  }

  lemma DigitsValueAppend(p: string, c: char)
    requires AllDigits(p) && IsDigit(c)
    ensures AllDigits(p + [c]) && DigitsValue(p + [c]) == 10 * DigitsValue(p) + DigitValue(c)
  {
    var s := p + [c];
    assert s[..|s| - 1] == p && s[|s| - 1] == c;
  }

  /** `str(10 * v + d)` appends the digit `d` to `str(v)`. */
  lemma DecimalStep(v: nat, c: char)
    requires 0 < v && IsDigit(c)
    ensures Decimal(10 * v + DigitValue(c)) == Decimal(v) + [c]
  {
    var d := DigitValue(c);
    var n := 10 * v + d;
    assert n / 10 == v && n % 10 == d;
    assert DigitChar(d) == c;
  }

  /** `str(int(s)).zfill(2)` pads a single digit with one `0`. */
  lemma TwoDigitSingle(c: char)
    requires IsDigit(c)
    ensures TwoDigit([c]) == ['0', c]
  {
    DecimalCanonical([c]);
    assert ZFill2([c]) == ['0', c];
  }

  /** ... and leaves a numeral of two or more digits without leading zeros
      as it is. */
  lemma TwoDigitCanonical(s: string)
    requires |s| >= 2 && AllDigits(s) && s[0] != '0'
    ensures TwoDigit(s) == s
  {
    DecimalCanonical(s);
  }

  /** ... and ignores leading zeros. */
  lemma TwoDigitLeadingZeros(s: string, z: nat)
    requires AllDigits(s) && z <= |s|
    requires forall k :: 0 <= k < z ==> s[k] == '0'
    ensures TwoDigit(s) == TwoDigit(s[z..])
  {
    LeadingZeros(s, z);
  }

  /** Leading zeros do not change the value of a numeral. */
  lemma {:induction false} LeadingZeros(s: string, z: nat)
    requires AllDigits(s) && z <= |s|
    requires forall k :: 0 <= k < z ==> s[k] == '0'
    ensures DigitsValue(s) == DigitsValue(s[z..])
    decreases |s|
  {
    if z < |s| {
      var p := s[..|s| - 1];
      assert p[z..] == s[z..][..|s[z..]| - 1];
      LeadingZeros(p, z);
    } else {
      ZerosValue(s);
    }
  }

  lemma {:induction false} ZerosValue(s: string)
    requires forall k :: 0 <= k < |s| ==> s[k] == '0'
    ensures AllDigits(s) && DigitsValue(s) == 0
    decreases |s|
  {
    if s != [] {
      ZerosValue(s[..|s| - 1]);
    }
  }

  /** A character with property `P` at `k` means there is a first one. */
  lemma {:induction false} FirstOccurrence(s: string, P: char -> bool, k: nat)
    requires k < |s| && P(s[k])
    ensures exists i :: 0 <= i <= k && P(s[i]) && forall j :: 0 <= j < i ==> !P(s[j])
  {
    if exists j :: 0 <= j < k && P(s[j]) {
      var j :| 0 <= j < k && P(s[j]);
      FirstOccurrence(s, P, j);
    }
  }
}
