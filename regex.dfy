/** The regular expressions of src/epub_info.py, with the matching rules of
    Python's `re` module that they rely on: a match is tried at each position
    from left to right, greedy quantifiers take as much as they can, lazy ones
    as little, and alternatives are tried in the order written.

    Every pattern used by the source consumes at least one character, so
    `re.sub` never meets an empty match and the scan below is exact. Each
    `Match` case is the single outcome the backtracking engine reaches: at
    every greedy step the next part of the pattern cannot start with a
    character the greedy part would have consumed, so backtracking never
    yields a different match. */
module Regex {
  import opened Chars

  datatype Option<T> = None | Some(value: T)

  /** A successful match at the start of a text: how many characters it
      consumes and what its first group captured ("" if it has none). */
  datatype Hit = Hit(len: nat, group: string)

  /** The kanji numerals of line 120, in order; they stand for 1 to 10, and
      the last one for 10 again. */
  const KanjiNumerals: seq<char> := ['壱', '弐', '参', '肆', '伍', '陸', '漆', '捌', '玖', '拾', '什']

  /** The volume marker. */
  const Volume: char := '巻'

  /** The classes of numbering characters of lines 122 and 175-193. */
  datatype NumeralClass =
    /** `[壱|弐|…|什]` (line 122): built with `'|'.join`, so `|` is in it. */
    | Kanji
    /** `[①-⑨]`, `[⑴-⑼]`, `[⒈-⒐]`, `[⓵-⓽]`: nine consecutive code points. */
    | Circled(first: char)

  predicate InClass(cls: NumeralClass, c: char) {
    match cls
    case Kanji => c in KanjiNumerals || c == '|'
    case Circled(first) => first as int <= c as int <= first as int + 8
  }

  /** How a `\s*\(\s*(\d+)\s*\)` pattern ends (lines 97, 100, 102, 105). */
  datatype Tail =
    | SpacesPlus   // `\s+`
    | SpacesStar   // `\s*`
    | ThenExt      // `\s*\.epub`
    | BeforeExt    // `\s*(?=\.epub)`

  /** A bracketed annotation (lines 165-166): an opener, a lazy run of
      non-newline characters of at least `minContent` characters, the first
      listed token (in the order of the alternation) that is directly followed
      by a closer, and that closer. */
  datatype Annotation = Annotation(openers: set<char>, minContent: nat, tokens: seq<string>, closers: set<char>)

  /** `【.+?(付き|増量版|無料版?|出版|誌版|特別版?|特典付き?|漫画付き?)】` (line 165).
      `X?` is greedy, so `X` followed by the optional part is tried first. */
  const Promotion: Annotation := Annotation(
    {'【'}, 1,
    ["付き", "増量版", "無料版", "無料", "出版", "誌版", "特別版", "特別",
     "特典付き", "特典付", "漫画付き", "漫画付"],
    {'】'})

  /** `[(＜〈].*?(BOOKS|…|編集部)[〉＞)]` (line 166). */
  const Imprint: Annotation := Annotation(
    {'(', '＜', '〈'}, 0,
    ["BOOKS", "Creative", "DX版", "DX", "GAMES", "JOKER", "Network", "NOVELS",
     "NOVEL 0", "Publishing", "エイジ", "エクストラ", "コミック", "シリーズ", "ス",
     "ノベルズ", "ラノベ", "限定版", "小説", "新装版", "電子版", "特典付き", "特別版",
     "文芸", "文庫J", "文庫", "編集部"],
    {'〉', '＞', ')'})

  datatype Pattern =
    /** One of the two annotation patterns. */
    | Bracketed(a: Annotation)
    /** `\s+` (lines 168, 204). */
    | Spaces
    /** `\s+(?=\.epub)` (line 205). */
    | SpacesBeforeExt
    /** `\s*\(\s*(\d+)\s*\)` and a tail (lines 97-105). */
    | RoundNumber(tail: Tail)
    /** `\s*([C])\s*巻?\s*` (lines 122, 125, 175-193). */
    | Numeral(cls: NumeralClass)
    /** `(?<=\s)?(\d+)(?=巻?\s*\.epub)` (line 198); the optional lookbehind
        may always be skipped, so it constrains nothing. */
    | DigitsAhead
    /** `\s*\d+巻?\s*(?=\.epub)` (line 201). */
    | DigitsBeforeExt

  /** What a match of `p` captures in its group. */
  predicate GroupFits(p: Pattern, g: string) {
    match p
    case RoundNumber(_) => g != [] && AllDigits(g)
    case DigitsAhead => g != [] && AllDigits(g)
    case DigitsBeforeExt => g != [] && AllDigits(g)
    case Numeral(cls) => |g| == 1 && InClass(cls, g[0])
    case _ => g == []
  }

  /** `巻?\s*\.epub` at the start of `u` (the lookahead of line 198). */
  predicate ExtAhead(u: string) {
    var v := if u != [] && u[0] == Volume then u[1..] else u;
    StartsWith(v[Run(v, IsSpace)..], Ext)
  }

  /** The length of the first token of `tokens` found at `j` in `t` and
      directly followed by one of `closers`. */
  function TokenAt(tokens: seq<string>, closers: set<char>, t: string, j: nat): (r: Option<nat>)
    requires j <= |t|
    ensures r.Some? ==> j + r.value < |t| && t[j + r.value] in closers
  {
    if tokens == [] then None
    else if StartsWith(t[j..], tokens[0]) && j + |tokens[0]| < |t| && t[j + |tokens[0]|] in closers
    then Some(|tokens[0]|)
    else TokenAt(tokens[1..], closers, t, j)
  }

  /** The lazy `.*?` of an annotation: try the tokens at `j`, and only if
      they fail extend the content by one more non-newline character. */
  function LazyAnnotation(a: Annotation, t: string, j: nat): (r: Option<Hit>)
    requires 1 <= j <= |t|
    ensures r.Some? ==> j < r.value.len <= |t| && r.value.group == []
    decreases |t| - j
  {
    match TokenAt(a.tokens, a.closers, t, j)
    case Some(n) => Some(Hit(j + n + 1, ""))
    case None => if j < |t| && t[j] != '\n' then LazyAnnotation(a, t, j + 1) else None
  }

  /** The match of `p` at the start of `t`, as Python's engine finds it. */
  function Match(p: Pattern, t: string): (r: Option<Hit>)
    ensures r.Some? ==> 0 < r.value.len <= |t|
    ensures r.Some? ==> GroupFits(p, r.value.group)
  {
    match p
    case Bracketed(a) => MatchAnnotation(a, t)
    case Spaces =>
      var n := Run(t, IsSpace);
      if n > 0 then Some(Hit(n, "")) else None
    case SpacesBeforeExt =>
      var n := Run(t, IsSpace);
      if n > 0 && StartsWith(t[n..], Ext) then Some(Hit(n, "")) else None
    case RoundNumber(tail) => MatchRoundNumber(tail, t)
    case Numeral(cls) => MatchNumeral(cls, t)
    case DigitsAhead =>
      var d := Run(t, IsDigit);
      if d > 0 && ExtAhead(t[d..]) then Some(Hit(d, t[..d])) else None
    case DigitsBeforeExt => MatchDigitsBeforeExt(t)
  }

  function MatchAnnotation(a: Annotation, t: string): (r: Option<Hit>)
    ensures r.Some? ==> 0 < r.value.len <= |t| && r.value.group == []
  {
    var m := a.minContent + 1;
    if m <= |t| && t[0] in a.openers && (forall k :: 1 <= k < m ==> t[k] != '\n')
    then LazyAnnotation(a, t, m)
    else None
  }

  function MatchRoundNumber(tail: Tail, t: string): (r: Option<Hit>)
    ensures r.Some? ==> 0 < r.value.len <= |t| && r.value.group != [] && AllDigits(r.value.group)
  {
    match tail
    case ThenExt =>
      (match BracketBeforeExt(t)
       case Some(h) => Some(Hit(h.len + |Ext|, h.group))
       case None => None)
    case BeforeExt => BracketBeforeExt(t)
    case SpacesPlus | SpacesStar =>
      match RoundBracket(t)
      case None => None
      case Some(b) =>
        var e := b.len + Run(t[b.len..], IsSpace);
        if tail.SpacesPlus? && e == b.len then None else Some(Hit(e, b.group))
  }

  /** `\s*\(\s*(\d+)\s*\)\s*` followed by `.epub`: the length up to the
      extension, and the digits. */
  function BracketBeforeExt(t: string): (r: Option<Hit>)
    ensures r.Some? ==> 0 < r.value.len && r.value.len + |Ext| <= |t| && StartsWith(t[r.value.len..], Ext)
    ensures r.Some? ==> r.value.group != [] && AllDigits(r.value.group)
  {
    match RoundBracket(t)
    case None => None
    case Some(b) =>
      var e := b.len + Run(t[b.len..], IsSpace);
      if StartsWith(t[e..], Ext) then Some(Hit(e, b.group)) else None
  }

  /** `\s*\(\s*(\d+)\s*\)`: the length up to and including `)`, and the
      digits. */
  function RoundBracket(t: string): (r: Option<Hit>)
    ensures r.Some? ==> 0 < r.value.len <= |t| && r.value.group != [] && AllDigits(r.value.group)
  {
    var a := Run(t, IsSpace);
    if a < |t| && t[a] == '(' then
      var b := a + 1 + Run(t[a + 1..], IsSpace);
      var d := Run(t[b..], IsDigit);
      var c := b + d + Run(t[b + d..], IsSpace);
      RunDigits(t[b..]);
      assert t[b..b + d] == t[b..][..d];
      if d > 0 && c < |t| && t[c] == ')' then Some(Hit(c + 1, t[b..b + d])) else None
    else None
  }

  function MatchNumeral(cls: NumeralClass, t: string): (r: Option<Hit>)
    ensures r.Some? ==> 0 < r.value.len <= |t| && |r.value.group| == 1 && InClass(cls, r.value.group[0])
  {
    var a := Run(t, IsSpace);
    if a < |t| && InClass(cls, t[a]) then
      var b := a + 1 + Run(t[a + 1..], IsSpace);
      var e := if b < |t| && t[b] == Volume then b + 1 + Run(t[b + 1..], IsSpace) else b;
      Some(Hit(e, [t[a]]))
    else None
  }

  function MatchDigitsBeforeExt(t: string): (r: Option<Hit>)
    ensures r.Some? ==> 0 < r.value.len <= |t| && r.value.group != [] && AllDigits(r.value.group)
  {
    var a := Run(t, IsSpace);
    var d := Run(t[a..], IsDigit);
    var b := a + d;
    var c := if b < |t| && t[b] == Volume then b + 1 else b;
    var e := c + Run(t[c..], IsSpace);
    RunDigits(t[a..]);
    assert t[a..b] == t[a..][..d];
    if d > 0 && StartsWith(t[e..], Ext) then Some(Hit(e, t[a..b])) else None
  }

  /** `re.sub(p, repl, s)`: replace every match, scanning left to right and
      resuming after each match. */
  function Sub(p: Pattern, s: string, repl: string): (r: string)
    decreases |s|
  {
    if s == [] then []
    else match Match(p, s)
      case Some(h) => repl + Sub(p, s[h.len..], repl)
      case None => [s[0]] + Sub(p, s[1..], repl)
  }

  /** `p` matches at position `j` of `s`. */
  predicate MatchesAt(p: Pattern, s: string, j: nat)
    requires j <= |s|
  {
    Match(p, s[j..]).Some?
  }

  /** The leftmost position, from `i` on, at which `p` matches. */
  function FirstMatch(p: Pattern, s: string, i: nat): (r: Option<nat>)
    requires i <= |s|
    ensures r.Some? ==> i <= r.value <= |s| && MatchesAt(p, s, r.value)
    ensures r.Some? ==> forall j :: i <= j < r.value ==> !MatchesAt(p, s, j)
    ensures r.None? ==> forall j :: i <= j <= |s| ==> !MatchesAt(p, s, j)
    decreases |s| - i
  {
    if MatchesAt(p, s, i) then Some(i)
    else if i == |s| then None
    else FirstMatch(p, s, i + 1)
  }

  /** `re.search(p, s)`: the match at the leftmost position where there is
      one. */
  function Search(p: Pattern, s: string): (r: Option<Hit>)
    ensures r.Some? ==> 0 < r.value.len && GroupFits(p, r.value.group)
  {
    match FirstMatch(p, s, 0)
    case Some(k) => Match(p, s[k..])
    case None => None
  }

  /** Nothing matches anywhere: the text is returned unchanged. */
  lemma SubNoMatch(p: Pattern, s: string, repl: string)
    requires forall k :: 0 <= k < |s| ==> !MatchesAt(p, s, k)
    ensures Sub(p, s, repl) == s
  {
    SubPrefix(p, s, |s|, repl);
    assert s[..|s|] == s;
    assert s[|s|..] == [];
  }

  /** Where nothing matches, `re.sub` copies one character and goes on. */
  lemma SubCopies(p: Pattern, s: string, repl: string)
    requires s != [] && !MatchesAt(p, s, 0)
    ensures Sub(p, s, repl) == [s[0]] + Sub(p, s[1..], repl)
  {
    assert s[0..] == s;
  }

  /** Where `p` matches, `re.sub` writes the replacement and goes on after
      the match. */
  lemma SubReplaces(p: Pattern, s: string, repl: string, h: Hit)
    requires Match(p, s) == Some(h)
    ensures Sub(p, s, repl) == repl + Sub(p, s[h.len..], repl)
  {
  }

  /** A prefix where nothing matches is copied unchanged. */
  lemma {:induction false} SubPrefix(p: Pattern, s: string, k: nat, repl: string)
    requires k <= |s|
    requires forall i :: 0 <= i < k ==> !MatchesAt(p, s, i)
    ensures Sub(p, s, repl) == s[..k] + Sub(p, s[k..], repl)
    decreases k
  {
    if k > 0 {
      var t := s[1..];
      calc {
        Sub(p, s, repl);
        { SubCopies(p, s, repl); }
        [s[0]] + Sub(p, t, repl);
        { NoMatchShift(p, s, k); SubPrefix(p, t, k - 1, repl); }
        [s[0]] + (t[..k - 1] + Sub(p, t[k - 1..], repl));
        { assert t[k - 1..] == s[k..]; ConsPrefix(s, k, Sub(p, s[k..], repl)); }
        s[..k] + Sub(p, s[k..], repl);
      }
    }
  }

  lemma NoMatchShift(p: Pattern, s: string, k: nat)
    requires 0 < k <= |s|
    requires forall i :: 0 <= i < k ==> !MatchesAt(p, s, i)
    ensures forall i :: 0 <= i < k - 1 ==> !MatchesAt(p, s[1..], i)
  {
    forall i | 0 <= i < k - 1 ensures !MatchesAt(p, s[1..], i) {
      assert s[1..][i..] == s[i + 1..];
      assert !MatchesAt(p, s, i + 1);
    }
  }

  /** `p` matches nowhere in `s`. */
  predicate NoMatch(p: Pattern, s: string) {
    forall k :: 0 <= k < |s| ==> !MatchesAt(p, s, k)
  }

  /** One match at `m`, none before it and none in what follows it: only
      that match is replaced. */
  lemma SubOnce(p: Pattern, s: string, m: nat, h: Hit, repl: string)
    requires m + h.len <= |s|
    requires forall k :: 0 <= k < m ==> !MatchesAt(p, s, k)
    requires Match(p, s[m..]) == Some(h)
    requires NoMatch(p, s[m + h.len..])
    ensures Sub(p, s, repl) == s[..m] + repl + s[m + h.len..]
  {
    var rest := s[m + h.len..];
    SubPrefix(p, s, m, repl);
    SubReplaces(p, s[m..], repl, h);
    assert s[m..][h.len..] == rest;
    SubNoMatch(p, rest, repl);
    ConcatAssoc(s[..m], repl, rest);
  }

  /** If every occurrence of a class of characters starts a match, and the
      replacement has none, none is left. */
  lemma {:induction false} SubRemovesClass(p: Pattern, s: string, repl: string, C: char -> bool)
    requires ClassStartsMatch(p, s, C)
    requires forall k :: 0 <= k < |repl| ==> !C(repl[k])
    ensures forall k :: 0 <= k < |Sub(p, s, repl)| ==> !C(Sub(p, s, repl)[k])
    decreases |s|
  {
    if s != [] {
      assert s[0..] == s;
      match Match(p, s)
      case Some(h) =>
        var rest := s[h.len..];
        ClassStartsMatchShift(p, s, h.len, C);
        SubRemovesClass(p, rest, repl, C);
        SubReplaces(p, s, repl, h);
        NoneOfJoin(repl, Sub(p, rest, repl), C);
      case None =>
        var rest := s[1..];
        ClassStartsMatchShift(p, s, 1, C);
        SubRemovesClass(p, rest, repl, C);
        SubCopies(p, s, repl);
        NoneOfJoin([s[0]], Sub(p, rest, repl), C);
    }
  }

  /** Every character of class `C` in `s` starts a match of `p`. */
  predicate ClassStartsMatch(p: Pattern, s: string, C: char -> bool) {
    forall k :: 0 <= k < |s| && C(s[k]) ==> MatchesAt(p, s, k)
  }

  lemma ClassStartsMatchShift(p: Pattern, s: string, d: nat, C: char -> bool)
    requires d <= |s| && ClassStartsMatch(p, s, C)
    ensures ClassStartsMatch(p, s[d..], C)
  {
    forall k | 0 <= k < |s[d..]| && C(s[d..][k]) ensures MatchesAt(p, s[d..], k) {
      assert s[d..][k..] == s[k + d..];
      assert MatchesAt(p, s, k + d);
    }
  }

  lemma NoneOfJoin(a: string, b: string, C: char -> bool)
    requires forall k :: 0 <= k < |a| ==> !C(a[k])
    requires forall k :: 0 <= k < |b| ==> !C(b[k])
    ensures forall k :: 0 <= k < |a + b| ==> !C((a + b)[k])
  {
    forall k | 0 <= k < |a + b| ensures !C((a + b)[k]) {
      if k >= |a| {
        assert (a + b)[k] == b[k - |a|];
      }
    }
  }

  /** A property every character of the text and of the replacement has is
      a property of every character of the result. */
  lemma {:induction false} SubKeeps(p: Pattern, s: string, repl: string, P: char -> bool)
    requires AllChars(s, P) && AllChars(repl, P)
    ensures AllChars(Sub(p, s, repl), P)
    decreases |s|
  {
    if s != [] {
      match Match(p, s)
      case Some(h) =>
        SubKeeps(p, s[h.len..], repl, P);
        AllCharsJoin(repl, Sub(p, s[h.len..], repl), P);
      case None =>
        SubKeeps(p, s[1..], repl, P);
        AllCharsJoin([s[0]], Sub(p, s[1..], repl), P);
    }
  }

  /** `re.search` returns the match at the leftmost position where the
      pattern matches. */
  lemma SearchLeftmost(p: Pattern, s: string, i: nat)
    requires i <= |s| && MatchesAt(p, s, i)
    requires forall j :: 0 <= j < i ==> !MatchesAt(p, s, j)
    ensures Search(p, s) == Match(p, s[i..])
  {
    FirstMatchFrom(p, s, 0, i);
  }

  /** `re.search` finds nothing where the pattern matches nowhere. */
  lemma SearchNone(p: Pattern, s: string)
    requires forall j :: 0 <= j <= |s| ==> !MatchesAt(p, s, j)
    ensures Search(p, s) == None
  {
    FirstMatchNone(p, s, 0);
  }

  lemma {:induction false} FirstMatchNone(p: Pattern, s: string, i: nat)
    requires i <= |s|
    requires forall j :: i <= j <= |s| ==> !MatchesAt(p, s, j)
    ensures FirstMatch(p, s, i) == None
    decreases |s| - i
  {
    if i < |s| {
      FirstMatchNone(p, s, i + 1);
    }
  }

  lemma {:induction false} FirstMatchFrom(p: Pattern, s: string, j: nat, i: nat)
    requires j <= i <= |s| && MatchesAt(p, s, i)
    requires forall k :: j <= k < i ==> !MatchesAt(p, s, k)
    ensures FirstMatch(p, s, j) == Some(i)
    decreases i - j
  {
    if j < i {
      FirstMatchFrom(p, s, j + 1, i);
    }
  }
}
