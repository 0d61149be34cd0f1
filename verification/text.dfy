/** Character and string primitives the day crates borrow from Rust's standard
    library and from nom: decimal digits, `char::is_whitespace`,
    `str::split_whitespace`, `str::lines`, `str::trim`, `i64::from_str`, and
    nom's `character::complete::u64`/`u32` number parsers and `tag`. Strings are
    sequences of Unicode scalar values. */
module Text {
  import opened Wrappers

  const I64Min: int := -0x8000_0000_0000_0000
  const I64Max: int := 0x7FFF_FFFF_FFFF_FFFF
  const U64Max: nat := 0xFFFF_FFFF_FFFF_FFFF
  const U32Max: nat := 0xFFFF_FFFF

  // ---------------------------------------------------------------------------
  // Decimal digits
  // ---------------------------------------------------------------------------

  predicate IsDigit(c: char) { '0' <= c <= '9' }

  predicate AllDigits(s: string) { forall i | 0 <= i < |s| :: IsDigit(s[i]) }

  function DigitValue(c: char): (d: nat)
    requires IsDigit(c)
    ensures d < 10
  {
    (c as int) - ('0' as int)
  }

  function DigitChar(d: nat): (c: char)
    requires d < 10
    ensures IsDigit(c) && DigitValue(c) == d
  {
    (('0' as int) + d) as char
  }

  lemma DigitCharOfValue(c: char)
    requires IsDigit(c)
    ensures DigitChar(DigitValue(c)) == c
  {
  }

  /** The value of a run of decimal digits, most significant first; leading
      zeros are allowed, the empty run is worth 0. */
  function DecimalValue(s: string): nat
    requires AllDigits(s)
  {
    if |s| == 0 then 0 else 10 * DecimalValue(s[..|s| - 1]) + DigitValue(s[|s| - 1])
  }

  /** The decimal rendering Rust's `Display` gives an unsigned integer: at
      least one digit, no leading zero, and it reads back as `n`. */
  function ShowNat(n: nat): (s: string)
    ensures 1 <= |s| && AllDigits(s)
    ensures |s| == 1 || s[0] != '0'
    ensures DecimalValue(s) == n
  {
    if n < 10 then [DigitChar(n)]
    else
      var s := ShowNat(n / 10) + [DigitChar(n % 10)];
      assert s[..|s| - 1] == ShowNat(n / 10);
      s
  }

  /** Length of the longest prefix of `s` made of digits. */
  function DigitRunLength(s: string): (n: nat)
    ensures n <= |s| && AllDigits(s[..n])
    ensures n < |s| ==> !IsDigit(s[n])
  {
    if |s| == 0 || !IsDigit(s[0]) then 0
    else
      var m := DigitRunLength(s[1..]);
      assert s[..1 + m] == [s[0]] + s[1..][..m];
      1 + m
  }

  /** nom's `character::complete::u64` (with `max` = 2^64-1) and `u32` (with
      `max` = 2^32-1): the longest leading run of digits, which must be
      non-empty and whose value must not exceed `max`; no sign is accepted.
      The result is the value and the unconsumed rest. */
  function ParseUnsigned(s: string, max: nat): (r: Option<(nat, string)>)
    ensures r.Some? <==>
              0 < |s| && IsDigit(s[0]) && DecimalValue(s[..DigitRunLength(s)]) <= max
    ensures r.Some? ==>
              var k := |s| - |r.value.1|;
              && 1 <= k <= |s|
              && AllDigits(s[..k])
              && s[k..] == r.value.1
              && r.value.0 == DecimalValue(s[..k]) <= max
              && (k < |s| ==> !IsDigit(s[k]))
  {
    var k := DigitRunLength(s);
    if k == 0 then None
    else
      var v := DecimalValue(s[..k]);
      if v <= max then Some((v, s[k..])) else None
  }

  /** Splitting `ShowNat(n) + rest` stops exactly at the end of the number. */
  lemma DigitRunOfShowNat(n: nat, rest: string)
    requires |rest| == 0 || !IsDigit(rest[0])
    ensures DigitRunLength(ShowNat(n) + rest) == |ShowNat(n)|
    ensures (ShowNat(n) + rest)[..|ShowNat(n)|] == ShowNat(n)
  {
    DigitRunAppend(ShowNat(n), rest);
  }

  lemma {:induction false} DigitRunAppend(d: string, rest: string)
    requires AllDigits(d)
    requires |rest| == 0 || !IsDigit(rest[0])
    ensures DigitRunLength(d + rest) == |d|
    ensures (d + rest)[..|d|] == d
  {
    if |d| == 0 {
      assert d + rest == rest;
    } else {
      assert (d + rest)[1..] == d[1..] + rest;
      DigitRunAppend(d[1..], rest);
    }
  }

  /** What a parser consumed, followed by what it left, is its input. */
  lemma ConsumedThenRest(s: string, rest: string)
    requires |rest| <= |s| && s[|s| - |rest|..] == rest
    ensures s == s[..|s| - |rest|] + rest
  {
  }

  /** Round trip: nom's number parser reads back what `ShowNat` wrote, and
      leaves the rest untouched. */
  lemma ParseUnsignedShowNat(n: nat, max: nat, rest: string)
    requires n <= max
    requires |rest| == 0 || !IsDigit(rest[0])
    ensures ParseUnsigned(ShowNat(n) + rest, max) == Some((n, rest))
  {
    var s := ShowNat(n) + rest;
    DigitRunOfShowNat(n, rest);
    assert s[|ShowNat(n)|..] == rest;
  }

  // ---------------------------------------------------------------------------
  // Whitespace, words, lines
  // ---------------------------------------------------------------------------

  /** Rust's `char::is_whitespace`: the Unicode White_Space property. */
  predicate IsWhitespace(c: char) {
    var n := c as int;
    || 0x09 <= n <= 0x0D || n == 0x20 || n == 0x85 || n == 0xA0 || n == 0x1680
    || 0x2000 <= n <= 0x200A || n == 0x2028 || n == 0x2029 || n == 0x202F
    || n == 0x205F || n == 0x3000
  }

  predicate NoWhitespace(s: string) { forall i | 0 <= i < |s| :: !IsWhitespace(s[i]) }

  /** Length of the longest prefix of `s` without whitespace. */
  function WordLength(s: string): (n: nat)
    ensures n <= |s| && NoWhitespace(s[..n])
    ensures n < |s| ==> IsWhitespace(s[n])
  {
    if |s| == 0 || IsWhitespace(s[0]) then 0
    else
      var m := WordLength(s[1..]);
      assert s[..1 + m] == [s[0]] + s[1..][..m];
      1 + m
  }

  /** Rust's `str::split_whitespace`: the maximal non-empty runs of
      non-whitespace characters, in order. */
  function Words(s: string): (ws: seq<string>)
    ensures forall i | 0 <= i < |ws| :: 0 < |ws[i]| && NoWhitespace(ws[i])
    decreases |s|
  {
    if |s| == 0 then []
    else if IsWhitespace(s[0]) then Words(s[1..])
    else
      var n := WordLength(s);
      [s[..n]] + Words(s[n..])
  }

  /** Words joined by single spaces: the inverse of `Words`. */
  function Unwords(ws: seq<string>): string {
    if |ws| == 0 then ""
    else if |ws| == 1 then ws[0]
    else ws[0] + " " + Unwords(ws[1..])
  }

  lemma {:induction false} WordsOfWordThenRest(w: string, rest: string)
    requires 0 < |w| && NoWhitespace(w)
    requires |rest| == 0 || IsWhitespace(rest[0])
    ensures Words(w + rest) == [w] + Words(rest)
  {
    WordLengthAppend(w, rest);
    assert (w + rest)[..|w|] == w;
    assert (w + rest)[|w|..] == rest;
  }

  lemma {:induction false} WordLengthAppend(w: string, rest: string)
    requires NoWhitespace(w)
    requires |rest| == 0 || IsWhitespace(rest[0])
    ensures WordLength(w + rest) == |w|
  {
    if |w| == 0 {
      assert w + rest == rest;
    } else {
      assert (w + rest)[1..] == w[1..] + rest;
      WordLengthAppend(w[1..], rest);
    }
  }

  /** Round trip: splitting words that were joined by spaces gives them back. */
  lemma {:induction false} WordsUnwords(ws: seq<string>)
    requires forall i | 0 <= i < |ws| :: 0 < |ws[i]| && NoWhitespace(ws[i])
    ensures Words(Unwords(ws)) == ws
  {
    if |ws| == 0 {
    } else if |ws| == 1 {
      WordsOfWordThenRest(ws[0], "");
      assert ws[0] + "" == ws[0];
    } else {
      var rest := Unwords(ws[1..]);
      assert Unwords(ws) == ws[0] + (" " + rest);
      WordsOfWordThenRest(ws[0], " " + rest);
      assert (" " + rest)[1..] == rest;
      WordsUnwords(ws[1..]);
    }
  }

  /** Index of the first line feed in `s`, or `|s|` when there is none. */
  function LineEnd(s: string): (n: nat)
    ensures n <= |s|
    ensures n < |s| ==> s[n] == '\n'
    ensures forall i | 0 <= i < n :: s[i] != '\n'
  {
    if |s| == 0 || s[0] == '\n' then 0 else 1 + LineEnd(s[1..])
  }

  /** A line that was ended by a line feed loses one trailing carriage return. */
  function StripCr(line: string): string {
    if 0 < |line| && line[|line| - 1] == '\r' then line[..|line| - 1] else line
  }

  /** Rust's `str::lines`: split at each `\n` (a `\r` right before it is
      removed too); a final line ending does not start an empty last line,
      and the empty string has no lines. */
  function Lines(s: string): (ls: seq<string>)
    ensures forall i | 0 <= i < |ls| :: '\n' !in ls[i]
    ensures |s| == 0 <==> |ls| == 0
    decreases |s|
  {
    if |s| == 0 then []
    else
      var n := LineEnd(s);
      if n == |s| then [s]
      else [StripCr(s[..n])] + Lines(s[n + 1..])
  }

  /** Lines each terminated by a line feed: the inverse of `Lines`. */
  function Unlines(ls: seq<string>): string {
    if |ls| == 0 then "" else ls[0] + "\n" + Unlines(ls[1..])
  }

  predicate PlainLine(l: string) {
    '\n' !in l && (|l| == 0 || l[|l| - 1] != '\r')
  }

  /** Round trip: the lines of text written one per line come back unchanged. */
  lemma {:induction false} LinesUnlines(ls: seq<string>)
    requires forall i | 0 <= i < |ls| :: PlainLine(ls[i])
    ensures Lines(Unlines(ls)) == ls
  {
    if |ls| != 0 {
      LinesCons(ls[0], Unlines(ls[1..]));
      LinesUnlines(ls[1..]);
    }
  }

  /** A line ended by a line feed is split off as the first line. */
  lemma LinesCons(l: string, rest: string)
    requires '\n' !in l
    ensures Lines(l + "\n" + rest) == [StripCr(l)] + Lines(rest)
  {
    var s := l + "\n" + rest;
    LineEndAppend(l, rest);
    assert s[..|l|] == l;
    assert s[|l| + 1..] == rest;
  }

  lemma {:induction false} LineEndAppend(l: string, rest: string)
    requires '\n' !in l
    ensures LineEnd(l + "\n" + rest) == |l|
  {
    if |l| == 0 {
    } else {
      assert (l + "\n" + rest)[1..] == l[1..] + "\n" + rest;
      LineEndAppend(l[1..], rest);
    }
  }

  /** The number of whitespace characters `s` starts with. */
  function LeadingWhitespace(s: string): (n: nat)
    ensures n <= |s|
    ensures forall i | 0 <= i < n :: IsWhitespace(s[i])
    ensures n == |s| || !IsWhitespace(s[n])
  {
    if 0 < |s| && IsWhitespace(s[0]) then
      var n := LeadingWhitespace(s[1..]);
      assert forall i | 1 <= i < n + 1 :: s[i] == s[1..][i - 1];
      n + 1
    else 0
  }

  /** The number of whitespace characters `s` ends with. */
  function TrailingWhitespace(s: string): (n: nat)
    ensures n <= |s|
    ensures forall i | |s| - n <= i < |s| :: IsWhitespace(s[i])
    ensures n == |s| || !IsWhitespace(s[|s| - n - 1])
  {
    if 0 < |s| && IsWhitespace(s[|s| - 1]) then
      var n := TrailingWhitespace(s[..|s| - 1]);
      assert forall i | 0 <= i < |s| - 1 :: s[i] == s[..|s| - 1][i];
      n + 1
    else 0
  }

  function TrimStart(s: string): (r: string)
    ensures |r| <= |s| && r == s[|s| - |r|..]
    ensures |r| == 0 || !IsWhitespace(r[0])
    ensures forall i | 0 <= i < |s| - |r| :: IsWhitespace(s[i])
  {
    s[LeadingWhitespace(s)..]
  }

  function TrimEnd(s: string): (r: string)
    ensures |r| <= |s| && r == s[..|r|]
    ensures |r| == 0 || !IsWhitespace(r[|r| - 1])
    ensures forall i | |r| <= i < |s| :: IsWhitespace(s[i])
  {
    s[..|s| - TrailingWhitespace(s)]
  }

  /** `r` is the part of `s` from index `k` on, with only whitespace before
      it and after it. */
  predicate InfixBetweenWhitespace(s: string, r: string, k: nat) {
    && k + |r| <= |s|
    && r == s[k..k + |r|]
    && (forall i | 0 <= i < k :: IsWhitespace(s[i]))
    && (forall i | k + |r| <= i < |s| :: IsWhitespace(s[i]))
  }

  /** Rust's `str::trim`: drop whitespace at both ends and nothing else. */
  function Trim(s: string): (r: string)
    ensures |r| == 0 || (!IsWhitespace(r[0]) && !IsWhitespace(r[|r| - 1]))
    ensures exists k :: InfixBetweenWhitespace(s, r, k)
  {
    var t := TrimStart(s);
    var r := TrimEnd(t);
    var k := |s| - |t|;
    assert r == s[k..k + |r|];
    assert forall i | k + |r| <= i < |s| :: s[i] == t[i - k];
    assert InfixBetweenWhitespace(s, r, k);
    r
  }

  /** Text that neither starts nor ends with whitespace is left as it is. */
  lemma TrimOfTrimmed(s: string)
    requires |s| == 0 || (!IsWhitespace(s[0]) && !IsWhitespace(s[|s| - 1]))
    ensures Trim(s) == s
  {
  }

  // ---------------------------------------------------------------------------
  // UTF-8 length
  // ---------------------------------------------------------------------------

  /** The number of bytes UTF-8 spends on `c`. */
  function Utf8Width(c: char): (n: nat)
    ensures 1 <= n <= 4
    ensures n == 1 <==> (c as int) < 0x80
  {
    var v := c as int;
    if v < 0x80 then 1 else if v < 0x800 then 2 else if v < 0x1_0000 then 3 else 4
  }

  /** Rust's `str::len`: the length in bytes of the UTF-8 encoding. */
  function Utf8Length(s: string): (n: nat)
    ensures |s| <= n <= 4 * |s|
  {
    if |s| == 0 then 0 else Utf8Width(s[0]) + Utf8Length(s[1..])
  }

  /** Text made of ASCII characters takes one byte per character. */
  lemma {:induction false} Utf8LengthOfAscii(s: string)
    requires forall i | 0 <= i < |s| :: (s[i] as int) < 0x80
    ensures Utf8Length(s) == |s|
  {
    if |s| != 0 {
      assert forall i | 0 <= i < |s| - 1 :: s[1..][i] == s[i + 1];
      Utf8LengthOfAscii(s[1..]);
    }
  }

  /** The byte length of a concatenation is the sum of the byte lengths. */
  lemma {:induction false} Utf8LengthAppend(a: string, b: string)
    ensures Utf8Length(a + b) == Utf8Length(a) + Utf8Length(b)
  {
    if |a| != 0 {
      assert (a + b)[1..] == a[1..] + b;
      Utf8LengthAppend(a[1..], b);
    } else {
      assert a + b == b;
    }
  }

  // ---------------------------------------------------------------------------
  // Signed 64-bit integers
  // ---------------------------------------------------------------------------

  /** Rust's `i64::from_str`: an optional `+` or `-`, then at least one digit
      and nothing else; values outside the 64-bit range are rejected. */
  function ParseI64(s: string): (r: Option<int>)
    ensures r.Some? ==> I64Min <= r.value <= I64Max
    ensures r.Some? ==> 0 < |s| && !IsWhitespace(s[0])
  {
    if |s| == 0 then None
    else
      var negative := s[0] == '-';
      var digits := if s[0] == '-' || s[0] == '+' then s[1..] else s;
      if |digits| == 0 || !AllDigits(digits) then None
      else
        var v: int := if negative then 0 - (DecimalValue(digits) as int) else DecimalValue(digits);
        if I64Min <= v <= I64Max then Some(v) else None
  }

  /** Rust's `Display` for a signed integer. */
  function ShowInt(n: int): (s: string)
    ensures 0 < |s| && NoWhitespace(s)
  {
    if n < 0 then "-" + ShowNat(-n) else ShowNat(n)
  }

  /** Round trip: every 64-bit integer reads back from its rendering. */
  lemma ParseI64ShowInt(n: int)
    requires I64Min <= n <= I64Max
    ensures ParseI64(ShowInt(n)) == Some(n)
  {
    var s := ShowInt(n);
    if n < 0 {
      assert s[1..] == ShowNat(-n);
    }
  }

  /** `filter_map(|s| s.parse::<i64>().ok())`: the tokens that read as an
      `i64`, in order; the others are dropped. */
  function ParsedI64s(tokens: seq<string>): (vs: seq<int>)
    ensures |vs| <= |tokens|
    ensures forall i | 0 <= i < |vs| :: I64Min <= vs[i] <= I64Max
    ensures |vs| == |tokens| <==> forall i | 0 <= i < |tokens| :: ParseI64(tokens[i]).Some?
    ensures |vs| == |tokens| ==> forall i | 0 <= i < |tokens| :: ParseI64(tokens[i]) == Some(vs[i])
    ensures |vs| == 0 <==> forall i | 0 <= i < |tokens| :: ParseI64(tokens[i]).None?
  {
    if |tokens| == 0 then []
    else
      var rest := ParsedI64s(tokens[1..]);
      match ParseI64(tokens[0])
      case Some(v) => [v] + rest
      case None => rest
  }

  /** Filtering a list in two parts keeps the survivors of each part, in
      order: together with `ParsedI64sOne` this pins the result for every
      list of tokens. */
  lemma {:induction false} ParsedI64sAppend(a: seq<string>, b: seq<string>)
    ensures ParsedI64s(a + b) == ParsedI64s(a) + ParsedI64s(b)
  {
    if |a| == 0 {
      assert a + b == b;
    } else {
      assert (a + b)[1..] == a[1..] + b;
      ParsedI64sAppend(a[1..], b);
    }
  }

  /** A single token is kept, as its value, exactly when it reads as an `i64`. */
  lemma ParsedI64sOne(t: string)
    ensures ParsedI64s([t]) == if ParseI64(t).Some? then [ParseI64(t).value] else []
  {
    assert [t][1..] == [];
  }

  function Abs(x: int): nat { if x < 0 then -x else x }

  // ---------------------------------------------------------------------------
  // nom tags
  // ---------------------------------------------------------------------------

  predicate StartsWith(s: string, prefix: string) {
    |prefix| <= |s| && s[..|prefix|] == prefix
  }

  /** nom's `tag`: the rest after `prefix`, if `s` starts with it. */
  function Tag(s: string, prefix: string): (r: Option<string>)
    ensures r.Some? <==> StartsWith(s, prefix)
    ensures r.Some? ==> s == prefix + r.value
  {
    if StartsWith(s, prefix) then
      assert s == s[..|prefix|] + s[|prefix|..];
      Some(s[|prefix|..])
    else None
  }

  lemma TagAppend(prefix: string, rest: string)
    ensures Tag(prefix + rest, prefix) == Some(rest)
  {
    assert (prefix + rest)[..|prefix|] == prefix;
  }
}
