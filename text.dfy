/**
 * The parts of Rust's `str` the Linux disk code relies on: `trim`, `split_whitespace`,
 * `lines` and `parse::<u64>`, on text as a sequence of Unicode scalar values.
 */
module Text {
  import opened Wrappers
  import opened Ints

  /**
   * `char::is_whitespace`, restricted to ASCII: space, tab, line feed, vertical tab,
   * form feed and carriage return.
   */
  predicate IsWhitespace(c: char): (b: bool)
    ensures b <==> c == ' ' || c == '\t' || c == '\n' || c == '\U{B}' || c == '\U{C}' || c == '\r'
  {
    c == ' ' || '\t' <= c <= '\r'
  }

  predicate NoWhitespace(s: string) {
    forall i :: 0 <= i < |s| ==> !IsWhitespace(s[i])
  }

  predicate AllWhitespace(s: string) {
    forall i :: 0 <= i < |s| ==> IsWhitespace(s[i])
  }

  // ---------------------------------------------------------------- trim

  /** `str::trim_start`: drops the longest all-whitespace prefix. */
  function TrimStart(s: string): (r: string)
    ensures |r| <= |s| && r == s[|s| - |r|..]
    ensures AllWhitespace(s[..|s| - |r|])
    ensures r == [] || !IsWhitespace(r[0])
  {
    if s != [] && IsWhitespace(s[0]) then
      var r := TrimStart(s[1..]);
      assert s[..|s| - |r|] == [s[0]] + s[1..][..|s| - 1 - |r|];
      r
    else
      s
  }

  /** `str::trim_end`: drops the longest all-whitespace suffix. */
  function TrimEnd(s: string): (r: string)
    ensures |r| <= |s| && r == s[..|r|]
    ensures AllWhitespace(s[|r|..])
    ensures r == [] || !IsWhitespace(r[|r| - 1])
  {
    if s != [] && IsWhitespace(s[|s| - 1]) then
      var t := s[..|s| - 1];
      var r := TrimEnd(t);
      assert r == t[..|r|] == s[..|r|];
      assert s[|r|..] == t[|r|..] + [s[|s| - 1]];
      r
    else
      s
  }

  /** `str::trim` */
  function Trim(s: string): (r: string)
    ensures r == [] || (!IsWhitespace(r[0]) && !IsWhitespace(r[|r| - 1]))
    ensures r == [] <==> AllWhitespace(s)
  {
    TrimEnd(TrimStart(s))
  }

  /** Trimming keeps every character that is not whitespace. */
  lemma TrimKeepsNonWhitespace(s: string, i: nat)
    requires i < |s| && !IsWhitespace(s[i])
    ensures s[i] in Trim(s)
  {
    var t := TrimStart(s);
    var k := |s| - |t|;
    assert k <= i;
    assert t[i - k] == s[i];
    var u := TrimEnd(t);
    assert i - k < |u|;
    assert u[i - k] == s[i];
  }

  lemma {:induction false} TrimStartPadded(pad: string, s: string)
    requires AllWhitespace(pad)
    ensures TrimStart(pad + s) == TrimStart(s)
  {
    if pad == [] {
      assert pad + s == s;
    } else {
      assert (pad + s)[1..] == pad[1..] + s;
      TrimStartPadded(pad[1..], s);
    }
  }

  lemma {:induction false} TrimEndPadded(s: string, pad: string)
    requires AllWhitespace(pad)
    ensures TrimEnd(s + pad) == TrimEnd(s)
  {
    if pad == [] {
      assert s + pad == s;
    } else {
      assert (s + pad)[..|s + pad| - 1] == s + pad[..|pad| - 1];
      TrimEndPadded(s, pad[..|pad| - 1]);
    }
  }

  /** Text that neither starts nor ends with whitespace is its own trim. */
  lemma TrimUnpadded(s: string)
    requires s == [] || (!IsWhitespace(s[0]) && !IsWhitespace(s[|s| - 1]))
    ensures Trim(s) == s
  {
    TrimPadded([], s, []);
    assert [] + s + [] == s;
  }

  /** Trimming gives back exactly the text between two runs of whitespace. */
  lemma TrimPadded(pre: string, core: string, post: string)
    requires AllWhitespace(pre) && AllWhitespace(post)
    requires core == [] || (!IsWhitespace(core[0]) && !IsWhitespace(core[|core| - 1]))
    ensures Trim(pre + core + post) == core
  {
    assert pre + core + post == pre + (core + post);
    TrimStartPadded(pre, core + post);
    if core == [] {
      assert core + post == post;
      assert TrimStart(post) == [];
    } else {
      var cp := core + post;
      assert cp[0] == core[0];
      assert TrimStart(cp) == cp;
      TrimEndPadded(core, post);
      assert TrimEnd(core) == core;
    }
  }

  /** `s` is `core` with nothing but whitespace before and after it. */
  ghost predicate PaddedBy(s: string, core: string) {
    exists i :: 0 <= i <= |s| - |core| && s[i..i + |core|] == core
      && AllWhitespace(s[..i]) && AllWhitespace(s[i + |core|..])
  }

  /** Every text pads itself, with nothing on either side. */
  lemma PaddedBySelf(s: string)
    ensures PaddedBy(s, s)
  {
    assert s[0..|s|] == s;
    assert s[..0] == [] && s[|s|..] == [];
  }

  /** Trimming yields a given text exactly when the input is that text padded with whitespace. */
  lemma TrimIff(s: string, core: string)
    requires core != [] && !IsWhitespace(core[0]) && !IsWhitespace(core[|core| - 1])
    ensures Trim(s) == core <==> PaddedBy(s, core)
  {
    if PaddedBy(s, core) {
      TrimOfPadded(s, core);
    }
    if Trim(s) == core {
      PaddedOfTrim(s, core);
    }
  }

  /** A text is its three slices around two cut points. */
  lemma SplitAround(s: string, i: nat, j: nat)
    requires i <= j <= |s|
    ensures s == s[..i] + s[i..j] + s[j..]
  {
  }

  lemma TrimOfPadded(s: string, core: string)
    requires core != [] && !IsWhitespace(core[0]) && !IsWhitespace(core[|core| - 1])
    requires PaddedBy(s, core)
    ensures Trim(s) == core
  {
    var i :| 0 <= i <= |s| - |core| && s[i..i + |core|] == core
      && AllWhitespace(s[..i]) && AllWhitespace(s[i + |core|..]);
    SplitAround(s, i, i + |core|);
    TrimPadded(s[..i], core, s[i + |core|..]);
  }

  lemma PaddedOfTrim(s: string, core: string)
    requires Trim(s) == core
    ensures PaddedBy(s, core)
  {
    var t := TrimStart(s);
    var i := |s| - |t|;
    assert t == s[i..];
    assert t[..|core|] == core;
    assert s[i..i + |core|] == core;
    assert s[i + |core|..] == t[|core|..];
  }

  // ---------------------------------------------------------------- split_whitespace

  /** The length of the leading run of non-whitespace characters. */
  function WordLength(s: string): (n: nat)
    ensures n <= |s| && NoWhitespace(s[..n])
    ensures n == |s| || IsWhitespace(s[n])
  {
    if s == [] || IsWhitespace(s[0]) then 0
    else
      var n := WordLength(s[1..]);
      assert s[..n + 1] == [s[0]] + s[1..][..n];
      1 + n
  }

  /** A token of `split_whitespace`: a non-empty run of non-whitespace characters. */
  predicate IsWord(w: string) {
    w != [] && NoWhitespace(w)
  }

  /** `str::split_whitespace`: the maximal runs of non-whitespace characters, in order. */
  function SplitWhitespace(s: string): (words: seq<string>)
    ensures forall i :: 0 <= i < |words| ==> IsWord(words[i])
    ensures words == [] <==> AllWhitespace(s)
    decreases |s|
  {
    if s == [] then []
    else if IsWhitespace(s[0]) then
      assert s == [s[0]] + s[1..];
      SplitWhitespace(s[1..])
    else
      var n := WordLength(s);
      assert IsWord(s[..n]);
      [s[..n]] + SplitWhitespace(s[n..])
  }

  lemma {:induction false} WordLengthOfWord(w: string, s: string)
    requires NoWhitespace(w)
    requires s == [] || IsWhitespace(s[0])
    ensures WordLength(w + s) == |w|
  {
    if w == [] {
      assert w + s == s;
    } else {
      assert (w + s)[1..] == w[1..] + s;
      WordLengthOfWord(w[1..], s);
    }
  }

  /** Leading whitespace does not change the words. */
  lemma {:induction false} SplitPadded(pad: string, s: string)
    requires AllWhitespace(pad)
    ensures SplitWhitespace(pad + s) == SplitWhitespace(s)
  {
    if pad == [] {
      assert pad + s == s;
    } else {
      assert (pad + s)[1..] == pad[1..] + s;
      SplitPadded(pad[1..], s);
    }
  }

  /** A word followed by whitespace (or by nothing) is the first word. */
  lemma SplitWord(w: string, s: string)
    requires IsWord(w)
    requires s == [] || IsWhitespace(s[0])
    ensures SplitWhitespace(w + s) == [w] + SplitWhitespace(s)
  {
    WordLengthOfWord(w, s);
    assert (w + s)[..|w|] == w;
    assert (w + s)[|w|..] == s;
  }

  /** A word after leading whitespace and before whitespace (or nothing) is the first word. */
  lemma SplitPaddedWord(pad: string, w: string, s: string)
    requires AllWhitespace(pad) && IsWord(w)
    requires s == [] || IsWhitespace(s[0])
    ensures SplitWhitespace(pad + w + s) == [w] + SplitWhitespace(s)
  {
    assert pad + w + s == pad + (w + s);
    SplitPadded(pad, w + s);
    SplitWord(w, s);
  }

  // ---------------------------------------------------------------- lines

  predicate NoNewline(s: string) {
    forall i :: 0 <= i < |s| ==> s[i] != '\n'
  }

  /** The index of the first line feed, or |s| when there is none. */
  function NewlineIndex(s: string): (k: nat)
    ensures k <= |s| && NoNewline(s[..k])
    ensures k < |s| ==> s[k] == '\n'
  {
    if s == [] || s[0] == '\n' then 0
    else
      var k := NewlineIndex(s[1..]);
      assert s[..k + 1] == [s[0]] + s[1..][..k];
      1 + k
  }

  function StripCarriageReturn(line: string): string {
    if line != [] && line[|line| - 1] == '\r' then line[..|line| - 1] else line
  }

  /**
   * `str::lines`: the text between line feeds, a carriage return right before a line feed
   * dropped; a line feed at the very end does not start a further, empty line.
   */
  function Lines(s: string): (lines: seq<string>)
    ensures lines == [] <==> s == []
    ensures forall i :: 0 <= i < |lines| ==> NoNewline(lines[i])
    decreases |s|
  {
    if s == [] then []
    else
      var k := NewlineIndex(s);
      if k == |s| then [s]
      else [StripCarriageReturn(s[..k])] + Lines(s[k + 1..])
  }

  lemma {:induction false} NewlineIndexAfterLine(line: string, rest: string)
    requires NoNewline(line)
    ensures NewlineIndex(line + "\n" + rest) == |line|
  {
    if line != [] {
      assert (line + "\n" + rest)[1..] == line[1..] + "\n" + rest;
      NewlineIndexAfterLine(line[1..], rest);
    }
  }

  /** A line ended by a line feed is the first line. */
  lemma LinesCons(line: string, rest: string)
    requires NoNewline(line)
    ensures Lines(line + "\n" + rest) == [StripCarriageReturn(line)] + Lines(rest)
  {
    var s := line + "\n" + rest;
    NewlineIndexAfterLine(line, rest);
    assert s[..|line|] == line;
    assert s[|line| + 1..] == rest;
  }

  /** Without a line feed the whole text is one line. */
  lemma LinesSingle(line: string)
    requires line != [] && NoNewline(line)
    ensures Lines(line) == [line]
  {
    NewlineIndexAfterLineless(line);
  }

  lemma {:induction false} NewlineIndexAfterLineless(line: string)
    requires NoNewline(line)
    ensures NewlineIndex(line) == |line|
  {
    if line != [] {
      NewlineIndexAfterLineless(line[1..]);
    }
  }

  // ---------------------------------------------------------------- parse::<u64>

  predicate IsDigit(c: char) {
    '0' <= c <= '9'
  }

  predicate AllDigits(s: string) {
    forall i :: 0 <= i < |s| ==> IsDigit(s[i])
  }

  /** The number a string of decimal digits denotes, most significant digit first. */
  function DecimalValue(s: string): nat
    requires AllDigits(s)
  {
    if s == [] then 0 else DecimalValue(s[..|s| - 1]) * 10 + (s[|s| - 1] as int - '0' as int)
  }

  /**
   * Rust's `u64::from_str`: an optional '+' followed by at least one decimal digit, denoting
   * a value below 2^64; anything else (the empty string, a lone '+', a sign '-', whitespace,
   * another character, a value that does not fit) is an error.
   */
  function ParseU64(s: string): (r: Option<u64>)
    ensures r.Some? ==> s != [] && NoWhitespace(s)
    ensures r.Some? ==> forall i :: 0 <= i < |s| ==> IsDigit(s[i]) || (i == 0 && s[i] == '+')
  {
    var digits := if s != [] && s[0] == '+' then s[1..] else s;
    if digits != [] && AllDigits(digits) && DecimalValue(digits) < U64_LIMIT then
      Some(DecimalValue(digits))
    else
      None
  }

  function DigitChar(d: nat): (c: char)
    requires d < 10
    ensures IsDigit(c) && c as int - '0' as int == d
  {
    ('0' as int + d) as char
  }

  /** The canonical decimal form of n: digits only, no leading zero. */
  function ToDecimal(n: nat): (s: string)
    ensures s != [] && AllDigits(s) && DecimalValue(s) == n
    ensures s[0] == '0' ==> n == 0
  {
    if n < 10 then [DigitChar(n)]
    else
      var t := ToDecimal(n / 10);
      var s := t + [DigitChar(n % 10)];
      assert s[..|s| - 1] == t;
      s
  }

  /** Parsing the decimal form of a u64 gives it back, with or without a '+' sign. */
  lemma ParseToDecimal(n: u64)
    ensures ParseU64(ToDecimal(n)) == Some(n)
    ensures ParseU64("+" + ToDecimal(n)) == Some(n)
  {
    assert ("+" + ToDecimal(n))[1..] == ToDecimal(n);
  }

  /** A decimal value of 2^64 or more does not parse. */
  lemma ParseRejectsOverflow(n: nat)
    requires n >= U64_LIMIT
    ensures ParseU64(ToDecimal(n)) == None
    ensures ParseU64("+" + ToDecimal(n)) == None
  {
    assert ("+" + ToDecimal(n))[1..] == ToDecimal(n);
  }

  predicate AllZeros(s: string) {
    forall i :: 0 <= i < |s| ==> s[i] == '0'
  }

  /** `s` spells n as `u64::from_str` accepts it: an optional '+', any zeros, n's decimal form. */
  ghost predicate SpellsU64(s: string, n: nat) {
    exists sign, zeros :: (sign == "" || sign == "+") && AllZeros(zeros) && s == sign + (zeros + ToDecimal(n))
  }

  lemma {:induction false} ZerosAreZero(zeros: string)
    requires AllZeros(zeros)
    ensures AllDigits(zeros) && DecimalValue(zeros) == 0
  {
    if zeros != [] {
      ZerosAreZero(zeros[..|zeros| - 1]);
    }
  }

  /** Leading zeros do not change the value. */
  lemma {:induction false} ZerosValue(zeros: string, t: string)
    requires AllZeros(zeros) && AllDigits(t)
    ensures AllDigits(zeros + t) && DecimalValue(zeros + t) == DecimalValue(t)
    decreases |t|
  {
    if t == [] {
      assert zeros + t == zeros;
      ZerosAreZero(zeros);
    } else {
      var u := t[..|t| - 1];
      assert (zeros + t)[..|zeros + t| - 1] == zeros + u;
      ZerosValue(zeros, u);
    }
  }

  lemma {:induction false} LeadingNonZero(d: string)
    requires d != [] && AllDigits(d) && d[0] != '0'
    ensures DecimalValue(d) > 0
  {
    if |d| > 1 {
      LeadingNonZero(d[..|d| - 1]);
    }
  }

  /** Digits without a leading zero (or a lone "0") are the canonical form of their value. */
  lemma {:induction false} CanonicalDecimal(d: string)
    requires d != [] && AllDigits(d) && (d[0] != '0' || |d| == 1)
    ensures ToDecimal(DecimalValue(d)) == d
  {
    var n := DecimalValue(d);
    var last := d[|d| - 1];
    var u := d[..|d| - 1];
    assert n == DecimalValue(u) * 10 + (last as int - '0' as int);
    if |d| == 1 {
      assert u == [];
      assert DigitChar(n) == last;
    } else {
      LeadingNonZero(u);
      CanonicalDecimal(u);
      assert n / 10 == DecimalValue(u) && n % 10 == last as int - '0' as int;
      assert DigitChar(n % 10) == last;
      assert d == u + [last];
    }
  }

  lemma ConsConcat(x: char, u: string, v: string, w: string)
    requires w == u + v
    ensures [x] + w == ([x] + u) + v
  {
  }

  /** One more leading zero changes neither the value nor its canonical spelling. */
  lemma LeadingZero(d: string, zeros: string, c: string)
    requires |d| > 1 && d[0] == '0' && AllDigits(d)
    requires AllZeros(zeros) && d[1..] == zeros + c && c == ToDecimal(DecimalValue(d[1..]))
    ensures AllZeros([d[0]] + zeros) && d == ([d[0]] + zeros) + c && c == ToDecimal(DecimalValue(d))
  {
    var rest := d[1..];
    assert d == [d[0]] + rest;
    ZerosValue([d[0]], rest);
    ConsConcat(d[0], zeros, c, rest);
  }

  /** A digit string is some zeros followed by the canonical form of its value. */
  lemma {:induction false} StripZeros(d: string) returns (zeros: string, c: string)
    requires d != [] && AllDigits(d)
    ensures AllZeros(zeros) && d == zeros + c && c == ToDecimal(DecimalValue(d))
    decreases |d|
  {
    if |d| > 1 && d[0] == '0' {
      var z, c' := StripZeros(d[1..]);
      LeadingZero(d, z, c');
      zeros, c := [d[0]] + z, c';
    } else {
      CanonicalDecimal(d);
      zeros, c := [], d;
    }
  }

  /** The digits `u64::from_str` reads from a text it accepts, and the sign before them. */
  lemma ParsedDigits(s: string, n: u64) returns (sign: string, digits: string)
    requires ParseU64(s) == Some(n)
    ensures sign == "" || sign == "+"
    ensures s == sign + digits && digits != [] && AllDigits(digits) && DecimalValue(digits) == n as nat
  {
    if s[0] == '+' {
      sign, digits := "+", s[1..];
    } else {
      sign, digits := "", s;
    }
  }

  lemma SpelledOfParsed(s: string, n: u64)
    requires ParseU64(s) == Some(n)
    ensures SpellsU64(s, n)
  {
    var sign, digits := ParsedDigits(s, n);
    var zeros, c := StripZeros(digits);
    assert c == ToDecimal(n);
  }

  /** A sign-free run of digits, with or without a leading `+`, parses to its value when it fits. */
  lemma ParseSignedDigits(sign: string, digits: string)
    requires sign == "" || sign == "+"
    requires digits != [] && AllDigits(digits) && DecimalValue(digits) < U64_LIMIT
    ensures ParseU64(sign + digits) == Some(DecimalValue(digits) as u64)
  {
    var s := sign + digits;
    assert IsDigit(digits[0]);
    if sign == "+" {
      assert s[1..] == digits;
    } else {
      assert s == digits;
    }
  }

  lemma ParsedOfSpelled(s: string, n: u64)
    requires SpellsU64(s, n)
    ensures ParseU64(s) == Some(n)
  {
    var sign, zeros :| (sign == "" || sign == "+") && AllZeros(zeros) && s == sign + (zeros + ToDecimal(n));
    var d := ToDecimal(n);
    ZerosValue(zeros, d);
    assert s == sign + (zeros + d);
    ParseSignedDigits(sign, zeros + d);
  }

  /** `u64::from_str` gives n exactly for the spellings of n. */
  lemma ParseU64Iff(s: string, n: u64)
    ensures ParseU64(s) == Some(n) <==> SpellsU64(s, n)
  {
    if ParseU64(s) == Some(n) {
      SpelledOfParsed(s, n);
    }
    if SpellsU64(s, n) {
      ParsedOfSpelled(s, n);
    }
  }

  /** `s` is a spelling of n with only whitespace around it. */
  ghost predicate PaddedU64(s: string, n: nat) {
    exists t :: SpellsU64(t, n) && PaddedBy(s, t)
  }

  /** `s.trim().parse::<u64>()` gives n exactly when `s` is a spelling of n padded with whitespace. */
  lemma TrimParseIff(s: string, n: u64)
    ensures ParseU64(Trim(s)) == Some(n) <==> PaddedU64(s, n)
  {
    var u := Trim(s);
    if ParseU64(u) == Some(n) {
      ParseU64Iff(u, n);
      TrimIff(s, u);
      assert SpellsU64(u, n) && PaddedBy(s, u);
    }
    if PaddedU64(s, n) {
      var t :| SpellsU64(t, n) && PaddedBy(s, t);
      ParseU64Iff(t, n);
      TrimIff(s, t);
    }
  }
}
