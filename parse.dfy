/**
 * `parse_pair` (src/main.rs:21-31): split a string at the first occurrence
 * of a one-character delimiter and parse both halves with `T::from_str`.
 * `from_str` is a parameter of the model; the integer instances the
 * program uses (`usize`, and `i32` in its tests) are modelled by
 * ParseInteger below.
 */
module Parse {
  import opened Wrappers

  /** `str::find` with a one-character pattern: the index of the first occurrence. */
  function Find(s: string, delim: char): (r: Option<nat>)
    ensures r.None? <==> delim !in s
    ensures r.Some? ==> r.value < |s| && s[r.value] == delim && delim !in s[..r.value]
  {
    if s == [] then None
    else if s[0] == delim then Some(0)
    else match Find(s[1..], delim)
      case None => None
      case Some(i) =>
        assert s[..i + 1] == [s[0]] + s[1..][..i];
        Some(i + 1)
  }

  /**
   * `parse_pair::<T>(s, delim)`: None when the delimiter is absent or
   * either half fails to parse, otherwise both parsed halves.
   */
  function ParsePair<T>(s: string, delim: char, parse: string -> Option<T>): (r: Option<(T, T)>)
    ensures delim !in s ==> r == None
    ensures r.Some? ==> exists i :: 0 <= i < |s| && s[i] == delim && parse(s[..i]) == Some(r.value.0)
  {
    match Find(s, delim)
    case None => None
    case Some(index) =>
      match (parse(s[..index]), parse(s[index + 1..]))
      case (Some(x), Some(y)) => Some((x, y))
      case _ => None
  }

  /** Splitting happens at the first delimiter: the left half holds none. */
  lemma FindFirst(a: string, b: string, delim: char)
    requires delim !in a
    ensures Find(a + [delim] + b, delim) == Some(|a|)
  {
    var s := a + [delim] + b;
    var r := Find(s, delim);
    assert s[|a|] == delim;
    assert s[..|a|] == a;
  }

  /**
   * Every string with the delimiter is `a + [delim] + b` with `delim !in a`;
   * parse_pair then parses exactly `a` and `b`.
   */
  lemma ParsePairSplit<T>(a: string, b: string, delim: char, parse: string -> Option<T>)
    requires delim !in a
    ensures ParsePair(a + [delim] + b, delim, parse) ==
            if parse(a).Some? && parse(b).Some? then Some((parse(a).value, parse(b).value)) else None
  {
    var s := a + [delim] + b;
    FindFirst(a, b, delim);
    assert s[..|a|] == a;
    assert s[|a| + 1..] == b;
  }

  /** The decomposition used by ParsePairSplit exists for every string containing the delimiter. */
  lemma SplitAtFirst(s: string, delim: char) returns (a: string, b: string)
    requires delim in s
    ensures s == a + [delim] + b && delim !in a
  {
    var i := Find(s, delim).value;
    a, b := s[..i], s[i + 1..];
    assert s == s[..i] + [s[i]] + s[i + 1..];
  }

  /** With a parser that rejects "", an empty half makes parse_pair fail. */
  lemma ParsePairEmptyHalf<T>(a: string, b: string, delim: char, parse: string -> Option<T>)
    requires delim !in a && parse("") == None
    requires a == [] || b == []
    ensures ParsePair(a + [delim] + b, delim, parse) == None
  {
    ParsePairSplit(a, b, delim, parse);
  }

  // ---------------------------------------------------------------------
  // `FromStr` for the primitive integer types, radix 10
  // ---------------------------------------------------------------------

  predicate IsDigit(ch: char) {
    '0' <= ch <= '9'
  }

  predicate AllDigits(s: string) {
    forall i :: 0 <= i < |s| ==> IsDigit(s[i])
  }

  function DigitValue(ch: char): nat
    requires IsDigit(ch)
  {
    ch as int - '0' as int
  }

  /** The value of a run of decimal digits, most significant first. */
  function DigitsValue(s: string): nat
    requires AllDigits(s)
  {
    if s == [] then 0 else 10 * DigitsValue(s[..|s| - 1]) + DigitValue(s[|s| - 1])
  }

  const I32Min: int := -0x8000_0000
  const I32Max: int := 0x7fff_ffff
  const UsizeMax: int := 0xffff_ffff_ffff_ffff

  /**
   * `from_str` for an integer type whose range is lo..hi: one optional
   * sign ('-' only when the type is signed), then one or more decimal
   * digits and nothing else, and a value in range. A lone sign is refused.
   */
  function ParseInteger(s: string, signed: bool, lo: int, hi: int): (r: Option<int>)
    ensures r.Some? ==> lo <= r.value <= hi
    ensures r.Some? ==> s != [] && (AllDigits(s) || (s[0] in "+-" && AllDigits(s[1..])))
  {
    if s == [] then None
    else if (s[0] == '+' || s[0] == '-') && |s| == 1 then None
    else
      var negative := signed && s[0] == '-';
      var digits := if s[0] == '+' || negative then s[1..] else s;
      if !AllDigits(digits) then None
      else
        var v: int := if negative then -(DigitsValue(digits) as int) else DigitsValue(digits);
        if lo <= v <= hi then Some(v) else None
  }

  /** `i32::from_str`: a parsed value fits in 32 bits. */
  function ParseI32(s: string): (r: Option<int>)
    ensures r.Some? ==> I32Min <= r.value <= I32Max
  {
    ParseInteger(s, true, I32Min, I32Max)
  }

  /** `usize::from_str` on a 64-bit target: a parsed value fits in 64 bits and has no minus sign. */
  function ParseUsize(s: string): (r: Option<int>)
    ensures r.Some? ==> 0 <= r.value <= UsizeMax && s != [] && s[0] != '-'
  {
    ParseInteger(s, false, 0, UsizeMax)
  }

  // ---------------------------------------------------------------------
  // Printing integers, the inverse of ParseInteger
  // ---------------------------------------------------------------------

  function DigitChar(d: nat): (ch: char)
    requires d < 10
    ensures IsDigit(ch) && DigitValue(ch) == d
  {
    ('0' as int + d) as char
  }

  /** The shortest decimal numeral of n. */
  function ShowNat(n: nat): (s: string)
    ensures s != [] && AllDigits(s) && DigitsValue(s) == n
  {
    if n < 10 then [DigitChar(n)]
    else
      var s := ShowNat(n / 10) + [DigitChar(n % 10)];
      assert s[..|s| - 1] == ShowNat(n / 10);
      s
  }

  /** The decimal numeral of x, with a '-' when x is negative. */
  function ShowInt(x: int): string {
    if x < 0 then "-" + ShowNat(-x) else ShowNat(x)
  }

  /** A numeral holds only digits and '-'. */
  lemma ShowIntChars(x: int, ch: char)
    requires ch in ShowInt(x)
    ensures IsDigit(ch) || ch == '-'
  {
    var s := ShowInt(x);
    var i :| 0 <= i < |s| && s[i] == ch;
    if x < 0 && i > 0 {
      assert s[i] == ShowNat(-x)[i - 1];
    }
  }

  /** Parsing a printed integer in range gives it back. */
  lemma ParseShowInt(x: int, lo: int, hi: int)
    requires lo <= x <= hi
    ensures ParseInteger(ShowInt(x), true, lo, hi) == Some(x)
  {
    var s := ShowInt(x);
    if x < 0 {
      assert s[1..] == ShowNat(-x);
    }
  }

  /** Parsing a printed natural number in range gives it back, signed or not. */
  lemma ParseShowNat(n: nat, signed: bool, lo: int, hi: int)
    requires lo <= n <= hi
    ensures ParseInteger(ShowNat(n), signed, lo, hi) == Some(n)
  {
  }

  /** Printing a pair of i32 values around a delimiter and parsing it back. */
  lemma ParsePairRoundTrip(x: int, y: int, delim: char)
    requires I32Min <= x <= I32Max && I32Min <= y <= I32Max
    requires !IsDigit(delim) && delim != '-'
    ensures ParsePair(ShowInt(x) + [delim] + ShowInt(y), delim, ParseI32) == Some((x, y))
  {
    if delim in ShowInt(x) {
      ShowIntChars(x, delim);
    }
    ParseShowInt(x, I32Min, I32Max);
    ParseShowInt(y, I32Min, I32Max);
    ParsePairSplit(ShowInt(x), ShowInt(y), delim, ParseI32);
  }

  /**
   * The PIXELS argument of `main`, `parse_pair::<usize>(s, "x")`: printing
   * a width and a height in range around 'x' and parsing it back.
   */
  lemma ParsePixelsRoundTrip(width: nat, height: nat)
    requires width <= UsizeMax && height <= UsizeMax
    ensures ParsePair(ShowNat(width) + ['x'] + ShowNat(height), 'x', ParseUsize) == Some((width, height))
  {
    ParseShowNat(width, false, 0, UsizeMax);
    ParseShowNat(height, false, 0, UsizeMax);
    ParsePairSplit(ShowNat(width), ShowNat(height), 'x', ParseUsize);
  }

  // The cases of the test at src/main.rs:137-144 that use an integer type.

  /** `parse_pair("", ",")` is None: no delimiter. */
  lemma TestEmptyInput()
    ensures ParsePair("", ',', ParseI32) == None
  {
  }

  /** `parse_pair("10,", ",")` is None: the right half is empty. */
  lemma TestEmptyRight()
    ensures ParsePair("10,", ',', ParseI32) == None
  {
    ParsePairEmptyHalf("10", "", ',', ParseI32);
    assert "10" + [','] + "" == "10,";
  }

  /** `parse_pair("10,100", ",")` is Some((10, 100)). */
  lemma TestBothHalves()
    ensures ParsePair("10,100", ',', ParseI32) == Some((10, 100))
  {
    ParsePairRoundTrip(10, 100, ',');
    assert ShowInt(10) == "10" && ShowInt(100) == "100";
    assert "10" + [','] + "100" == "10,100";
  }

  /** `parse_pair(",100", ",")` is None: the left half is empty. */
  lemma TestEmptyLeft()
    ensures ParsePair(",100", ',', ParseI32) == None
  {
    ParsePairEmptyHalf("", "100", ',', ParseI32);
    assert "" + [','] + "100" == ",100";
  }

  /** `parse_pair("10,20xy", ",")` is None: the right half is not a number. */
  lemma TestTrailingGarbage()
    ensures ParsePair("10,20xy", ',', ParseI32) == None
  {
    ParsePairSplit("10", "20xy", ',', ParseI32);
    assert "10" + [','] + "20xy" == "10,20xy";
    assert !AllDigits("20xy") by { assert !IsDigit("20xy"[2]); }
  }
}
