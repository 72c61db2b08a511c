/** Bytes, ASCII text and decimal numerals: Python's `str(n)` on integers,
    `int(digits)` and the greedy `[0-9]+` regex group, defined once over
    character codes so that `str` values and `bytes` values share them. */
module Text {
  import opened Wrappers

  type Byte = b: int | 0 <= b < 256

  const NewLine: Byte := 0x0A
  const Space: Byte := 0x20
  const Minus: Byte := 0x2D
  const Zero: Byte := 0x30

  /** True for the codes of '0' .. '9' (the class `[0-9]`, alias `[\x30-\x39]`). */
  predicate IsDigit(c: int) {
    0x30 <= c <= 0x39
  }

  predicate AllDigits(s: seq<int>) {
    forall k :: 0 <= k < |s| ==> IsDigit(s[k])
  }

  /** The code points of a Python `str`. */
  function Codes(s: string): (r: seq<int>)
    ensures |r| == |s|
    ensures forall k :: 0 <= k < |s| ==> r[k] == s[k] as int
  {
    seq(|s|, k requires 0 <= k < |s| => s[k] as int)
  }

  /** `str.encode` of an ASCII-only string. */
  function Ascii(s: string): (r: seq<Byte>)
    requires forall k :: 0 <= k < |s| ==> s[k] as int < 128
    ensures r == Codes(s)
  {
    seq(|s|, k requires 0 <= k < |s| => s[k] as int as Byte)
  }

  /** The `str` whose code points are the given bytes. */
  function Chars(bs: seq<Byte>): (r: string)
    ensures Codes(r) == bs
  {
    seq(|bs|, k requires 0 <= k < |bs| => bs[k] as char)
  }

  /** Decimal numeral of `n` without leading zeros, as Python's `str(n)`. */
  function DigitsOf(n: nat): (r: seq<Byte>)
    ensures |r| >= 1 && AllDigits(r)
    ensures |r| > 1 ==> r[0] != Zero
    decreases n
  {
    if n < 10 then [Zero + n] else DigitsOf(n / 10) + [Zero + n % 10]
  }

  /** Python's `int(s)` on a numeral (leading zeros allowed). */
  function Value(s: seq<int>): nat
    requires AllDigits(s)
    decreases |s|
  {
    if |s| == 0 then 0 else Value(s[..|s| - 1]) * 10 + (s[|s| - 1] - Zero)
  }

  /** Reading back a printed numeral gives the number. */
  lemma {:induction false} ValueOfDigits(n: nat)
    ensures Value(DigitsOf(n)) == n
    decreases n
  {
    if n >= 10 {
      ValueOfDigits(n / 10);
      var d := DigitsOf(n);
      assert d[..|d| - 1] == DigitsOf(n / 10);
    }
  }

  /** Printing is injective: distinct numbers have distinct numerals. */
  lemma DigitsOfInjective(m: nat, n: nat)
    requires DigitsOf(m) == DigitsOf(n)
    ensures m == n
  {
    ValueOfDigits(m);
    ValueOfDigits(n);
  }

  /** Length of the run of digits at the start of `s`: how much the greedy
      group `[0-9]+` would take (zero when it cannot match). */
  function DigitRun(s: seq<int>): (n: nat)
    ensures n <= |s|
    ensures forall k :: 0 <= k < n ==> IsDigit(s[k])
    ensures n < |s| ==> !IsDigit(s[n])
    decreases |s|
  {
    if |s| == 0 || !IsDigit(s[0]) then 0 else 1 + DigitRun(s[1..])
  }

  /** The digit run is determined by where the first non-digit sits. */
  lemma DigitRunOfPrefix(s: seq<int>, n: nat)
    requires n <= |s|
    requires forall k :: 0 <= k < n ==> IsDigit(s[k])
    requires n < |s| ==> !IsDigit(s[n])
    ensures DigitRun(s) == n
  {
  }

  /** What a numeric group matched, and what follows it. */
  datatype Scanned = Scanned(value: nat, rest: seq<int>)

  /** The group `([0-9]+)` matched greedily at the start of `s`, read with `int`. */
  function Number(s: seq<int>): (r: Option<Scanned>)
    ensures r.None? <==> (|s| == 0 || !IsDigit(s[0]))
    ensures r.Some? ==> |r.value.rest| < |s| && r.value.rest == s[|s| - |r.value.rest|..]
    ensures r.Some? ==> |r.value.rest| == 0 || !IsDigit(r.value.rest[0])
  {
    var n := DigitRun(s);
    if n == 0 then None else Some(Scanned(Value(s[..n]), s[n..]))
  }

  /** The literal code `c` at the start of `s`. */
  function Literal(s: seq<int>, c: int): (r: Option<seq<int>>)
    ensures r.Some? <==> |s| > 0 && s[0] == c
    ensures r.Some? ==> r.value == s[1..]
  {
    if |s| > 0 && s[0] == c then Some(s[1..]) else None
  }

  /** The literal codes `lit` at the start of `s`. */
  function Prefix(s: seq<int>, lit: seq<int>): (r: Option<seq<int>>)
    ensures r.Some? <==> lit <= s
    ensures r.Some? ==> r.value == s[|lit|..]
  {
    if lit <= s then Some(s[|lit|..]) else None
  }

  /** A non-empty run of digits at the start of `s`, then the code `sep`:
      the shape of `([0-9]+)<sep>` at the head of a pattern. */
  predicate RunThen(s: seq<int>, sep: int) {
    var n := DigitRun(s);
    0 < n < |s| && s[n] == sep
  }

  /** What follows the leading digit run of `s` and the one code after it. */
  function AfterRun(s: seq<int>): (r: seq<int>)
    ensures |r| < |s| || |s| == 0
  {
    var n := DigitRun(s);
    if n < |s| then s[n + 1..] else []
  }

  /** `s` starts with a digit, so a `[0-9]+` group matches there. */
  predicate StartsWithDigit(s: seq<int>) {
    |s| > 0 && IsDigit(s[0])
  }

  /** The group `([0-9]+)` followed by the literal `sep`: the number read
      and the text after the separator. */
  function NumberThen(s: seq<int>, sep: int): (r: Option<(nat, seq<int>)>)
    ensures r.Some? <==> RunThen(s, sep)
    ensures r.Some? ==> r.value.1 == AfterRun(s)
  {
    var w :- Number(s);
    var rest :- Literal(w.rest, sep);
    Some((w.value, rest))
  }

  /** Any non-empty run of digits followed by a non-digit is read whole,
      as `int` reads it, leading zeros included. */
  lemma NumberOfRun(d: seq<int>, rest: seq<int>)
    requires |d| > 0 && AllDigits(d)
    requires |rest| == 0 || !IsDigit(rest[0])
    ensures Number(d + rest) == Some(Scanned(Value(d), rest))
  {
    var s := d + rest;
    DigitRunOfPrefix(s, |d|);
    assert s[..|d|] == d;
    assert s[|d|..] == rest;
  }

  /** A digit run, then its separator: the run is read whole and the text
      after the separator is left. */
  lemma NumberThenOfRun(d: seq<int>, sep: int, rest: seq<int>)
    requires |d| > 0 && AllDigits(d) && !IsDigit(sep)
    ensures NumberThen(d + ([sep] + rest), sep) == Some((Value(d), rest))
  {
    NumberOfRun(d, [sep] + rest);
    assert ([sep] + rest)[1..] == rest;
  }

  /** A printed number followed by a non-digit is read back whole. */
  lemma NumberOfDigits(n: nat, rest: seq<int>)
    requires |rest| == 0 || !IsDigit(rest[0])
    ensures Number(DigitsOf(n) + rest) == Some(Scanned(n, rest))
  {
    var d := DigitsOf(n);
    var s := d + rest;
    DigitRunOfPrefix(s, |d|);
    assert s[..|d|] == d;
    assert s[|d|..] == rest;
    ValueOfDigits(n);
  }

  /** Python's `str(i)` on an `int`, as codes. */
  function IntCodes(i: int): (r: seq<Byte>)
    ensures |r| >= 1
    ensures i >= 0 ==> r == DigitsOf(i)
    ensures i < 0 ==> r[0] == Minus && r[1..] == DigitsOf(-i)
  {
    if i < 0 then [Minus] + DigitsOf(-i) else DigitsOf(i)
  }

  /** Python's `str(i)` on an `int`. */
  function IntToString(i: int): (r: string)
    ensures Codes(r) == IntCodes(i)
  {
    Chars(IntCodes(i))
  }

  /** `str` on integers is injective, signs included. */
  lemma IntToStringInjective(a: int, b: int)
    requires IntToString(a) == IntToString(b)
    ensures a == b
  {
    var ca, cb := IntCodes(a), IntCodes(b);
    assert ca == cb;
    if a >= 0 && b >= 0 {
      DigitsOfInjective(a, b);
    } else if a < 0 && b < 0 {
      DigitsOfInjective(-a, -b);
    }
  }
}
