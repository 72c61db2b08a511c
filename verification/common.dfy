/** The comparison policy enum and the `Geometry` rectangle that selects the
    window of an image to compare. */
module Common {
  import opened Wrappers
  import opened Text

  /** How alpha takes part in a comparison. The `...1` and `...2` variants use
      the alpha of the first or the second image as a per-pixel mask: `Hi`
      keeps only pixels whose alpha is 255, `Lo` drops pixels whose alpha is 0.
      `Full` compares alpha as a fourth channel. */
  datatype CompareType = Alphaless | AlphaHi1 | AlphaHi2 | AlphaLo1 | AlphaLo2 | Full {

    /** The enum member's value. */
    function Value(): (v: nat)
      ensures 1 <= v <= 6
    {
      match this
      case Alphaless => 1
      case AlphaHi1 => 2
      case AlphaHi2 => 3
      case AlphaLo1 => 4
      case AlphaLo2 => 5
      case Full => 6
    }

    /** `str(compareType)`. */
    function Name(): string {
      match this
      case Alphaless => "COMPARE_TYPE.ALPHALESS"
      case AlphaHi1 => "COMPARE_TYPE.ALPHA_HI1"
      case AlphaHi2 => "COMPARE_TYPE.ALPHA_HI2"
      case AlphaLo1 => "COMPARE_TYPE.ALPHA_LO1"
      case AlphaLo2 => "COMPARE_TYPE.ALPHA_LO2"
      case Full => "COMPARE_TYPE.FULL"
    }
  }

  /** The enum is declared unique: no two members share a value. */
  lemma CompareTypeUnique(a: CompareType, b: CompareType)
    ensures a.Value() == b.Value() <==> a == b
  {
  }

  /** An axis-aligned rectangle; the integer constructor takes any `int`. */
  datatype Geometry = Geometry(x: int, y: int, width: int, height: int)

  predicate NonNegative(g: Geometry) {
    g.x >= 0 && g.y >= 0 && g.width >= 0 && g.height >= 0
  }

  /** The copy constructor `Geometry(other)`. */
  function Copy(g: Geometry): (r: Geometry)
    ensures Equals(r, Some(g)) && Equals(g, Some(r))
  {
    Geometry(g.x, g.y, g.width, g.height)
  }

  /** `__eq__`: never equal to `None`, otherwise equal field by field. */
  predicate Equals(g: Geometry, other: Option<Geometry>) {
    other.Some? && g.x == other.value.x && g.y == other.value.y
    && g.width == other.value.width && g.height == other.value.height
  }

  /** `__eq__` on geometries is the structural equality of the four fields. */
  lemma EqualsIsStructural(g: Geometry, other: Option<Geometry>)
    ensures other.None? ==> !Equals(g, other)
    ensures other.Some? ==> (Equals(g, other) <==> g == other.value)
  {
  }

  /** `isAreaEqual`: same width and height, wherever the rectangles sit. */
  predicate IsAreaEqual(a: Geometry, b: Geometry) {
    a.width == b.width && a.height == b.height
  }

  /** Area equality is an equivalence that ignores position. */
  lemma AreaEquality(a: Geometry, b: Geometry, c: Geometry, x: int, y: int)
    ensures IsAreaEqual(a, a)
    ensures IsAreaEqual(a, b) <==> IsAreaEqual(b, a)
    ensures IsAreaEqual(a, b) && IsAreaEqual(b, c) ==> IsAreaEqual(a, c)
    ensures IsAreaEqual(a.(x := x, y := y), b) <==> IsAreaEqual(a, b)
    ensures Equals(a, Some(b)) ==> IsAreaEqual(a, b)
  {
  }

  /** The shape `re.match(r'([0-9]+)x([0-9]+)\+([0-9]+)\+([0-9]+)', ...)`
      accepts: three digit runs each closed by its separator, then a digit. */
  predicate Matches(c: seq<int>) {
    && RunThen(c, 'x' as int)
    && RunThen(AfterRun(c), '+' as int)
    && RunThen(AfterRun(AfterRun(c)), '+' as int)
    && StartsWithDigit(AfterRun(AfterRun(AfterRun(c))))
  }

  /** The string constructor: `re.match(r'([0-9]+)x([0-9]+)\+([0-9]+)\+([0-9]+)', s)`,
      anchored at the start only; `None` when it does not match. */
  function Parse(s: string): (r: Option<Geometry>)
    ensures r.Some? <==> Matches(Codes(s))
    ensures r.Some? ==> NonNegative(r.value)
    ensures r.Some? ==> |s| >= 7 && IsDigit(s[0] as int)
  {
    ParseCodes(Codes(s))
  }

  function ParseCodes(c: seq<int>): (r: Option<Geometry>)
    ensures r.Some? <==> Matches(c)
    ensures r.Some? ==> NonNegative(r.value)
    ensures r.Some? ==> |c| >= 7 && IsDigit(c[0])
  {
    var w :- NumberThen(c, 'x' as int);
    var h :- NumberThen(w.1, '+' as int);
    var x :- NumberThen(h.1, '+' as int);
    var y :- Number(x.1);
    Some(Geometry(x.0, y.value, w.0, h.0))
  }

  /** The command-line form `<width>x<height>+<x>+<y>` of a geometry. */
  function FormatCodes(g: Geometry): seq<Byte>
    requires NonNegative(g)
  {
    DigitsOf(g.width) + ['x' as int] + DigitsOf(g.height) + ['+' as int]
    + DigitsOf(g.x) + ['+' as int] + DigitsOf(g.y)
  }

  function Format(g: Geometry): string
    requires NonNegative(g)
  {
    Chars(FormatCodes(g))
  }

  /** Parsing the command-line form gives the geometry back, whatever
      non-digit text follows the fourth number. */
  lemma ParseFormat(g: Geometry, rest: string)
    requires NonNegative(g)
    requires |rest| == 0 || !IsDigit(rest[0] as int)
    ensures Parse(Format(g) + rest) == Some(g)
  {
    assert Codes(Format(g) + rest) == FormatCodes(g) + Codes(rest);
    ParseCodesFormat(g, Codes(rest));
  }

  lemma ParseCodesFormat(g: Geometry, t: seq<int>)
    requires NonNegative(g)
    requires |t| == 0 || !IsDigit(t[0])
    ensures ParseCodes(FormatCodes(g) + t) == Some(g)
  {
    var dw, dh, dx, dy := DigitsOf(g.width), DigitsOf(g.height), DigitsOf(g.x), DigitsOf(g.y);
    var s1 := ['x' as int] + (dh + (['+' as int] + (dx + (['+' as int] + (dy + t)))));
    assert FormatCodes(g) + t == dw + s1;
    ParseCodesFields(g, t);
  }

  /** The four groups of the pattern, one at a time. */
  lemma ParseCodesFields(g: Geometry, t: seq<int>)
    requires NonNegative(g)
    requires |t| == 0 || !IsDigit(t[0])
    ensures ParseCodes(DigitsOf(g.width) + (['x' as int] + (DigitsOf(g.height) + (['+' as int]
      + (DigitsOf(g.x) + (['+' as int] + (DigitsOf(g.y) + t))))))) == Some(g)
  {
    ValueOfDigits(g.width);
    ValueOfDigits(g.height);
    ValueOfDigits(g.x);
    ValueOfDigits(g.y);
    ParseCodesRuns(DigitsOf(g.width), DigitsOf(g.height), DigitsOf(g.x), DigitsOf(g.y), t);
  }

  /** The four groups on any digit runs, leading zeros included: each is
      read as `int` reads it, whatever non-digit text follows the last. */
  lemma ParseCodesRuns(d1: seq<int>, d2: seq<int>, d3: seq<int>, d4: seq<int>, t: seq<int>)
    requires |d1| > 0 && AllDigits(d1) && |d2| > 0 && AllDigits(d2)
    requires |d3| > 0 && AllDigits(d3) && |d4| > 0 && AllDigits(d4)
    requires |t| == 0 || !IsDigit(t[0])
    ensures ParseCodes(d1 + (['x' as int] + (d2 + (['+' as int] + (d3 + (['+' as int] + (d4 + t)))))))
      == Some(Geometry(Value(d3), Value(d4), Value(d1), Value(d2)))
  {
    var s3 := d4 + t;
    var s2 := d3 + (['+' as int] + s3);
    var s1 := d2 + (['+' as int] + s2);
    NumberThenOfRun(d1, 'x' as int, s1);
    NumberThenOfRun(d2, '+' as int, s2);
    NumberThenOfRun(d3, '+' as int, s3);
    NumberOfRun(d4, t);
    ParseCodesSteps(d1 + (['x' as int] + s1), s1, s2, s3, Value(d1), Value(d2), Value(d3), Scanned(Value(d4), t));
  }

  /** `ParseCodes` as its four steps. */
  lemma ParseCodesSteps(c: seq<int>, s1: seq<int>, s2: seq<int>, s3: seq<int>, w: nat, h: nat, x: nat, y: Scanned)
    requires NumberThen(c, 'x' as int) == Some((w, s1))
    requires NumberThen(s1, '+' as int) == Some((h, s2))
    requires NumberThen(s2, '+' as int) == Some((x, s3))
    requires Number(s3) == Some(y)
    ensures ParseCodes(c) == Some(Geometry(x, y.value, w, h))
  {
  }

  /** A string whose first character is not a digit (a sign, say) never
      parses. */
  lemma ParseNeedsLeadingDigit(s: string)
    requires |s| == 0 || !IsDigit(s[0] as int)
    ensures Parse(s).None?
  {
  }

  /** `','.join(items)`. */
  function Join(items: seq<string>): string
    decreases |items|
  {
    if |items| == 0 then ""
    else if |items| == 1 then items[0]
    else items[0] + "," + Join(items[1..])
  }

  /** `__str__`: the four fields as `"x,y,width,height"`. */
  function ToString(g: Geometry): string {
    Join([IntToString(g.x), IntToString(g.y), IntToString(g.width), IntToString(g.height)])
  }

  /** No numeral contains a comma. */
  lemma NoCommaInNumeral(i: int)
    ensures ',' !in IntToString(i)
  {
    var s := IntToString(i);
    var c := IntCodes(i);
    forall k | 0 <= k < |s|
      ensures s[k] != ','
    {
      assert Codes(s)[k] == c[k];
      if i >= 0 {
        assert IsDigit(c[k]);
      } else if k > 0 {
        assert c[k] == c[1..][k - 1];
        assert IsDigit(c[k]);
      }
    }
  }

  /** Two comma-separated texts whose first fields contain no comma split the
      same way. */
  lemma SplitAtComma(a: string, r: string, a': string, r': string)
    requires ',' !in a && ',' !in a'
    requires a + "," + r == a' + "," + r'
    ensures a == a' && r == r'
  {
    var s := a + "," + r;
    assert s[|a|] == ',';
    assert s[|a'|] == ',';
    assert a == s[..|a|] && a' == s[..|a'|];
    assert r == s[|a| + 1..] && r' == s[|a'| + 1..];
  }

  /** Joining comma-free items with commas loses nothing. */
  lemma {:induction false} JoinInjective(xs: seq<string>, ys: seq<string>)
    requires |xs| == |ys|
    requires forall k :: 0 <= k < |xs| ==> ',' !in xs[k] && ',' !in ys[k]
    requires Join(xs) == Join(ys)
    ensures xs == ys
    decreases |xs|
  {
    if |xs| > 1 {
      SplitAtComma(xs[0], Join(xs[1..]), ys[0], Join(ys[1..]));
      JoinInjective(xs[1..], ys[1..]);
      assert xs == [xs[0]] + xs[1..] && ys == [ys[0]] + ys[1..];
    }
  }

  /** `__str__` loses nothing: distinct geometries print differently. */
  lemma ToStringInjective(a: Geometry, b: Geometry)
    requires ToString(a) == ToString(b)
    ensures a == b
  {
    var xs := [IntToString(a.x), IntToString(a.y), IntToString(a.width), IntToString(a.height)];
    var ys := [IntToString(b.x), IntToString(b.y), IntToString(b.width), IntToString(b.height)];
    NoCommaInNumeral(a.x); NoCommaInNumeral(a.y); NoCommaInNumeral(a.width); NoCommaInNumeral(a.height);
    NoCommaInNumeral(b.x); NoCommaInNumeral(b.y); NoCommaInNumeral(b.width); NoCommaInNumeral(b.height);
    JoinInjective(xs, ys);
    IntToStringInjective(a.x, b.x);
    IntToStringInjective(a.y, b.y);
    IntToStringInjective(a.width, b.width);
    IntToStringInjective(a.height, b.height);
  }
}
