/** The prebuilt grammars of dinant.py: digits, numbers, hexadecimal and IP addresses. */
module Grammar {
  import opened Wrappers
  import opened Escaping
  import opened Fragment
  import opened Strings
  import opened Combinators

  /** `digit` (also `digits`): the raw class `\d`. */
  const Digit: Pieces := ["\\d"]
  /** `uint`: one or more digits. */
  const Uint: Pieces := OneOrMore(Frag(Digit), true)
  /** `int` (also `integer`): an optional minus sign, then `uint`. */
  const Integer: Pieces := Sum(Frag(Maybe(Text("-"), true)), Frag(Uint)).pieces
  /** The alternatives of `float`, most specific first (or matching stops
      early): a fraction with optional sign and integer part, an integer with
      a trailing point, a bare integer. */
  const FloatFraction: Pieces :=
    Sum(Sum(Sum(Frag(Maybe(Text("-"), true)), Frag(Maybe(Frag(Uint), true))),
            Frag(Then(Text(".")))),
        Frag(Uint)).pieces
  const FloatPoint: Pieces := Sum(Frag(Integer), Frag(Then(Text(".")))).pieces
  /** `float`. */
  const Float: Pieces := Either([Frag(FloatFraction), Frag(FloatPoint), Frag(Integer)])
  /** `hex` (also `hexa`). */
  const Hex: Pieces := OneOrMore(Frag(AnyOf(Text("0-9A-Fa-f"))), true)

  /** One to three digits, `between(1, 3, digits)`. */
  function Octet(): (r: Pieces)
    ensures r == ["\\d", "{", "1,3", "}"]
  {
    assert DecimalString(1) == "1" && DecimalString(3) == "3";
    assert Bounds(1, 3) == "1,3";
    Between(1, 3, Frag(Digit), true)
  }

  /** `IPv4`: four digit groups separated by escaped dots. */
  const IPv4: Pieces :=
    Sum(Sum(Sum(Sum(Sum(Sum(Frag(Octet()), Text(".")), Frag(Octet())), Text(".")),
                Frag(Octet())), Text(".")), Frag(Octet())).pieces
  /** `IP_number`: IPv4 in a non-capturing group. */
  const IPNumber: Pieces := Either([Frag(IPv4)])
  /** `IP_port`: an address, a colon and an integer port. */
  const IPPort: Pieces := Sum(Sum(Frag(IPNumber), Text(":")), Frag(Integer)).pieces

  // What the grammars render to, built up from the renderings of their parts.
  const DigitText := "\\d"
  const UintText := "(?:" + DigitText + ")+"
  const SignText := "(?:" + "\\-" + ")?"
  const IntegerText := SignText + UintText
  const PointText := "\\."
  const FloatFractionText := SignText + "(?:" + UintText + ")?" + PointText + UintText
  const FloatPointText := IntegerText + PointText
  const FloatText := "(?:" + FloatFractionText + "|" + FloatPointText + "|" + IntegerText + ")"
  const HexText := "(?:" + "[0-9A-Fa-f]" + ")+"
  const OctetText := DigitText + "{1,3}"
  const IPv4Text := OctetText + PointText + OctetText + PointText + OctetText + PointText + OctetText
  const IPNumberText := "(?:" + IPv4Text + ")"
  const IPPortText := IPNumberText + ":" + IntegerText

  /** `uint` renders `(?:\d)+`. */
  lemma UintRendering()
    ensures Join(Uint) == UintText
  {
  }

  lemma SignRendering()
    ensures Join(Maybe(Text("-"), true)) == SignText
  {
    assert Escape("-") == "\\-";
  }

  /** `int` renders `(?:\-)?(?:\d)+`. */
  lemma IntegerRendering()
    ensures Join(Integer) == IntegerText
  {
    UintRendering();
    SignRendering();
  }

  /** `hex` renders `(?:[0-9A-Fa-f])+`. */
  lemma HexRendering()
    ensures Join(Hex) == HexText
  {
    assert Join(AnyOf(Text("0-9A-Fa-f"))) == "[0-9A-Fa-f]";
  }

  lemma PointRendering()
    ensures Join(Then(Text("."))) == PointText
  {
    assert Escape(".") == "\\.";
  }

  lemma FloatFractionRendering()
    ensures Join(FloatFraction) == FloatFractionText
  {
    UintRendering();
    SignRendering();
    PointRendering();
    var sign, optional, point, uint :=
      Frag(Maybe(Text("-"), true)), Frag(Maybe(Frag(Uint), true)), Frag(Then(Text("."))), Frag(Uint);
    assert Render(optional) == "(?:" + UintText + ")?";
    var s1 := Sum(sign, optional);
    assert Render(s1) == SignText + "(?:" + UintText + ")?";
    var s2 := Sum(s1, point);
    assert Render(s2) == SignText + "(?:" + UintText + ")?" + PointText;
    var s3 := Sum(s2, uint);
    assert Render(s3) == FloatFractionText;
    assert FloatFraction == s3.pieces;
  }

  lemma FloatPointRendering()
    ensures Join(FloatPoint) == FloatPointText
  {
    IntegerRendering();
    PointRendering();
  }

  /** `float` renders
      `(?:(?:\-)?(?:(?:\d)+)?\.(?:\d)+|(?:\-)?(?:\d)+\.|(?:\-)?(?:\d)+)`:
      the fraction form is tried first, the bare integer last. */
  lemma FloatRendering()
    ensures Join(Float) == FloatText
  {
    IntegerRendering();
    FloatFractionRendering();
    FloatPointRendering();
    EitherThree(Frag(FloatFraction), Frag(FloatPoint), Frag(Integer));
  }

  lemma OctetRendering()
    ensures Join(Octet()) == OctetText
  {
  }

  /** `IPv4` renders `\d{1,3}\.\d{1,3}\.\d{1,3}\.\d{1,3}`. */
  lemma IPv4Rendering()
    ensures Join(IPv4) == IPv4Text
  {
    OctetRendering();
    assert Escape(".") == PointText;
  }

  lemma IPNumberRendering()
    ensures Join(IPNumber) == IPNumberText
  {
    IPv4Rendering();
  }

  /** `IP_port` renders the address group, `:` and an integer. */
  lemma IPPortRendering()
    ensures Join(IPPort) == IPPortText
  {
    IPNumberRendering();
    IntegerRendering();
    EscapeExamples();
    var s1 := Sum(Frag(IPNumber), Text(":"));
    assert Render(s1) == IPNumberText + ":";
    var s2 := Sum(s1, Frag(Integer));
    assert Render(s2) == IPPortText;
    assert IPPort == s2.pieces;
  }
}
