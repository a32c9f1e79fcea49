/** A fragment's value: the ordered list of pattern-syntax pieces (the
    `strings` attribute of a `Dinant`), and the arithmetic of building one. */
module Fragment {
  import opened Wrappers
  import opened Escaping
  import opened Strings

  type Pieces = seq<string>

  /** `''.join(pieces)`: the pattern a fragment renders to. */
  function Join(p: Pieces): (r: string)
    ensures |p| == 1 ==> r == p[0]
  {
    if p == [] then "" else p[0] + Join(p[1..])
  }

  /** Rendering distributes over the concatenation of piece lists. */
  lemma {:induction false} JoinAppend(a: Pieces, b: Pieces)
    ensures Join(a + b) == Join(a) + Join(b)
  {
    if a == [] {
      assert a + b == b;
    } else {
      assert (a + b)[1..] == a[1..] + b;
      JoinAppend(a[1..], b);
    }
  }

  /** The text of a piece list is as long as its pieces together. */
  lemma {:induction false} JoinLength(p: Pieces)
    ensures |Join(p)| == TotalLength(p)
  {
    if p != [] {
      JoinLength(p[1..]);
    }
  }

  /** What the builder's operations accept: literal text (a Python `str`) or
      the pieces of another fragment (a `Dinant`). */
  datatype Operand = Text(text: string) | Frag(pieces: Pieces)

  /** `Dinant(o, escape)`: text becomes one piece, escaped unless `escape` is
      off; a fragment's pieces are copied as they are, whatever `escape` says. */
  function Make(o: Operand, escape: bool): (r: Pieces)
    ensures o.Frag? ==> r == o.pieces
    ensures o.Text? ==> |r| == 1
    ensures o.Text? && escape ==> Unescape(Join(r)) == o.text && IsLiteral(Join(r))
    ensures o.Text? && !escape ==> Join(r) == o.text
  {
    match o
    case Text(t) =>
      UnescapeEscape(t);
      EscapeIsLiteral(t);
      if escape then [Escape(t)] else [t]
    case Frag(p) => p
  }

  /** `Dinant(o)`, with the default `escape=True`. */
  function Of(o: Operand): Pieces {
    Make(o, true)
  }

  /** `str(Dinant(o))`: what the operand stands for as pattern text. */
  function Render(o: Operand): string {
    Join(Of(o))
  }

  /** Python's `str(o)`: a text is itself, a fragment its rendering. Unlike
      `Render`, text is not escaped. */
  function Stringify(o: Operand): (r: string)
    ensures o.Frag? ==> r == Render(o)
    ensures o.Text? ==> r == o.text && Render(o) == Escape(r)
  {
    match o
    case Text(t) => t
    case Frag(p) => Join(p)
  }

  /** A text operand renders to its escaping; a fragment to its join. */
  lemma RenderText(t: string)
    ensures Render(Text(t)) == Escape(t)
    ensures Unescape(Render(Text(t))) == t
  {
    UnescapeEscape(t);
  }

  /** `left.__add__(right)`: a fresh copy of `left`'s pieces, extended by the
      escaped text or by the other fragment's pieces. */
  function Plus(left: Pieces, right: Operand): (r: Pieces)
    ensures r == left + Of(right)
    ensures Join(r) == Join(left) + Render(right)
  {
    JoinAppend(left, Of(right));
    match right
    case Text(t) => left + [Escape(t)]
    case Frag(p) => left + p
  }

  const RAddMessage := "str expected, got %r"

  /** `right.__radd__(left)`: only text may stand on the left; it is escaped
      and put in front of a copy of `right`'s pieces. */
  function RPlus(right: Pieces, left: Operand): (r: Result<Pieces, Error>)
    ensures r.Success? <==> left.Text?
    ensures r.Success? ==> r.value == Of(left) + right
    ensures r.Success? ==> Join(r.value) == Render(left) + Join(right)
    ensures r.Failure? ==> r.error == ValueError(RAddMessage)
  {
    match left
    case Text(t) =>
      JoinAppend([Escape(t)], right);
      Success([Escape(t)] + right)
    case Frag(_) => Failure(ValueError(RAddMessage))
  }

  /** Python's `x + y` on the builder's operands: a fragment on the left uses
      its `__add__`; text on the left of a fragment reaches the fragment's
      `__radd__`; two texts concatenate as plain strings. */
  function Sum(x: Operand, y: Operand): (r: Operand)
    ensures x.Frag? || y.Frag? ==> r.Frag? && r.pieces == Of(x) + Of(y)
    ensures x.Text? && y.Text? ==> r == Text(x.text + y.text)
    ensures Render(r) == Render(x) + Render(y)
  {
    match x
    case Frag(p) => Frag(Plus(p, y))
    case Text(t) =>
      match y
      case Frag(q) => Frag(RPlus(q, x).value)
      case Text(u) =>
        EscapeAppend(t, u);
        Text(t + u)
  }

  /** `+` is associative at the level of rendered text, for every mix of text
      and fragments (piece lists may differ, since two texts merge into one). */
  lemma SumAssociative(a: Operand, b: Operand, c: Operand)
    ensures Render(Sum(Sum(a, b), c)) == Render(Sum(a, Sum(b, c)))
  {
    var ab, bc := Sum(a, b), Sum(b, c);
    var ra, rb, rc := Render(a), Render(b), Render(c);
    assert Render(ab) == ra + rb && Render(bc) == rb + rc;
    assert Render(Sum(ab, c)) == (ra + rb) + rc;
    assert Render(Sum(a, bc)) == ra + (rb + rc);
    ConcatAssociative(ra, rb, rc);
  }

  /** Between fragments, `+` is associative on the piece lists themselves. */
  lemma SumAssociativeFragments(a: Pieces, b: Pieces, c: Pieces)
    ensures Sum(Sum(Frag(a), Frag(b)), Frag(c)) == Sum(Frag(a), Sum(Frag(b), Frag(c)))
  {
  }

  /** Two fragments are equal (`__eq__`) exactly when their piece lists are. */
  predicate Equal(a: Pieces, b: Pieces) {
    a == b
  }

  /** Equal fragments render to the same pattern; the converse fails, since
      different piece lists can join to the same text. */
  lemma EqualRendersEqual(a: Pieces, b: Pieces)
    ensures Equal(a, b) ==> Join(a) == Join(b)
    ensures Join(["a", "b"]) == Join(["ab"]) && !Equal(["a", "b"], ["ab"])
  {
  }
}
