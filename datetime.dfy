/** `datetime(s, buggy_day)`: translation of a strptime format into a pattern
    by in-order textual replacement of its directives. */
module DateTime {
  import opened Wrappers
  import opened Escaping
  import opened Fragment
  import opened Strings
  import opened Combinators
  import opened Grammar

  // The fragments of the table, written out piece by piece; the lemmas below
  // prove that each is what the combinators of the source build.

  /** `one_or_more(anything, greedy=False)`: the stand-in for names. */
  const LazyAny: Pieces := ["(?:", ".", ")+", "?"]
  /** `exactly(2, digits)`, `exactly(3, digits)` and `exactly(4, digits)`. */
  const TwoDigits: Pieces := ["\\d", "{", "2", "}"]
  const ThreeDigits: Pieces := ["\\d", "{", "3", "}"]
  const FourDigits: Pieces := ["\\d", "{", "4", "}"]
  /** `either('+', '-') + exactly(4, digits)`: a UTC offset. */
  const Offset: Pieces := ["(?:", "\\+|\\-", ")", "\\d", "{", "4", "}"]

  /** The directives of the table, in the order the dictionary lists them. */
  const DirectiveFormats: seq<string> := [
    "%a", "%A", "%b", "%B", "%d", "%H", "%I", "%j", "%m", "%M",
    "%p", "%S", "%U", "%w", "%W", "%y", "%Y", "%z", "%%"]

  /** Index of `%%`, the last entry; index of `%d`. */
  const PercentIndex := 18
  const DayIndex := 4

  /** What each directive stands for: fragments, except the text `%` for `%%`. */
  const DirectivePatterns: seq<Operand> := [
    Frag(LazyAny), Frag(LazyAny), Frag(LazyAny), Frag(LazyAny), Frag(TwoDigits),
    Frag(TwoDigits), Frag(TwoDigits), Frag(ThreeDigits), Frag(TwoDigits), Frag(TwoDigits),
    Frag(LazyAny), Frag(TwoDigits), Frag(TwoDigits), Frag(Digit), Frag(TwoDigits),
    Frag(TwoDigits), Frag(FourDigits), Frag(Offset), Text("%")]

  function Zip<A, B>(xs: seq<A>, ys: seq<B>): (r: seq<(A, B)>)
    requires |xs| == |ys|
    ensures |r| == |xs| && forall i :: 0 <= i < |r| ==> r[i] == (xs[i], ys[i])
  {
    seq(|xs|, i requires 0 <= i < |xs| => (xs[i], ys[i]))
  }

  /** The dictionary `__dt_format_to_re` as its ordered list of items. */
  const DirectiveTable: seq<(string, Operand)> := Zip(DirectiveFormats, DirectivePatterns)

  /** The composite directives that are refused, in the order they are checked. */
  const Unsupported: seq<string> := ["%c", "%x", "%X"]

  /** The default format, `"%a %b %d %H:%M:%S %Y"`. */
  const DefaultFormat: string := "%a %b %d %H:%M:%S %Y"

  /** `either(' ' + digit, exactly(2, digits))`: a day that may be one digit
      padded with a space. */
  const BuggyDay: Pieces := ["(?:", "\\ \\d|\\d{2}", ")"]

  /** `'%r not supported.' % fmt`. */
  function NotSupported(fmt: string): string {
    "'" + fmt + "' not supported."
  }

  /** Replace every key of `table` in turn, in table order, by `str()` of its value. */
  function ApplyTable(s: string, table: seq<(string, Operand)>): string
    decreases |table|
  {
    if table == [] then s
    else ApplyTable(ReplaceAll(s, table[0].0, Stringify(table[0].1)), table[1..])
  }

  /** The format after the optional space-padded-day substitution. */
  function DayAdjusted(s: string, buggyDay: bool): string {
    if buggyDay && Contains(s, "%d") then ReplaceAll(s, "%d", Join(BuggyDay)) else s
  }

  /** The format contains none of the refused directives. */
  predicate Accepted(s: string) {
    forall k :: 0 <= k < |Unsupported| ==> !Contains(s, Unsupported[k])
  }

  /** The first refused directive the format contains is the one at index `k`. */
  predicate FirstUnsupported(s: string, k: int) {
    0 <= k < |Unsupported| && Contains(s, Unsupported[k]) &&
    forall j :: 0 <= j < k ==> !Contains(s, Unsupported[j])
  }

  /** The check loop of `datetime`: the index of the first refused directive
      the format contains, if any. */
  method FindUnsupported(s: string) returns (found: Option<nat>)
    ensures found.None? <==> Accepted(s)
    ensures found.Some? ==> FirstUnsupported(s, found.value)
  {
    var i := 0;
    while i < |Unsupported|
      invariant 0 <= i <= |Unsupported|
      invariant forall j :: 0 <= j < i ==> !Contains(s, Unsupported[j])
    {
      if Contains(s, Unsupported[i]) {
        return Some(i);
      }
      i := i + 1;
    }
    return None;
  }

  /** The replacement loop of `datetime`: each entry of the table in turn,
      in table order. */
  method ReplaceEach(s: string, table: seq<(string, Operand)>) returns (t: string)
    ensures t == ApplyTable(s, table)
  {
    t := s;
    var k := 0;
    while k < |table|
      invariant 0 <= k <= |table|
      invariant ApplyTable(t, table[k..]) == ApplyTable(s, table)
    {
      var (fmt, regexp) := table[k];
      assert table[k..][1..] == table[k + 1..];
      t := ReplaceAll(t, fmt, Stringify(regexp));
      k := k + 1;
    }
  }

  /** The replacing half of `datetime`: the optional space-padded day, then
      the table. */
  method Translate(s: string, buggyDay: bool) returns (t: string)
    ensures t == ApplyTable(DayAdjusted(s, buggyDay), DirectiveTable)
  {
    t := s;
    if buggyDay && Contains(t, "%d") {
      t := ReplaceAll(t, "%d", Join(BuggyDay));
    }
    t := ReplaceEach(t, DirectiveTable);
  }

  /** `datetime(s, buggy_day)`: a refused directive raises ValueError naming
      the first one found; otherwise the translated format is returned as one
      raw piece. */
  method Datetime(s: string, buggyDay: bool) returns (r: Result<Pieces, Error>)
    ensures r.Failure? <==> !Accepted(s)
    ensures r.Failure? ==>
      exists k :: FirstUnsupported(s, k) && r.error == ValueError(NotSupported(Unsupported[k]))
    ensures r.Success? ==> r.value == [ApplyTable(DayAdjusted(s, buggyDay), DirectiveTable)]
  {
    var found := FindUnsupported(s);
    if found.Some? {
      var k := found.value;
      return Failure(ValueError(NotSupported(Unsupported[k])));
    }
    var t := Translate(s, buggyDay);
    r := Success(Make(Text(t), false));
  }

  lemma LazyAnyIsBuilt()
    ensures LazyAny == OneOrMore(Frag(Anything), false)
  {
    assert Of(Frag(Anything)) == ["."];
  }

  /** `exactly(n, digits)` for a one-digit count. */
  lemma ExactlyDigit(n: nat)
    requires n < 10
    ensures Exactly(n, Frag(Digit)) == ["\\d", "{", [DigitChar(n)], "}"]
  {
    CountUnescaped(n);
    assert DecimalString(n) == [DigitChar(n)];
  }

  lemma TwoDigitsIsBuilt()
    ensures TwoDigits == Exactly(2, Frag(Digit))
  {
    ExactlyDigit(2);
  }

  lemma ThreeDigitsIsBuilt()
    ensures ThreeDigits == Exactly(3, Frag(Digit))
  {
    ExactlyDigit(3);
  }

  lemma FourDigitsIsBuilt()
    ensures FourDigits == Exactly(4, Frag(Digit))
  {
    ExactlyDigit(4);
  }

  lemma OffsetIsBuilt()
    ensures Offset == Sum(Frag(Either([Text("+"), Text("-")])), Frag(Exactly(4, Frag(Digit)))).pieces
  {
    FourDigitsIsBuilt();
    EscapeExamples();
    EitherTwo(Text("+"), Text("-"));
    assert Render(Text("+")) == "\\+" && Render(Text("-")) == "\\-";
    assert "\\+" + "|" + "\\-" == "\\+|\\-";
    var sign := Either([Text("+"), Text("-")]);
    assert sign == ["(?:", "\\+|\\-", ")"];
    assert Sum(Frag(sign), Frag(FourDigits)).pieces == sign + FourDigits;
  }

  /** `' ' + digit`, the one-digit day with its padding. */
  lemma SpacedDigitRendering()
    ensures Render(Sum(Text(" "), Frag(Digit))) == "\\ \\d"
  {
    EscapeExamples();
    assert Render(Text(" ")) == "\\ ";
  }

  lemma BuggyDayIsBuilt()
    ensures BuggyDay == Either([Sum(Text(" "), Frag(Digit)), Frag(Exactly(2, Frag(Digit)))])
  {
    TwoDigitsIsBuilt();
    SpacedDigitRendering();
    EitherTwo(Sum(Text(" "), Frag(Digit)), Frag(TwoDigits));
    assert Render(Frag(TwoDigits)) == "\\d{2}";
    assert "\\ \\d" + "|" + "\\d{2}" == "\\ \\d|\\d{2}";
  }

  lemma TableEntry(j: nat)
    requires j <= PercentIndex
    ensures |DirectiveTable| == PercentIndex + 1
    ensures DirectiveTable[j] == (DirectiveFormats[j], DirectivePatterns[j])
  {
    assert |DirectiveFormats| == |DirectivePatterns| == PercentIndex + 1;
  }

  lemma TableLast()
    ensures |DirectiveTable| == PercentIndex + 1
    ensures DirectiveTable[PercentIndex..] == [("%%", Text("%"))]
  {
    TableEntry(PercentIndex);
  }

  /** Every key of the table is a two-character directive starting with `%`. */
  lemma DirectiveKeys()
    ensures forall k :: 0 <= k < |DirectiveTable| ==>
      |DirectiveTable[k].0| == 2 && DirectiveTable[k].0[0] == '%'
  {
    FormatsArePercentDirectives();
    assert |DirectiveTable| == |DirectiveFormats|;
    assert forall k :: 0 <= k < |DirectiveTable| ==> DirectiveTable[k].0 == DirectiveFormats[k];
  }

  lemma FormatsArePercentDirectives()
    ensures forall k :: 0 <= k < |DirectiveFormats| ==>
      |DirectiveFormats[k]| == 2 && DirectiveFormats[k][0] == '%'
  {
  }

  /** A text none of whose keys occur comes through the table unchanged. */
  lemma {:induction false} ApplyTableAbsent(s: string, table: seq<(string, Operand)>)
    requires forall k :: 0 <= k < |table| ==> table[k].0 != [] && !Contains(s, table[k].0)
    ensures ApplyTable(s, table) == s
    decreases |table|
  {
    if table != [] {
      ReplaceAbsent(s, table[0].0, Stringify(table[0].1));
      ApplyTableAbsent(s, table[1..]);
    }
  }

  /** A text without `%` comes through any table of `%` directives unchanged. */
  lemma {:induction false} ApplyTableNoPercent(s: string, table: seq<(string, Operand)>)
    requires '%' !in s
    requires forall k :: 0 <= k < |table| ==> |table[k].0| > 0 && table[k].0[0] == '%'
    ensures ApplyTable(s, table) == s
    decreases |table|
  {
    if table != [] {
      AbsentFirstChar(s, table[0].0);
      ReplaceAbsent(s, table[0].0, Stringify(table[0].1));
      ApplyTableNoPercent(s, table[1..]);
    }
  }

  /** A format with no `%` is accepted and comes back unchanged, with or
      without the space-padded-day option. */
  lemma NoDirectiveUnchanged(s: string, buggyDay: bool)
    requires '%' !in s
    ensures Accepted(s)
    ensures ApplyTable(DayAdjusted(s, buggyDay), DirectiveTable) == s
  {
    forall k | 0 <= k < |Unsupported| ensures !Contains(s, Unsupported[k]) {
      AbsentFirstChar(s, Unsupported[k]);
    }
    AbsentFirstChar(s, "%d");
    DirectiveKeys();
    ApplyTableNoPercent(s, DirectiveTable);
  }
}
