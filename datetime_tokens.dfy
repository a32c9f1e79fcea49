/** What `datetime` does to a format built from characters other than `%`
    and the table's 18 directives before `%%`: every directive is replaced by
    its pattern and every other character is kept. Formats with `%%`, with
    another `%` directive such as `%e`, or with a trailing `%` are outside this
    theorem. */
module DateTimeTokens {
  import opened Wrappers
  import opened Escaping
  import opened Fragment
  import opened Strings
  import opened Combinators
  import opened Grammar
  import opened DateTime

  /** A format, read as a list of tokens: a literal character, or the
      directive at an index of a list of keys. */
  datatype Token = Char(c: char) | Directive(k: nat)

  /** Keys of the form `%x`, with distinct letters that are not `%`. */
  predicate Keyed(keys: seq<string>) {
    (forall k :: 0 <= k < |keys| ==> |keys[k]| == 2 && keys[k][0] == '%' && keys[k][1] != '%') &&
    (forall k, j :: 0 <= k < j < |keys| ==> keys[k][1] != keys[j][1])
  }

  /** Replacement texts with no `%` in them. */
  predicate Clean(vals: seq<string>) {
    forall k :: 0 <= k < |vals| ==> '%' !in vals[k]
  }

  /** No literal `%`, and every directive names one of `n` keys. */
  predicate WellFormed(toks: seq<Token>, n: nat) {
    forall i :: 0 <= i < |toks| ==> TokenOk(toks[i], n)
  }

  predicate TokenOk(t: Token, n: nat) {
    (t.Char? ==> t.c != '%') && (t.Directive? ==> t.k < n)
  }

  /** The text the tokens spell with the directives in `done` already
      replaced by their values and the others still written as keys. */
  function Spell(toks: seq<Token>, keys: seq<string>, vals: seq<string>, done: set<nat>): string
    requires |keys| == |vals| && WellFormed(toks, |keys|)
  {
    if toks == [] then ""
    else
      assert TokenOk(toks[0], |keys|);
      (match toks[0]
       case Char(c) => [c]
       case Directive(k) => if k in done then vals[k] else keys[k])
      + Spell(toks[1..], keys, vals, done)
  }

  /** Replacing the key at `j`, by its value when it is not done yet, marks
      it done: the other directives and the literal characters are untouched. */
  lemma {:induction false} ReplaceStep(toks: seq<Token>, keys: seq<string>, vals: seq<string>,
                                       done: set<nat>, j: nat, rep: string)
    requires |keys| == |vals| && Keyed(keys) && Clean(vals) && WellFormed(toks, |keys|)
    requires j < |keys| && (j !in done ==> rep == vals[j])
    ensures ReplaceAll(Spell(toks, keys, vals, done), keys[j], rep) == Spell(toks, keys, vals, done + {j})
    decreases |toks|
  {
    var p := keys[j];
    if toks != [] {
      assert WellFormed(toks[1..], |keys|) && TokenOk(toks[0], |keys|);
      var rest := Spell(toks[1..], keys, vals, done);
      ReplaceStep(toks[1..], keys, vals, done, j, rep);
      match toks[0]
      case Char(c) =>
        ReplaceAfterFree([c], rest, p, rep);
      case Directive(k) =>
        if k in done {
          ReplaceAfterFree(vals[k], rest, p, rep);
        } else if k == j {
          ReplaceLeading(p, rest, rep);
        } else {
          ReplaceAfterOther(keys[k], rest, p, rep);
        }
    }
  }

  /** With every directive done, no `%` is left. */
  lemma {:induction false} SpellNoPercent(toks: seq<Token>, keys: seq<string>, vals: seq<string>, done: set<nat>)
    requires |keys| == |vals| && Clean(vals) && WellFormed(toks, |keys|)
    requires forall k :: 0 <= k < |keys| ==> k in done
    ensures '%' !in Spell(toks, keys, vals, done)
    decreases |toks|
  {
    if toks != [] {
      assert WellFormed(toks[1..], |keys|) && TokenOk(toks[0], |keys|);
      SpellNoPercent(toks[1..], keys, vals, done);
    }
  }

  /** A `%x` text whose letter is none of the keys' letters does not occur
      in a spelled format with nothing done. */
  lemma {:induction false} OtherKeyAbsent(toks: seq<Token>, keys: seq<string>, vals: seq<string>, p: string)
    requires |keys| == |vals| && Keyed(keys) && WellFormed(toks, |keys|)
    requires |p| == 2 && p[0] == '%' && p[1] != '%'
    requires forall k :: 0 <= k < |keys| ==> keys[k][1] != p[1]
    ensures !Contains(Spell(toks, keys, vals, {}), p)
    decreases |toks|
  {
    if toks == [] {
      assert !IsPrefix(p, "");
    } else {
      assert WellFormed(toks[1..], |keys|) && TokenOk(toks[0], |keys|);
      OtherKeyAbsent(toks[1..], keys, vals, p);
      var rest := Spell(toks[1..], keys, vals, {});
      match toks[0]
      case Char(c) =>
        AbsentAfterFree([c], rest, p);
      case Directive(k) =>
        AbsentAfterOther(keys[k], rest, p);
    }
  }

  // The table of `datetime`.

  /** The pattern each directive stands for (with the space-padded day when
      `buggyDay` is set). */
  function PatternText(k: nat, buggyDay: bool): string
    requires k < PercentIndex
  {
    if buggyDay && k == DayIndex then Join(BuggyDay) else Stringify(DirectivePatterns[k])
  }

  /** The table's keys and values before `%%`. */
  function Keys(): (r: seq<string>)
    ensures |r| == PercentIndex
  {
    DirectiveFormats[..PercentIndex]
  }

  function Values(buggyDay: bool): (r: seq<string>)
    ensures |r| == PercentIndex
    ensures forall k :: 0 <= k < PercentIndex ==> r[k] == PatternText(k, buggyDay)
  {
    seq(PercentIndex, k requires 0 <= k < PercentIndex => PatternText(k, buggyDay))
  }

  /** The format text the tokens spell. */
  function FormatOf(toks: seq<Token>): string
    requires WellFormed(toks, PercentIndex)
  {
    Spell(toks, Keys(), Values(false), {})
  }

  /** The pattern the tokens stand for: each directive replaced, each literal
      character kept. */
  function Expected(toks: seq<Token>, buggyDay: bool): string
    requires WellFormed(toks, PercentIndex)
  {
    Spell(toks, Keys(), Values(buggyDay), AllDone(PercentIndex, false))
  }

  /** The directives replaced once the table's entries below `j` are applied. */
  function AllDone(j: nat, buggyDay: bool): (r: set<nat>)
    ensures forall k: nat :: k in r <==> k < j || (buggyDay && k == DayIndex)
  {
    if j == 0 then (if buggyDay then {DayIndex} else {}) else AllDone(j - 1, buggyDay) + {j - 1}
  }

  // Facts about the table's contents.

  lemma FormatsShape()
    ensures |DirectiveFormats| == PercentIndex + 1 && DirectiveFormats[PercentIndex] == "%%"
    ensures DirectiveFormats[DayIndex] == "%d"
    ensures forall k :: 0 <= k < PercentIndex ==>
      |DirectiveFormats[k]| == 2 && DirectiveFormats[k][0] == '%' && DirectiveFormats[k][1] != '%'
  {
  }

  lemma FormatsDistinct()
    ensures forall k, j :: 0 <= k < j < PercentIndex ==> DirectiveFormats[k][1] != DirectiveFormats[j][1]
  {
  }

  /** The text of the lazy pattern that stands for names. */
  const LazyAnyText := "(?:.)+?"

  lemma LazyAnyRendering()
    ensures Join(LazyAny) == LazyAnyText
  {
  }

  // The fragments of the table, and the buggy day, render without a `%`.

  lemma LazyAnyHasNoPercent()
    ensures '%' !in Join(LazyAny)
  {
  }

  lemma DigitsHaveNoPercent()
    ensures '%' !in Join(Digit) && '%' !in Join(TwoDigits)
    ensures '%' !in Join(ThreeDigits) && '%' !in Join(FourDigits)
  {
  }

  lemma OffsetHasNoPercent()
    ensures '%' !in Join(Offset)
  {
  }

  lemma BuggyDayHasNoPercent()
    ensures '%' !in Join(BuggyDay)
  {
  }

  /** No replacement text (before `%%`) contains a `%`. */
  lemma PatternsHaveNoPercent(buggyDay: bool)
    ensures forall k :: 0 <= k < PercentIndex ==> '%' !in PatternText(k, buggyDay)
  {
    LazyAnyHasNoPercent();
    DigitsHaveNoPercent();
    OffsetHasNoPercent();
    BuggyDayHasNoPercent();
  }

  lemma KeysAreKeyed()
    ensures Keyed(Keys())
    ensures forall k :: 0 <= k < PercentIndex ==> Keys()[k] == DirectiveFormats[k]
  {
    FormatsShape();
    FormatsDistinct();
  }

  lemma ValuesAreClean(buggyDay: bool)
    ensures Clean(Values(buggyDay))
  {
    PatternsHaveNoPercent(buggyDay);
  }

  /** The refused directives are not keys of the table. */
  lemma UnsupportedAreNotKeys()
    ensures forall u :: 0 <= u < |Unsupported| ==>
      |Unsupported[u]| == 2 && Unsupported[u][0] == '%' && Unsupported[u][1] != '%'
    ensures forall u, k :: 0 <= u < |Unsupported| && 0 <= k < PercentIndex ==>
      Unsupported[u][1] != DirectiveFormats[k][1]
  {
  }

  /** Only the done set matters to the spelling, not the values of the others. */
  lemma {:induction false} SpellUndone(toks: seq<Token>, keys: seq<string>, v1: seq<string>, v2: seq<string>)
    requires |keys| == |v1| == |v2| && WellFormed(toks, |keys|)
    ensures Spell(toks, keys, v1, {}) == Spell(toks, keys, v2, {})
    decreases |toks|
  {
    if toks != [] {
      assert WellFormed(toks[1..], |keys|);
      SpellUndone(toks[1..], keys, v1, v2);
    }
  }

  /** Once every entry before `%%` is applied, no `%` is left. */
  lemma ExpectedNoPercent(toks: seq<Token>, buggyDay: bool)
    requires WellFormed(toks, PercentIndex)
    ensures '%' !in Expected(toks, buggyDay)
  {
    ValuesAreClean(buggyDay);
    SpellNoPercent(toks, Keys(), Values(buggyDay), AllDone(PercentIndex, false));
  }

  lemma LastEntryIdentity(s: string)
    requires '%' !in s
    ensures ApplyTable(s, DirectiveTable[PercentIndex..]) == s
  {
    TableLast();
    ApplyTableNoPercent(s, [("%%", Text("%"))]);
  }

  /** The last entry, `%%`, finds nothing left to replace. */
  lemma ApplyLast(toks: seq<Token>, buggyDay: bool)
    requires WellFormed(toks, PercentIndex)
    ensures ApplyTable(Expected(toks, buggyDay), DirectiveTable[PercentIndex..]) == Expected(toks, buggyDay)
  {
    ExpectedNoPercent(toks, buggyDay);
    LastEntryIdentity(Expected(toks, buggyDay));
  }

  /** Applying the table from entry `j` is replacing that entry's key first. */
  lemma TableStep(s: string, s': string, j: nat)
    requires j < PercentIndex
    requires ReplaceAll(s, DirectiveFormats[j], Stringify(DirectivePatterns[j])) == s'
    ensures ApplyTable(s, DirectiveTable[j..]) == ApplyTable(s', DirectiveTable[j + 1..])
  {
    TableEntry(j);
    assert DirectiveTable[j..][0] == DirectiveTable[j];
    assert DirectiveTable[j..][1..] == DirectiveTable[j + 1..];
  }

  lemma EntryValue(j: nat, buggyDay: bool)
    requires j < PercentIndex
    ensures j !in AllDone(j, buggyDay) ==> Stringify(DirectivePatterns[j]) == Values(buggyDay)[j]
  {
  }

  lemma DoneGrows(j: nat, buggyDay: bool)
    ensures AllDone(j, buggyDay) + {j} == AllDone(j + 1, buggyDay)
  {
  }

  /** Entry `j` of the table marks directive `j` done. */
  lemma ApplyEntry(toks: seq<Token>, j: nat, buggyDay: bool)
    requires WellFormed(toks, PercentIndex) && j < PercentIndex
    ensures ReplaceAll(Spell(toks, Keys(), Values(buggyDay), AllDone(j, buggyDay)), DirectiveFormats[j], Stringify(DirectivePatterns[j]))
         == Spell(toks, Keys(), Values(buggyDay), AllDone(j + 1, buggyDay))
  {
    KeysAreKeyed();
    ValuesAreClean(buggyDay);
    EntryValue(j, buggyDay);
    DoneGrows(j, buggyDay);
    ReplaceStep(toks, Keys(), Values(buggyDay), AllDone(j, buggyDay), j, Stringify(DirectivePatterns[j]));
  }

  /** Once every directive is done, the rest of the table changes nothing. */
  lemma ApplyDone(toks: seq<Token>, buggyDay: bool)
    requires WellFormed(toks, PercentIndex)
    ensures ApplyTable(Spell(toks, Keys(), Values(buggyDay), AllDone(PercentIndex, buggyDay)), DirectiveTable[PercentIndex..])
         == Expected(toks, buggyDay)
  {
    assert AllDone(PercentIndex, buggyDay) == AllDone(PercentIndex, false);
    ApplyLast(toks, buggyDay);
  }

  /** Applying the table from entry `j` on finishes the translation. */
  lemma {:induction false} ApplyFrom(toks: seq<Token>, j: nat, buggyDay: bool)
    requires WellFormed(toks, PercentIndex) && j <= PercentIndex
    ensures ApplyTable(Spell(toks, Keys(), Values(buggyDay), AllDone(j, buggyDay)), DirectiveTable[j..])
         == Expected(toks, buggyDay)
    decreases PercentIndex - j
  {
    if j == PercentIndex {
      ApplyDone(toks, buggyDay);
    } else {
      var s := Spell(toks, Keys(), Values(buggyDay), AllDone(j, buggyDay));
      var s' := Spell(toks, Keys(), Values(buggyDay), AllDone(j + 1, buggyDay));
      ApplyEntry(toks, j, buggyDay);
      TableStep(s, s', j);
      ApplyFrom(toks, j + 1, buggyDay);
    }
  }

  /** The space-padded-day substitution replaces exactly the `%d` directives. */
  lemma DayStep(toks: seq<Token>, buggyDay: bool)
    requires WellFormed(toks, PercentIndex)
    ensures DayAdjusted(FormatOf(toks), buggyDay) == Spell(toks, Keys(), Values(buggyDay), AllDone(0, buggyDay))
  {
    FormatsShape();
    KeysAreKeyed();
    SpellUndone(toks, Keys(), Values(false), Values(buggyDay));
    if buggyDay {
      ValuesAreClean(true);
      assert AllDone(0, false) == {};
      assert {} + {DayIndex} == AllDone(0, true);
      ReplaceStep(toks, Keys(), Values(true), {}, DayIndex, Join(BuggyDay));
      if !Contains(FormatOf(toks), "%d") {
        ReplaceAbsent(FormatOf(toks), "%d", Join(BuggyDay));
      }
    } else {
      assert AllDone(0, false) == {};
    }
  }

  /** `datetime` on a format of literal characters and directives other than
      `%%` accepts it and replaces each directive by its pattern, keeping every
      other character: the in-order replace-all over the table is the
      token-by-token translation. */
  lemma TranslatesEachDirective(toks: seq<Token>, buggyDay: bool)
    requires WellFormed(toks, PercentIndex)
    ensures Accepted(FormatOf(toks))
    ensures ApplyTable(DayAdjusted(FormatOf(toks), buggyDay), DirectiveTable) == Expected(toks, buggyDay)
  {
    KeysAreKeyed();
    UnsupportedAreNotKeys();
    forall u | 0 <= u < |Unsupported| ensures !Contains(FormatOf(toks), Unsupported[u]) {
      OtherKeyAbsent(toks, Keys(), Values(false), Unsupported[u]);
    }
    DayStep(toks, buggyDay);
    ApplyFrom(toks, 0, buggyDay);
  }

  /** `datetime` on the format the tokens spell returns their translation. */
  method DatetimeOfTokens(toks: seq<Token>, buggyDay: bool) returns (r: Result<Pieces, Error>)
    requires WellFormed(toks, PercentIndex)
    ensures r == Success([Expected(toks, buggyDay)])
  {
    TranslatesEachDirective(toks, buggyDay);
    r := Datetime(FormatOf(toks), buggyDay);
  }

  // The default format of `datetime()`.

  /** `"%a %b %d %H:%M:%S %Y"` as tokens: weekday, month and day separated by
      spaces, the time separated by colons, then the year. */
  const DefaultTokens: seq<Token> := [
    Directive(0), Char(' '), Directive(2), Char(' '), Directive(4), Char(' '),
    Directive(5), Char(':'), Directive(9), Char(':'), Directive(11), Char(' '),
    Directive(16)]

  /** What `Spell` writes for the directive at `k`. */
  function Word(k: nat, keys: seq<string>, vals: seq<string>, done: set<nat>): string
    requires k < |keys| == |vals|
  {
    if k in done then vals[k] else keys[k]
  }

  /** What `Spell` writes for one token. */
  function TokenText(t: Token, keys: seq<string>, vals: seq<string>, done: set<nat>): string
    requires |keys| == |vals| && TokenOk(t, |keys|)
  {
    match t
    case Char(c) => [c]
    case Directive(k) => Word(k, keys, vals, done)
  }

  /** Spelling the default tokens from position `i` on: the token at `i`,
      then the rest. */
  lemma SpellDefaultAt(i: nat, keys: seq<string>, vals: seq<string>, done: set<nat>)
    requires |keys| == |vals| == PercentIndex && i < |DefaultTokens|
    ensures WellFormed(DefaultTokens[i..], PercentIndex) && WellFormed(DefaultTokens[i + 1..], PercentIndex)
    ensures TokenOk(DefaultTokens[i], PercentIndex)
    ensures Spell(DefaultTokens[i..], keys, vals, done) ==
      TokenText(DefaultTokens[i], keys, vals, done) + Spell(DefaultTokens[i + 1..], keys, vals, done)
  {
    var t := DefaultTokens;
    assert WellFormed(t, PercentIndex);
    assert t[i..][0] == t[i] && t[i..][1..] == t[i + 1..];
  }

  /** Spelling positions 10 to 12 of the default tokens: the seconds and the year. */
  lemma SpellDefaultYear(keys: seq<string>, vals: seq<string>, done: set<nat>)
    requires |keys| == |vals| == PercentIndex
    ensures WellFormed(DefaultTokens[10..], PercentIndex)
    ensures Spell(DefaultTokens[10..], keys, vals, done) ==
      Word(11, keys, vals, done) + (" " + Word(16, keys, vals, done))
  {
    var t := DefaultTokens;
    assert t[13..] == [];
    SpellDefaultAt(12, keys, vals, done);
    var s12 := Word(16, keys, vals, done);
    assert Spell(t[12..], keys, vals, done) == s12 + "" == s12;
    SpellDefaultAt(11, keys, vals, done);
    var s11 := " " + s12;
    assert Spell(t[11..], keys, vals, done) == s11;
    SpellDefaultAt(10, keys, vals, done);
    var s10 := Word(11, keys, vals, done) + s11;
    assert Spell(t[10..], keys, vals, done) == s10;
  }

  /** Spelling positions 6 to 9 of the default tokens: the hour, minutes and their colons. */
  lemma SpellDefaultMinutes(keys: seq<string>, vals: seq<string>, done: set<nat>)
    requires |keys| == |vals| == PercentIndex
    ensures WellFormed(DefaultTokens[6..], PercentIndex) && WellFormed(DefaultTokens[10..], PercentIndex)
    ensures Spell(DefaultTokens[6..], keys, vals, done) ==
      Word(5, keys, vals, done) + (":" + (Word(9, keys, vals, done) + (":" + (Spell(DefaultTokens[10..], keys, vals, done)))))
  {
    var t := DefaultTokens;
    SpellDefaultAt(9, keys, vals, done);
    var s9 := ":" + Spell(DefaultTokens[10..], keys, vals, done);
    assert Spell(t[9..], keys, vals, done) == s9;
    SpellDefaultAt(8, keys, vals, done);
    var s8 := Word(9, keys, vals, done) + s9;
    assert Spell(t[8..], keys, vals, done) == s8;
    SpellDefaultAt(7, keys, vals, done);
    var s7 := ":" + s8;
    assert Spell(t[7..], keys, vals, done) == s7;
    SpellDefaultAt(6, keys, vals, done);
    var s6 := Word(5, keys, vals, done) + s7;
    assert Spell(t[6..], keys, vals, done) == s6;
  }

  /** Spelling positions 3 to 5 of the default tokens: the day and the spaces around it. */
  lemma SpellDefaultDay(keys: seq<string>, vals: seq<string>, done: set<nat>)
    requires |keys| == |vals| == PercentIndex
    ensures WellFormed(DefaultTokens[3..], PercentIndex) && WellFormed(DefaultTokens[6..], PercentIndex)
    ensures Spell(DefaultTokens[3..], keys, vals, done) ==
      " " + (Word(4, keys, vals, done) + (" " + (Spell(DefaultTokens[6..], keys, vals, done))))
  {
    var t := DefaultTokens;
    SpellDefaultAt(5, keys, vals, done);
    var s5 := " " + Spell(DefaultTokens[6..], keys, vals, done);
    assert Spell(t[5..], keys, vals, done) == s5;
    SpellDefaultAt(4, keys, vals, done);
    var s4 := Word(4, keys, vals, done) + s5;
    assert Spell(t[4..], keys, vals, done) == s4;
    SpellDefaultAt(3, keys, vals, done);
    var s3 := " " + s4;
    assert Spell(t[3..], keys, vals, done) == s3;
  }

  /** Spelling positions 0 to 2 of the default tokens: the weekday and the month. */
  lemma SpellDefaultMonth(keys: seq<string>, vals: seq<string>, done: set<nat>)
    requires |keys| == |vals| == PercentIndex
    ensures WellFormed(DefaultTokens[0..], PercentIndex) && WellFormed(DefaultTokens[3..], PercentIndex)
    ensures Spell(DefaultTokens[0..], keys, vals, done) ==
      Word(0, keys, vals, done) + (" " + (Word(2, keys, vals, done) + (Spell(DefaultTokens[3..], keys, vals, done))))
  {
    var t := DefaultTokens;
    SpellDefaultAt(2, keys, vals, done);
    var s2 := Word(2, keys, vals, done) + Spell(DefaultTokens[3..], keys, vals, done);
    assert Spell(t[2..], keys, vals, done) == s2;
    SpellDefaultAt(1, keys, vals, done);
    var s1 := " " + s2;
    assert Spell(t[1..], keys, vals, done) == s1;
    SpellDefaultAt(0, keys, vals, done);
    var s0 := Word(0, keys, vals, done) + s1;
    assert Spell(t[0..], keys, vals, done) == s0;
  }

  /** The default format's layout: seven words, separated by spaces except
      for the colons between hours, minutes and seconds. */
  function DefaultLayout(a: string, b: string, d: string, h: string, m: string, s: string, y: string): string {
    a + " " + b + " " + d + " " + h + ":" + m + ":" + s + " " + y
  }

  lemma LayoutNested(a: string, b: string, d: string, h: string, m: string, s: string, y: string)
    ensures DefaultLayout(a, b, d, h, m, s, y) ==
      a + (" " + (b + (" " + (d + (" " + (h + (":" + (m + (":" + (s + (" " + y)))))))))))
  {
  }

  /** The default tokens spell their seven words in the default layout,
      whatever the words are. */
  lemma SpellDefault(keys: seq<string>, vals: seq<string>, done: set<nat>)
    requires |keys| == |vals| == PercentIndex
    ensures WellFormed(DefaultTokens, PercentIndex)
    ensures Spell(DefaultTokens, keys, vals, done) ==
      DefaultLayout(Word(0, keys, vals, done), Word(2, keys, vals, done), Word(4, keys, vals, done),
        Word(5, keys, vals, done), Word(9, keys, vals, done), Word(11, keys, vals, done), Word(16, keys, vals, done))
  {
    SpellDefaultYear(keys, vals, done);
    SpellDefaultMinutes(keys, vals, done);
    SpellDefaultDay(keys, vals, done);
    SpellDefaultMonth(keys, vals, done);
    assert DefaultTokens[0..] == DefaultTokens;
    LayoutNested(Word(0, keys, vals, done), Word(2, keys, vals, done), Word(4, keys, vals, done),
      Word(5, keys, vals, done), Word(9, keys, vals, done), Word(11, keys, vals, done), Word(16, keys, vals, done));
  }

  /** The default format is the seven directives in the default layout. */
  lemma DefaultFormatLayout()
    ensures DefaultFormat == DefaultLayout("%a", "%b", "%d", "%H", "%M", "%S", "%Y")
  {
  }

  /** The default tokens spell the default format, whatever the replacement
      texts, as long as none of the directives has been replaced. */
  lemma SpellDefaultUndone(keys: seq<string>, vals: seq<string>)
    requires keys == Keys() && |vals| == PercentIndex
    ensures WellFormed(DefaultTokens, PercentIndex)
    ensures Spell(DefaultTokens, keys, vals, {}) == DefaultFormat
  {
    SpellDefault(keys, vals, {});
    assert Word(0, keys, vals, {}) == "%a" && Word(2, keys, vals, {}) == "%b";
    assert Word(4, keys, vals, {}) == "%d" && Word(5, keys, vals, {}) == "%H";
    assert Word(9, keys, vals, {}) == "%M" && Word(11, keys, vals, {}) == "%S";
    assert Word(16, keys, vals, {}) == "%Y";
    DefaultFormatLayout();
  }

  /** The pattern of the default format: two lazy names, the day (plain or
      space-padded), the time and the year. */
  function DefaultPattern(buggyDay: bool): string {
    var day := if buggyDay then Join(BuggyDay) else "\\d{2}";
    DefaultLayout(LazyAnyText, LazyAnyText, day, "\\d{2}", "\\d{2}", "\\d{2}", "\\d{4}")
  }

  /** The replacement texts of the default format's directives. */
  lemma DefaultValues(vals: seq<string>, buggyDay: bool)
    requires vals == Values(buggyDay)
    ensures |vals| == PercentIndex
    ensures vals[0] == LazyAnyText && vals[2] == LazyAnyText
    ensures vals[4] == if buggyDay then Join(BuggyDay) else "\\d{2}"
    ensures vals[5] == "\\d{2}" && vals[9] == "\\d{2}" && vals[11] == "\\d{2}"
    ensures vals[16] == "\\d{4}"
  {
    DateValues(vals, buggyDay);
    TimeValues(vals, buggyDay);
  }

  lemma DateValues(vals: seq<string>, buggyDay: bool)
    requires vals == Values(buggyDay)
    ensures vals[0] == LazyAnyText && vals[2] == LazyAnyText
    ensures vals[4] == if buggyDay then Join(BuggyDay) else "\\d{2}"
  {
    LazyAnyRendering();
    DigitsRendering();
    assert DirectivePatterns[0] == DirectivePatterns[2] == Frag(LazyAny);
    assert DirectivePatterns[4] == Frag(TwoDigits);
    assert vals[0] == PatternText(0, buggyDay) == Stringify(Frag(LazyAny));
    assert vals[2] == PatternText(2, buggyDay) == Stringify(Frag(LazyAny));
    assert vals[4] == PatternText(4, buggyDay);
  }

  lemma TimeValues(vals: seq<string>, buggyDay: bool)
    requires vals == Values(buggyDay)
    ensures vals[5] == "\\d{2}" && vals[9] == "\\d{2}" && vals[11] == "\\d{2}"
    ensures vals[16] == "\\d{4}"
  {
    DigitsRendering();
    assert DirectivePatterns[5] == DirectivePatterns[9] == DirectivePatterns[11] == Frag(TwoDigits);
    assert DirectivePatterns[16] == Frag(FourDigits);
    assert vals[5] == PatternText(5, buggyDay) == Stringify(Frag(TwoDigits));
    assert vals[9] == PatternText(9, buggyDay) == Stringify(Frag(TwoDigits));
    assert vals[11] == PatternText(11, buggyDay) == Stringify(Frag(TwoDigits));
    assert vals[16] == PatternText(16, buggyDay) == Stringify(Frag(FourDigits));
  }

  lemma DigitsRendering()
    ensures Join(TwoDigits) == "\\d{2}" && Join(FourDigits) == "\\d{4}"
  {
  }

  /** Once every directive is replaced, the default tokens spell the default
      pattern. */
  lemma SpellDefaultDone(keys: seq<string>, vals: seq<string>, buggyDay: bool)
    requires keys == Keys() && vals == Values(buggyDay)
    ensures WellFormed(DefaultTokens, PercentIndex)
    ensures Spell(DefaultTokens, keys, vals, AllDone(PercentIndex, false)) == DefaultPattern(buggyDay)
  {
    var done := AllDone(PercentIndex, false);
    DefaultValues(vals, buggyDay);
    SpellDefault(keys, vals, done);
    assert Word(0, keys, vals, done) == vals[0] && Word(2, keys, vals, done) == vals[2];
    assert Word(4, keys, vals, done) == vals[4] && Word(5, keys, vals, done) == vals[5];
    assert Word(9, keys, vals, done) == vals[9] && Word(11, keys, vals, done) == vals[11];
    assert Word(16, keys, vals, done) == vals[16];
  }

  /** `datetime()` with the default format: it succeeds, and the one raw
      piece it returns is the default pattern, with the space-padded day when
      asked. */
  method DatetimeDefault(buggyDay: bool) returns (r: Result<Pieces, Error>)
    ensures r == Success([DefaultPattern(buggyDay)])
  {
    var toks, keys := DefaultTokens, Keys();
    SpellDefaultUndone(keys, Values(false));
    SpellDefaultDone(keys, Values(buggyDay), buggyDay);
    TranslatesEachDirective(toks, buggyDay);
    r := Datetime(DefaultFormat, buggyDay);
  }

  // `%%` is not treated as an escaped percent sign.

  lemma FormatLettersAreNotParen()
    ensures forall k :: 0 <= k < |DirectiveFormats| ==> DirectiveFormats[k][1] != '('
  {
    FormatsArePercentDirectives();
  }

  lemma KeyLettersAreNotParen()
    ensures forall k :: 0 <= k < |DirectiveTable| ==>
      |DirectiveTable[k].0| == 2 && DirectiveTable[k].0[0] == '%' && DirectiveTable[k].0[1] != '('
  {
    TableEntry(0);
    FormatsArePercentDirectives();
    FormatLettersAreNotParen();
    forall k | 0 <= k < |DirectiveTable| ensures DirectiveTable[k].0 == DirectiveFormats[k] {
      TableEntry(k);
    }
  }

  /** A `%` followed by `(` and no other `%` is left alone by the table. */
  lemma PercentParenUnchanged(rest: string, j: nat)
    requires '%' !in rest && j <= PercentIndex
    ensures ApplyTable("%(" + rest, DirectiveTable[j..]) == "%(" + rest
  {
    KeyLettersAreNotParen();
    var table := DirectiveTable[j..];
    forall k | 0 <= k < |table| ensures table[k].0 != [] && !Contains("%(" + rest, table[k].0) {
      var p := table[k].0;
      assert p == DirectiveTable[j + k].0;
      AbsentFirstChar(rest, p);
      AbsentAfterOther("%(", rest, p);
    }
    ApplyTableAbsent("%(" + rest, table);
  }

  /** `%%a` with `%a` replaced by any text. */
  lemma ReplaceInEscapedPercent(x: string)
    ensures ReplaceAll("%%a", "%a", x) == "%" + x
  {
    assert ReplaceAll("%a", "%a", x) == x + ReplaceAll("", "%a", x);
    assert ReplaceAll("%%a", "%a", x) == "%" + ReplaceAll("%a", "%a", x);
  }

  lemma FirstEntryOnEscapedPercent()
    ensures ReplaceAll("%%a", DirectiveFormats[0], Stringify(DirectivePatterns[0])) == "%" + LazyAnyText
  {
    LazyAnyRendering();
    ReplaceInEscapedPercent(LazyAnyText);
  }

  lemma LazyAnyStartsWithParen()
    ensures "%" + LazyAnyText == "%(" + LazyAnyText[1..]
    ensures '%' !in LazyAnyText[1..]
  {
  }

  /** `%%a` is read as a `%` followed by the `%a` directive, not as the literal
      text `%a`: the first entry of the table takes the second `%` with the `a`. */
  lemma EscapedPercentNotSupported()
    ensures ApplyTable(DayAdjusted("%%a", false), DirectiveTable) == "%" + LazyAnyText
    ensures "%" + LazyAnyText != "%a"
  {
    assert DirectiveTable[0..] == DirectiveTable;
    FirstEntryOnEscapedPercent();
    TableStep("%%a", "%" + LazyAnyText, 0);
    LazyAnyStartsWithParen();
    PercentParenUnchanged(LazyAnyText[1..], 1);
  }
}
