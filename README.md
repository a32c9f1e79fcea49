# dinant, modelled in Dafny

dinant is a small Python library for building regular expressions out of
readable pieces. A `Dinant` object holds a list of already-escaped pattern
fragments (`strings`). `+` and the combinators (`capture`, `either`,
`one_or_more`, `between`, …) build new objects by concatenating these lists.
`str()` joins the list into the pattern text, and `matches`, `match` and
`search` hand that text to Python's `re` module. The library also defines
ready-made patterns: digits, integers, floats, hexadecimal numbers, IPv4
addresses with a port, and a translator from `strptime` date formats to
patterns.

The model has nine modules:

- `Wrappers` holds the `Option` and `Result` types and the error kinds
  the library raises.
- `Escaping` models `re.escape` and the escaping it inverts.
- `Strings` models Python's `in` on strings, `str.replace`, `'|'.join`, and
  `str()` of an integer.
- `Fragment` models the pure side of a `Dinant`:
  - its piece list (`Pieces`);
  - the "str or Dinant" argument (`Operand`);
  - the constructor (`Make`), `__add__` (`Plus`) and `__radd__` (`RPlus`);
  - Python's `+` dispatch between the two kinds of operand (`Sum`).
- `Combinators` models every module-level combinator of `dinant.py`.
- `Grammar` models the ready-made patterns and proves the exact text each one
  renders to.
- `DateTime` models the `strptime` directive table and `datetime()`. The
  table's fragments are written out as piece lists. The `…IsBuilt` lemmas
  prove that each is exactly what the source's combinator expression builds.
  The `datetime()` loops become imperative methods, proved against the
  function `ApplyTable`.
- `DateTimeTokens` proves what `datetime()` computes. It covers every format
  made of characters other than `%` and of the table's 18 directives before
  `%%` (each `%` starts one of them). For such a format it proves that each
  directive becomes exactly its table pattern, or the "buggy day" pattern
  for `%d`. Formats such as `"%e"`, `"%G"` or a trailing `%` are outside that
  scope. It also proves that the
  escape `%%a` is not handled. It also proves the exact pattern that
  `datetime()` with its default format `"%a %b %d %H:%M:%S %Y"` returns.
- `Builder` models the `Dinant` class itself, with its fields updated in
  place:
  - `strings`;
  - the `expression` cache;
  - the `compiled` cache;
  - `g`, the last match. This field is absent until `matches` runs.

  The regex engine is a parameter (`Engine`). It is a value made of three
  functions: whether a pattern compiles, an anchored match, and an unanchored
  search. So the model states what the builder hands to the engine and what
  it does with the answer. It does not model what the engine does.

## Model

| member | source | states |
|---|---|---|
| Escaping.EscapeChar | dinant.py:12 | one character's escaping is a literal pattern that reads back as exactly that character; it is two characters long, a backslash then the character, when the character is special, and the character alone otherwise |
| Escaping.Escape | dinant.py:12 | escaping never shortens a text, and a text without special characters is unchanged |
| Escaping.UnescapeEscape | dinant.py:12 | escaping loses nothing: removing the backslashes gives back the original text |
| Escaping.EscapeIsLiteral | dinant.py:12 | an escaped text matches only itself: every special character in it is preceded by a backslash |
| Escaping.LiteralIsEscaped | dinant.py:12 | every such literal pattern is the escaping of exactly one text |
| Escaping.EscapeAppend | dinant.py:25-47 | escaping two texts one after the other is the same as escaping their concatenation, so `+` on two strs renders like one str |
| Escaping.EscapeExamples | dinant.py:12 | the escaped forms of the characters the grammar uses: `-`, `.`, `?`, space and `+` are escaped; `:` and `%` are not |
| Strings.Contains | dinant.py:236 | `p in s`: some suffix of `s` starts with `p` |
| Strings.ContainsIffOccurrence | dinant.py:236 | `p in s` holds exactly when `p` occurs at some index of `s` |
| Strings.ReplaceAll | dinant.py:247 | `s.replace(p, rep)` scans left to right and resumes after each replaced occurrence, so occurrences do not overlap; an empty `p` inserts `rep` before every character and at the end, so the result has `(len(s) + 1) * len(rep)` more characters; a replacement as long as the pattern keeps the length |
| Strings.ReplaceExamples | dinant.py:247 | `'aaa'.replace('aa', 'b')` is `ba`, and `'ab'.replace('', '-')` is `-a-b-` |
| Strings.ReplaceAbsent | dinant.py:247 | `s.replace(p, x)` leaves `s` unchanged when `p` does not occur in it |
| Strings.ReplaceSelf | dinant.py:247 | replacing a text by itself changes nothing |
| Strings.JoinWith | dinant.py:127 | `sep.join(xs)`: a single item is returned as it is; a non-empty list joins to the items' total length plus one separator between each two neighbours |
| Strings.JoinWithSnoc | dinant.py:127 | joining a list plus one more item with a separator is the join of the list, then the separator, then the item |
| Strings.DecimalString | dinant.py:187 | `str(n)` is never empty, starts with `-` exactly when `n` is negative, and the rest is decimal digits whose value is the magnitude of `n`, with no leading zero (zero is the lone digit `0`) |
| Strings.NatStringValue | dinant.py:187 | `str(n)` of a natural number is a digit string whose decimal value is `n` |
| Strings.NatString | dinant.py:187 | `str(n)` of a natural number is a non-empty digit string; zero is `0`, and a positive number has no leading zero |
| Fragment.Join | dinant.py:53 | `''.join(strings)`: a single piece is the whole text |
| Fragment.JoinAppend | dinant.py:50-55 | joining two piece lists one after the other gives the join of their concatenation |
| Fragment.Make | dinant.py:9-18 | the constructor copies a Dinant's pieces whatever the flag; a str becomes exactly one piece: with escaping on, a literal pattern that reads back as the str; with it off, the str itself |
| Fragment.Stringify | dinant.py:50-55 | `str(o)` (as `either` and `datetime` call it, dinant.py:127 and 247) and the rendering that `+` and the combinators use agree on a Dinant; on a str, `str(o)` is the str itself and the rendering is its escaping |
| Fragment.JoinLength | dinant.py:53 | the compacted text is exactly as long as the pieces together |
| Fragment.RenderText | dinant.py:12 | a str operand renders to its escaping, which unescapes back to the str |
| Fragment.Plus | dinant.py:25-33 | `d + o` has d's pieces followed by o's (an escaped str, or another Dinant's pieces), so its text is d's text followed by o's |
| Fragment.RPlus | dinant.py:36-47 | `str + d` succeeds exactly when the left operand is a str; the escaped str comes first. Anything else fails with the source's ValueError message |
| Fragment.Sum | dinant.py:25-47 | Python's `+` on two operands: two strs concatenate as strs; otherwise the result is a Dinant whose text is the left text followed by the right |
| Fragment.SumAssociative | dinant.py:25-47 | the text of a chain of `+` does not depend on how the chain is grouped |
| Fragment.SumAssociativeFragments | dinant.py:25-33 | `+` on three Dinants is associative down to the piece lists |
| Fragment.Equal | dinant.py:86-87 | `==` on Dinants compares the piece lists |
| Fragment.EqualRendersEqual | dinant.py:86-87 | Dinants with equal piece lists render the same text; the converse fails (`['a','b']` and `['ab']`) |
| Combinators.AnchorsAreRaw | dinant.py:180-181 | `bol`, `eol` and `anything` (dinant.py:111) are raw one-piece fragments rendering as `^`, `$` and `.`; the raw `.` differs from the escaped str `'.'` |
| Combinators.Wrap | dinant.py:114-116 | the raw left delimiter, then the middle operand, then the raw right delimiter, both as pieces and as text |
| Combinators.AnyOf | dinant.py:119-122 | a character class whose body is the unescaped argument |
| Combinators.Either | dinant.py:125-127 | a single precompacted piece: the arguments' texts joined with vertical bars inside `(?:…)` |
| Combinators.EitherOne | dinant.py:125-127 | `either` of one argument is a non-capturing group around its text |
| Combinators.EitherTwo | dinant.py:125-127 | `either(a, b)` is three pieces: `(?:`, the two texts joined by a vertical bar, and `)` |
| Combinators.EitherSnoc | dinant.py:125-127 | one more argument of `either` adds a vertical bar and that argument's text before the closing parenthesis |
| Combinators.EitherThree | dinant.py:125-127 | the text of `either(a, b, c)` is `(?:`, the three texts separated by vertical bars, then `)` |
| Combinators.Capture | dinant.py:130-134 | an unnamed capture is `(…)`; a named one is `(?P<name>…)` with the name escaped, both as pieces and as text |
| Combinators.NamedGroup | dinant.py:134 | the named-group construction of a nested `wrap`, flattened to its pieces and its text |
| Combinators.Backref | dinant.py:137-138 | `(?P=name)` with the name escaped |
| Combinators.Comment | dinant.py:140-141 | `(?# text )` with the text escaped |
| Combinators.Lookahead | dinant.py:143-144 | `(?=…)` around the operand |
| Combinators.NegLookahead | dinant.py:146-147 | `(?!…)` around the operand |
| Combinators.Lookbehind | dinant.py:149-150 | `(?<=…)` around the operand |
| Combinators.NegLookbehind | dinant.py:152-153 | `(?<!…)` around the operand |
| Combinators.Quantified | dinant.py:156-175 | a non-capturing group, the quantifier, then a raw `?` exactly when not greedy |
| Combinators.OneOrMore | dinant.py:156-161 | `(?:…)+`, followed by a raw `?` when lazy |
| Combinators.ZeroOrMore | dinant.py:163-168 | `(?:…)*`, followed by a raw `?` when lazy |
| Combinators.Maybe | dinant.py:170-175 | `(?:…)?`, followed by a raw `?` when lazy |
| Combinators.LazyQuantifiersAgree | dinant.py:156-175 | the lazy form of each quantifier is its greedy form plus one `?` piece |
| Combinators.Then | dinant.py:177-178 | `then(s)` renders as s's text; for a str that text is a literal pattern that reads back as exactly the str |
| Combinators.NoneOf | dinant.py:183-184 | `[^…]` around the escaped operand |
| Combinators.Exactly | dinant.py:186-187 | the operand, then `{`, the escaped `str(n)`, then `}`; for n ≥ 0 the text is `s{n}` |
| Combinators.Counted | dinant.py:187 | the operand followed by a counted `wrap('{', count, '}')`, as pieces and as text |
| Combinators.CountUnescaped | dinant.py:187 | escaping `str(n)` changes nothing when n ≥ 0 |
| Combinators.Bounds | dinant.py:190 | `"%d,%d" % (m, n)`: the two decimal numerals with a comma between them |
| Combinators.RepeatCount | dinant.py:190 | the operand followed by the raw bounds between braces |
| Combinators.Between | dinant.py:189-194 | as written: the operand, `{m,n}`, then the escaped `\?` when not greedy |
| Combinators.BetweenCorrected | dinant.py:189-194 | as intended: the operand, `{m,n}`, then a raw `?` (a lazy quantifier) when not greedy |
| Combinators.BetweenLazyMarkEscaped | dinant.py:189-194 | the two versions agree when greedy; lazy, one appends `\?` and the other `?` |
| Combinators.SmallBounds | dinant.py:190 | `"%d,%d" % (1, 3)` is `1,3` |
| Combinators.BetweenLazyExample | dinant.py:189-194 | as written, `between(1, 3, 'a', greedy=False)` renders to `a{1,3}\?`, which requires a literal `?` after the repetition |
| Combinators.BetweenCorrectedExample | dinant.py:189-194 | the corrected version renders the same call as the lazy quantifier `a{1,3}?` |
| Combinators.PlainNameUnescaped | dinant.py:130-138 | a group name without special characters appears verbatim in `(?P<name>…)` and `(?P=name)` |
| Combinators.RenderExamples | dinant.py:285-288 | `str(Dinant('a'))` and `str(then('a'))` are `a`; `str(then('[]'))` is `\[\]` |
| Grammar.UintRendering | dinant.py:198-200 | `uint` renders to `(?:\d)+` |
| Grammar.SignRendering | dinant.py:201 | `maybe('-')` renders to `(?:\-)?` |
| Grammar.IntegerRendering | dinant.py:201-202 | `integer` renders to an optional minus followed by `uint` |
| Grammar.HexRendering | dinant.py:205-206 | `hex` renders to `(?:[0-9A-Fa-f])+` |
| Grammar.PointRendering | dinant.py:204 | `then('.')` renders to an escaped dot |
| Grammar.FloatFractionRendering | dinant.py:204 | the first alternative of `float`: optional sign, optional integer part, a dot and the fraction digits |
| Grammar.FloatPointRendering | dinant.py:204 | the second alternative of `float`: an integer followed by a dot |
| Grammar.FloatRendering | dinant.py:203-204 | `float` tries the three alternatives in source order inside one non-capturing group |
| Grammar.Octet | dinant.py:252 | `between(1, 3, digits)`, with `between` as written, at the piece level: `\d`, `{`, `1,3`, `}` |
| Grammar.OctetRendering | dinant.py:252 | the octet renders to `\d{1,3}` |
| Grammar.IPv4Rendering | dinant.py:252-255 | four octets separated by escaped dots |
| Grammar.IPNumberRendering | dinant.py:257 | `either(IPv4)` is a non-capturing group around IPv4 |
| Grammar.IPPortRendering | dinant.py:259 | the IP number, a `:`, then an integer |
| DateTime.LazyAnyIsBuilt | dinant.py:210 | the table's name pattern is exactly what `one_or_more(anything, greedy=False)` builds |
| DateTime.ExactlyDigit | dinant.py:186-187 | `exactly(n, digits)` for a one-digit `n` is the pieces `\d`, `{`, the digit, `}` |
| DateTime.TwoDigitsIsBuilt | dinant.py:214 | the two-digit pattern is exactly `exactly(2, digits)` |
| DateTime.ThreeDigitsIsBuilt | dinant.py:217 | the three-digit pattern is exactly `exactly(3, digits)` |
| DateTime.FourDigitsIsBuilt | dinant.py:226 | the four-digit pattern is exactly `exactly(4, digits)` |
| DateTime.OffsetIsBuilt | dinant.py:227 | the offset pattern is exactly `either('+', '-') + exactly(4, digits)` |
| DateTime.SpacedDigitRendering | dinant.py:242 | `' ' + digit` renders to an escaped space followed by `\d` |
| DateTime.BuggyDayIsBuilt | dinant.py:242 | the buggy-day pattern is exactly `either(' ' + digit, exactly(2, digits))`: a group of an escaped space followed by a digit, or two digits |
| DateTime.TableEntry | dinant.py:209-229 | the table has nineteen entries, the j-th pairing the j-th format with the j-th pattern |
| DateTime.TableLast | dinant.py:228 | the last entry maps `%%` to the str `%` |
| DateTime.DirectiveKeys | dinant.py:209-229 | every key of the table is `%` followed by one character |
| DateTime.FormatsArePercentDirectives | dinant.py:209-229 | every format of the table is a two-character `%` directive |
| DateTime.NotSupported | dinant.py:237 | the message `'%r not supported.' % fmt`, the format in single quotes |
| DateTime.FindUnsupported | dinant.py:235-237 | the check loop finds nothing exactly when the format has none of `%c`, `%x`, `%X`; otherwise it gives the first of them, in that order, that the format contains |
| DateTime.ReplaceEach | dinant.py:245-247 | the replacement loop replaces every key in table order by `str()` of its value, which is the function `ApplyTable` |
| DateTime.Translate | dinant.py:239-247 | the buggy-day substitution of `%d` (only when asked and present), then the table loop |
| DateTime.Datetime | dinant.py:234-249 | `datetime` fails exactly when the format has a refused directive; the error names the first one `'%c' not supported.`; otherwise the result is one raw piece, the translated format |
| DateTime.DayAdjusted | dinant.py:239-242 | with the buggy day asked for and `%d` present, every `%d` is replaced by the str of the buggy-day pattern; otherwise the format is unchanged |
| DateTime.ApplyTable | dinant.py:245-247 | every key of the table replaced in table order, each replacement applied to the result of the earlier ones |
| DateTime.ApplyTableAbsent | dinant.py:245-247 | a format containing none of the keys passes through the table unchanged |
| DateTime.ApplyTableNoPercent | dinant.py:245-247 | a format without `%` passes through any table of `%` keys unchanged |
| DateTime.NoDirectiveUnchanged | dinant.py:234-249 | a format without `%` is accepted and translates to itself, with or without the buggy day |
| DateTimeTokens.ReplaceStep | dinant.py:247 | replacing one key in a partly translated format translates exactly that directive's occurrences |
| DateTimeTokens.SpellNoPercent | dinant.py:245-247 | once every directive is replaced by a `%`-free pattern, no `%` remains |
| DateTimeTokens.OtherKeyAbsent | dinant.py:235-237 | a format spelled from the table's directives never contains a directive that is not in the table |
| DateTimeTokens.SpellUndone | dinant.py:245-247 | the untranslated format does not depend on the replacement texts |
| DateTimeTokens.Keys | dinant.py:209-227 | the eighteen directives before `%%` |
| DateTimeTokens.AllDone | dinant.py:239-247 | the directives translated after step j of the loop: those before j, plus `%d` when the buggy day already replaced it |
| DateTimeTokens.FormatsShape | dinant.py:209-229 | `%%` comes last and `%d` is fifth; the others are `%` followed by a letter other than `%` |
| DateTimeTokens.FormatsDistinct | dinant.py:209-227 | the directive letters are pairwise distinct |
| DateTimeTokens.LazyAnyRendering | dinant.py:210 | `one_or_more(anything, greedy=False)` renders to `(?:.)+?` |
| DateTimeTokens.LazyAnyHasNoPercent | dinant.py:210 | the lazy "anything" pattern has no `%` |
| DateTimeTokens.DigitsHaveNoPercent | dinant.py:214-226 | the one-, two-, three- and four-digit patterns have no `%` |
| DateTimeTokens.BuggyDayHasNoPercent | dinant.py:242 | the buggy-day pattern has no `%` |
| DateTimeTokens.OffsetHasNoPercent | dinant.py:227 | the offset pattern has no `%` |
| DateTimeTokens.PatternsHaveNoPercent | dinant.py:209-242 | no replacement text contains `%`, so a later key cannot match inside an earlier replacement |
| DateTimeTokens.KeysAreKeyed | dinant.py:209-227 | the keys are distinct `%` directives |
| DateTimeTokens.ValuesAreClean | dinant.py:209-242 | the replacement texts are `%`-free |
| DateTimeTokens.UnsupportedAreNotKeys | dinant.py:235 | `%c`, `%x` and `%X` are directives that are not keys of the table |
| DateTimeTokens.ExpectedNoPercent | dinant.py:245-247 | a fully translated format has no `%` left |
| DateTimeTokens.LastEntryIdentity | dinant.py:228 | the `%%` → `%` step changes nothing in a text without `%` |
| DateTimeTokens.ApplyLast | dinant.py:228 | the `%%` step leaves a fully translated format unchanged |
| DateTimeTokens.TableStep | dinant.py:245-247 | one iteration of the replacement loop |
| DateTimeTokens.EntryValue | dinant.py:209-227 | a directive not yet translated is replaced by its own table pattern |
| DateTimeTokens.DoneGrows | dinant.py:245-247 | each iteration adds its directive to those translated |
| DateTimeTokens.ApplyEntry | dinant.py:247 | the j-th iteration translates the j-th directive and nothing else |
| DateTimeTokens.ApplyDone | dinant.py:245-247 | after the eighteen directives, the rest of the loop yields the expected pattern |
| DateTimeTokens.ApplyFrom | dinant.py:245-247 | the loop from any step j onward yields the expected pattern |
| DateTimeTokens.DayStep | dinant.py:239-242 | the buggy-day substitution translates exactly the `%d` directives |
| DateTimeTokens.TranslatesEachDirective | dinant.py:234-249 | every format built from table directives and `%`-free characters is accepted, and each directive becomes its own pattern (the buggy day for `%d` when asked): under the table's fixed order, no later entry rewrites an earlier replacement |
| DateTimeTokens.DatetimeOfTokens | dinant.py:234-249 | for such formats `datetime` succeeds with the directive-by-directive translation |
| DateTimeTokens.SpellDefault | dinant.py:234 | the default format's tokens spell their seven words in the default layout, spaces and colons between them, whatever the words are |
| DateTimeTokens.DefaultFormatLayout | dinant.py:234 | `"%a %b %d %H:%M:%S %Y"` is `%a`, `%b`, `%d`, `%H`, `%M`, `%S`, `%Y` in that layout |
| DateTimeTokens.SpellDefaultUndone | dinant.py:234 | before any replacement the tokens spell exactly the default format |
| DateTimeTokens.DefaultValues | dinant.py:209-227 | the patterns of `%a` and `%b` are the lazy name pattern; `%d` is two digits, or the buggy day when asked; `%H`, `%M` and `%S` are two digits; `%Y` is four |
| DateTimeTokens.DigitsRendering | dinant.py:214-226 | `exactly(2, digits)` renders to `\d{2}` and `exactly(4, digits)` to `\d{4}` |
| DateTimeTokens.SpellDefaultDone | dinant.py:234-249 | after every directive is replaced, the tokens spell the default pattern: `(?:.)+? (?:.)+? \d{2} \d{2}:\d{2}:\d{2} \d{4}`, with the buggy day in place of the first `\d{2}` when asked |
| DateTimeTokens.DatetimeDefault | dinant.py:234-249 | `datetime()` with the default format succeeds with one raw piece, the default pattern |
| DateTimeTokens.FormatLettersAreNotParen | dinant.py:209-229 | no directive letter is `(` |
| DateTimeTokens.KeyLettersAreNotParen | dinant.py:209-229 | no key of the table is `%(` |
| DateTimeTokens.PercentParenUnchanged | dinant.py:245-247 | a `%(` left by an earlier replacement is never rewritten by a later one |
| DateTimeTokens.ReplaceInEscapedPercent | dinant.py:247 | in `%%a`, replacing `%a` rewrites the second `%` together with the `a` |
| DateTimeTokens.FirstEntryOnEscapedPercent | dinant.py:210 | the first iteration turns `%%a` into `%` followed by the lazy pattern |
| DateTimeTokens.LazyAnyStartsWithParen | dinant.py:210 | the lazy pattern starts with `(` and has no `%` |
| DateTimeTokens.EscapedPercentNotSupported | dinant.py:244-247 | the escape `%%a` is translated to `%` plus the `%a` pattern, not to the literal `%a` |
| Builder.Dinant.FromText | dinant.py:9-22 | the pieces are the escaped or raw str depending on the flag; the escaped piece unescapes back to the str; no caches and no match yet |
| Builder.Dinant.Copy | dinant.py:15-22 | a new object with a copy of the other's pieces and empty caches |
| Builder.Dinant.Add | dinant.py:25-33 | a fresh object with this object's pieces followed by the operand's; this object is left unchanged |
| Builder.Dinant.RAdd | dinant.py:36-47 | succeeds exactly for a str operand, giving a fresh object with the escaped str in front; otherwise the ValueError |
| Builder.Dinant.Str | dinant.py:50-55 | the join of the pieces, cached in `expression`; a cached text is returned as is |
| Builder.Dinant.GetItem | dinant.py:71-75 | the character at the index, negative indices counting from the end; IndexError outside the range |
| Builder.Dinant.Compile | dinant.py:63-64 | compiles the rendered text once and keeps it; later calls reuse the cache; an invalid pattern is an error |
| Builder.Dinant.Matches | dinant.py:62-68 | anchored match of the rendered text; the outcome is stored in `g`, and the result says whether there was a match |
| Builder.Dinant.Match | dinant.py:78-83 | returns the engine's anchored match of the rendered text, without touching `g`; compiles on first use and keeps the compiled pattern, and a rejected pattern leaves the cache empty |
| Builder.Dinant.Search | dinant.py:90-94 | returns the engine's unanchored search of the rendered text, without touching `g`; compiles on first use and keeps the compiled pattern, and a rejected pattern leaves the cache empty |
| Builder.Dinant.Groups | dinant.py:97-101 | ValueError before any `matches`; AttributeError after a failed one; otherwise the captured groups |
| Builder.Dinant.Group | dinant.py:104-108 | the same errors as `groups`; group 0 is the whole match, group i the i-th capture; IndexError outside the range |
| Builder.Dinant.Eq | dinant.py:86-87 | equal exactly when the piece lists are equal, which implies equal pattern text |
| Builder.CopyIsIndependent | dinant.py:16-18 | `Dinant(d)` is a different object with the same pieces; extending it does not change `d` |
| Builder.RenderTwice | dinant.py:50-55 | rendering twice gives the same text both times |
| Builder.RenderOfSum | dinant.py:25-33 | `str(a + b)` is `str(a)` followed by b's text |

## Findings

| source | as written | input that shows it | evidently intended | confidence | as-written member | corrected member |
|---|---|---|---|---|---|---|
| dinant.py:191-192 | a lazy `between` appends the str `'?'`, which `+` escapes to `\?`, a literal question mark | `between(1, 3, 'a', greedy=False)` renders to `a{1,3}\?` | a raw `?` that makes the repetition lazy, `a{1,3}?`, as in `one_or_more` and the other quantifiers (dinant.py:159) | high (not executed) | Combinators.BetweenLazyExample | Combinators.BetweenCorrectedExample |

`Combinators.Between` models the code as written. `Combinators.BetweenCorrected`
is the intended version: its lazy form is its greedy form plus a raw `?`, the
same as the other three quantifiers (`Combinators.LazyQuantifiersAgree`). The
grammar's IPv4 uses `between` as written. It is greedy, where the two agree
(`Combinators.BetweenLazyMarkEscaped`).

## Quirks of the code that the model keeps

- `none_of` escapes its argument (dinant.py:184), unlike `any_of`. A plain
  set of characters is unaffected: `none_of('abc')` is `[^abc]`. Class syntax
  is lost: in `none_of('a-z')` the range becomes the three characters `a`,
  `\-` and `z`.
- `groups()` and `group()` after a failed `matches` reach `None.groups()`. That
  is an AttributeError, not the "hasn't matched anything yet" ValueError, which
  is raised only before the first `matches`.
- `exactly(n, s)` escapes `str(n)` (dinant.py:187). For a negative `n` the
  count is `\-n`, and only for `n ≥ 0` is the text `s{n}`.
- The `__radd__` error message is the literal `'str expected, got %r'`. The `%r`
  is never formatted.
- `Dinant(d, escape=...)` ignores the flag when `d` is a Dinant.

## Left out

- The regular-expression engine is a parameter. The model does not describe
  what Python's `re` module matches, only what the builder gives it and
  returns from it.
- `__getitem__` with a slice: only integer indices are modelled.
- `__repr__`: debugging output.
- `run_tests`, the `__main__` block and `setup.py`: test driver, command line
  and packaging.
- `__add__` with an operand that is neither a str nor a Dinant: Python raises
  an AttributeError. The model's argument type admits only the two kinds.
- The constructor and the combinators with an operand that is neither a str
  nor a Dinant: `Dinant(5)` and `one_or_more(5)` raise an AttributeError
  (dinant.py:18), while `either(5)` succeeds through `str(5)` (dinant.py:127).
  The model's operand type admits only strs and Dinants.
- `group()` with several arguments or with group names: only one integer
  index is modelled. `group()` without an argument means `group(0)`, which
  `Builder.Dinant.Group` covers with the index 0.
- `__eq__` against a non-Dinant: raises an AttributeError. `Eq` takes a Dinant.
- Builder.Dinant.Compile: a helper shared by `matches`, `match` and `search`.
  It is the code they repeat inline, not a method of the source.
- `either` precompacts its arguments with `str()`, which fills the
  arguments' `expression` caches as a side effect. The model renders the
  arguments without recording that cache update.
- `datetime` calls `str(regexp)` on each table fragment (dinant.py:247), which
  fills those fragments' `expression` caches. The model renders the
  fragments without recording that cache update.
- The `%%` escape in `datetime` formats is not supported by the source (its
  own TODO at dinant.py:244). `DateTimeTokens.TranslatesEachDirective` covers
  formats of `%`-free characters and the 18 directives before `%%`; `%e`, for
  one, passes through the source unchanged and is not covered. `DateTimeTokens.EscapedPercentNotSupported`
  shows what happens to `%%a`.
- `re.escape` is modelled with the special-character set of Python 3.7 and
  later, on characters. Non-ASCII input is treated like any other character.
