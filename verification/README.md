# dicelang core in Dafny

A model of the three pieces of logic at the heart of dicelang, a dice-notation
library:

- **The dice modifier suffix** (`DiceMod`). It parses the exploding `!`,
  compounding `!!` and penetrating `!p` tokens, each with an optional
  comparator and threshold. It renders them back in the canonical order
  penetrating, compounding, exploding. It also holds the two roll hooks,
  `rolled` and `modResult`.
- **A dice group** (`Dice`):
  - the expression parser for `count d faces modifiers`;
  - the range checks and the setters, including the fate flag;
  - the static and instance roll drivers, which draw from an injected random device;
  - the canonical rendering.
- **The parenthesis nester** (`parenthesize`). It turns a string into a tree
  of text and nested lists, and fails on unbalanced brackets.

Files and modules:

| file | modules | contents |
|---|---|---|
| `wrappers.dfy` | `Wrappers` | `Option` and `Result`. |
| `errors.dfy` | `Errors` | One `Error` constructor per `throw` site. |
| `decimal.dfy` | `Decimal` | Decimal digits: `parseInt` of a digit string, rendering a number, and greedy `\d+` runs. |
| `strings.dfy` | `Strings` | `indexOf` and `replace` with a string pattern. |
| `dice_mod.dfy` | `DiceMod` | The token regular expression matched by hand; the parse loop, getters, `toString`, `rolled` and `modResult`. |
| `dice_mod_lemmas.dfy` | `DiceModLemmas` | How one token is parsed. |
| | `DiceModRoundTrip` | The rendering round trip. |
| | `DiceModProperties` | The behaviour the tests describe. |
| `dice.dfy` | `Dice` | The dice state, range checks, setters, expression parser, constructor, rolls and `toString` with the shape of its rendering. |
| `dice_lemmas.dfy` | `DiceLemmas` | Parser completeness, error order, round trip, the setters' state machine and the draw ranges. |
| `parser.dfy` | `Parser` | `parenthesize`, both with the delimiters passed on and as written, plus its inverse `Flatten`. |
| `parser_lemmas.dfy` | `ParserLemmas` | Success iff balanced, the flatten round trip both ways, and the shape of the result. |
| `parser_examples.dfy` | `ParserExamples` | The inputs of the repository's parser tests. |
| `parser_findings.dfy` | `ParserFindings` | Inputs on which the as-written recursion differs. |

The random device is a parameter. `Device(source, calls)` answers the k-th call
`randomInt(max, min)` with `source(k, max, min)`. `Honest(dev)` is its interface
promise: every draw lies in `[min, max]`.

## Model

| member | source | states |
|---|---|---|
| Decimal.Value | src/Dice/DiceMod.ts:145 | `parseInt` of a digit string; a leading non-zero digit gives a positive value. |
| Decimal.Show | src/Dice/Dice.ts:279-281 | The rendering of a number is a non-empty digit string that reads back as the number, with no leading zero. |
| Decimal.ShowValue | src/Dice/Dice.ts:122 | A digit string without leading zeros is exactly the rendering of its `parseInt` value. |
| Strings.IndexOf | src/Dice/DiceMod.ts:66 | The search finds the first occurrence at or after the start index, and none means there is no occurrence there. |
| Strings.DeleteFirst | src/Dice/DiceMod.ts:66 | `replace` with a string pattern removes one occurrence's length when the pattern occurs, and leaves the string alone when it does not. |
| DiceMod.MatchTail | src/Dice/DiceMod.ts:9 | The optional comparator-and-digits tail `(?:([<=>])?(\d+)\|(?![<=>]))`, when it matches, is a valid tail that occurs in the string at the given index. |
| DiceMod.MatchAt | src/Dice/DiceMod.ts:9 | A token match at index i starts at i, is well formed (marker `!`, `!!`, `!p` in either case, then a valid tail) and its text really occurs at i. |
| DiceMod.ExecFrom | src/Dice/DiceMod.ts:9 | The leftmost match: it matches where it says, and nothing matches at any earlier index; no result means no index matches. |
| DiceMod.Exec | src/Dice/DiceMod.ts:63-64 | `exec` without the `g` flag searches from index 0: the result occurs where it says and is the leftmost match; none means no index matches. |
| DiceMod.CategoryOf | src/Dice/DiceMod.ts:148-172 | The `switch` on the marker: exactly "!", "!!" and "!p" name a category, each the one whose marker it is. |
| DiceMod.Put | src/Dice/DiceMod.ts:149-168 | Recording a trigger sets exactly its category and leaves the other two as they were. |
| DiceMod.TriggerOf | src/Dice/DiceMod.ts:145-147 | The comparator defaults to `=` and otherwise is the one written; the threshold is absent exactly when no digits were written. |
| DiceMod.Rolled | src/Dice/DiceMod.ts:81-83 | `rolled` appends exactly the rolled value and keeps everything before it. |
| DiceMod.ModResult | src/Dice/DiceMod.ts:92-94 | `modResult` returns the sum of the rolls. |
| DiceMod.CategoryText | src/Dice/DiceMod.ts:104-114 | A category's rendering is empty exactly when the category is unset, and otherwise starts with its marker. |
| DiceMod.ExplodingText | src/Dice/DiceMod.ts:104-106 | The `exploding` getter is "" exactly when exploding is unset, and otherwise starts with `!`. |
| DiceMod.CompoundingText | src/Dice/DiceMod.ts:108-110 | The `compounding` getter is "" exactly when compounding is unset, and otherwise starts with `!!`. |
| DiceMod.PenetratingText | src/Dice/DiceMod.ts:112-114 | The `penetrating` getter is "" exactly when penetrating is unset, and otherwise starts with `!p`. |
| DiceMod.ToString | src/Dice/DiceMod.ts:140-141 | The rendering is empty exactly when no category is set, and otherwise starts with `!`. |
| DiceMod.Record | src/Dice/DiceMod.ts:144-174 | A marker that names no category is refused with `UnexpectedMarker`. Otherwise the token is recorded exactly when its category is unset: the category gets the token's trigger and the other two are unchanged. A set category is refused with `AlreadySet`, naming its current rendering and the token. Well-formedness is kept. |
| DiceMod.ParseFrom | src/Dice/DiceMod.ts:63-71 | The loop never overwrites a category already set, keeps well-formedness, and fails only with `InvalidModifier`, `AlreadySet` or `UnexpectedMarker`. |
| DiceMod.Parse | src/Dice/DiceMod.ts:58-72 | The constructor only produces well-formed sets (a bare token always carries `=`), and fails only with `InvalidModifier`, `AlreadySet` or `UnexpectedMarker`. |
| DiceModLemmas.ExecSpelled | src/Dice/DiceMod.ts:9 | A rendered token followed by nothing or another `!` token is matched whole at index 0, so the longest marker wins. |
| DiceModLemmas.DeleteLeading | src/Dice/DiceMod.ts:66 | `replace` of the matched text at the front of the string removes exactly that prefix. |
| DiceModLemmas.ParseStep | src/Dice/DiceMod.ts:64-67 | One loop iteration: a refused token ends the parse with that error; otherwise the parse goes on with the first occurrence of the token's text deleted. |
| DiceModLemmas.ParseToken | src/Dice/DiceMod.ts:63-67 | A rendered token at the front is recorded when its category is unset and refused with `AlreadySet` when it is set. |
| DiceModRoundTrip.ParseCategory | src/Dice/DiceMod.ts:104-114 | Parsing one category's rendering copies exactly that category's trigger. |
| DiceModRoundTrip.RoundTrip | src/Dice/DiceMod.ts:140-174 | Parsing the `toString` of any well-formed modifier set gives back exactly that set. |
| DiceModProperties.ParseAbsentOrEmpty | src/Dice/DiceMod.ts:58-72 | An absent or empty expression leaves all three categories unset, and the empty set renders as "". |
| DiceModProperties.BareToken | src/Dice/DiceMod.ts:145-147 | A bare marker sets its category with no threshold and renders as the marker alone. |
| DiceModProperties.DigitsDefaultToEqual | src/Dice/DiceMod.ts:145-147 | Digits without a comparator get `=`, and the category renders as marker, `=`, number (e.g. "!6" renders "!=6"). |
| DiceModProperties.SameCategoryTwice | src/Dice/DiceMod.ts:149-169 | A category written twice is refused with `AlreadySet`, naming its current rendering and the second token. |
| DiceModProperties.CompoundThenExplode | src/Dice/DiceMod.spec.ts:107-110 | "!!!" is compound then explode, with penetrate unset. |
| DiceModProperties.PenetrateThenExplode | src/Dice/DiceMod.spec.ts:112-115 | "!p!" is penetrate then explode. |
| DiceModProperties.CompoundThenPenetrate | src/Dice/DiceMod.spec.ts:117-120 | "!!!p" is compound then penetrate. |
| DiceModProperties.PenetrateThenCompound | src/Dice/DiceMod.spec.ts:122-125 | "!p!!" is penetrate then compound. |
| DiceModProperties.AllThreePenetrateFirst | src/Dice/DiceMod.spec.ts:127-130 | "!p!!!" sets all three categories. |
| DiceModProperties.AllThreeCompoundFirst | src/Dice/DiceMod.spec.ts:132-135 | "!!!p!" sets all three categories. |
| DiceModProperties.CompoundThenExplodeAtSix | src/Dice/DiceMod.spec.ts:137-140 | "!!!6" is a bare compound plus explode at `=6`. |
| DiceModProperties.NoBangNoMatch | src/Dice/DiceMod.ts:9 | Without a `!` from the given index on, the token expression matches nowhere. |
| DiceModProperties.ComparatorWithoutDigits | src/Dice/DiceMod.ts:69-71 | A comparator without digits is an `InvalidModifier` error. The unconsumed remainder is the whole string for `!`, and the string without its leading `!` for `!!` and `!p`, whose bare `!` is consumed first. |
| DiceModProperties.LoneComparator | src/Dice/DiceMod.ts:9 | "!" then a comparator then no digit matches nowhere. |
| DiceModProperties.ParseNothingMatches | src/Dice/DiceMod.ts:69-71 | A non-empty remainder that nothing matches is reported with the original expression and the remainder. |
| DiceModProperties.FallBackToBang | src/Dice/DiceMod.ts:9 | When the tail after "!!" or "!p" fails, the regular expression backtracks to the bare "!", which is recorded and deleted. |
| DiceModProperties.UpperCasePenetrate | src/Dice/DiceMod.ts:170-172 | Under the `i` flag "!P" matches but names no category and is refused with `UnexpectedMarker`. |
| Dice.Draws | src/Dice/Dice.ts:238-251 | n draws; with an honest device and `min <= max`, every one lies in `[min, max]`. |
| Dice.CheckN | src/Dice/Dice.ts:74-78 | Accepts exactly `0..maxN` and returns the value; otherwise the error names `n`. |
| Dice.CheckDAsWritten | src/Dice/Dice.ts:68-72 | Accepts exactly `0..maxD`; its error message is modelled as written. |
| Dice.CheckD | src/Dice/Dice.ts:68-72 | Accepts exactly `0..maxD` and returns the value; otherwise the error names `d`. |
| Dice.RollMany | src/Dice/Dice.ts:22-34 | The static roll checks `d` first, then `n` (default 1). On success it returns exactly the n draws of `randomInt(d, 1)` in call order, and the device has answered n more calls. |
| Dice.D | src/Dice/Dice.ts:162-168 | The `d` getter reports how many values a roll can take (faces minus minimum roll plus one), so a fate die reports 3. |
| Dice.SetN | src/Dice/Dice.ts:144-156 | The `n` setter succeeds exactly in range, changes only the count, and keeps validity. |
| Dice.SetD | src/Dice/Dice.ts:175-181 | The `d` setter succeeds exactly in range; the reported `d` is the value, fate is cleared, the minimum roll is 1, and validity is kept. The count, the modifiers, the history and the device are unchanged. |
| Dice.SetFate | src/Dice/Dice.ts:186-208 | An unchanged flag changes nothing. Turning fate on gives internal faces 1 and minimum roll -1; turning it off gives faces 3 and minimum roll 1; either way the die reports 3 faces. Validity is kept, and the count, the modifiers, the history and the device are unchanged. |
| Dice.FacesEnd | src/Dice/Dice.ts:64-66 | The faces group `(f\|\d+)` ends after an `f` or after a run of digits. |
| Dice.MatchExpression | src/Dice/Dice.ts:64-66 | A match is a decomposition the regular expression accepts, with a digit count and `f` or digit faces. |
| Dice.New | src/Dice/Dice.ts:102-138 | A constructed dice is valid and has no roll history. |
| Dice.FromMatch | src/Dice/Dice.ts:115-136 | The dice built from a match is valid and has no roll history. |
| Dice.Roll | src/Dice/Dice.ts:238-251 | Succeeds exactly for a count in range (default: the dice's own). `rawRolls` are the n draws of `randomInt(_d, _minRoll)` in order, `rolls == rawRolls`, and the result is their sum. Nothing else changes but the device. |
| DiceLemmas.MatchExpressionComplete | src/Dice/Dice.ts:64-66 | Whenever some decomposition fits, the regular expression matches, and the count runs up to that `d`. |
| DiceLemmas.MatchExpressionIff | src/Dice/Dice.ts:64-66 | The regular expression matches exactly the strings that some decomposition fits. |
| DiceLemmas.MatchExpressionSplits | src/Dice/Dice.ts:64-66 | The captures are count, `d`, faces and modifiers, concatenated. The count and numeric faces are greedy. |
| DiceLemmas.NewDefault | src/Dice/Dice.ts:105-108 | No expression, or "", is 1d20 without modifiers and not fate. |
| DiceLemmas.NewRejects | src/Dice/Dice.ts:111-113 | An expression the regular expression rejects fails with `InvalidExpression`. |
| DiceLemmas.ModifierErrorFirst | src/Dice/Dice.ts:115-136 | A modifier error is reported before any range check. |
| Dice.ModifierTextShape | src/Dice/DiceMod.ts:104-141 | The modifiers' rendering is empty or starts with `!`, and holds no line terminator. |
| Dice.MatchRenderedFate | src/Dice/Dice.ts:64-66 | A rendered fate expression splits into its count, "F" and its modifiers. |
| Dice.MatchRenderedDigits | src/Dice/Dice.ts:64-66 | A rendered numeric expression splits into its count, faces and modifiers. |
| DiceLemmas.RoundTrip | src/Dice/Dice.ts:279-281 | Constructing from `toString` of a valid dice gives the same count, faces, fate flag, minimum roll and modifiers, with no history. |
| DiceLemmas.NewFate | src/Dice/Dice.ts:119-131 | `f` or `F` faces build the dice through the fate setter, with the written count or 1 when none is written. |
| DiceLemmas.NewPlain | src/Dice/Dice.ts:119-136 | Numeric faces are checked and stored as the face count, with the written count or 1 when none is written. |
| Dice.ToString | src/Dice/Dice.ts:279-281 | The rendering of a valid dice is matched by the expression, with the count, `F` or the faces, and the modifiers' rendering as its captures. |
| DiceLemmas.MatchFacesOnly | src/Dice/Dice.ts:64-66 | "d" then a number is matched with no count, the number as faces and no modifiers. |
| DiceLemmas.CountDefaultsToOne | src/Dice/Dice.ts:119-120 | "d" then an in-range number builds a single die with those faces and no modifiers. |
| DiceLemmas.MatchFateLetter | src/Dice/Dice.ts:64-66 | "dF" and "df" are matched with no count, the letter as faces and no modifiers. |
| DiceLemmas.MatchCountedFate | src/Dice/Dice.ts:64-66 | "2df" is matched with the count "2", faces `f` and no modifiers. |
| DiceLemmas.FateEitherCase | src/Dice/Dice.ts:128-131 | "dF" and "df" both build one fate die, and "2df" builds two. |
| DiceLemmas.CountErrorBeforeFaces | src/Dice/Dice.ts:119-136 | With both numbers out of range, the count's error is the one reported. |
| DiceLemmas.FacesOutOfRange | src/Dice/Dice.ts:132-136 | Faces above the bound with an in-range count fail with the `d` range error. |
| DiceLemmas.FateOnThenOff | src/Dice/Dice.ts:186-208 | Fate on gives internal `d` 1, minimum roll -1 and reported `d` 3. Fate off again gives a d3 rolling from 1. Count and modifiers survive both. |
| DiceLemmas.SetDClearsFate | src/Dice/Dice.ts:175-181 | Setting `d` on a fate die gives a plain die with those faces, and turning fate off afterwards changes nothing. |
| DiceLemmas.RollRange | src/Dice/Dice.ts:221-223 | A fate die draws from `[-1, 1]`, and a plain die with at least one face from `[1, faces]`. |
| DiceLemmas.RollHundredD6 | src/Dice/Dice.spec.ts:15-29 | A hundred d6 rolls give a hundred values, each in `[1, 6]`. |
| DiceLemmas.RollDefaults | src/Dice/Dice.spec.ts:5-13 | The count defaults to 1, and a zero-faced die is accepted. |
| DiceLemmas.CheckDBlamesN | src/Dice/Dice.ts:68-72 | For a bad `d`, the as-written check reports `n` while the corrected one reports `d`. |
| DiceLemmas.CheckDAgree | src/Dice/Dice.ts:68-72 | Both checks accept the same values and agree on them. |
| Parser.IndexOf | src/Parser/Parser.ts:11-12 | `indexOf`: the first index holding the character, or -1 when there is none. |
| ParserLemmas.IndexOfAgrees | src/Parser/Parser.ts:11-12 | The one-character `indexOf` is the general string search with a one-character pattern, -1 standing for none. |
| Parser.Scan | src/Parser/Parser.ts:28-41 | The scan for the matching bracket, when it finds one, stops inside the string and after its start. |
| Parser.MatchingParen | src/Parser/Parser.ts:28-41 | The stack loop finds a match exactly when the depth scan does, and at the same index. |
| Parser.Parenthesize | src/Parser/Parser.ts:8-52 | The only error is `UnmatchedParenthesis`, and a success is never the empty list. |
| Parser.ParenthesizeAsWritten | src/Parser/Parser.ts:8-52 | The only error is `UnmatchedParenthesis`. |
| ParserLemmas.CloseFirst | src/Parser/Parser.ts:17-20 | A closing bracket before any opening one makes the string unbalanced. |
| ParserLemmas.Unclosed | src/Parser/Parser.ts:39-41 | When the scan never closes an opening bracket, the depth at the end is positive. |
| ParserLemmas.ParseStep | src/Parser/Parser.ts:23-49 | Around the first pair: success exactly when the inner text and the rest parse. The value is the prefix text (if any), the nested inner parse, then the rest. |
| ParserLemmas.NoPair | src/Parser/Parser.ts:14-20 | Without a complete first pair, the input parses exactly when it holds no bracket, giving the single text. |
| ParserLemmas.ParseSucceedsIffBalanced | src/Parser/Parser.ts:8-52 | `parenthesize` succeeds exactly when the depth never goes negative and ends at zero. |
| ParserLemmas.ParseFlattens | src/Parser/Parser.ts:23-49 | Wrapping every nested list in brackets and concatenating gives back the input. |
| ParserLemmas.ParseIsCanonical | src/Parser/Parser.ts:23-49 | A parse never has two adjacent texts, and no text is empty unless it is alone. |
| ParserLemmas.ParseTextsPlain | src/Parser/Parser.ts:14-16 | No text in a parse contains a bracket. |
| ParserLemmas.PlainParses | src/Parser/Parser.ts:14-16 | Input without a bracket parses to the single text `[input]`. |
| ParserLemmas.ParseAround | src/Parser/Parser.ts:23-49 | Plain text, a pair around a parsable body, then a remainder: the parse is the text, the nested body, then the remainder's parse. |
| ParserLemmas.BalancedAround | src/Parser/Parser.ts:8-52 | Plain text and a balanced pair in front do not change whether the remainder balances. |
| ParserLemmas.CanonicalParses | src/Parser/Parser.ts:8-52 | Inverse round trip: a canonical tree whose texts hold no brackets is exactly the parse of its flattening. |
| ParserExamples.AcceptsPlain | src/Parser/Parser.spec.ts:8-10 | "" and "Hello world" parse to themselves as single texts. |
| ParserExamples.AcceptsParenthesized | src/Parser/Parser.spec.ts:12 | "(Hello world)" parses to one nested list. |
| ParserExamples.AcceptsTextThenPair | src/Parser/Parser.spec.ts:14 | "Hello (world)" parses to a text then a nested list. |
| ParserExamples.AcceptsTwoPairs | src/Parser/Parser.spec.ts:16 | "He(llo) wo(rld)" parses to alternating texts and lists. |
| ParserExamples.AcceptsNestedPair | src/Parser/Parser.spec.ts:18 | "Hello ((wo)rld)" nests a list inside a list. |
| ParserExamples.AcceptsMixedNesting | src/Parser/Parser.spec.ts:20 | "He(ll)o ((wo)r(l)d)" parses to the tree the test expects. |
| ParserExamples.AcceptsEmptyPairFirst | src/Parser/Parser.spec.ts:22 | "()Hello world" gives a list holding one empty text, then the text. |
| ParserExamples.RejectsLoneOpen | src/Parser/Parser.spec.ts:32 | "(" is rejected. |
| ParserExamples.RejectsLoneClose | src/Parser/Parser.spec.ts:34 | ")" is rejected. |
| ParserExamples.RejectsUnclosedAfterText | src/Parser/Parser.spec.ts:36 | "Hello ( world" is rejected. |
| ParserExamples.RejectsStrayClose | src/Parser/Parser.spec.ts:38 | "He()llo ) world" is rejected. |
| ParserExamples.RejectsExtraClose | src/Parser/Parser.spec.ts:40 | "(()))" is rejected. |
| ParserExamples.RejectsUnclosed | src/Parser/Parser.spec.ts:42 | "(()()" is rejected. |
| ParserExamples.RejectsCloseFirst | src/Parser/Parser.spec.ts:44 | ")(" is rejected. |
| ParserFindings.AsWrittenAgreesOnDefaults | src/Parser/Parser.ts:44-48 | With the default delimiters the as-written recursion is the same function. |
| ParserFindings.AsWrittenWrapped | src/Parser/Parser.ts:44 | With other delimiters, the body of an outer pair is reparsed with `(` and `)`. |
| ParserFindings.AsWrittenKeepsInnerBrackets | src/Parser/Parser.ts:44 | With `[`/`]`, "[[a]]" keeps "[a]" as a text, so a text of the result holds a bracket. |
| ParserFindings.AsWrittenRejectsBalanced | src/Parser/Parser.ts:44 | With `[`/`]`, the balanced "[(]" is rejected as written but parses when the delimiters are passed on. |

## Left out

- Numbers are exact naturals. `parseInt` rounding above 2^53 and the exponent rendering of numbers at or above 10^21 are not modelled. The count and faces are bounded by 2^53 - 1, so they are exact. Modifier thresholds have no bound.
- DiceModRoundTrip.RoundTrip: holds for thresholds of any size. The code renders a threshold of 10^21 or more in exponent form ("!99999999999999999999999" renders "!=1e+23", which no longer parses), and `parseInt` loses exactness above 2^53, so there the code's round trip fails.
- DiceLemmas.RoundTrip: holds for modifier thresholds of any size, for the same reason as DiceModRoundTrip.RoundTrip.
- The modifier categories the constructor never sets (successes, failures, keep/drop, reroll, sort) are left out, with their regular expressions and fields. Their getters always return "", so `toString` is modelled without them.
- The roll semantics of explode, compound and penetrate are left out: the implemented `rolled` only appends the value.
- `toStringPlaintext` is left out: it calls a method the modifier class does not define.
- The `maxD`/`maxN` setters are left out. Both bounds are the constant `Number.MAX_SAFE_INTEGER`.
- The `Math.round` of non-integral values in the setters is left out: the model's values are integers, and floating point is not modelled.
- The `Infinity` test of the static roll is left out: floating point is not modelled.
- The random source is left out. Its implementation uses the Web Crypto API and `window`, and the names imported from it do not exist. It is replaced by the `Device` parameter.
- The binding parameter of the dice constructor is left out: it is never read.
- `splitOperators` is left out: it is a stub.
- The unused expression operator types are left out.
- Object reflection helpers, the constants file apart from the safe-integer bound, the unused modifier type declarations, the example UI and the build configuration are left out.
- Some modifier tests are not backed by the code and are not modelled: the unimplemented categories, whitespace trimming, and the property getters the modifier class does not have.
- Dice.RollMany: reports a bad `d` through the corrected check, whose error names `d`; the code at src/Dice/Dice.ts:70 names `n` (see Findings). It also accepts `d = 0`, as the code does. The repository's test at src/Dice/Dice.spec.ts:32 expects a throw.
- DiceLemmas.RollRange: requires at least one face, because a zero-faced die asks the device for a draw from the empty range `[1, 0]`, about which the device promises nothing.
- Parser.Parenthesize: multi-character and empty delimiters are not modelled; the delimiters are single characters. No caller passes delimiters, and the code's own recursive calls use the defaults `(` and `)`.
- Dice.SetD: reports a bad value through the corrected check, whose error names `d`; the code at src/Dice/Dice.ts:70 names `n` (see Findings).
- Dice.FromMatch: reports bad faces through the corrected check, whose error names `d`; the code at src/Dice/Dice.ts:70 names `n` (see Findings).
- DiceLemmas.FacesOutOfRange: the range error it states names `d`, as the corrected check does; the code at src/Dice/Dice.ts:70 names `n` (see Findings).
- Dice.Roll: the sum is the exact integer sum of the draws; floating-point addition is not modelled.

## Findings

| source | as written | input that shows it | evidently intended | confidence | as-written member | corrected member |
|---|---|---|---|---|---|---|
| src/Dice/Dice.ts:70 | `checkD` throws a range error whose message names `n` | `Dice.roll(-1)`: the message says `n` must be in range, but `n` is 1 | the message names `d`, the parameter checked | high, not executed | DiceLemmas.CheckDBlamesN | Dice.CheckD |
| src/Parser/Parser.ts:44-48 | the recursive calls of `parenthesize` omit the delimiter arguments, so they fall back to `(` and `)` | `parenthesize("[(]", "[", "]")` throws although its brackets balance; `parenthesize("[[a]]", "[", "]")` leaves `[a]` as text | the recursive calls pass the delimiters on | high, not executed | ParserFindings.AsWrittenRejectsBalanced | ParserLemmas.ParseSucceedsIffBalanced |
