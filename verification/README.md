# formula-input, modelled in Dafny

A model of the pure logic behind the formula editor widget. The user types
text that becomes tokens: operands (`+ - * / ^ ( )`), numbers, or tags that
name an entity from a suggestion service. Tags are picked from a
suggestion list or edited through a dropdown. The editor shows the value
of the formula, computed by a left-to-right fold.

The model has eight modules, one file each:

| file | module | what it holds |
|---|---|---|
| `wrappers.dfy` | `Wrappers` | `Option` |
| `text.dfy` | `Text` | `trim`, `toLowerCase`, `includes` on ASCII text |
| `seqs.dfy` | `Seqs` | `filter`, `find`, subsequences |
| `autocomplete.dfy` | `Autocomplete` | `Suggestion`, the `Map` de-duplication and the query filter of `fetchSuggestions` |
| `formula_store.dfy` | `FormulaStore` | `Token` (the store's `Tag`), `addTag`, `removeTag`, `updateTag`, `clearFormula` |
| `token_rules.dfy` | `TokenRules` | `VALID_OPERANDS`, the two number patterns, `getTagType`, `isValidNextType`, the show-suggestions flag, `cleanedInput` |
| `evaluator.dfy` | `Evaluator` | `parseNumber`, the fold of `calculateFormula`, the loop itself, and a left-to-right reference semantics |
| `formula_input.dfy` | `FormulaInput` | the event handlers as transitions of an immutable `Editor`, and the invariant every session keeps |

Numbers are exact reals. `Math.pow` is a parameter `pow`. Each token id
is an argument supplied by the caller, in place of `Date.now()`. The two
regular expressions `^-?\d*\.?\d+$` and `^-?\d+\/\d+$` appear twice. They
are defined as ghost predicates that say a split of the text exists. They
are also written as executable scanners, and lemmas prove the two agree in
both directions.

Three behaviours of the code that are easy to misread. The model follows
the code in each:

- De-duplication. `new Map(...)` keeps each id at the position of its
  first occurrence but holds the value of its last occurrence
  (`Autocomplete.DuplicateKeepsLastEntry`).
- Zero divisor. The rule that a zero divisor counts as 1 (`num || 1`)
  applies to every value, tags included, not only to number literals
  (`Evaluator.DivideByZeroKeepsResult`).
- Operators. Every operand other than `(` and `)` latches the current
  operator, and a value reapplies the last latched operator, so the
  alternating formula `2 + 3 ( 4` is 9. The fold also gives `( 2 )` the
  value 0 (`Evaluator.LeadingParenthesisDropsValue`), but that formula
  starts with an operand, which the sequence rule never lets the editor
  build.

## Model

| member | source | states |
|---|---|---|
| Text.Trim | src/components/FormulaInput.tsx:45 | the input is white space, then the result, then white space; the result has no white space at either end |
| Text.TrimOfPadded | src/components/FormulaInput.tsx:45 | text with no white space at either end, padded with white space on both sides, trims back to itself |
| Text.TrimIgnoresPadding | src/components/FormulaInput.tsx:45 | white space around a string does not change its trimmed form |
| Text.TrimIdempotent | src/components/FormulaInput.tsx:77-85 | trimming twice is trimming once (the key handler classifies text it has already trimmed) |
| Text.ToLower | src/api/autocomplete.ts:22-23 | same length; no upper-case ASCII letter survives, every upper-case letter becomes its lower-case partner at the same place, and every other character is left as it is |
| Seqs.Filter | src/store/formulaStore.ts:36 | keeps exactly the elements satisfying the predicate, with their multiplicities, in order |
| Seqs.FindFirst | src/components/FormulaInput.tsx:90 | `None` exactly when no element qualifies; otherwise the element at the first qualifying index |
| Autocomplete.Dedup | src/api/autocomplete.ts:16-18 | ids are distinct, the id set equals the input's, each entry is the last input entry with its id, and entries are ordered by the first occurrence of their id |
| Autocomplete.DedupSnoc | src/api/autocomplete.ts:16-18 | de-duplicating a list with one more entry is one more `Map.set` on the de-duplicated list |
| Autocomplete.DuplicateKeepsLastEntry | src/api/autocomplete.ts:17 | for `[a, c, b]` with `a.id == b.id`, the result is `[b, c]`: `a`'s position holds `b` |
| Autocomplete.UniqueIdsCount | src/api/autocomplete.ts:16-18 | with distinct ids, the number of ids is the number of entries |
| Autocomplete.DedupCount | src/api/autocomplete.ts:16-18 | the de-duplicated list has exactly one entry per distinct id of the fetched list |
| Autocomplete.FilterByQuery | src/api/autocomplete.ts:20-25 | an empty query keeps everything; otherwise an entry stays exactly when its lower-cased name or category contains the lower-cased query, every matching entry keeps its number of copies, and the result is an ordered subsequence |
| Autocomplete.FetchSuggestions | src/api/autocomplete.ts:16-25 | the result has distinct ids drawn from the fetched list, is a subsequence of the de-duplicated list, equals it for the empty query, and keeps exactly the matching entries otherwise |
| FormulaStore.AddTag | src/store/formulaStore.ts:27-33 | the old list plus exactly one token at the end with the given id, value, kind and suggestion; a fresh id keeps ids distinct |
| FormulaStore.RemoveTag | src/store/formulaStore.ts:34-37 | every token with the id goes, every other token stays with its multiplicity and order; an absent id changes nothing |
| FormulaStore.UpdateTag | src/store/formulaStore.ts:38-43 | length, order, ids and kinds are kept; tokens with the id take the new value and suggestion (none clears it); others are unchanged; an absent id changes nothing |
| FormulaStore.ClearFormula | src/store/formulaStore.ts:44 | the result is empty |
| FormulaStore.AddThenRemove | src/store/formulaStore.ts:27-37 | adding a token with a fresh id and removing that id restores the list |
| FormulaStore.RemoveLast | src/store/formulaStore.ts:34-37 | with distinct ids, removing the last token's id drops exactly the last token |
| FormulaStore.UpdateIdempotent | src/store/formulaStore.ts:38-43 | applying the same update twice is applying it once |
| TokenRules.DecimalScannerCorrect | src/components/FormulaInput.tsx:47 | the scanner accepts text exactly when `-?\d*\.?\d+` matches all of it |
| TokenRules.FractionScannerCorrect | src/components/FormulaInput.tsx:47 | the scanner accepts text exactly when `-?\d+/\d+` matches all of it |
| TokenRules.GetTagTypeSpec | src/components/FormulaInput.tsx:44-49 | operand exactly when the trimmed text is a listed operand; number exactly when it is not and a number pattern matches; tag otherwise |
| TokenRules.GetTagTypeIgnoresPadding | src/components/FormulaInput.tsx:45 | surrounding white space does not change the kind |
| TokenRules.UnpaddedClassification | src/components/FormulaInput.tsx:44-48 | for text without outer white space, the kind depends on the text itself |
| TokenRules.OperandSymbolLength | src/components/FormulaInput.tsx:19 | every operand is one character, neither a digit nor `.` |
| TokenRules.OperandExamples | src/components/FormulaInput.tsx:44-46 | `+`, `-` and ` ) ` are operands, so `-` alone is not a number |
| TokenRules.IntegerIsNumber | src/components/FormulaInput.tsx:47 | an optional minus followed by digits is a number (`-5`) |
| TokenRules.DecimalIsNumber | src/components/FormulaInput.tsx:47 | optional minus, digits, a point and at least one digit is a number (`.5`, `3.14`) |
| TokenRules.FractionIsNumber | src/components/FormulaInput.tsx:47 | optional minus, digits, `/`, digits is a number (`-3/4`) |
| TokenRules.NonDigitEndIsTag | src/components/FormulaInput.tsx:47-48 | text that is not an operand and is empty or does not end in a digit is a tag (`5.`, `12a`, empty text) |
| TokenRules.SignedDenominatorIsTag | src/components/FormulaInput.tsx:47-48 | a minus after the slash makes a tag (`1/-2`) |
| TokenRules.IsValidNextType | src/components/FormulaInput.tsx:51-61 | an operand is accepted exactly after a tag or number; a tag or number exactly at the start or after an operand |
| TokenRules.ValidNextKeepsAlternation | src/components/FormulaInput.tsx:51-61 | for an alternating formula, appending a token keeps it alternating exactly when the sequence rule accepts the token's kind |
| TokenRules.ShowSuggestions | src/components/FormulaInput.tsx:66-72 | the list opens exactly when the trimmed text is non-empty and would be committed as a tag |
| TokenRules.OperatorCharsAreOperands | src/components/FormulaInput.tsx:36 | the characters `cleanedInput` strips are exactly the one-character operands |
| TokenRules.StripOperators | src/components/FormulaInput.tsx:36 | every operator character is deleted and every other character keeps its number of copies and its order |
| TokenRules.CleanedInput | src/components/FormulaInput.tsx:36 | the stripped text is white space, then the query, then white space; the query has no outer white space and no operator character |
| TokenRules.CleanedInputIdempotent | src/components/FormulaInput.tsx:36 | cleaning a cleaned query changes nothing |
| Evaluator.ParseInteger | src/components/FormulaInput.tsx:126-132 | optional minus and digits parse to the signed digit value |
| Evaluator.ParseDecimal | src/components/FormulaInput.tsx:126-132 | `[-]a.b` parses to the signed value of `a` plus `b` scaled by its number of places |
| Evaluator.ParseFraction | src/components/FormulaInput.tsx:126-129 | `[-]a/b` parses to the signed quotient, and to nothing when `b` is zero |
| Evaluator.NatTextValue | src/components/FormulaInput.tsx:126-132 | the digits printed for `n` are worth `n` |
| Evaluator.ParseNatText | src/components/FormulaInput.tsx:126-132 | printing a natural number, with or without a minus, and parsing it gives the number back |
| Evaluator.ParseFractionText | src/components/FormulaInput.tsx:126-129 | a printed fraction `a/b` parses to `a / b`, and to nothing when `b` is 0 |
| Evaluator.DigitsValueZero | src/components/FormulaInput.tsx:127-129 | a digit run is worth 0 exactly when all its digits are `0` |
| Evaluator.NumberTextParses | src/components/FormulaInput.tsx:126-132 | text the number patterns accept fails to parse exactly when it is a fraction whose denominator is all zeros |
| Evaluator.CalculateFormula | src/components/FormulaInput.tsx:134-170 | the loop over the tokens computes the fold `Calculate`; the empty formula gives 0 |
| Evaluator.FirstValueSetsResult | src/components/FormulaInput.tsx:150-153 | a single value's formula evaluates to that value |
| Evaluator.ValueAppliesLatchedOperator | src/components/FormulaInput.tsx:150-163 | a later value applies the latched operator to the result, or leaves the result alone when none is latched; the latch does not change |
| Evaluator.LatchedOperator | src/components/FormulaInput.tsx:164-165 | the latched operator is the value of the last operand other than a parenthesis, and there is none exactly when no such operand occurs |
| Evaluator.ParenthesisInert | src/components/FormulaInput.tsx:164 | inserting `(` or `)` after the first token does not change the value |
| Evaluator.LeadingParenthesisDropsValue | src/components/FormulaInput.tsx:150-166 | `( v )` evaluates to 0: the value is not at index 0 and no operator is latched (a formula the sequence rule never builds) |
| Evaluator.DivideByZeroKeepsResult | src/components/FormulaInput.tsx:142-159 | dividing by any value worth 0, a tag's included, leaves the result unchanged |
| Evaluator.CalculateIsLeftToRight | src/components/FormulaInput.tsx:134-170 | for an alternating formula with arithmetic operators, the value is the strict left-to-right evaluation; a trailing operator is ignored |
| Evaluator.NoPrecedence | src/components/FormulaInput.tsx:155-161 | `2 + 3 * 4` is 20 |
| Evaluator.AdditionExample | src/components/FormulaInput.tsx:156 | `2 + 3` is 5 |
| Evaluator.DivideByZeroExample | src/components/FormulaInput.tsx:159 | `10 / 0` is 10 |
| Evaluator.PowerExample | src/components/FormulaInput.tsx:160 | `2 ^ 3` is `pow(2, 3)`, so 8 |
| Evaluator.FractionExample | src/components/FormulaInput.tsx:126-156 | `1/2 + 1/2` is 1 |
| Evaluator.NegativeExample | src/components/FormulaInput.tsx:152-153 | `-4` alone is -4 |
| Evaluator.TagExample | src/components/FormulaInput.tsx:143 | a tag counts its suggestion's value, and 0 without a suggestion |
| FormulaInput.HandleInputChange | src/components/FormulaInput.tsx:63-73 | the text is stored, the formula is untouched, and the list opens exactly when the text would be committed as a tag |
| FormulaInput.SuggestionNamed | src/components/FormulaInput.tsx:90 | the suggestion found is the first whose name equals the text ignoring case, and none is found only when no suggestion has it |
| FormulaInput.SuggestionExactlyNamed | src/components/FormulaInput.tsx:119 | the suggestion found is the first whose name equals the choice exactly, and none is found only when no suggestion has it |
| FormulaInput.HandleKeyDown | src/components/FormulaInput.tsx:75-101 | on blank input only Backspace acts, removing every token with the last token's id (`removeTag`); otherwise the state changes exactly when the key commits the kind and the sequence rule holds, and then exactly one token is appended with the trimmed text, its kind and (for a tag) the matching suggestion, and the input is cleared |
| FormulaInput.BackspaceDropsLast | src/components/FormulaInput.tsx:77-83 | with distinct ids, Backspace on blank input removes exactly the last token |
| FormulaInput.HandleSuggestionClick | src/components/FormulaInput.tsx:103-114 | a click changes the state exactly when a tag may come next, and then appends the suggestion as a tag and clears the input |
| FormulaInput.HandleDropdownChange | src/components/FormulaInput.tsx:116-124 | an empty or missing choice changes nothing; otherwise tokens with the id take the chosen name and `SuggestionExactlyNamed` of it, and the rest of the state is kept |
| FormulaInput.HandleClear | src/components/FormulaInput.tsx:250 | the formula becomes empty; the text box and the list are untouched |
| FormulaInput.CommittedTextFits | src/components/FormulaInput.tsx:77-93 | a committed operand is a listed symbol, a committed number matches a number pattern, and a committed operand or number carries no suggestion |
| FormulaInput.AppendKeepsWellFormed | src/components/FormulaInput.tsx:51-61 | an accepted token with a fresh id and fitting text keeps the formula well formed |
| FormulaInput.PrefixWellFormed | src/components/FormulaInput.tsx:79-81 | every prefix of a well-formed formula is well formed |
| FormulaInput.KeyDownKeepsWellFormed | src/components/FormulaInput.tsx:75-101 | a key press keeps the formula well formed and adds no id but the fresh one |
| FormulaInput.ClickKeepsWellFormed | src/components/FormulaInput.tsx:103-114 | a suggestion click keeps the formula well formed and adds no id but the fresh one |
| FormulaInput.PickKeepsWellFormed | src/components/FormulaInput.tsx:116-124 | a dropdown pick on a tag keeps the formula well formed and its ids |
| FormulaInput.DispatchKeepsWellFormed | src/components/FormulaInput.tsx:63-124 | every event keeps the formula well formed, given a fresh id |
| FormulaInput.ReplayWellFormed | src/components/FormulaInput.tsx:51-124 | every session whose new ids are distinct builds a formula that alternates value, operand, value, ... from a value, has distinct ids and text fitting each kind, and in which only tags carry a suggestion |
| FormulaInput.WellFormedHasValues | src/components/FormulaInput.tsx:126-145 | every token of a well-formed formula without a zero-denominator fraction has a numeric value |
| FormulaInput.RemoveSharedId | src/store/formulaStore.ts:34-37 | removing the id shared by the outer two of three tokens leaves the middle one |
| FormulaInput.SameMillisecondBackspace | src/store/formulaStore.ts:31 | a value and the operand after it that share an id are both removed by one Backspace, leaving `[]` rather than the value |
| FormulaInput.SharedIdBackspace | src/store/formulaStore.ts:31 | for the alternating formula `[a, o, b]` whose first and last tokens share an id, Backspace on a blank input leaves `[o]`, which is not alternating |

## Left out

- The HTTP request of `fetchSuggestions`, react-query caching, the 300 ms debounce, click-outside, focus, `preventDefault` and rendering: I/O, timing and framework code. The cached list `allSuggestions` is a parameter of the handlers.
- `formatResult` and IEEE-754 behaviour (NaN, Infinity, -0, rounding): numbers are exact reals.
- Evaluator.ParseNumber: models `Number(text)` only on text matching the decimal pattern; other text gives `None`. Number tokens only ever hold text matching a number pattern (`FormulaInput.CommittedTextFits`).
- Evaluator.Calculate: requires every number token to parse to a finite real, so a fraction over zero (`Infinity` or `NaN` in JavaScript) is outside the model; `Evaluator.NumberTextParses` says exactly which texts those are.
- Evaluator.CalculateFormula: same requirement as `Calculate`.
- Evaluator.PowerExample: `Math.pow` is an uninterpreted parameter, so the example assumes `pow(2, 3) == 8`.
- Evaluator.CalculateIsLeftToRight: the reference semantics covers formulas whose operands are arithmetic; parentheses are covered separately by `ParenthesisInert` and `LeadingParenthesisDropsValue`.
- Evaluator.TokenNumber: a suggestion's `value` is a real; string values (which `Number(...)` would convert) are not modelled.
- Text.Trim: only ASCII white space (space, tab, line feed, vertical tab, form feed, carriage return); Unicode spaces are not stripped.
- Text.ToLower: only ASCII letters are lower-cased.
- FormulaInput.HandleKeyDown: the new token's id is a parameter; `Date.now().toString()` is not modelled.
- FormulaInput.ReplayWellFormed: assumes the ids of the events that may add a token are distinct, which `Date.now()` does not guarantee (see Findings).
- FormulaInput.Dispatch: a dropdown pick is applied only to the id of a tag, because the dropdown is rendered for tags only (src/components/FormulaInput.tsx:182-191).
- The suggestion lookup for `cleanedInput` and its loading flag: the query text is modelled (`TokenRules.CleanedInput`), the lookup it drives is I/O.

## Findings

| source | as written | input that shows it | evidently intended | confidence | as-written member | corrected member |
|---|---|---|---|---|---|---|
| src/store/formulaStore.ts:31 | token ids are `Date.now().toString()`, and Backspace removes every token with the last token's id | `2` and `+` committed within the same millisecond share an id; one Backspace removes both and leaves `[]` | each token has its own id, so Backspace removes only the last token | low, not executed (two commits are separate key events, so they rarely fall in one millisecond) | FormulaInput.SameMillisecondBackspace | FormulaInput.BackspaceDropsLast |
| src/store/formulaStore.ts:31 | the same ids, on a clock that is set back between additions | `2`, `+`, `x` where the clock returns to the millisecond of `2` when `x` is added: Backspace removes `x` and `2` and leaves `[+]`, which is not alternating | each token has its own id, so every reachable formula stays alternating | low, not executed (needs a clock adjustment between two commits; with a clock that never goes back, tokens sharing an id are adjacent and Backspace only drops a trailing run) | FormulaInput.SharedIdBackspace | FormulaInput.ReplayWellFormed |
