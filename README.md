# vjs class helpers, modelled in Dafny

vjs is a small DOM helper library (`window.vjs`). Its only logic of its own is
the handling of an element's `className` string by four helpers:

- `hasClass(el, cl)` tests the regular expression `(\s|^)cl(\s|$)` against `el.className`, after an empty class string short-circuits to a falsy result.
- `addClass(el, cl)` appends `" " + cl` unless `hasClass` already holds.
- `removeClass(el, cl)` replaces the first match of the same pattern by one space, then strips leading and trailing whitespace.
- `toggleClass(el, cl)` calls `removeClass` when `hasClass` holds and `addClass` otherwise.

The model has three modules:

- `ClassTokens` (`tokens.dfy`) defines JavaScript's `\s` character class (`IsSpace`) and `Tokens`, the whitespace-split list of class tokens. `Tokens` is the reference definition the pattern-based helpers are proved against.
- `ClassName` (`class_name.dfy`) models the patterns. `PatternAt` is the positional meaning of `(\s|^)cl(\s|$)`. `MatchAt`/`Occurs` say that a name occurs as a whole token. `FirstMatch` is the leftmost search. `ReplaceFirst` is the non-global `replace`. `Trim` is the global whitespace `replace`: `TrimStart` drops the leading run and `TrimEnd` the trailing one. `Added`, `Removed` and `Toggled` give the new class string of each helper. The lemmas say what each helper does to the tokens.
- `Vanilla` (`vanilla.dfy`) has the class `Element`, whose one field `className` is updated in place by the methods `AddClass`, `RemoveClass` and `ToggleClass`, with the pure `HasClass`.

A class name is required to be `ValidToken`: non-empty, free of whitespace and
free of regular-expression syntax characters. The helpers splice the name into
the pattern unescaped, so only such names mean themselves.

Where the behaviour of the code differs from the jQuery methods its header
comment lists as equivalents (vanilla.js:14-18), the model follows the code:

- `removeClass` removes only the FIRST whole-token occurrence of a name, where jQuery's `removeClass` removes every copy. Its pattern has no global flag. A repeated name survives (`RemoveDuplicateSurvives`, `RemoveFirstCopyOnly`).
- Because of that, `hasClass` is false after `removeClass`, and a second `removeClass` changes nothing, only when the name occurred at most once (`RemoveSoleToken`, `RemoveTwice`). The same condition holds for `toggleClass` flipping `hasClass` (`ToggleFlips`, `ToggleTwice`).
- `addClass` on an empty class string produces `" " + cl`, with a leading space. `Added` keeps it.

## Model

| member | source | states |
|---|---|---|
| `ClassTokens.IsSpace` | vanilla.js:57 | the characters JavaScript's `\s` matches: the ECMAScript white space and line terminator code points |
| `ClassName.ValidToken` | vanilla.js:57 | a class name spliced into the pattern means itself: non-empty, no whitespace, no regular-expression syntax character |
| `ClassName.PatternAt` | vanilla.js:57 | `(\s\|^)cl(\s\|$)` matches `s[p..e]`: a whitespace character at `p` or the start of the string, then `cl`, then a whitespace character or the end |
| `ClassName.LeftmostPattern` | vanilla.js:77 | the match a non-global `replace` uses: a pattern match with no match starting further left |
| `Vanilla.Element.HasClass` | vanilla.js:56-58 | true exactly when the pattern `(\s\|^)cl(\s\|$)` matches somewhere, exactly when `cl` occurs as a whole whitespace-delimited token, exactly when `cl` is one of the whitespace-split tokens; false on an empty class string |
| `Vanilla.Element.AddClass` | vanilla.js:65-69 | new class string is `Added(old, cl)`; `hasClass` holds afterwards; unchanged when `cl` was present; otherwise the tokens are the old tokens followed by `cl` |
| `Vanilla.Element.RemoveClass` | vanilla.js:76-79 | new class string is `Removed(old, cl)`; it does not begin or end with whitespace; its tokens are the old tokens with the first `cl` deleted |
| `Vanilla.Element.ToggleClass` | vanilla.js:87-93 | runs removeClass when `hasClass` held and addClass otherwise; when `cl` occurred at most once, `hasClass` is flipped |
| `Vanilla.ToggleTwiceRestores` | vanilla.js:87-93 | two toggles of a name occurring at most once leave `hasClass` as it was |
| `ClassName.FirstMatch` | vanilla.js:57 | returns the leftmost whole-token occurrence at or after `from`, or none when there is no occurrence there |
| `ClassName.PatternOfMatch` | vanilla.js:57 | a whole-token occurrence at `i` carries a pattern match from `SpanStart(i)` to `SpanEnd(i)` (one whitespace character on each side when present) |
| `ClassName.MatchOfPattern` | vanilla.js:57 | every pattern match surrounds a whole-token occurrence, and its start and end are that occurrence's span |
| `ClassName.PatternIffOccurs` | vanilla.js:57 | the pattern matches somewhere if and only if the name occurs as a whole token |
| `ClassName.OccursIffToken` | vanilla.js:57 | the name occurs as a whole token if and only if it is one of the whitespace-split tokens |
| `ClassName.SubstringIsNotToken` | vanilla.js:57 | `"btn"` is not found in `"btn-primary"` |
| `ClassName.FirstMatchIsLeftmostPattern` | vanilla.js:77 | the leftmost pattern match, the one a non-global replace uses, is the span around the leftmost whole-token occurrence |
| `ClassName.AllLeftmostPatterns` | vanilla.js:77 | the same for every leftmost pattern match at once |
| `ClassName.ReplaceFirst` | vanilla.js:77 | without a pattern match the string is unchanged; otherwise the leftmost match `s[p..e]` is replaced by one space |
| `ClassName.TrimStart` | vanilla.js:78 | the result is a suffix of the input, everything dropped is whitespace, and it does not start with whitespace |
| `ClassName.TrimEnd` | vanilla.js:78 | the result is a prefix of the input, everything dropped is whitespace, and it does not end with whitespace |
| `ClassName.Trim` | vanilla.js:78 | the result neither begins nor ends with whitespace and is no longer than the input |
| `ClassName.TrimKeepsInnerPart` | vanilla.js:78 | the result of trimming is a slice of the input with only whitespace before it and after it: the two end runs go and the middle is kept as it was |
| `ClassName.TrimKeepsTokens` | vanilla.js:78 | trimming keeps the tokens |
| `ClassName.TrimOfTrimmed` | vanilla.js:78 | trimming a string that neither begins nor ends with whitespace returns it unchanged |
| `ClassName.NoTokenBeforeFirst` | vanilla.js:77 | no token before the leftmost occurrence equals the name |
| `ClassName.ReplacedSpanTokens` | vanilla.js:77 | replacing the span around an occurrence by a space leaves exactly the tokens before and after it |
| `ClassName.Added` | vanilla.js:65-69 | after addClass the name is found, and the old class string is kept as a prefix of the new one |
| `ClassName.AddIdempotent` | vanilla.js:65-69 | addClass twice is addClass once |
| `ClassName.AddedTokens` | vanilla.js:65-69 | the tokens are unchanged when the name was present, and otherwise are the old tokens followed by the name |
| `ClassName.AddedOtherTokens` | vanilla.js:65-69 | after addClass a name is found exactly when it was found before or is the added name |
| `ClassName.AddBesideLongerToken` | vanilla.js:65-69 | adding `"btn"` to `"btn-primary"` gives `"btn-primary btn"`, in which both names are found |
| `ClassName.Removed` | vanilla.js:77-78 | the class string removeClass leaves neither begins nor ends with whitespace |
| `ClassName.RemoveAbsent` | vanilla.js:77-78 | removeClass of an absent name only trims, and keeps every token |
| `ClassName.RemovedTokens` | vanilla.js:76-79 | the tokens after removeClass are the old tokens with the first occurrence of the name deleted |
| `ClassName.RemovedCount` | vanilla.js:76-79 | removeClass lowers the number of copies of the removed name by one when it was present and keeps the number of copies of every other name |
| `ClassName.RemoveSoleToken` | vanilla.js:76-79 | removeClass of a name that occurred at most once leaves it absent |
| `ClassName.RemoveDuplicateSurvives` | vanilla.js:77 | with two or more copies, removeClass removes one and the name is still found |
| `ClassName.RemoveFirstCopyOnly` | vanilla.js:77-78 | removeClass of `"a"` from `"a a"` gives `"a"` |
| `ClassName.RemoveOtherTokens` | vanilla.js:76-79 | removeClass does not change whether any other name is found |
| `ClassName.RemoveTwice` | vanilla.js:76-79 | a second removeClass of a name that occurred at most once changes nothing |
| `ClassName.Toggled` | vanilla.js:87-93 | when the name was found, the tokens lose its first copy; otherwise the name is appended as the last token |
| `ClassName.ToggleFlips` | vanilla.js:87-93 | for a name occurring at most once, toggleClass flips whether it is found and it still occurs at most once |
| `ClassName.ToggleTwice` | vanilla.js:87-93 | for a name occurring at most once, two toggles restore whether it is found |
| `ClassName.ToggleDuplicateOnce` | vanilla.js:87-93 | toggling `"a"` in `"a a"`, where it is found, gives `"a"`: one copy goes and the name is still found |
| `ClassName.ToggleSoleAway` | vanilla.js:87-93 | toggling `"a"` in `"a"` gives the empty string |
| `ClassName.ToggleTwiceDuplicate` | vanilla.js:87-93 | in `"a a"` the name occurs twice and is found, and after two toggles it is not found: the at-most-once condition of `ToggleTwice` is needed |

## Left out

- `node`, `parentNode`, `children`, `find` (vanilla.js:46-48, 100-111, 152-154): single DOM queries with no logic of their own.
- `hide`, `show` (vanilla.js:118-129): one write each to `style.display`, a DOM side effect.
- `attr` (vanilla.js:138-144): a truthiness switch between the platform's `setAttribute` and `getAttribute`.
- `append`, `prepend` (vanilla.js:164-189): element creation, HTML parsing through `innerHTML`, and tree insertion, all done by the browser.
- The immediately invoked wrapper and the `window.vjs` export object (vanilla.js:32, 195-211): module plumbing.
- Class names that contain whitespace or regular-expression syntax characters are excluded by `ValidToken`. The code splices them into the pattern unescaped, and modelling a regular-expression engine is out of scope.
- The element is reduced to its `className` string. A missing element (a null dereference) and a non-string `className` (SVG elements) are not modelled.
- `hasClass` returns the empty string, not `false`, on an empty class string. The model returns `false`, which is what every caller's `if` sees.
- Strings are sequences of Unicode scalar values, not UTF-16 code units. Every `\s` character lies in the Basic Multilingual Plane, so matching is unaffected.
- `IsSpace` is the `\s` set of current ECMAScript engines. U+180E, which older engines counted as whitespace, is not included.
