# useChecker selection controller in Dafny

This project models `useChecker`, a Vue composition hook that keeps track of which options of a list are
selected. The hook has two selector types, fixed when it is created:

- `radio`: a single choice, held as a scalar;
- `checkbox`: a multiple choice, held as an array, with a floor `min` and a cap `max`.

The hook owns two pieces of mutable state: the selection (`checkedRef`) and the option list (`optionsRef`).
It derives four views from them: the enabled options, the effective max (`max || enabledCount`),
`isActive(value)` and the "all selected" flag. It changes the selection only through `check(option)` and
the select-all toggle `checkAll()`. Every constraint violation is a silent no-op.

There are two modules:

- `CheckerModel` (checker_model.dfy) holds the values and the pure parts. These are the option record with
  a three-way disabled field (`true`, `false`, absent), the derived views, the array primitives the hook
  uses (`indexOf`, `splice(i, 1)`, `splice(0, 1, v)`; `push` is the concatenation `s + [v]`), one step
  function per mutator, and the lemmas about them. The step function of `checkCheckbox` is `CheckboxStep`
  and that of `checkAll` is `CheckAllStep`. Neither carries a postcondition of its own; the lemmas in the
  table below state their behaviour.
- `UseChecker` (use_checker.dfy) holds the class `Checker`. Its `options` and `checked` fields stand for
  the two refs. The computed refs become functions of the current state. The methods `Check`,
  `CheckRadio`, `CheckCheckbox` and `CheckAll` assign a new value to `checked`. The postconditions of
  `Check`, `CheckCheckbox` and `CheckAll` tie the new selection to their step functions in `CheckerModel`,
  so the lemmas proved there apply to the object. `CheckRadio` states its result directly, and
  `SetOptions` only replaces the option list.

Two places where the code does something a reader might not expect:

- **The guard of `check`.** The enabled filter (line 33) and the JSDoc of `check` (line 63) treat
  `disabled: true` as the disabled case, but line 66 returns early on `=== false`. `Checker.Check` follows
  line 66. The guard that line 33 implies is modelled beside it (see "## Findings").
- **Selecting with an effective max of 1.** `splice(0, 1, value)` (line 93) overwrites element 0 only; a
  longer selection keeps its tail. The model does the same.

## Model

| member | source | states |
|---|---|---|
| `CheckerModel.Enabled` | src/hooks/useChecker.js:33 | an option is in the enabled list iff it is in the option list and its disabled field is not `true`; the list is no longer than the option list |
| `CheckerModel.EnabledAppend` | src/hooks/useChecker.js:33 | filtering distributes over concatenation, so the enabled options keep their list order |
| `CheckerModel.EnabledKeepsAllEnabled` | src/hooks/useChecker.js:33 | a list with no option disabled `true` is returned unchanged |
| `CheckerModel.Values` | src/hooks/useChecker.js:54 | the mapped value list has one entry per option, in order, each the option's value |
| `CheckerModel.EffectiveMax` | src/hooks/useChecker.js:36-38 | the effective max is a truthy `max` itself, and otherwise the enabled count; it is 0 only when nothing is enabled |
| `CheckerModel.IndexOf` | src/hooks/useChecker.js:84 | -1 iff the value is absent; otherwise an index holding the value with no earlier occurrence |
| `CheckerModel.RemoveAt` | src/hooks/useChecker.js:88 | `splice(i, 1)`: one shorter; the part before i unchanged, the part after i shifted down by one |
| `CheckerModel.RemoveAtMultiset` | src/hooks/useChecker.js:88 | `splice(i, 1)` removes exactly one copy of the element at i and nothing else |
| `CheckerModel.ReplaceFirst` | src/hooks/useChecker.js:93 | `splice(0, 1, v)`: v at index 0, the rest from index 1 on kept, length max(1, old length) |
| `CheckerModel.Dispatch` | src/hooks/useChecker.js:69-73 | the dispatch on the selector type keeps the selection's shape (scalar for radio, array for checkbox) |
| `CheckerModel.Active` | src/hooks/useChecker.js:45-47 | `isActive`: in radio mode the selection equals the value, in checkbox mode the value is in the selection; nothing is active in the initial radio state |
| `CheckerModel.AllActive` | src/hooks/useChecker.js:59 | `allActiveRef`: the selection is as long as the value list `checkAll` would select; with nothing enabled it holds only for the empty selection |
| `CheckerModel.LiteralGuardBlocks` | src/hooks/useChecker.js:66 | the guard as written blocks only options that the enabled filter keeps, and never one disabled `true` |
| `CheckerModel.IntendedGuardBlocks` | src/hooks/useChecker.js:33 | the corrected guard blocks an option exactly when the enabled filter of line 33 drops it |
| `CheckerModel.CheckAsWritten` | src/hooks/useChecker.js:65-74 | `check` as written: an option whose disabled field is exactly `false` leaves the selection unchanged; the shape is kept |
| `CheckerModel.CheckIntended` | src/hooks/useChecker.js:65-68 | `check` with the corrected guard: an option disabled `true` leaves the selection unchanged |
| `CheckerModel.DeselectRemovesFirstOccurrence` | src/hooks/useChecker.js:84-90 | `CheckboxStep` on a selected value: deselect removes the first occurrence of the value iff the length exceeds `min` (prefix kept, suffix shifted, multiset minus one copy); otherwise the selection is unchanged |
| `CheckerModel.SelectReplacesSlotZero` | src/hooks/useChecker.js:91-94 | `CheckboxStep` with effective max 1: an absent value lands at index 0, the elements from index 1 on stay, the length becomes max(1, old length); `min` plays no role |
| `CheckerModel.SelectWithCapOneLeavesOnlyIt` | src/hooks/useChecker.js:91-94 | with effective max 1 and at most one value selected, selecting a new value leaves exactly that value |
| `CheckerModel.SelectAppendsBelowCap` | src/hooks/useChecker.js:97 | `CheckboxStep` with effective max other than 1: an absent value is appended iff the length is below the cap, otherwise nothing changes |
| `CheckerModel.CheckboxKeepsFloor` | src/hooks/useChecker.js:81-97 | a selection of length at least `min` keeps length at least `min` |
| `CheckerModel.CheckboxKeepsCeiling` | src/hooks/useChecker.js:81-97 | a selection of length at most the effective max keeps length at most the effective max |
| `CheckerModel.CheckboxAddsOnlyItsValue` | src/hooks/useChecker.js:80-98 | every value selected afterwards was selected before or is the clicked value |
| `CheckerModel.RemoveAtKeepsNoDup` | src/hooks/useChecker.js:88 | removing one element keeps a duplicate-free array duplicate-free |
| `CheckerModel.CheckboxKeepsNoDup` | src/hooks/useChecker.js:84-97 | a duplicate-free selection stays duplicate-free, because values are only added when absent |
| `CheckerModel.CheckboxSelectThenDeselect` | src/hooks/useChecker.js:84-97 | selecting an absent value below the cap (cap not 1) and clicking it again restores the selection when the floor allows it |
| `CheckerModel.CheckboxRunKeepsBounds` | src/hooks/useChecker.js:80-98 | over any sequence of clicks, with `min` and the cap fixed, `min <= length <= cap` and no duplicates hold after every click |
| `CheckerModel.RadioCheckActivatesOnlyIt` | src/hooks/useChecker.js:69-77 | in radio mode, a click the guard lets through makes the selection that value, and `isActive(w)` holds iff w is that value |
| `CheckerModel.CheckboxCheckIsStep` | src/hooks/useChecker.js:71-73 | in checkbox mode, a click the guard lets through is `checkCheckbox` of the option's value |
| `CheckerModel.RadioIntendedActivatesOnlyIt` | src/hooks/useChecker.js:69-77 | with the corrected guard in radio mode, a click it lets through makes the selection that value, and exactly that value is active |
| `CheckerModel.CheckboxIntendedIsStep` | src/hooks/useChecker.js:71-73 | with the corrected guard in checkbox mode, a click it lets through is `checkCheckbox` of the option's value |
| `CheckerModel.LiteralGuardInverted` | src/hooks/useChecker.js:66-68 | on options 1 (false), 2 (false), 3 (true) with no max: the effective max is 2, clicking option 1 does nothing, clicking the disabled option 3 selects it |
| `CheckerModel.IntendedCheckExcludesDisabled` | src/hooks/useChecker.js:65-74 | with the corrected guard, a click activates no value except the clicked one, and nothing at all when the option is disabled `true` |
| `CheckerModel.CheckAllSelectsEnabledValues` | src/hooks/useChecker.js:50-56 | `CheckAllStep` (`checkAll`) clears when the length equals the enabled count, otherwise selects exactly the enabled options' values in list order, whatever `min` and `max` are |
| `CheckerModel.CheckAllNeverContributesDisabled` | src/hooks/useChecker.js:54 | every value `checkAll` selects belongs to an option whose disabled field is not `true` |
| `CheckerModel.CheckAllTwice` | src/hooks/useChecker.js:50-56 | two `checkAll` calls in a row restore the selection iff it was empty or exactly the enabled values in order |
| `CheckerModel.CheckAllFromEmpty` | src/hooks/useChecker.js:50-56 | from an empty selection with something enabled, `checkAll` selects every enabled value and a second call empties it again |
| `CheckerModel.CheckAllTogglesAllActive` | src/hooks/useChecker.js:50-59 | with something enabled, `checkAll` flips the "all selected" flag |
| `UseChecker.Checker.constructor` | src/hooks/useChecker.js:19-30 | no options; an empty array in checkbox mode, the empty scalar in radio mode; the selector type, `min` and `max` are kept (constant fields) |
| `UseChecker.Checker.Default` | src/hooks/useChecker.js:19-30 | `useChecker()` with no arguments: checkbox mode, `min` 0, no `max`, no options, an empty array as selection |
| `UseChecker.Checker.SetOptions` | src/hooks/useChecker.js:24 | the host replaces the option list; the selection is left untouched (no pruning) |
| `UseChecker.Checker.EnabledOptions` | src/hooks/useChecker.js:33 | the enabled view of the current options: membership iff listed and not disabled `true` |
| `UseChecker.Checker.MaxDefault` | src/hooks/useChecker.js:36-38 | the effective max of the current state is a non-zero `max` itself, and the enabled count when `max` is unset or 0 |
| `UseChecker.Checker.IsActive` | src/hooks/useChecker.js:45-47 | radio: the selection equals the value; checkbox: the value is in the selection |
| `UseChecker.Checker.AllActiveNow` | src/hooks/useChecker.js:59 | the flag holds iff the selection is as long as the enabled list |
| `UseChecker.Checker.CheckAll` | src/hooks/useChecker.js:50-56 | the new selection is the select-all step of the old one: empty when all were active, else the enabled values |
| `UseChecker.Checker.Check` | src/hooks/useChecker.js:65-74 | the new selection is `check` as written applied to the old one; an option disabled exactly `false` changes nothing |
| `UseChecker.Checker.CheckRadio` | src/hooks/useChecker.js:76-78 | the value replaces the selection, after which exactly that value is active |
| `UseChecker.Checker.CheckCheckbox` | src/hooks/useChecker.js:80-98 | the new selection is the checkbox step of the old one; the `min` floor, the effective-max ceiling and the absence of duplicates are kept |

## Left out

- Vue reactivity (`ref`, `computed`, `readonly`, src/hooks/useChecker.js:1 and 7) is not modelled. Refs are plain fields, and computed refs are functions evaluated on demand.
- The field-name mapping `config` (src/hooks/useChecker.js:19-20) is not modelled. An option is a record with a `value` and a three-way `disabled` field. The `label` field plays no role in the hook.
- `checkAll` and `allActiveRef` in radio mode are not modelled. There they would take `.length` of a string, which is incidental JavaScript behaviour. `Checker.CheckAll` and `Checker.AllActiveNow` require checkbox mode.
- JavaScript `===` identity and truthiness are modelled only where the hook relies on them. Values are of any type with equality. `max` is `undefined` or an integer, and it counts as set when it is a non-zero integer. Non-numeric `max` values (strings, `NaN`) are not modelled.
- The initial radio selection `''` is a separate constructor `Blank`, not a value. In JavaScript, an option whose value is itself `''` would count as active before any click; the model does not capture that.
- The host writing `checkedRef.value` directly is not modelled. The returned ref is writable, but the hook only mutates it through its own functions.
- Construction arguments are not validated, as in the source. Examples are `min > max`, a negative `min` and a negative `max`. The lemmas state their bounds for whatever `min` and cap they are given.
- UseChecker.Checker.CheckCheckbox: array identity is not modelled. Lines 88, 93 and 97 mutate the array held in `checkedRef.value` in place, so a host holding that array sees the change, whereas lines 52, 54 and 77 install a new array or scalar. The field `checked` is a value, so the model cannot tell these two kinds of update apart; it captures only the resulting contents and order.
- UseChecker.Checker.CheckAll: for the same reason, the model does not capture that `checkAll` replaces the array object (lines 52 and 54) rather than mutating it.
- UseChecker.Checker.constructor: it takes the selector type, `min` and `max` explicitly. The defaults of line 19 (checkbox, 0, `undefined`) are modelled by the separate constructor `Checker.Default`.
- UseChecker.Checker.constructor: a `type` other than the two constants is not modelled. Line 29 gives such a hook the scalar `''`, while lines 46 and 69 send it down the checkbox path. A non-integer `min` is not modelled either; `min` is an integer.
- Stale selections are not pruned when the host replaces the option list, as in the source. So no invariant ties the selection to the current options.

## Findings

| source | as written | input that shows it | evidently intended | confidence | as-written member | corrected member |
|---|---|---|---|---|---|---|
| src/hooks/useChecker.js:66 | `check` returns early when the option's disabled field is exactly `false` | options `[1 (disabled false), 2 (disabled false), 3 (disabled true)]`, checkbox mode, `min` 0, no `max`: `check` on option 1 leaves `[]`, `check` on option 3 gives `[3]` | return early when the disabled field is `true`, so disabled options can never be selected | high; not executed | `CheckerModel.LiteralGuardInverted` | `CheckerModel.IntendedCheckExcludesDisabled` |

The class `Checker` keeps the guard as written, because it models the hook's observable behaviour.
`CheckerModel.CheckIntended` is the same operation with the corrected guard. It shares `Dispatch` with the
as-written version, so the lemmas about `CheckboxStep` apply to it through `CheckboxIntendedIsStep`. Its
radio result is stated by `RadioIntendedActivatesOnlyIt`.
