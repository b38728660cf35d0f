# Filter model of the pivot dashboard, in Dafny

The pivot analytics dashboard expresses every data query as a **Filter**: an immutable, ordered
conjunction of clauses. Each clause binds one attribute expression (a dimension such as `$country`
or `$time`) to an action, usually `in` a set of values or `in` a time range. This project models
the Filter class of `src/common/models/filter/filter.ts` and the list helpers of
`client/utils/general.ts`, and proves properties of that model.

Covered operations:

- lookup: `indexOfClause`, `clauseForExpression`, `filteredOn`, `filteredOnValue`;
- value-set edits: `addValue`, `remove`, `removeValue`, `toggleValue`, `setValues`, `getValues`;
- range edits: `setTimeRange`, `getTimeRange`, `getSingleValue`;
- whole-clause edits: `setClause`, `applyDelta`;
- positional edits: `insertByIndex`, `replaceByIndex`, with the helpers `withholdClause` and
  `swapClause`;
- re-scoping and widening: `constrainToDimensions`, `overQuery`;
- conversion and equality: `fromJS` (once its input is read into an expression), `toExpression`,
  `equals`;
- list helpers: `moveInList`, `listsEqual`, `upperCaseFirst`.

Files:

- `results.dfy` (module `Results`) holds the `Option` and `Result` wrappers. A thrown `Error` of
  the source becomes `Err(message)`, with the source's message.
- `general.dfy` (module `General`) models the list and string helpers.
  - `moveInList` walks the list and pushes items, so it is a method with a loop. It is proved equal
    to a reference definition, `Moved`.
- `filter.dfy` (module `Filters`) holds the Filter value and its operations.
  - A Filter never changes after construction and every edit returns a new one. So Filter is a
    `datatype` and most operations are functions.
  - The four operations that build their result step by step are methods with loops, each proved
    equal to a specification function:
    - `setClause`, a map that sets an `added` flag: `SetClause` against `WithClause`;
    - `applyDelta`, a `forEach` that reassigns the accumulated filter: `ApplyDelta` against
      `DeltaApplied`;
    - `constrainToDimensions`, a `forEach` that pushes and sets `hasChanged`:
      `ConstrainToDimensions` against `Rescoped`;
    - `moveInList`: `MoveInList` against `Moved` (in `general.dfy`).
- `filter_laws.dfy` (module `FilterLaws`) proves what the edits do. It covers:
  - the effect on the clause each attribute finds;
  - "at most one clause per attribute" (`UniqueAttrs`) and which edits keep it;
  - the toggle laws;
  - the shape of `applyDelta`, `insertByIndex` and `constrainToDimensions`;
  - the round trip through expressions.

How the source's entities are represented:

- Attribute expressions and set values are abstract types compared only by equality, as the
  source does with `equals`.
- Time instants are integers (milliseconds).
- A clause holds exactly one action: `In(literal)` or `Other(op, literal)`, where the literal is a
  value set or a time range. Clauses with more than one chained action are not represented.
- `Duration.move(t, timezone, n)` becomes a parameter `move(t, n)` of `OverQuery`.
- The dimension catalog lookup `Dimension.getDimensionByExpression` becomes membership in a
  sequence of attributes.
- A JavaScript `null` or `undefined` argument or result becomes `Option`; `None` stands for both.
- Immutable.js `List.delete(-1)` removes the last element, so `Delete` models that index too.

Behaviour of the code worth knowing, which the model follows:

- **Toggling twice.** Toggling a value twice does not always give back the filter:
  - when the value is the only one in its clause, the first toggle deletes the clause and the
    second appends a new one at the end, so the clause moves (`FilterLaws.ToggleTwiceMovesSingleton`);
  - when the clause's set is empty, the first toggle adds the value in place and the second
    deletes the clause (`FilterLaws.ToggleTwiceDropsEmpty`);
  - the law holds when the set keeps another value (`FilterLaws.ToggleTwiceKeepsClause`);
  - it also holds when no clause was there (`FilterLaws.ToggleTwiceUnconstrained`).
- **Empty `setValues`.** `setValues(expr, [])` leaves no clause for `expr`, but when there was no
  clause for `expr` it also deletes the filter's last clause. See Findings.
- **`filteredOnValue` on a range.** The code calls `contains` on whatever literal the `in` action
  holds, a time range included. The model leaves this case out (see "Left out").
- **`overQuery` with no time clause.** `overQuery` returns `this` only when no time attribute is
  given. Otherwise it builds a new filter, whose clauses are the same when none is on the time
  attribute.

## Model

| member | source | states |
|---|---|---|
| General.Moved | client/utils/general.ts:6-17 | reference move: the result has the input's length, the moved item stands at `MovedIndex`, and removing it leaves the other items in their original order |
| General.MoveInList | client/utils/general.ts:6-17 | errors "itemIndex out of range" and "insertPoint out of range" exactly for out-of-range indices; otherwise the pushed list equals `Moved` |
| General.EmittedIsClosed | client/utils/general.ts:11-14 | after visiting the first `i` items, the walk has pushed the items before `i` with the moved item taken out once passed and put in once the insertion point is passed |
| General.ClosedStep | client/utils/general.ts:11-14 | one more visit extends that closed form by the moved item when the visit is at the insertion point, then by the visited item unless it is the moved one |
| General.EmittedAll | client/utils/general.ts:15 | the full walk plus the final push for an insertion point at the end is exactly the move |
| General.MovedIsPermutation | client/utils/general.ts:6-17 | a move only reorders: same multiset of items |
| General.MovedInPlace | client/utils/general.ts:11-15 | moving an item to just before or just after itself gives back the same list |
| General.ArraysEqualIsEquality | client/utils/general.ts:26 | element-wise comparison holds exactly when the two arrays are equal |
| General.ListsEqual | client/utils/general.ts:23-27 | true exactly when both lists are absent or both are present with equal contents (absent is `null` or `undefined`, not told apart) |
| General.UpperChar | client/utils/general.ts:20 | lower-case ASCII letters map to their upper-case letters, every other character to itself |
| General.UpperCaseFirst | client/utils/general.ts:19-21 | fails exactly on the empty title; otherwise same length, first character upper-cased, the rest unchanged |
| General.UpperCaseFirstIdempotent | client/utils/general.ts:19-21 | capitalising twice is the same as capitalising once |
| Filters.Delete | src/common/models/filter/filter.ts:211 | `List.delete` at a position removes that clause; at -1 it removes the last clause, and nothing from an empty list |
| Filters.Without | src/common/models/filter/filter.ts:10-14 | no copy of the clause remains, and the list does not grow |
| Filters.WithoutCounts | src/common/models/filter/filter.ts:10-14 | exactly the copies of the clause are removed: multiset with its count set to zero, length reduced by that count |
| Filters.WithholdClause | src/common/models/filter/filter.ts:10-14 | never longer than its input; a copy of the clause survives only if `allowIndex` holds it |
| Filters.WithholdClauseNoAllowance | src/common/models/filter/filter.ts:10-14 | with `allowIndex` outside the list, every copy of the clause is dropped |
| Filters.WithholdClauseShape | src/common/models/filter/filter.ts:10-14 | copies are dropped on both sides of `allowIndex`, the clause there stays, and the rest keep their order |
| Filters.SwapClause | src/common/models/filter/filter.ts:16-20 | same length; every copy of the clause other than at `allowIndex` becomes `other`, and every other position is unchanged |
| Filters.IndexOfClause | src/common/models/filter/filter.ts:125-127 | -1 exactly when no clause is on the attribute; otherwise the first position whose clause is on it |
| Filters.ClauseForExpression | src/common/models/filter/filter.ts:129-131 | none exactly when no clause is on the attribute; otherwise the clause at `IndexOfClause` |
| Filters.FilteredOn | src/common/models/filter/filter.ts:133-135 | true exactly when some clause is on the attribute |
| Filters.FilteredOnValue | src/common/models/filter/filter.ts:137-149 | false without a clause; the error "invalid clause" exactly when the clause's action is not `in`; true exactly when the found `in` clause's set holds the value |
| Filters.AddValue | src/common/models/filter/filter.ts:151-167 | appends `attr in {value}` when unconstrained; rewrites the found `in` clause in place with the value added and leaves every other position unchanged; "invalid clause" for another action |
| Filters.Remove | src/common/models/filter/filter.ts:169-174 | the same filter when unconstrained; otherwise exactly the found clause is removed |
| Filters.RemoveValue | src/common/models/filter/filter.ts:176-194 | the same filter when unconstrained; the found clause is removed when its set empties, or rewritten in place with the value taken out; "invalid clause" for another action |
| Filters.ToggleValue | src/common/models/filter/filter.ts:196-198 | removes the value when the filter holds it, adds it when not, and passes the error on |
| Filters.SetOf | src/common/models/filter/filter.ts:204 | the set of a value list holds exactly the listed values |
| Filters.SetValues | src/common/models/filter/filter.ts:200-214 | as written: a non-empty list replaces the found clause in place or is appended; an empty list deletes the found clause, or the last clause when none is found, and leaves an empty filter empty |
| Filters.SetValuesCorrected | src/common/models/filter/filter.ts:200-214 | as evidently intended: an empty list is `remove`, and any other list behaves as written |
| Filters.GetValues | src/common/models/filter/filter.ts:216-221 | none exactly when unconstrained; otherwise the literal of the found clause |
| Filters.SetTimeRange | src/common/models/filter/filter.ts:223-233 | `attr in range` replaces the found clause in place with the others unchanged, or is appended after all of them |
| Filters.GetTimeRange | src/common/models/filter/filter.ts:235-240 | none exactly when unconstrained; otherwise the literal of the found clause |
| Filters.GetSingleValue | src/common/models/filter/filter.ts:268-273 | a literal exactly when there is one clause, and then that clause's literal |
| Filters.WithClause | src/common/models/filter/filter.ts:242-257 | every clause on the attribute becomes the new clause; other positions are unchanged; the clause is appended exactly when none was on it |
| Filters.SetClause | src/common/models/filter/filter.ts:242-257 | the map with the `added` flag, then the conditional push, computes `WithClause` |
| Filters.ApplyDelta | src/common/models/filter/filter.ts:259-266 | the `forEach` over the delta computes `DeltaApplied`, the fold of `WithClause` over the delta's clauses in order |
| Filters.InsertByIndex | src/common/models/filter/filter.ts:97-102 | within `0..length`: the clauses before `index` without copies of the clause, then the clause, then the clauses from `index` without copies; outside it, every copy is dropped, the inserted one included |
| Filters.SplicedKept | src/common/models/filter/filter.ts:99-100 | splicing a clause in at a position within the list and withholding it there keeps it between the other clauses, each side without copies |
| Filters.SplicedWithheld | src/common/models/filter/filter.ts:99-100 | with an index outside the list, withholding drops every copy, the spliced one included, leaving the list without the clause |
| Filters.ReplaceByIndex | src/common/models/filter/filter.ts:88-95 | at the end of the list, an insertion; within the list, the new clause takes `index`, other copies of it receive the replaced clause, and the rest is unchanged; at a negative index, every copy of the new clause becomes the clause counted from the end |
| Filters.Kept | src/common/models/filter/filter.ts:279-291 | a dimension clause is kept as it is; a clause off the dimensions is rebound to the new time attribute with its action exactly when it is on the old time attribute and both are given, and dropped otherwise |
| Filters.Rescoped | src/common/models/filter/filter.ts:275-295 | re-scoping never lengthens the list |
| Filters.OffDimensionsExists | src/common/models/filter/filter.ts:276-283 | the `hasChanged` flag holds exactly when some clause's attribute is not a dimension |
| Filters.RescopedStep | src/common/models/filter/filter.ts:278-292 | one more visited clause appends what it keeps and updates `hasChanged` by its attribute |
| Filters.ConstrainToDimensions | src/common/models/filter/filter.ts:275-295 | `changed` exactly when some clause is off the dimensions; then the result is the re-scoped list; otherwise the filter itself |
| Filters.Widened | src/common/models/filter/filter.ts:302-307 | the clause on the time attribute becomes an `in` of the range whose start is moved one duration back and whose end one duration forward |
| Filters.OverQuery | src/common/models/filter/filter.ts:297-312 | the filter itself without a time attribute; otherwise same length and attributes, clauses off the time attribute unchanged, and those on it widened by one duration on each side |
| Filters.FromExpression | src/common/models/filter/filter.ts:38-58 | TRUE reads as the empty filter, one clause as a one-clause filter, a conjunction of clauses as those clauses in order; anything else fails with "must be a chain" |
| Filters.ToExpression | src/common/models/filter/filter.ts:116-123 | TRUE exactly for no clauses; reading the expression back gives the same filter |
| Filters.Equals | src/common/models/filter/filter.ts:83-86 | true exactly when the other is a filter with the same clauses in the same order |
| FilterLaws.FirstIndexIs | src/common/models/filter/filter.ts:125-127 | a position on the attribute with none before it is the index found |
| FilterLaws.ClauseForFrame | src/common/models/filter/filter.ts:129-131 | the lookup of an attribute depends only on the positions on that attribute |
| FilterLaws.ClauseForAfterDelete | src/common/models/filter/filter.ts:173 | deleting a clause on another attribute keeps the lookup of an attribute |
| FilterLaws.UniqueAfterDelete | src/common/models/filter/filter.ts:185 | deleting a clause keeps one clause per attribute |
| FilterLaws.UniqueAfterAppend | src/common/models/filter/filter.ts:155 | appending a clause on an unconstrained attribute keeps one clause per attribute |
| FilterLaws.AddValueEffect | src/common/models/filter/filter.ts:151-167 | after `addValue` the filter holds the value, every other attribute finds the clause it found before, and one clause per attribute is kept |
| FilterLaws.RemoveValueEffect | src/common/models/filter/filter.ts:176-194 | with one clause per attribute, after `removeValue` the filter no longer holds the value, other attributes' clauses are as before, and one clause per attribute is kept |
| FilterLaws.ToggleValueFlips | src/common/models/filter/filter.ts:196-198 | `toggleValue` flips whether the filter holds the value and keeps one clause per attribute |
| FilterLaws.ToggleTwiceUnconstrained | src/common/models/filter/filter.ts:196-198 | on an unconstrained attribute, toggling twice gives back the filter |
| FilterLaws.ToggleTwiceKeepsClause | src/common/models/filter/filter.ts:196-198 | when the clause's set holds another value, toggling twice gives back the filter |
| FilterLaws.ToggleInPlace | src/common/models/filter/filter.ts:176-194 | when the set holds a value other than the toggled one, the toggle rewrites the clause in place with the toggled set |
| FilterLaws.ToggleBack | src/common/models/filter/filter.ts:196-198 | the second toggle rewrites the clause back to its original set |
| FilterLaws.ToggleTwiceMovesSingleton | src/common/models/filter/filter.ts:151-198 | in any filter whose only clause on the attribute is `in {value}`, toggling `value` twice moves that clause from its position to the end, the others keeping their order |
| FilterLaws.ToggleTwiceDropsEmpty | src/common/models/filter/filter.ts:151-198 | in any filter whose only clause on the attribute is `in {}`, toggling a value twice deletes that clause |
| FilterLaws.ToggleAppends | src/common/models/filter/filter.ts:137-155 | toggling a value on an unconstrained attribute appends `attr in {value}` |
| FilterLaws.ToggleDropsSingleton | src/common/models/filter/filter.ts:137-198 | toggling the only value of the only clause on the attribute deletes that clause, leaving the attribute unconstrained |
| FilterLaws.ValueEditScenario | src/common/models/filter/filter.ts:151-198 | adding UK then US to the empty filter gives `country in {UK, US}`; toggling UK leaves `country in {US}` |
| FilterLaws.SetValuesEffect | src/common/models/filter/filter.ts:203-209 | a non-empty list becomes the clause for the attribute, other attributes' clauses are as before, and one clause per attribute is kept |
| FilterLaws.SetValuesEmptyClears | src/common/models/filter/filter.ts:210-212 | with one clause per attribute, an empty list leaves no clause on the attribute and keeps one clause per attribute |
| FilterLaws.SetValuesEmptyDropsLast | src/common/models/filter/filter.ts:211 | as written, an empty list on an unconstrained attribute deletes the clause of another attribute |
| FilterLaws.SetValuesCorrectedKeepsOthers | src/common/models/filter/filter.ts:200-214 | corrected, an empty list leaves no clause on the attribute and every other attribute's clause as before |
| FilterLaws.SetTimeRangeEffect | src/common/models/filter/filter.ts:223-233 | the range clause becomes the clause for the attribute, other attributes' clauses are as before, and one clause per attribute is kept |
| FilterLaws.RewriteOrAppendEffect | src/common/models/filter/filter.ts:223-233 | putting a clause in place of the one found for its attribute, or appending it, makes it the clause found, keeps the others' lookups and keeps one clause per attribute |
| FilterLaws.WithClauseEffect | src/common/models/filter/filter.ts:242-257 | after `setClause` the clause is the one found for its attribute, others are as before, and one clause per attribute is kept |
| FilterLaws.DeltaAppliedKeepsUnique | src/common/models/filter/filter.ts:259-266 | applying a delta keeps one clause per attribute |
| FilterLaws.ClauseForAppend | src/common/models/filter/filter.ts:253-255 | looking up an attribute after a clause is appended: the earlier clause if any, else the appended one if it matches |
| FilterLaws.DeltaAppliedRightBiased | src/common/models/filter/filter.ts:259-266 | for a delta with one clause per attribute, each attribute the delta constrains finds the delta's clause; every other attribute finds the base filter's |
| FilterLaws.OverwrittenStep | src/common/models/filter/filter.ts:245-252 | one more delta clause rewrites exactly the base positions on its attribute |
| FilterLaws.OverwrittenNothing | src/common/models/filter/filter.ts:259-266 | an empty delta overwrites and introduces nothing |
| FilterLaws.DeltaAppliedShape | src/common/models/filter/filter.ts:259-266 | for a delta with one clause per attribute, result = the base clauses in place, each overwritten by the delta's clause on its attribute, then the delta's clauses on new attributes in the delta's order |
| FilterLaws.MentionsRelabelled | src/common/models/filter/filter.ts:253 | the rewritten list is on an attribute exactly when the base list was, so the push decision is unchanged |
| FilterLaws.DeltaAppliedStep | src/common/models/filter/filter.ts:263 | one `setClause` step keeps the shape of overwritten positions followed by introduced clauses |
| Filters.WithoutAppend | src/common/models/filter/filter.ts:10-14 | dropping copies distributes over concatenation |
| FilterLaws.WithoutAbsent | src/common/models/filter/filter.ts:10-14 | dropping copies from a list without any changes nothing |
| FilterLaws.InsertByIndexCounts | src/common/models/filter/filter.ts:97-102 | for an index within `0..length`, exactly one copy of the inserted clause remains; the length grows by one less the copies there were |
| FilterLaws.InsertByIndexKeepsOthers | src/common/models/filter/filter.ts:97-102 | for an index within `0..length`, every other clause is kept, in its relative order |
| FilterLaws.ReplaceByIndexSwaps | src/common/models/filter/filter.ts:88-95 | replacing position 0 of `[c1, c2]` with `c2` gives `[c2, c1]` |
| FilterLaws.ReplaceByIndexOverwrites | src/common/models/filter/filter.ts:88-95 | when no other position holds the new clause, only position `index` changes |
| FilterLaws.PositionalEditsMayDuplicate | src/common/models/filter/filter.ts:88-102 | neither positional edit keeps one clause per attribute: inserting at the end, replacing at the end, or replacing a clause on another attribute within the list can leave two clauses on one attribute |
| FilterLaws.RescopedNothingDropped | src/common/models/filter/filter.ts:280-281 | when every clause is on a dimension, re-scoping keeps the list as it is |
| FilterLaws.RescopedOrigin | src/common/models/filter/filter.ts:278-292 | every re-scoped clause is a dimension clause of the list, or is on the new time attribute with the action of a clause on the old time attribute, which is not a dimension |
| FilterLaws.RescopedKeepsEach | src/common/models/filter/filter.ts:280-290 | every dimension clause is in the result, and with both time attributes given, the old time clause is there rebound to the new time attribute with its action |
| FilterLaws.RescopedKeepsUnique | src/common/models/filter/filter.ts:275-295 | re-scoping keeps one clause per attribute when the new time attribute is not already constrained |
| FilterLaws.RescopedMayDuplicate | src/common/models/filter/filter.ts:285-290 | with the new time attribute already constrained, re-scoping can yield two clauses on it |
| FilterLaws.OverQueryKeepsUnique | src/common/models/filter/filter.ts:297-312 | `overQuery` keeps one clause per attribute |
| FilterLaws.OverQueryWidens | src/common/models/filter/filter.ts:300-307 | when moving back never moves later and moving forward never moves earlier, the new time range contains the old one |
| FilterLaws.FromExpressionRoundTrip | src/common/models/filter/filter.ts:38-58 | reading an expression and converting back gives the same expression, unless it was a conjunction of fewer than two clauses |

## Left out

- Serialisation (`toJS`, `toJSON`, `toString`, `valueOf`) and the reading of the interchange form
  into an expression (`Expression.fromJSLoose`, `ChainExpression.fromJS`) belong to the expression
  library, not to this model. `fromJS` is modelled from the expression on.
- The back-compatible array form of `fromJS` is not modelled. It reads a JSON array of clauses as
  their conjunction and then behaves as a conjunction.
- `isFilter`, `empty`, `single` and `length` are not modelled. They are one-line tests of the
  list's size or of the object's class.
- The factory `fromClause` is not modelled. It throws "must have clause" when given no clause, and
  otherwise builds the one-clause filter, which the model writes as `Filter([c])`.
- Clauses with more than one chained action are not represented. The source reads only
  `actions[0]` in the value edits and `overQuery`, but `withholdClause`, `swapClause` and `equals`
  compare whole clauses and `constrainToDimensions` copies every action.
- Plywood `Set` values are modelled as mathematical sets. Their element order and the literal's
  type tag are not modelled.
- Filters.FilteredOnValue: requires that an `in` clause on the attribute holds a value set. With a
  time range there the source calls the range's own `contains`, which the model does not cover.
- Filters.AddValue: requires the same, because the source then calls `add` on a time range, which
  it does not have.
- Filters.RemoveValue: requires the same, because the source then calls `remove` on a time range.
- Filters.ToggleValue: requires the same, as it calls the three above.
- Filters.ReplaceByIndex: requires `-length <= index <= length`. Below or past that range `get`
  returns `undefined`, and every copy of the new clause would become `undefined`, which the model
  has no clause for.
- Filters.InsertByIndex, Filters.ReplaceByIndex, General.MoveInList: indices are integers. A
  fractional JavaScript number (such as an `itemIndex` of 0.5, which passes the range check of
  `moveInList` and yields one item more) is not modelled.
- Filters.OverQuery: requires every clause on the time attribute to hold a time range. Otherwise
  the source reads `start` and `end` of something that has none.
- Filters.Equals: models only a Filter or nothing as the other operand. `isFilter` rejecting
  objects of other classes is not modelled.
- General.ListsEqual: `null` and `undefined` both become `None`, so `ListsEqual(None, None)` is
  true, while the source's `listsEqual(null, undefined)` is false (the two are not `===`, and then
  one of them is falsy).
- General.ListsEqual: the shortcut for one and the same reference is not modelled separately. It
  returns true, and so does the content comparison of a list with itself.
- Filters.ConstrainToDimensions: reference identity is not modelled. When `changed` is false the
  result is the filter itself as a value.
- Filters.ConstrainToDimensions: `Dimension.getDimensionByExpression` is modelled as membership of
  the clause's attribute in the sequence of dimension expressions.
- General.UpperChar: only ASCII letters are upper-cased. JavaScript's full Unicode case mapping
  (`toUpperCase`) is not modelled, and neither are UTF-16 surrogate pairs in `title[0]`.
- Filters.Rescoped: its own contract states only that re-scoping never lengthens the list. What
  each clause becomes is stated by `Filters.Kept`; that every kept and rebound clause is there by
  `FilterLaws.RescopedKeepsEach`; that nothing else is there by `FilterLaws.RescopedOrigin`.
- The `console.log` of the parameters before `fromJS` throws "must be a chain" is output only and
  is not modelled.
- General.UpperCaseFirst: the message for an empty title, "TypeError: title[0] is undefined", is a
  stand-in. The source throws the JavaScript engine's own `TypeError`, whose text varies.
- Time zones and calendar arithmetic (`Duration.move`, `Timezone`) are not modelled. `OverQuery`
  takes the move function as a parameter.
- The histogram view, the ajax helper and the test files that use these models are not part of
  this model.

## Findings

| source | as written | input that shows it | evidently intended | confidence | as-written member | corrected member |
|---|---|---|---|---|---|---|
| src/common/models/filter/filter.ts:211 | `setValues(attribute, [])` calls `clauses.delete(index)` without checking for -1. When no clause is on the attribute, `List.delete(-1)` removes the last clause. | a filter `[b in S]` and `setValues(a, [])` with `a != b` gives the empty filter, so the constraint on `b` is lost | an empty list removes the clause on the attribute, if any, and nothing else (as `remove` does) | not executed | FilterLaws.SetValuesEmptyDropsLast | FilterLaws.SetValuesCorrectedKeepsOthers |
