# Discover view state — a Dafny model

This project models the view-state core of Kibana's *discover* controller
(`src/kibana/apps/discover/controllers/discover.js`). That core covers:

- the query clauses `filterQuery` appends to the free-text query, and the `addSlashes` escaper they use;
- the field list that `getFields` rebuilds from the search source's field map;
- the reconciliation of the shown columns with the shown fields, done by `toggleField` and `refreshColumns`, which call each other;
- the defaults `loadState` fills in;
- sorting, resetting the query, and the single configuration-panel slot;
- the query/sort descriptor that `updateDataSource` gives to the search source;
- the mapping from histogram buckets to chart points.

The controller's scope is the class `Discover.DiscoverState`. Its methods update the scope in place. Each method is proved against a specification function, and the properties the controller promises are proved about those functions as lemmas.

| module | file | what it holds |
|---|---|---|
| `Options` | `options.dfy` | the `Option` type |
| `StringOrder` | `string_order.dfy` | the order of `Array.prototype.sort()` on strings; the ascending key list of a set |
| `Escaping` | `escaping.dfy` | `addSlashes`, its one-pass form, and the reader of quoted literals |
| `QueryText` | `query_text.dfy` | the clauses of `filterQuery`; the request descriptor |
| `Columns` | `columns.dfy` | field records, `_.intersection`, `toggleInOut`; the closed forms of `toggleField` and `refreshColumns`, their termination ranks and their properties |
| `FieldList` | `field_list.dfy` | the merge step of `getFields` |
| `ViewModel` | `view_model.dfy` | the stored view state and its defaults, the panel slot, the chart points |
| `Discover` | `discover.dfy` | the class `DiscoverState` and its methods |

How the code's behaviour is expressed in the model:

- **Exceptions.** In two places the controller dereferences the result of `_.find` without checking it. The first is at line 281, when `toggleField` is called with a name that has no field record; the `_source` fallback of `refreshColumns` reaches it too, through `toggleField('_source')` when the list has no `_source` record. The second is at line 286, in the `_source`-only branch of `toggleField`, when the list has no `_source` record. Both throw a TypeError in JavaScript. The model returns `Outcome.Missing(name)` in those cases, and the state is left exactly as far as the code had changed it before throwing.
- **Termination.** `toggleField` and `refreshColumns` call each other. Their termination is proved with explicit ranks (`Columns.ToggleRank` and `Columns.RefreshRank`). The nesting goes at most two toggles of `_source` deep.
- **Closed forms.** `refreshColumns` falls back to `_source` when no column survives. It calls `toggleField('_source')`, which flips the first `_source` record and sets the columns to `['_source']`. If that flip hid `_source`, the following refresh toggles it once more, flipping it back. `Columns.RefreshSpec` states this outcome directly.
- **`getFields`.** It is asynchronous, so it is split in two:
  - `SnapshotDisplays` takes the snapshot of display flags when the request is made;
  - `ReceiveFields` takes the field map the search source resolves with, as a parameter.

  The field map can hand back the very objects the view already holds, so a discovered descriptor may already carry a display flag. `_.defaults` keeps that flag; the model writes it as `Descriptor.preset`.

Two consequences of the code as written:

- **Columns can hold `_source` beside another column.** The columns are not always either exactly `['_source']` or free of `_source`. Toggling `_source` while another column is shown gives `[a, '_source']` (`Columns.SourceJoinsOtherColumns`).
- **Discovery requests are not merged.** `activeGetFields` is only ever assigned `null` (line 261), so the check at line 217 never fires, and concurrent `getFields` calls each issue their own discovery. The model does no merging.

## Model

| member | source | states |
|---|---|---|
| Escaping.AddSlashes | src/kibana/apps/discover/controllers/discover.js:320-327 | a value that is not a string comes back unchanged; an escaped string is one character longer for every backslash, single quote, double quote or NUL it contains |
| Escaping.AddSlashesIsEscape | src/kibana/apps/discover/controllers/discover.js:322-325 | the four global replaces, backslash first, equal a single left-to-right pass that escapes each character on its own, so no backslash a later replace inserts is escaped again |
| Escaping.AddSlashesTextChar | src/kibana/apps/discover/controllers/discover.js:322-325 | on one character, the four replaces give exactly that character's escape |
| Escaping.EscapeLength | src/kibana/apps/discover/controllers/discover.js:320-327 | the escape of a string is as long as the string plus the number of its special characters |
| Escaping.AddSlashesReadBack | src/kibana/apps/discover/controllers/discover.js:320-327 | reading the escaped text as the body of a double-quoted literal gives back the original string, and the closing quote ends the literal |
| Escaping.ReadQuotedEscape | src/kibana/apps/discover/controllers/discover.js:320-327 | the escape of any string, a quote, then any text: this reads back as the string followed by that text |
| Escaping.ReadQuotedSound | src/kibana/apps/discover/controllers/discover.js:320-327 | the converse: every text that reads as a quoted literal is exactly the escape of the value it decodes to, so escaping is a bijection between strings and well-formed literals |
| QueryText.FilterValues | src/kibana/apps/discover/controllers/discover.js:267 | a single value is treated as a one-element list; a list is used as given |
| QueryText.Operation | src/kibana/apps/discover/controllers/discover.js:268 | the operation is never empty: it is the given operation, or `+` when that is absent or empty |
| QueryText.AppendClauses | src/kibana/apps/discover/controllers/discover.js:270-272 | the loop ends with the old query followed by exactly one clause ` <op><field>:"<escaped value>"` per value, in the order given |
| QueryText.ClausesSnoc | src/kibana/apps/discover/controllers/discover.js:270-272 | appending one clause at a time builds the same text as the clauses of the whole list |
| QueryText.ClausesOfString | src/kibana/apps/discover/controllers/discover.js:271 | the clause of a string value is its head, the value's escape and a closing quote |
| QueryText.ClausesReadBack | src/kibana/apps/discover/controllers/discover.js:270-272 | when every value is a string, the appended text parses back, clause by clause, into exactly the original values in order, whatever quotes or backslashes they hold |
| QueryText.Describe | src/kibana/apps/discover/controllers/discover.js:171-181 | the request carries no query exactly when the query string is empty, and otherwise a query-string query with that exact string; its sort is a single one-key entry mapping the sort field to its direction |
| QueryText.DescribeReadBack | src/kibana/apps/discover/controllers/discover.js:171-181 | the query string and the sort pair can both be read back from the descriptor |
| QueryText.InitialText | src/kibana/apps/discover/controllers/discover.js:53 | the initial query text is the saved search's query string, or empty when the saved search has no query |
| QueryText.ResetReissuesInitialQuery | src/kibana/apps/discover/controllers/discover.js:156-159 | after a reset, the request carries a query-string body with the initial query string, or no query when that string is empty |
| StringOrder.LessTotal | src/kibana/apps/discover/controllers/discover.js:246 | the string order is total: of two different strings, exactly one sorts first |
| StringOrder.LeastExists | src/kibana/apps/discover/controllers/discover.js:246 | every non-empty set of names has a least element |
| StringOrder.SortedKeysSpec | src/kibana/apps/discover/controllers/discover.js:244-246 | the sorted key list holds every key of the field map exactly once, in strictly ascending order, and nothing else |
| Columns.Displayed | src/kibana/apps/discover/controllers/discover.js:305-307 | a name is among the displayed names exactly when some record of that name is displayed |
| Columns.FindIndex | src/kibana/apps/discover/controllers/discover.js:278 | the result is the index of the first record with the name, or none exactly when no record has it |
| Columns.ToggleInOut | src/kibana/apps/discover/controllers/discover.js:284-289 | after the toggle the name is present exactly when it was absent before; every other name keeps its membership |
| Columns.ToggleInOutTwice | src/kibana/apps/discover/controllers/discover.js:289 | toggling an absent name in and then out again restores the columns exactly |
| Columns.Intersection | src/kibana/apps/discover/controllers/discover.js:310 | a name is kept exactly when it is both a column and a displayed name; the result has no duplicates |
| Columns.IntersectionKeepsOrder | src/kibana/apps/discover/controllers/discover.js:310 | the kept columns are in their previous relative order |
| Columns.IntersectionOfContained | src/kibana/apps/discover/controllers/discover.js:310 | columns that have no duplicates and are all displayed come through the intersection unchanged |
| Columns.RefreshFallback | src/kibana/apps/discover/controllers/discover.js:313-315 | when no column survives, the nested `toggleField('_source')` ends where the closed form of refreshColumns says, and it has a strictly lower rank, so the mutual recursion terminates |
| Columns.RefreshColumnsPost | src/kibana/apps/discover/controllers/discover.js:303-318 | given a `_source` record, refreshColumns ends normally; the columns are non-empty, have no duplicates and are all displayed; surviving columns keep their relative order; only `_source` display flags change |
| Columns.RefreshIdempotent | src/kibana/apps/discover/controllers/discover.js:303-318 | refreshing a second time changes nothing |
| Columns.ToggledFlags | src/kibana/apps/discover/controllers/discover.js:281-286 | the named record's flag is negated, except when it is `_source` itself hidden in `_source`-only mode; in `_source`-only mode the `_source` record is hidden; every other record and every type is untouched |
| Columns.RefreshSpec | src/kibana/apps/discover/controllers/discover.js:303-318 | the closed form of refreshColumns: the columns become their intersection with the shown names; when none is left, `toggleField('_source')` flips the first `_source` record (flipping it back if that hid it) and the columns become `['_source']`; with no `_source` record it throws |
| Columns.TogglePrep | src/kibana/apps/discover/controllers/discover.js:277-290 | the state toggleField reaches before refreshColumns: the named record flipped; from `['_source']` the name replaces `_source` and `_source` is hidden; otherwise the name is toggled in or out of the columns; a missing name or a missing `_source` record throws |
| Columns.ToggleSpec | src/kibana/apps/discover/controllers/discover.js:277-293 | the closed form of toggleField: TogglePrep, then RefreshSpec on its state unless it threw |
| Columns.TogglePrepFields | src/kibana/apps/discover/controllers/discover.js:278-290 | on an existing field, given a `_source` record, toggleField reaches refreshColumns without throwing, with the flags ToggledFlags gives |
| Columns.TogglePrepPost | src/kibana/apps/discover/controllers/discover.js:278-290 | before the column update the named field's flag is negated (for `_source` too, unless the columns are exactly `['_source']`), the `_source` record remains, and no other flag changes |
| Columns.ToggleFieldPost | src/kibana/apps/discover/controllers/discover.js:277-293 | on an existing field, given a `_source` record, toggleField ends normally with columns that are non-empty, duplicate-free and all displayed; only that field's and `_source`'s flags change |
| Columns.ToggleMissingField | src/kibana/apps/discover/controllers/discover.js:278-281 | toggling a name with no record throws before anything has changed |
| Columns.ToggleOutOfSourceOnly | src/kibana/apps/discover/controllers/discover.js:283-287 | from columns exactly `['_source']`, toggling a hidden field other than `_source` shows it, makes it the only column, and hides `_source` |
| Columns.ToggleNegatesDisplay | src/kibana/apps/discover/controllers/discover.js:281 | the flag of the toggled field (other than `_source`) ends negated; the refresh that follows never undoes it |
| Columns.SourceJoinsOtherColumns | src/kibana/apps/discover/controllers/discover.js:289 | toggling `_source` while the column `a` is shown gives the columns `[a, '_source']` |
| FieldList.ArrayToKeys | src/kibana/apps/discover/controllers/discover.js:205-211 | the object has exactly the array's elements as keys, each mapped to true |
| FieldList.KnownDisplaysKeys | src/kibana/apps/discover/controllers/discover.js:224-228 | the snapshot has a key for every name in the field list, and no other key |
| FieldList.KnownDisplaysValues | src/kibana/apps/discover/controllers/discover.js:224-228 | each name maps to the display flag of its last record |
| FieldList.MergedFields | src/kibana/apps/discover/controllers/discover.js:238-253 | the rebuilt list is one record longer than the field map, and its first record is `_source` of type `source`, hidden |
| FieldList.MergedFieldsAt | src/kibana/apps/discover/controllers/discover.js:247-252 | the record at position p after `_source` is the one merged from the p-th discovered name in ascending order and that name's descriptor |
| FieldList.MergedFieldsAscending | src/kibana/apps/discover/controllers/discover.js:244-247 | after `_source`, the names are in strictly ascending order, so none is listed twice |
| FieldList.MergedFieldsNames | src/kibana/apps/discover/controllers/discover.js:244-252 | after `_source`, the list names exactly the discovered fields, each with its descriptor's type |
| FieldList.BuildFields | src/kibana/apps/discover/controllers/discover.js:238-253 | the push loop over the sorted keys builds exactly the merged list |
| FieldList.MergeKeepsKnownDisplay | src/kibana/apps/discover/controllers/discover.js:251 | a field that was already known, and whose descriptor carries no flag, keeps its previous display flag |
| FieldList.MergeNewFieldDisplay | src/kibana/apps/discover/controllers/discover.js:236-252 | a new field whose descriptor carries no flag is displayed exactly when its name was one of the columns (for names that are not properties of `Object.prototype`, as "## Left out" says) |
| FieldList.MergePresetDisplay | src/kibana/apps/discover/controllers/discover.js:251-252 | a descriptor that already carries a display flag keeps it |
| FieldList.FieldsResultPost | src/kibana/apps/discover/controllers/discover.js:255 | the refresh after the merge always ends normally, with reconciled columns, and it changes only `_source` flags in the merged list |
| ViewModel.Defaults | src/kibana/apps/discover/controllers/discover.js:50-57 | every stored key is kept as it is; only missing keys are filled: the query from the initial query (or empty), the columns with `['_source']`, the sort with `('_score', 'desc')` |
| ViewModel.LoadAfterStore | src/kibana/apps/discover/controllers/discover.js:50-57 | loading a view that `updateState` saved gives back exactly that view |
| ViewModel.DefaultsIdempotent | src/kibana/apps/discover/controllers/discover.js:50-57 | saving a loaded view and loading it again changes nothing |
| ViewModel.Toggled | src/kibana/apps/discover/controllers/discover.js:138-154 | the slot ends empty exactly when the toggled panel was already shown; otherwise it holds that panel |
| ViewModel.ToggledTwice | src/kibana/apps/discover/controllers/discover.js:138-145 | from closed, or with the panel open, two toggles of the same panel return to where they started |
| ViewModel.ToggledReplaces | src/kibana/apps/discover/controllers/discover.js:147-154 | toggling one panel while the other is shown replaces it, so the slot holds at most one panel |
| ViewModel.ChartPoints | src/kibana/apps/discover/controllers/discover.js:113-115 | there is one point per bucket |
| ViewModel.ChartPointsAt | src/kibana/apps/discover/controllers/discover.js:113-115 | point i has bucket i's key as x and its document count as y, and the buckets can be rebuilt from the points |
| ViewModel.ChartKeepsTotal | src/kibana/apps/discover/controllers/discover.js:113-115 | the heights of the points add up to the buckets' total document count |
| Discover.DiscoverState.constructor | src/kibana/apps/discover/controllers/discover.js:48-59 | on opening, the view state is the stored state with the defaults filled in; there is no field list and no open panel; the search source is configured from the loaded state, by the `updateDataSource()` call at line 329 |
| Discover.DiscoverState.UpdateDataSource | src/kibana/apps/discover/controllers/discover.js:171-190 | the search source gets the descriptor of the current query and sort, from which both read back unchanged |
| Discover.DiscoverState.UpdateState | src/kibana/apps/discover/controllers/discover.js:200-202 | the state store receives the current view |
| Discover.DiscoverState.Fetch | src/kibana/apps/discover/controllers/discover.js:193-198 | the search source is configured, the view is saved, and one more fetch is issued |
| Discover.DiscoverState.GetSort | src/kibana/apps/discover/controllers/discover.js:126-128 | the result is the state's sort pair |
| Discover.DiscoverState.SetSort | src/kibana/apps/discover/controllers/discover.js:130-136 | the sort becomes `(field, order)` and nothing else in the view changes; the search source is configured with that sort, the view is saved, and one fetch is issued |
| Discover.DiscoverState.ToggleConfig | src/kibana/apps/discover/controllers/discover.js:138-145 | the panel slot becomes the toggle of settings |
| Discover.DiscoverState.ToggleTimepicker | src/kibana/apps/discover/controllers/discover.js:147-154 | the panel slot becomes the toggle of the timepicker |
| Discover.DiscoverState.ResetQuery | src/kibana/apps/discover/controllers/discover.js:156-159 | the query returns to the initial query string and nothing else in the view changes; the search source is configured with the initial query string and the current sort |
| Discover.DiscoverState.FilterQuery | src/kibana/apps/discover/controllers/discover.js:266-275 | the new query is the old query followed by one clause per value, in order, so the old query is a prefix of the new one; nothing else in the view changes, one fetch is issued, and the search source is configured with the new query and the current sort |
| Discover.DiscoverState.ToggleField | src/kibana/apps/discover/controllers/discover.js:277-293 | the fields, the columns and the outcome are exactly the closed form of toggleField on the old state; the view is saved exactly when it ends normally |
| Discover.DiscoverState.RefreshColumns | src/kibana/apps/discover/controllers/discover.js:303-318 | the fields, the columns and the outcome are exactly the closed form of refreshColumns on the old state; the view is saved exactly when it ends normally |
| Discover.DiscoverState.SnapshotDisplays | src/kibana/apps/discover/controllers/discover.js:224-228 | the snapshot has exactly the listed names as keys, each mapped to the flag of its last record |
| Discover.DiscoverState.ReceiveFields | src/kibana/apps/discover/controllers/discover.js:230-258 | with no field map, the fields, the columns and the saved view stay as they were; otherwise the field list is the merged list after refreshColumns has reconciled it, and the view is saved |

## Left out

- Route registration, the saved-search resolve, `saveDataSource`, `$location` navigation, the `config.$watch` on the default index, notifier creation, `$emit('application.load')` and the `$destroy` wiring. These are framework, persistence and browser I/O.
- The search source, the courier and the state store are modules this project does not include.
  - What the controller gives them is recorded in the fields `source` (the query/sort descriptor), `saved` (the last value passed to `state.set`) and `fetches` (the number of fetches issued).
  - What `state.get()` and the search source return comes in as method parameters.
- The `onResults` promise chain and its logging error path. Only its bucket-to-point mapping is modelled.
- Discover.DiscoverState.ReceiveFields: the rejected discovery request (`defer.reject`) is not modelled.
  - The two places that start `getFields` are not modelled: the `!$scope.fields` check in `updateDataSource` (line 169) and the one in `onResults` (line 103). Both are asynchronous.
  - A rejected discovery leaves the state as it was, which is the same as the `None` case.
  - `$scope.fields` starts out as `null`; the model starts with an empty list. The two differ only in those `!$scope.fields` checks.
- The in-flight guard of `getFields` (`activeGetFields`). It is never armed, so it changes nothing.
- Discover.DiscoverState.UpdateDataSource: the index check at lines 162-167, the `sampleSize` size and the fixed `date_histogram` aggregation are not modelled. They are constants and calls that carry no view-state logic. The interval options (lines 28-35) and `opts` (lines 61-70) are left out for the same reason.
- `refreshFieldList` (lines 295-301) is not modelled as one method. It clears the search source's field cache, which is not part of this model. It then runs `getFields` and `fetch`, which are modelled as SnapshotDisplays, ReceiveFields and Fetch.
- QueryText.ResetReissuesInitialQuery: the saved search's query is assumed to be a query-string body `{query_string: {query}}` (`QueryText.QueryBody`). A truthy initial query without `query_string` makes lines 53 and 157 throw a TypeError, so the view fails to open; that is not modelled. Any other key of the saved body is not sent again after a reset, because `updateDataSource` builds a fresh `{query_string: {query}}` (lines 176-180); the model's body has no other keys to lose.
- FieldList.MergeNewFieldDisplay: `columnObjects` and `currentState` are JavaScript objects, and the model writes them as maps (`FieldList.ArrayToKeys`, `FieldList.KnownDisplays`), so lookups that reach `Object.prototype` are not modelled. In the code, a new field named `constructor`, `toString`, `valueOf`, `hasOwnProperty`, `__proto__` or another inherited property name finds a truthy value in `columnObjects` (line 252) and is pushed as displayed even when it is no column; the lemma's "displayed exactly when a column" holds only for names that are not such properties. Assigning `obj['__proto__']` (lines 208 and 225) also creates no key, which the maps do not capture either.
- Escaping.Scalar: the JavaScript string conversion of a value that is not a string is abstracted as the text that value carries.
- StringOrder.Less: compares Dafny characters (Unicode scalar values). JavaScript's `sort()` compares UTF-16 code units, and the two orders differ only between characters above U+FFFF and characters from U+E000 to U+FFFF.
- Columns.ToggleInOut: `_.toggleInOut` comes from the project's lodash mixins, which are not part of this model. The model assumes it removes every occurrence of a name that is present and appends a name that is absent.
- Field descriptors carry only their type and a possible display flag. Any other properties of the descriptor objects are not modelled, and neither is the sharing of those objects between the search source's cache and the field list. Only its visible effect is modelled, as the preset flag.
