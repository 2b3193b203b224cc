# Pharmacy inventory page — a Dafny model

The application is a single React page over an Amplify data backend. The
backend holds suppliers and their products. The page shows one table per
supplier and lets the user do four things:

- select product rows;
- add a product to a supplier;
- edit one attribute of a product in place;
- delete the selected products.

It keeps a client-side mirror of the store (supplier identifier to that
supplier's product list). Each handler sends a request to the store and then
reconciles the mirror with the store's answer.

This project models that core:

- **Selection** (`selection.dfy`). This is the per-supplier selection table
  and the row-click toggle. An unselected row is appended at the end. A
  selected row is filtered out. A click on an input inside the row changes
  nothing.
- **Mirror** (`mirror.dfy`). These are the reconciliation updaters:
  - after a create, the returned record is appended under the chosen
    supplier's key;
  - after an update, every record with the returned record's identifier in
    its supplier's list is replaced by it.
- **BatchDelete** (`batch_delete.dfy`). This is the batch delete as a fold
  over the delete requests, in the order the handler issues them. It stops
  at the first failed request and keeps the earlier removals. It also
  contains the same walk in the shape of the handler's two nested loops, and
  the lemmas that connect the two.
- **AppState** (`app_state.dfy`). This is the page state as a class.
  - Its fields are the mirror, the selection, the status message, the flag
    that disables edit fields while an update is in flight, the dialog flag
    and the supplier the dialog was opened for.
  - Its methods are the handlers. Among them are the guard shared by every
    edit field (send only a changed value) and the Enter-key path through
    the same guard.
- **Schema** (`schema.dfy`). This holds the product record: the fields of
  the `product` model plus `notes`, which the page reads and writes. It also
  holds field-level read and write, and the shape of a store reply.
- **Lists** (`lists.dfy`). This is `Array.prototype.filter` and its
  properties, shared by the selection and the delete updater.

The remote store is never called. Each handler receives the store's answer
as a parameter:

- a create or update answer is `Returned(record)`, `NoData` or `Failed`;
- the delete handler receives `outcome`, where `outcome(t)` says whether the
  store confirms the `t`-th delete request of the batch.

Numbers are mathematical integers and reals. A value the user commits is
taken after the page's `Number(...)` conversion.

The delete button of any supplier's table hands the whole selection table to
the delete handler. It therefore deletes the rows selected under every
supplier. The handler does not clear the selection. In the model,
`HandleDelete`'s frame excludes `selected`, so the selection is provably left
as it was.

## Model

| member | source | states |
|---|---|---|
| Schema.GetField | amplify/data/resource.ts:12-24 | The value read from a record is either absent or of the attribute's declared kind (integer, float, date text). |
| Schema.SetField | amplify/data/resource.ts:12-24 | A partial update sets exactly the named attribute to the given value, keeps both identifiers, and leaves every other attribute as it was. |
| Lists.Filter | src/App.tsx:74 | The filtered list keeps exactly the elements that pass the test, and is no longer than the input. |
| Lists.FilterDistributes | src/App.tsx:74 | Filtering a concatenation is the concatenation of the filtered parts. |
| Lists.FilterMultiplicity | src/App.tsx:74 | Every element that passes the test occurs as often after filtering as before; the others do not occur. |
| Lists.FilterTwice | src/App.tsx:141-143 | Two filters in a row equal one filter by the conjunction of their tests. |
| Lists.FilterNoDup | src/App.tsx:74 | Filtering a list without duplicates gives a list without duplicates. |
| Selection.Get | src/App.tsx:66 | A supplier without an entry in the selection table has the empty selection; Click's contract and ClickTwice state the toggle applied to it. |
| Selection.RemoveAll | src/App.tsx:74 | Deselecting removes every occurrence of the row, keeps the multiplicity of every other identifier, and adds nothing. |
| Selection.Toggle | src/App.tsx:66-75 | After a click the row is selected exactly when it was not before; no other identifier's count changes; a newly selected row goes at the end. |
| Selection.Click | src/App.tsx:54-81 | A click on an input or text area changes nothing. Any other click replaces the clicked supplier's list by the toggled one and keeps every other supplier's list. |
| Selection.ToggleOffUnique | src/App.tsx:71-75 | Deselecting a row selected once removes exactly that entry and keeps the rows before and after it in order. |
| Selection.ToggleTwice | src/App.tsx:66-75 | Two clicks on an unselected row give back the original list. |
| Selection.ToggleTwiceSelected | src/App.tsx:66-75 | Two clicks on a selected row keep it selected but move it to the end. |
| Selection.ToggleKeepsNoDup | src/App.tsx:66-75 | Toggling never selects a row twice. |
| Selection.ClickTwice | src/App.tsx:54-81 | Two plain clicks on the same unselected row restore the supplier's selection (an absent entry becomes empty) and leave the other suppliers alone. |
| Mirror.Get | src/App.tsx:119 | A key absent from the mirror reads as the empty list (`prev[key] ?? []`); AppendCreated and ReplaceInTable state their results from it. |
| Mirror.AppendCreated | src/App.tsx:117-124 | After a create, the list under the key is the previous list (empty if none) followed by the returned record; other keys keep their lists. |
| Mirror.CreatedOnceAtEnd | src/App.tsx:117-124 | The created record is last in its list, and its identifier occurs once more than before, so exactly once when the identifier is fresh. |
| Mirror.AppendKeepsConsistent | src/App.tsx:106-124 | A create keeps every list holding only records of its own supplier, when the returned record belongs to the chosen supplier. |
| Mirror.ReplaceById | src/App.tsx:172-174 | The mapped list has the same length and identifiers; every position whose record carries the returned identifier holds the returned record, and every other position keeps its record. |
| Mirror.ReplaceInTable | src/App.tsx:169-179 | After an update only the returned record's supplier list changes: it becomes the mapped list (from empty if absent). |
| Mirror.ReplacedPresentIff | src/App.tsx:172-174 | The returned record is in the list afterwards exactly when a record with its identifier was there before: an update never adds a row. |
| Mirror.ReplaceIdempotent | src/App.tsx:172-174 | Applying the same reply twice gives the same list as applying it once. |
| Mirror.UpdateTouchesOneRecord | src/App.tsx:163-174 | With unique identifiers, a field update of record i changes position i to that record with the one field set, and nothing else. |
| Mirror.ReplaceKeepsConsistent | src/App.tsx:169-179 | An update keeps every list holding only records of its own supplier. |
| BatchDelete.Entries | src/App.tsx:135 | The entries of the selection table in the given key order: one entry per listed key, carrying that key's selected identifiers. |
| BatchDelete.Flatten | src/App.tsx:135-137 | The requests in the order the handler sends them, entry by entry and identifier by identifier; FlattenMember states which requests it holds and ContinueIsRun that the loops send exactly these, in this order. |
| BatchDelete.FlattenMember | src/App.tsx:135-137 | A (supplier, identifier) request is in the batch exactly when some selection entry names that supplier and lists that identifier. |
| BatchDelete.RemoveProduct | src/App.tsx:139-145 | The delete updater keeps every supplier key; RemoveProductEffect states what it keeps under each key. |
| BatchDelete.RemoveProductEffect | src/App.tsx:139-145 | One confirmed delete keeps, under its supplier, exactly the records with another identifier, and leaves every other supplier's list alone. |
| BatchDelete.ApplyDeletesSurviving | src/App.tsx:137-146 | A run of confirmed deletes leaves, under each supplier, the records no request for that supplier named, in their original order. |
| BatchDelete.ApplyDeletesKeepsConsistent | src/App.tsx:139-145 | Deletes keep every list holding only records of its own supplier. |
| BatchDelete.FirstFailure | src/App.tsx:136-151 | The position found is the first failed request: every earlier request succeeded and the one found failed, or none failed. |
| BatchDelete.FirstFailureUnique | src/App.tsx:136-151 | Only one position has those properties. |
| BatchDelete.RunTargets | src/App.tsx:137-151 | Walking the requests keeps the supplier keys, sends at most all requests, and sends all of them when none fails. |
| BatchDelete.RunTargetsCharacterised | src/App.tsx:134-154 | The walk applies exactly the requests before the first failure, ends failed exactly when some request fails, and, when some request fails, sends exactly one request past the last confirmed one; when none fails it sends them all. |
| BatchDelete.RunBatch | src/App.tsx:134-154 | A batch ends in failure exactly when some request of it fails, sends no more requests than it has, and keeps the supplier keys. |
| BatchDelete.FailureKeepsEarlierRemovals | src/App.tsx:147-151 | When request j fails after the earlier ones succeeded, j + 1 requests are sent. Under each supplier exactly the records the first j requests named are gone. |
| BatchDelete.SuccessRemovesAll | src/App.tsx:134-154 | When every request succeeds, the batch reports success and removes, under each supplier, exactly the records some request named. |
| BatchDelete.DeletedForSelected | src/App.tsx:134-137 | For any enumeration order of the selection table, the identifiers deleted under a supplier are exactly those selected for it. |
| BatchDelete.SelectionDeletedOnSuccess | src/App.tsx:254-261 | When the store confirms everything, the delete button leaves under each supplier exactly the records whose identifiers were not selected for it. |
| BatchDelete.Continue | src/App.tsx:135-152 | The two nested loops from a given point keep the supplier keys and never lower the count of requests sent; ContinueIsRun equates them with the fold. |
| BatchDelete.ContinueIsRun | src/App.tsx:135-152 | The two nested loops, from any point, send the pending requests exactly as the fold does. |
| BatchDelete.RunBatchIsContinue | src/App.tsx:134-154 | Run from the start, the nested loops are the batch fold. |
| AppState.ShouldUpdate | src/App.tsx:336-347 | The guard of every edit field: send only a value that differs from the rendered record's. UnchangedValueSendsNothing, UpdatedRecordAgreesWithGuard and AbsentFieldAlwaysSent state its consequences, and OnBlur sends exactly when it holds. |
| AppState.SupplierKey | src/App.tsx:118 | The key a created record is filed under: the chosen supplier's identifier, or the text "undefined" when none was chosen; HandleSubmit's contract appends under it. |
| AppState.UnchangedValueSendsNothing | src/App.tsx:336-347 | Committing the value the rendered record already holds sends no update. |
| AppState.UpdatedRecordAgreesWithGuard | src/App.tsx:319-347 | Against the record the store returns, committing the same value again sends nothing, and any other value is sent. |
| AppState.AbsentFieldAlwaysSent | src/App.tsx:336-347 | A field whose attribute the record lacks sends an update on every commit. |
| AppState.App.constructor | src/App.tsx:38-52 | The initial state: empty mirror and selection, no message, not updating, dialog closed, no supplier chosen. |
| AppState.App.HandleClick | src/App.tsx:54-81 | The selection becomes the click's result and nothing else changes. |
| AppState.App.OpenAddDialog | src/App.tsx:244-249 | The dialog opens for that supplier. |
| AppState.App.CloseDialog | src/App.tsx:554 | The dialog closes. |
| AppState.App.DismissMessage | src/App.tsx:191-204 | The message is cleared. |
| AppState.App.HandleSubmit | src/App.tsx:100-132 | A returned record is appended under the chosen supplier's key (`"undefined"` when none); nothing else changes the mirror. The message ends as the success text whatever the answer, and the dialog closes. |
| AppState.App.HandleSubmitReported | src/App.tsx:125-131 | As HandleSubmit, but the failure message remains after a failed request. |
| AppState.App.BeginUpdate | src/App.tsx:161-166 | Edit fields are disabled and the request carries exactly the identifier, field and value. |
| AppState.App.FinishUpdate | src/App.tsx:167-186 | A returned record replaces its identifier in its supplier's list. The message ends as "Updated <field> successfully!" whatever the answer, and the edit fields are enabled again. |
| AppState.App.FinishUpdateReported | src/App.tsx:180-186 | As FinishUpdate, but the failure message remains after a failed request. |
| AppState.App.UpdateProduct | src/App.tsx:156-187 | The whole update: the mirror is reconciled as FinishUpdate states, the message is the field's confirmation and the edit fields end enabled. |
| AppState.App.OnBlur | src/App.tsx:336-347 | An update request is started exactly when the committed value differs from the rendered record's value, and it carries that record's identifier, the field and the value. |
| AppState.App.OnKeyDown | src/App.tsx:319-335 | Enter with a changed value produces two identical update requests (the key handler's, then the blur handler's); any other key, or an unchanged value, produces none. |
| AppState.App.OnKeyDownOnce | src/App.tsx:319-335 | Enter with a changed value produces the update request once. |
| AppState.App.HandleDelete | src/App.tsx:134-154 | The handler's nested loops compute the batch fold: the mirror is the fold's table, the requests sent are the fold's count, and the message is the failure text exactly when some request fails. |
| AppState.App.DeleteButton | src/App.tsx:254-261 | The button, enabled while its supplier has a selected row, runs the batch over the whole selection table in its enumeration order. |
| AppState.FailedCreateReportsSuccess | src/App.tsx:125-131 | After a create the store rejects, the message shown is the success text, not the failure text. |
| AppState.FailedCreateReported | src/App.tsx:125-131 | With the corrected handler, a rejected create shows the failure text. |
| AppState.FailedUpdateReportsSuccess | src/App.tsx:180-186 | After an update the store rejects, the message reports the field as updated. |
| AppState.FailedUpdateReported | src/App.tsx:180-186 | With the corrected answer handling, a rejected update shows the failure text. |
| AppState.EnterSendsTwice | src/App.tsx:319-347 | Enter in a field holding a changed value sends the same update request twice. |
| AppState.EnterSendsOnce | src/App.tsx:319-347 | With the corrected key handler the request is sent once. |

## Left out

- Loading suppliers and products on first render (src/App.tsx:83-98) is I/O against the store. The model starts from a given mirror.
- The create request's payload (src/App.tsx:102-114) is not modelled. This includes form parsing, `Number(...)` conversion of the form fields and `selectedSupplier?.id || ""`. The handler receives the store's answer instead.
- Rendering is left out: tables, badges, the snackbar's three-second auto-hide, and the dialog's form fields.
- `disabled={updating}` on the edit fields: the model records `updating` but does not stop a handler from being called while it is set.
- JavaScript number semantics are not modelled, so `NaN !== NaN`, an empty numeric input becoming `0`, and a non-integer committed to an integer attribute are all absent. Committed values are integers, reals or text compared by mathematical equality.
- Interleaving of asynchronous handlers is not modelled. Apart from the Enter key path, where `OnKeyDown` returns the two requests it starts unanswered, each request is answered before anything else happens, and the state updaters run in the order they are issued.
- AppState.App.HandleDelete: requires every selected supplier to have a list in the mirror. Otherwise the source's updater fails with a type error on the missing key (src/App.tsx:141), outside the handler's `try`, which is not modelled.
- AppState.App.HandleDelete: a delete counts as failed only when its request is rejected. A reply that resolves is treated as confirmed whatever it carries, as the source does not inspect it.
- AppState.App.DeleteButton: the order in which `Object.entries` yields the selection's keys is a parameter, not the JavaScript insertion order; it is required to list every key exactly once, as `Object.entries` does.
- Identifiers are taken to be present strings. The schema (amplify/data/resource.ts:14-15) leaves `id` and `supplierId` optional, and the page asserts them (`product.id!`, src/App.tsx:296-297) or converts them with `String(...)` (src/App.tsx:118, 170). A record with a missing `supplierId` would be filed under the key `"null"` or `"undefined"`; that case is not modelled.
- The supplier record (amplify/data/resource.ts:4-10) appears only through its identifier. The dialog keeps `Some(id)` of the chosen supplier.
- Name and dose have no edit field on the page. `OnBlur` and `OnKeyDown` require an editable field.

## Findings

| source | as written | input that shows it | evidently intended | confidence | as-written member | corrected member |
|---|---|---|---|---|---|---|
| src/App.tsx:125-131 | The `finally` block sets "Product created successfully!" after the `catch` block set the failure message. | A create request the store rejects. | The failure message stays on screen. | not executed; high | AppState.FailedCreateReportsSuccess | AppState.App.HandleSubmitReported |
| src/App.tsx:180-186 | The `finally` block sets "Updated <field> successfully!" after the `catch` block set the failure message. | An update request the store rejects. | The failure message stays on screen. | not executed; high | AppState.FailedUpdateReportsSuccess | AppState.App.FinishUpdateReported |
| src/App.tsx:319-347 | On Enter the key handler sends the update and then blurs the field. The blur handler runs the same guard against the same rendered record, so the update is sent again. | Enter in the quantity field after changing 5 to 6. | The request is sent once. | not executed; medium | AppState.EnterSendsTwice | AppState.App.OnKeyDownOnce |
