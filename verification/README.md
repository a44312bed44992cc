# Pending-transaction tracking and field refresh of the GUI contract bindings

The browser bindings `gui/Exchange.js`, `gui/Custodian.js` and `gui/EntityFactory.js` each wrap one
deployed contract. Apart from the contract interface tables, the three files share the same code:

- a **pending list** `currentTransactions` of `{hash, success, fail}` entries. A submission appends to it
  when the contract call returns a transaction hash (`newTransactionHash`);
- a **confirmation pass** (`processTransactionHash` / `processTransactionHashHelper`). It captures the
  list's length, then looks up the receipt of each position `0 .. length-1` in turn:
  - a lookup error or a null receipt does nothing;
  - status `'0x0'` calls the transaction-status callback with `(false, fail, hash)`;
  - any other status calls it with `(true, success, hash)`, pushes the index onto `indexesToBeRemoved`
    and starts a refresh.

  After the last position, the pass splices the marked indices out in reverse order;
- a **field refresher** (`updateGlobals`). It calls the accessors named in `globalMethods` in order, and
  each accessor overwrites its cached field (initially `'Not set yet...'`) on success. The refresher stops
  at the first error. When every accessor succeeds, it calls `globalsCallback` once.

The model factors the shared code into one client (module `EntityClient`, class `Client`). The modules
`Exchange`, `Custodian` and `EntityFactory` each add that file's own parts: the refresh list, the cached
fields, the accessors and the submission with its fixed messages. Apart from identifier names, the code at
`gui/Custodian.js:193-276` repeats `gui/Exchange.js:247-330` line for line. `gui/EntityFactory.js:101-173`
repeats the same pending list, pass and refresher, but it has no `setCurrentEntityAddress`
(`gui/Exchange.js:300-309`). It binds its contract in its constructor (`gui/EntityFactory.js:77`), so it
never refreshes on binding and has no 5000 ms periodic refresh; it refreshes only after a successful
receipt. Its `globalMethods` lists one accessor (`gui/EntityFactory.js:85-87`), where the other two list
two. The table below cites all three copies.

The pass waits for each receipt asynchronously, so a submission can append to the list while a pass is
under way. `Client` therefore models the pass as three steps, and `NewTransactionHash` may run between any
two of them:

- `BeginPass` is `processTransactionHash`;
- `VisitNext` is one receipt callback of the helper;
- `FinishPass` is the helper's final branch, the reverse splice.

`ProcessTransactionHash` runs a whole pass. `arrivals[k]` are the submissions made after the callback of
receipt `k`, while the next receipt is awaited; the last group arrives before the final splice. The external calls become inputs:

- each receipt lookup is an `Outcome`: `LookupError`, `NotYet`, `Failed` (status `'0x0'`) or `Succeeded`;
- each accessor result is an `Option<string>`;
- each submission's result is a `Result<string>`.

The callbacks become outputs: the reports of the transaction-status callback, the positions that
trigger a refresh, and the number of `globalsCallback` calls.

A `'0x0'` receipt reports the failure but never pushes its index, unlike a success
(`gui/Exchange.js:261-266`, compare `:268`). The entry therefore stays pending, and every later pass
reports it again. `FailedReportedNotRemoved`, `FailedReportedEveryPass` and `NotYetThenFailed` state this
behaviour.

## Model

| member | source | states |
|---|---|---|
| Pending.PositionsInSpec | gui/Exchange.js:256-282 | the indices a pass pushes are strictly increasing, each below the captured length, and are exactly the positions whose outcome is of the given kinds |
| Pending.ReportsByPosition | gui/Exchange.js:259-279 | a pass makes one report per position whose receipt was `'0x0'` or a success, in increasing position order: `(false, fail, hash)` or `(true, success, hash)` of that position's entry; other positions make none |
| Pending.RemoveAt | gui/Exchange.js:286 | `splice(k, 1)` at an index inside the list shortens it by exactly one |
| Pending.RemoveAtContents | gui/Exchange.js:286 | `splice(k, 1)` keeps the entries before `k` where they are and moves each entry after `k` down one place; an index beyond the end leaves the list as it was |
| Pending.KeepUnmarkedAppend | gui/Exchange.js:284-287 | when every marked position lies below the length at the start of the pass, entries appended after that point are all kept, in order, behind the survivors |
| Pending.KeepUnmarkedMembers | gui/Custodian.js:230-233 | every unmarked entry survives removal, and every survivor comes from an unmarked position |
| Pending.SpliceReverseRemovesMarked | gui/Exchange.js:284-287 | splicing a strictly increasing list of in-range indices, last first, removes exactly those positions, keeps the order of the rest, and shortens the list by the number of indices |
| Pending.SurvivorsSpec | gui/EntityFactory.js:138-141 | after a pass, the list has lost exactly one entry per success; every entry whose receipt was not a success is still pending; every remaining entry had no successful receipt |
| Pending.ReportedAt | gui/Exchange.js:262-274 | a position whose receipt is `'0x0'` or a success has its report among the pass's reports |
| Pending.UnsettledIgnored | gui/EntityFactory.js:114-135 | an errored or null receipt leaves its entry pending; no report belongs to its position and it triggers no refresh |
| Pending.FailedReportedNotRemoved | gui/Custodian.js:207-212 | a `'0x0'` receipt reports `(false, fail, hash)`, is not marked, triggers no refresh, and its entry is still pending |
| Pending.SucceededReportedRemoved | gui/EntityFactory.js:121-132 | a successful receipt reports `(true, success, hash)`, is marked exactly once (so triggers exactly one refresh), and the list shrinks |
| Pending.FailedReportedEveryPass | gui/Exchange.js:261-268 | a failed entry whose receipt is still `'0x0'` on the next pass is reported on both passes and is still pending after both |
| Pending.TwoConfirmedInOnePass | gui/Custodian.js:202-238 | with entries 0 and 2 of three confirmed in one pass, both are reported in order and removed, and entry 1 is neither skipped nor reported |
| Pending.NotYetThenFailed | gui/EntityFactory.js:110-146 | with the first entry not yet mined and the second failed, only the second is reported, and both stay pending |
| Refresh.FirstFailure | gui/Exchange.js:316-328 | every accessor before the returned position succeeded, and the accessor at that position (if any) failed |
| Refresh.RefreshFrom | gui/Exchange.js:312-330 | running the refresher from accessor `i` leaves the fields before `i` alone, sets each later field up to the first failure to its accessor's value, and leaves the rest unchanged |
| Refresh.Refreshed | gui/Custodian.js:258-276 | a refresh from the first accessor overwrites exactly the fields before the first failing accessor; every other field keeps its previous value |
| Refresh.FieldChangesOnlyOnSuccess | gui/Exchange.js:332-358 | a cached field changes only to the value its own accessor returned successfully; an accessor error keeps the previous value |
| EntityClient.Client.constructor | gui/Exchange.js:218-237 | a new client has every cached field set to `'Not set yet...'`, the given refresh list, an empty pending list and no pass under way |
| EntityClient.Client.NewTransactionHash | gui/Exchange.js:247-249 | the entry is appended at the end of the pending list; the fields and the state of a pass under way are unchanged |
| EntityClient.Client.BeginPass | gui/Exchange.js:251-254 | a pass starts at position 0 with the current length captured and nothing marked |
| EntityClient.Client.VisitNext | gui/Exchange.js:258-282 | the entry at the current position is looked up by its hash and reported as its outcome dictates; only a success is marked and triggers a refresh; the position advances by one and the list is unchanged |
| EntityClient.Client.FinishPass | gui/Exchange.js:283-291 | after the reverse splice, the list is the unmarked entries from the start of the pass, in order, followed by every entry appended during the pass |
| EntityClient.Client.ProcessTransactionHash | gui/Exchange.js:251-292 | a whole pass looks up each position present at its start once, in increasing order. Its reports and refresh triggers are those of the outcomes. It removes exactly the succeeded entries and keeps entries submitted during the pass |
| EntityClient.Client.RefreshField | gui/Exchange.js:332-343 | an accessor overwrites its cached field with its result on success and leaves the field alone on error |
| EntityClient.Client.UpdateGlobals | gui/Exchange.js:312-330 | the accessors are called in `globalMethods` order up to and including the first failing one. On error `globalsCallback` is not called; when all succeed it is called exactly once. The fields become `Refreshed` |
| Exchange.New | gui/Exchange.js:227-235 | a new Exchange client refreshes version then name; both fields start as `'Not set yet...'` and nothing is pending |
| Exchange.UpdateEntityVersion | gui/Exchange.js:332-343 | the entity version becomes the accessor's result on success and is kept on error; the name is untouched; the pending list and a pass under way are untouched |
| Exchange.UpdateEntityName | gui/Exchange.js:345-358 | the entity name becomes the accessor's result on success and is kept on error; the version is untouched; the pending list and a pass under way are untouched |
| Exchange.CreateTradeOrder | gui/Exchange.js:373-384 | a hash from the contract enqueues exactly one entry with the trade messages; an error leaves the list unchanged; the result is passed back |
| Exchange.VersionThenName | gui/Exchange.js:316-328 | the version changes exactly when its read succeeds; the name changes only when both reads succeed; the refresh completes exactly when both succeed |
| Custodian.New | gui/Custodian.js:173-181 | a new Custodian client refreshes version then name; both fields start as `'Not set yet...'` and nothing is pending |
| Custodian.UpdateEntityVersion | gui/Custodian.js:278-289 | the entity version becomes the accessor's result on success and is kept on error; the name is untouched; the pending list and a pass under way are untouched |
| Custodian.UpdateEntityName | gui/Custodian.js:291-304 | the entity name becomes the accessor's result on success and is kept on error; the version is untouched; the pending list and a pass under way are untouched |
| Custodian.ConfirmTrade | gui/Custodian.js:319-330 | a hash from the contract enqueues exactly one entry with the buy-order messages; an error leaves the list unchanged; the result is passed back |
| Custodian.VersionThenName | gui/Custodian.js:258-276 | the version changes exactly when its read succeeds; the name changes only when both reads succeed; the refresh completes exactly when both succeed |
| EntityFactory.New | gui/EntityFactory.js:83-89 | a new EntityFactory client refreshes only the factory version, which starts as `'Not set yet...'`; nothing is pending |
| EntityFactory.UpdateEntityFactoryVersion | gui/EntityFactory.js:175-186 | the factory version becomes the `FACTORY_VERSION` result on success and is kept on error; the pending list and a pass under way are untouched |
| EntityFactory.DeployNewEntity | gui/EntityFactory.js:204-215 | a hash from the contract enqueues exactly one entry with the entity messages; an error leaves the list unchanged; the result is passed back |
| EntityFactory.SingleAccessorRefresh | gui/EntityFactory.js:155-173 | with the one-accessor list, the factory version changes, and the refresh completes with one `globalsCallback` call, exactly when the single read succeeds |

## Left out

- The contract interface tables (`gui/Exchange.js:1-216`, `gui/Custodian.js:1-162`, `gui/EntityFactory.js:1-70`) are static configuration with no behaviour.
- The blockchain client is not modelled. Receipt lookups, contract reads and contract writes appear only through the outcomes, accessor results and submission results the model receives as inputs.
- The sender account `userAccount` and the submission arguments (`arrayOfArguments`, `entityType`, `name`) are not modelled. They only reach the external contract.
- `web3.toAscii` in `updateEntityName` and `web3.fromAscii` in `deployNewEntity` are not modelled. They are library code that is not part of this model. A name accessor's result is taken as the already converted text. No round trip of names is claimed.
- `setCurrentEntityAddress` (Exchange and Custodian only) and EntityFactory's fixed factory address are not modelled. Both bind a contract handle. The immediate refresh that `setCurrentEntityAddress` performs is `UpdateGlobals`.
- The timers are not modelled: the 2000 ms `setTimeout` that schedules the next pass and the 5000 ms `setInterval` refresh. One pass or one refresh is one method call.
- A success starts `updateGlobals(0, …)` asynchronously. The pass records that trigger, and the refresh itself is a separate `UpdateGlobals` call. Overlapping refreshes and passes, and their last-write-wins races on the cached fields, are not modelled. The only interleaving modelled is a submission during a pass.
- `updateGlobals` takes a start index; only its own recursive call (`gui/Exchange.js:321`) passes one above 0, and every outside call starts it with 0. `UpdateGlobals` always starts at the first accessor.
- An empty `globalMethods` list would make `updateGlobals` call an undefined accessor. No binding has one, so `Client.constructor` requires a non-empty list.
- The constructor starts a pass over the then-empty list. That pass does nothing but reschedule, so a new client is modelled as idle.
- `RemoveAt` follows `splice` only for indices at or beyond 0. The pass never produces an index outside the list.
- `console.log` output is not modelled, and neither is the binding of `this` inside the accessor callbacks.
