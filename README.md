# EventQueue core in Dafny

EventQueue is a walk-in ticket queue. A customer scans a QR code and gets the next ticket
number. Staff call the next waiting number, or any ticket by number. They complete or
remove tickets and reset the queue. A public display shows the current number and who
comes next. Every change is pushed to connected WebSocket clients as a status projection.

This project models the server's core and three pure client helpers:

- **`Storage`** (`storage.dfy`). The in-memory store `MemStorage`, as a class:
  - the ticket table (a `map` from number to item, plus the keys in `Map` insertion order);
  - the counters `currentNumber`, `lastNumber` and `lastCalledAt`;
  - the sound and visual-alert flags;
  - the user table.

  Its mutators are methods with `modifies this`. Its readers are functions. The status
  projection (`getQueueStatus`) is `Project`: the ascending waiting numbers, their count,
  one view per stored item, and the current number.
- **`Routes`** (`routes.dfy`). The HTTP handlers and the WebSocket registry, as the class
  `QueueServer`:
  - the handlers return `Response` values carrying the same status codes and error texts
    as the source;
  - the registry is the `clients` sequence;
  - "open" connections are a parameter, and every send is appended to `outbox`;
  - broadcasting is a loop over the registry, proved equal to `Deliveries`;
  - `QueueInvariant` is kept by every handler: stored numbers lie in 1..`lastNumber`, and a
    non-zero current number names a stored ticket that is no longer waiting.
- **`Workday`** (`workday.dfy`). One working day driven through the handlers, step by step.
- **`AdminView`**, **`ScanView`** and **`QueueStatusDisplay`**:
  - recall-previous, the filtered and sorted list, and pagination with JavaScript `slice`
    semantics;
  - QR-path detection (`IsQrScan`), the effective ticket number, people ahead, and the
    Swedish wait text;
  - English ordinals (with JavaScript's truncating `%`), the AM/PM hour conversion, the
    "coming up next" list and the current-number tile.
- **Shared modules**:
  - `Common`: `Option` for `undefined`/NaN, `Filter`, the order-keeping `Without`, JavaScript remainder, and
    decimal rendering with its round trip;
  - `Sorting`: the stable sort that `Array.prototype.sort` performs with a numeric
    comparator;
  - `Schema`: the records of shared/schema.ts.

Clock readings are an opaque `Time` passed in as `now`. Parsed route parameters and request
fields arrive already parsed, as `Option` values (`None` for NaN or a missing field).

## Model

| member | source | states |
|---|---|---|
| Common.JsRem | client/src/components/QueueStatus.tsx:39-40 | `%` as JavaScript computes it: the remainder has the dividend's sign, is smaller than the divisor in magnitude, and `a == b * trunc(a / b) + r` |
| Common.NatToStringRoundTrip | client/src/pages/AdminView.tsx:116 | the decimal rendering of a number consists of digits and reads back to the same number |
| Common.IntToStringInjective | client/src/pages/AdminView.tsx:116 | two ticket numbers render to the same string only when they are equal |
| Common.Filter | client/src/pages/ScanView.tsx:150-152 | `filter` keeps exactly the elements satisfying the predicate, never more than the input |
| Common.FilterCount | client/src/pages/AdminView.tsx:109-118 | `filter` keeps each satisfying element as often as it occurs and drops the others |
| Common.Without | server/routes.ts:72 | the close filter removes every occurrence of the closed client and keeps every other client with its multiplicity |
| Common.WithoutKeepsOrder | server/routes.ts:72 | the close filter is the order-keeping `filter`: the remaining clients stay in registration order, which fixes the order of later broadcasts |
| Common.WithoutAbsent | server/storage.ts:125-127 | removing a number that is not in the order leaves the order unchanged |
| Common.FilterSnoc | server/routes.ts:20-24 | filtering a list with one element appended gives the filtered list with that element appended exactly when it passes |
| Sorting.SortBy | server/storage.ts:88 | the numeric-comparator sort returns a permutation of its input in key order, strictly ascending when the keys are distinct |
| Sorting.SortBySorted | server/storage.ts:88 | sorting a list whose keys already ascend strictly returns it unchanged |
| Storage.Values | server/storage.ts:87 | `Array.from(queueItems.values())` lists the stored items one per key, in the `Map`'s insertion order |
| Storage.Numbers | server/storage.ts:180 | `.map(item => item.number)` has one entry per item, each that item's number |
| Storage.ByNumber | server/storage.ts:88 | `.sort((a, b) => a.number - b.number)` returns a permutation of its input, by number from lowest to highest, strictly ascending when the numbers are distinct |
| Schema.StatusNameInjective | shared/schema.ts:24 | the three status strings are pairwise different |
| Storage.SortedItems | server/storage.ts:86-89 | all stored items, each exactly once, strictly ascending by number |
| Storage.SortedItemsWithStatus | server/storage.ts:91-95 | exactly the stored items with the given status, strictly ascending by number |
| Storage.WaitingNumbers | server/storage.ts:179-180 | `nextNumbers` is strictly ascending and holds exactly the numbers of waiting items |
| Storage.Project | server/storage.ts:178-194 | the projection copies `currentNumber` and `lastCalledAt`. `waitingCount` equals the length of `nextNumbers` and the number of waiting items. `nextNumbers` ascends and holds exactly the waiting numbers. `queueItems` has one view per stored item, in `Map` order |
| Storage.FindByUsername | server/storage.ts:68-72 | `find` returns the first position holding the name, or reports that no position does |
| Storage.MemStorage.constructor | server/storage.ts:52-61 | empty tables, counters 0, no call time, both flags on, user ids starting at 1 |
| Storage.MemStorage.GetUser | server/storage.ts:64-66 | a user is found exactly for the ids handed out so far, and it carries that id |
| Storage.MemStorage.GetUserByUsername | server/storage.ts:68-72 | a user is found exactly when one with that name exists; it is the earliest-created one with that name |
| Storage.MemStorage.CreateUser | server/storage.ts:74-79 | the new user gets the next id, larger than every existing id; the user list grows by that user; nothing else changes |
| Storage.MemStorage.GetQueueItem | server/storage.ts:82-84 | an item is found exactly for stored numbers, and it is the stored item |
| Storage.MemStorage.GetQueueItems | server/storage.ts:86-89 | every stored item once, strictly ascending by number |
| Storage.MemStorage.GetQueueItemsByStatus | server/storage.ts:91-95 | exactly the items of that status, strictly ascending by number |
| Storage.MemStorage.IncrementLastNumber | server/storage.ts:148-151 | `lastNumber` grows by one and is returned; nothing else changes |
| Storage.MemStorage.CreateQueueItem | server/storage.ts:97-110 | an absent or 0 number takes `lastNumber + 1` (the counter advances); otherwise the given number is used and the counter stays. The status defaults to waiting. Only that key of the table changes, and a new key is appended to the enumeration order |
| Storage.MemStorage.UpdateQueueItemStatus | server/storage.ts:112-123 | an absent number gives `None` and changes nothing; otherwise only that item's status changes (number, id and issue time kept) |
| Storage.MemStorage.DeleteQueueItem | server/storage.ts:125-127 | returns true exactly when the number was stored; afterwards it is gone and every other item is unchanged |
| Storage.MemStorage.SetCurrentNumber | server/storage.ts:134-142 | `currentNumber` becomes the argument and the call time is stamped. A positive stored number becomes serving. No other item (the previous one included) changes |
| Storage.MemStorage.ResetQueue | server/storage.ts:153-158 | no items; `currentNumber`, `lastNumber` 0 and no call time; users and both flags unchanged |
| Storage.MemStorage.SetSoundEnabled | server/storage.ts:165-167 | only the sound flag changes, to the argument |
| Storage.MemStorage.SetVisualAlertsEnabled | server/storage.ts:173-175 | only the visual-alert flag changes, to the argument |
| Storage.MemStorage.GetQueueStatus | server/storage.ts:178-201 | the projection of the current state, with the properties of `Storage.Project` |
| Routes.Deliveries | server/routes.ts:20-24 | the sends of one broadcast: one per registered client whose socket is open, in registration order, each carrying the message; entry `i` goes to the `i`-th open client of the registry |
| Routes.DeliveriesStep | server/routes.ts:20-24 | one more registered client adds exactly one send at the end when its socket is open, and none otherwise |
| Routes.SendToOpen | server/routes.ts:20-24 | the `forEach` over the registry sends exactly `Deliveries`: the message to each open client, in registration order |
| Routes.DeliveriesExactlyOpen | server/routes.ts:20-24 | every send of a broadcast carries the same message, and a client receives it exactly when it is registered and open |
| Routes.IssueKeepsShape | server/storage.ts:97-110 | issuing `lastNumber + 1` keeps every stored number in 1..`lastNumber`, and the new number is free and above all stored numbers |
| Routes.CallKeepsShape | server/storage.ts:134-142 | calling a stored ticket keeps the store in shape: the current number names a stored, non-waiting ticket |
| Routes.CompleteKeepsShape | server/storage.ts:112-123 | completing a stored ticket keeps the store in shape |
| Routes.RemoveKeepsShape | server/routes.ts:172-182 | deleting a ticket keeps the store in shape once the current number is reset to 0 when it named that ticket |
| Routes.WaitingListEmpty | server/routes.ts:101-105 | the waiting list is empty exactly when no stored ticket waits, so the 400 "No more numbers in queue" is given exactly then |
| Routes.HeadIsNextWaiting | server/routes.ts:107 | the head of the ascending waiting list is a waiting ticket, and no waiting ticket has a smaller number |
| Routes.QueueServer.constructor | server/routes.ts:8 | an empty registry over a fresh default store that satisfies the queue invariant |
| Routes.QueueServer.Broadcast | server/routes.ts:11-25 | appends to the outbox exactly `Deliveries` of the current projection, as a `QUEUE_UPDATE` message; the registry and the store are unchanged |
| Routes.QueueServer.Connect | server/routes.ts:44-54 | the client is appended to the registry and sent the current projection at once |
| Routes.QueueServer.Disconnect | server/routes.ts:71-74 | the registry loses every occurrence of the client and nothing else; nothing is sent |
| Routes.QueueServer.GetStatus | server/routes.ts:78-85 | responds with exactly the store's projection (`Storage.MemStorage.GetQueueStatus`), the same value `Connect` sends a new subscriber: current number, `waitingCount` equal to the list length, exactly the waiting numbers in ascending order |
| Routes.QueueServer.NewTicket | server/routes.ts:88-96 | the new ticket is `lastNumber + 1`, larger than every stored number, waiting. Only that key is added and the counter advances. The change is broadcast |
| Routes.QueueServer.CallNext | server/routes.ts:99-115 | with nothing waiting: 400 "No more numbers in queue" and no change. Otherwise the smallest waiting number becomes current and serving, leaves `nextNumbers`, the call time is stamped, and the change is broadcast |
| Routes.QueueServer.CallSpecific | server/routes.ts:118-139 | NaN gives 400 "Invalid number format" and an unknown ticket gives 404 "Queue item not found", both with no change. A stored ticket of any status becomes current and serving, and the change is broadcast |
| Routes.QueueServer.CallTicket | server/routes.ts:107-110 | the step both call handlers share: the stored ticket becomes current and serving and is not in the new projection's `nextNumbers`; no other ticket, the order, the counter, users or flags change; the call time is stamped and the change is broadcast |
| Routes.QueueServer.Complete | server/routes.ts:142-161 | the same 400 and 404 cases; otherwise only that ticket becomes completed. `currentNumber` is never touched |
| Routes.QueueServer.Remove | server/routes.ts:164-189 | the same 400 and 404 cases; otherwise the ticket is deleted. Removing the current ticket sets `currentNumber` to 0 (and stamps the call time); removing any other leaves `currentNumber` and the call time unchanged |
| Routes.QueueServer.Reset | server/routes.ts:192-200 | empty queue, all counters 0, users and flags kept, broadcast |
| Routes.QueueServer.SetSound | server/routes.ts:203-216 | a non-boolean gives 400 "Invalid enabled value" and no change; otherwise only the sound flag changes; never broadcasts |
| Routes.QueueServer.SetVisualAlerts | server/routes.ts:219-232 | a non-boolean gives 400 "Invalid enabled value" and no change; otherwise only the visual-alert flag changes; never broadcasts |
| Routes.QueueServer.CreateUser | server/routes.ts:247-273 | a missing or empty username or password gives 400 "Username and password are required". A taken name gives 400 "Username already exists". Neither creates anything. Otherwise, when both fields are non-empty and the name is free, the user is always created: unapproved, with the next id, admin only for exactly `true`, appended to the user list |
| Workday.IssueFirst | server/routes.ts:88-96 | on an empty store the first ticket issued is 1, waiting |
| Workday.IssueSecond | server/routes.ts:88-96 | the next ticket is 2 |
| Workday.IssueThird | server/routes.ts:88-96 | the next ticket is 3; three waiting tickets are stored |
| Workday.CallFirst | server/routes.ts:99-115 | call-next with tickets 1 to 3 waiting calls 1, and only ticket 1 becomes serving |
| Workday.CompleteFirst | server/routes.ts:142-161 | completing ticket 1 changes only ticket 1 |
| Workday.CallSecond | server/routes.ts:99-115 | call-next after 1 is completed calls 2 |
| Workday.RemoveThird | server/routes.ts:164-189 | removing ticket 3 leaves tickets 1 and 2 unchanged |
| Workday.CountWaiting | server/routes.ts:78-85 | then the status reports nobody waiting |
| Workday.ResetDay | server/routes.ts:192-200 | a reset empties the queue and its counter |
| Workday.IssueAfterReset | server/routes.ts:88-96 | after a reset the next ticket is 1 again |
| Workday.Walkthrough | server/routes.ts:88-200 | one working day through the handlers: three tickets are 1 to 3; call-next calls 1; after completing 1, call-next calls 2; after removing 3 nothing waits; after a reset the next ticket is 1 again |
| AdminView.ReduceLatest | client/src/pages/AdminView.tsx:84-86 | the `reduce` returns one of its items, whose number is the largest |
| AdminView.RecallPrevious | client/src/pages/AdminView.tsx:76-89 | `None` exactly when no completed ticket lies below the current number; otherwise the largest such ticket number |
| AdminView.CallSpecificFromForm | client/src/pages/AdminView.tsx:91-97 | a call happens exactly when `parseInt` succeeded, with the parsed number, and only then is the field cleared |
| AdminView.SearchMatches | client/src/pages/AdminView.tsx:116 | an empty search matches every ticket; a query longer than the ticket's decimal number never matches |
| AdminView.StatusMatches | client/src/pages/AdminView.tsx:110-112 | a status name as filter keeps only that status; any other filter value keeps all |
| AdminView.FilterItems | client/src/pages/AdminView.tsx:108-120 | the list holds exactly the matching items, each as often as in the input, by number from highest to lowest |
| AdminView.FilterAllKeepsEverything | client/src/pages/AdminView.tsx:108-120 | with "all" and no search every item is listed |
| AdminView.FilterByStatusExact | client/src/pages/AdminView.tsx:110-112 | a status filter lists only tickets of that status |
| AdminView.SearchFindsOwnNumber | client/src/pages/AdminView.tsx:116 | searching a ticket's full number matches that ticket |
| AdminView.TotalPages | client/src/pages/AdminView.tsx:123 | `ceil(len / 5)`: zero exactly for an empty list, otherwise the least page count holding `len` items |
| AdminView.JsSlice | client/src/pages/AdminView.tsx:124-127 | `slice` returns at most `end - start` items; for non-negative bounds it is the clamped subrange |
| AdminView.Page | client/src/pages/AdminView.tsx:124-127 | each page has at most 5 items; page `p >= 1` is the items from `(p-1)*5` to `p*5`, clamped |
| AdminView.FullPagesBeforeLast | client/src/pages/AdminView.tsx:123-127 | every page before the last has exactly 5 items |
| AdminView.PagesPrefix | client/src/pages/AdminView.tsx:123-127 | pages 1 to `k` in sequence are the first `5k` items |
| AdminView.PagesCoverList | client/src/pages/AdminView.tsx:123-127 | pages 1 to `totalPages` in sequence give back the whole list |
| AdminView.PrevPage | client/src/pages/AdminView.tsx:442 | "Previous" goes one page back, never below 1 |
| AdminView.NextPage | client/src/pages/AdminView.tsx:462 | "Next" goes one page forward, never beyond the last page |
| AdminView.NavigationStaysInRange | client/src/pages/AdminView.tsx:442-462 | from a page in `[1, totalPages]` both buttons stay in that range |
| ScanView.IsQrScan | client/src/pages/ScanView.tsx:65 | a QR path is `qr` itself or begins with `qr/`; it is always a present parameter starting with `qr` |
| ScanView.EffectiveNumber | client/src/pages/ScanView.tsx:130-138 | a QR path, a missing or empty parameter, or a non-numeric one gives the issued number; otherwise the parsed URL number |
| ScanView.QrPathShowsIssuedNumber | client/src/pages/ScanView.tsx:132-134 | any `qr/...` path shows the issued number |
| ScanView.PeopleAhead | client/src/pages/ScanView.tsx:150-152 | the count of waiting numbers below the ticket is at most the waiting count |
| ScanView.PeopleAheadIsPosition | client/src/pages/ScanView.tsx:150-152 | in the ascending waiting list, the people ahead of a waiting ticket are its position |
| ScanView.WaitText | client/src/pages/ScanView.tsx:155-168 | the "next in line" text appears exactly for 0 minutes; every other estimate starts with `~` |
| ScanView.Amount | client/src/pages/ScanView.tsx:160-168 | the estimate after the `~` is "1 minut" exactly for one minute |
| ScanView.WaitTextBelowAnHour | client/src/pages/ScanView.tsx:162-163 | from 2 to 59 minutes the text is `~` followed by digits that read back as the minutes and then " minuter" |
| ScanView.WaitTextInHours | client/src/pages/ScanView.tsx:164-167 | from 60 minutes the text starts with `~`, the whole hours as digits that read back, and " timm"; the word is "timme" exactly for one hour; the text ends in " min" exactly when minutes remain beyond the whole hours |
| ScanView.OneMinuteOnlyForOne | client/src/pages/ScanView.tsx:157-160 | "~1 minut" is produced for exactly one minute and no other value |
| ScanView.QueuePosition | client/src/pages/ScanView.tsx:141-171 | no status or a falsy number gives `0` and "0 minuter". Otherwise the people ahead (at most the list length) and the text for two minutes each. "~1 minut" never appears |
| ScanView.NextInLineWhenNobodyAhead | client/src/pages/ScanView.tsx:150-159 | with a known status and number, "next in line" shows exactly when no waiting number is below the ticket |
| ScanView.IsMyNumberCalledAsWritten | client/src/pages/ScanView.tsx:177 | the source's test: true when both sides are undefined, or when both are known and equal |
| ScanView.IsMyNumberCalled | client/src/pages/ScanView.tsx:177 | true exactly when the number and the status are both known and the number is current; agrees with the source whenever the number is known |
| QueueStatusDisplay.OrdinalSuffix | client/src/components/QueueStatus.tsx:37-41 | the chained lookup with its two fallbacks always yields one of "th", "st", "nd", "rd" |
| QueueStatusDisplay.OrdinalSuffixIsEnglish | client/src/components/QueueStatus.tsx:37-41 | for every non-negative number the lookup gives the English suffix: "th" for 11 to 13 mod 100, otherwise "st"/"nd"/"rd"/"th" by the last digit |
| QueueStatusDisplay.NegativeOrdinalIsTh | client/src/components/QueueStatus.tsx:37-41 | with JavaScript's negative remainders every negative number gets "th" |
| QueueStatusDisplay.Ordinal | client/src/components/QueueStatus.tsx:37-41 | a non-negative number's ordinal is its digits followed by its English suffix |
| QueueStatusDisplay.ConvertHour | client/src/components/QueueStatus.tsx:21-23 | a NaN hour stays NaN; a parsed hour stays parsed |
| QueueStatusDisplay.ConvertHourInRange | client/src/components/QueueStatus.tsx:21-23 | hours 1 to 12 with AM or PM map into 0 to 23 |
| QueueStatusDisplay.ConvertHourInvertsTo12Hour | client/src/components/QueueStatus.tsx:21-23 | converting a clock's 12-hour reading recovers the 24-hour hour, for every hour of the day |
| QueueStatusDisplay.To12HourInvertsConvertHour | client/src/components/QueueStatus.tsx:21-23 | reading a converted hour back on the 12-hour clock gives the original hour and period (12 AM is 0, 12 PM is 12) |
| QueueStatusDisplay.ConvertHourWithoutPeriod | client/src/components/QueueStatus.tsx:21-23 | without AM or PM the hour is left as parsed |
| QueueStatusDisplay.UpNext | client/src/components/QueueStatus.tsx:76-83 | at most the first three waiting numbers, in order, each with its position's label |
| QueueStatusDisplay.UpNextLabels | client/src/components/QueueStatus.tsx:83 | the labels read "Up next", "2nd in line", "3rd in line" |
| QueueStatusDisplay.CurrentDisplay | client/src/components/QueueStatus.tsx:54 | a positive current number is shown as digits that read back to it; otherwise a dash |
| QueueStatusDisplay.CurrentDisplayAsWritten | client/src/components/QueueStatus.tsx:54 | the tile as the source writes it: digits that read back for a positive number, otherwise the three-character text |
| QueueStatusDisplay.DashIsMisencoded | client/src/components/QueueStatus.tsx:54 | for no current number the source's text is three characters and differs from the one-character dash |

## Left out

- Asynchrony and concurrency: each handler runs as one atomic step. The broadcast, which the source does not await, happens within that step. Interleavings of concurrent requests are not modelled.
- WebSocket transport, JSON serialisation and logging:
  - clients are integer identities;
  - `readyState === OPEN` is the `open` parameter;
  - a message is `QUEUE_UPDATE` with the projection as a value, not its JSON text;
  - the connection's `error`/`message` handlers only log.
- Clock readings and their formatting: `new Date()` is the `now` parameter. `issuedAt` and `lastCalledAt` stay as `Time` instead of `toLocaleTimeString` strings. The `Date` arithmetic of `getTimeAgo` is not modelled; only its hour conversion is.
- `parseInt`'s partial parsing (leading digits, signs, hexadecimal prefixes): route parameters, the admin form field and the hour field arrive as `Option<int>`.
- Status is one of three values. The source stores any string, but no handler passes any other. An explicit empty status string in `createQueueItem` is therefore not representable.
- The `500` responses of every handler's `catch`: the modelled store cannot fail.
- Request bodies whose `username` or `password` are truthy non-strings; a non-boolean `isAdmin` is modelled as `None`.
- The user list, update and delete routes (server/routes.ts:237-319 apart from creation): they call `listUsers`, `updateUser` and `deleteUser`, which the in-memory store does not define.
- The plain getters `getCurrentNumber`, `getLastNumber`, `getSoundEnabled` and `getVisualAlertsEnabled`: the handlers read the fields directly.
- The user `Map`: modelled as the sequence of its values, since its keys are 1, 2, 3, ... and nothing deletes from it.
- The database-backed store and its setup (server/setup-db.ts, server/config.ts): not part of this model.
- The React components' rendering, hooks and HTTP plumbing:
  - client/src/hooks/useQueue.ts, useAuth.ts, useLanguage.ts;
  - client/src/App.tsx (reconnect timers with floating-point backoff);
  - the other pages and components.
- In client/src/pages/ScanView.tsx:
  - the scan's redirect on success (which uses the same QR test), its `localStorage` bookkeeping and its 5-second re-scan guard;
  - the unused `queueStatus.currentNumber || 0`;
  - the `nextNumbers || []` fallback, since the projection always has the list.
- In client/src/pages/AdminView.tsx: the "Showing N of M" caption and the `useState` plumbing.
- JavaScript numbers are doubles; the model's integers are unbounded. From 2^53 `lastNumber += 1` (server/storage.ts:149) stops advancing, and from 10^21 `toString` (client/src/pages/AdminView.tsx:116) switches to exponent notation. Neither is reachable by a real queue, and neither is modelled.
- AdminView.FilterItems: the order between items with equal numbers is not stated. The model computes the stable order, and stored numbers are distinct anyway.

## Findings

| source | as written | input that shows it | evidently intended | confidence | as-written member | corrected member |
|---|---|---|---|---|---|---|
| client/src/components/QueueStatus.tsx:54 | the placeholder literal is the three characters `â€”`: the UTF-8 bytes of an em dash decoded as Windows-1252 | `currentNumber = 0` | an em dash `—` | high, not executed | QueueStatusDisplay.DashIsMisencoded | QueueStatusDisplay.CurrentDisplay |
| client/src/pages/ScanView.tsx:177 | `effectiveNumber === queueStatus?.currentNumber` is true when both sides are `undefined` | no status loaded yet and no number known (`effective = None`, `status = None`) | the ticket is called only when a known number equals the known current number | medium, not executed | ScanView.CalledBeforeAnythingIsKnown | ScanView.IsMyNumberCalled |
