# Battery history store and its RPC handler, in Dafny

This project models the core of a ZMK firmware module that keeps a history of the battery's
state of charge:

- **The history store** (`src/battery_history.c`). It is a fixed array of
  `(timestamp, percentage)` entries plus a count, kept oldest first. An append at capacity
  shifts every entry down by one, so the oldest entry is dropped.
- **Sampling.** A charge-change event appends when the store is empty or when the charge has
  moved at least 5 points from the last entry. A periodic tick always appends. Every append is
  followed by a save.
- **Persistence.** The count and the entries go to two records of the settings backend,
  `battery_history/count` and `battery_history/entries`. A load handler validates those records
  and reads them back at start-up.
- **Queries.** A bounded snapshot export and a clear operation.
- **The RPC handler** (`src/studio/custom_handler.c`). It maps a decoded request to a
  get-history response, a clear response or an error response. It never leaves the response
  unset.

Modules, one per component:

- `Types` (types.dfy): the C integer widths as newtypes, the `Entry` record from
  include/zmk/battery_history.h:14-17, and the errno constants.
- `HistoryBuffer` (history_buffer.dfy): the buffer and the sampling rule as values. This covers
  one append, any number of appends, and the threshold decision.
- `Persistence` (persistence.dfy): the settings records and the backend. It has what a save
  writes (`Persist`), what the load handler does with each record (`LoadRecord`), the start-up
  load (`LoadSubtree`), and the round trip.
- `BatteryHistory` (battery_history.dfy): the class `HistoryStore`, with an `array<Entry>` and
  a `count` that its methods update in place. Each method's `ensures` ties the new state to the
  functions above.
- `CustomHandler` (custom_handler.dfy): the request dispatcher and its two sub-handlers. They
  write a `ResponseBuffer`.

The capacity `CONFIG_ZMK_BATTERY_HISTORY_MAX_ENTRIES` is the length of the store's array. The
constructor fixes it, and it must be positive. The handler asks for up to that many entries,
just as the C code uses the same symbol in both files. Uptime in milliseconds (from
`k_uptime_get`) and the sensor reading (from `zmk_battery_state_of_charge`) are method
parameters. A timestamp is `(uptime / 1000) mod 2^32`, which is the C cast to `uint32_t`. The
settings backend is a map from key to record. Its `failing` set of keys is a failure oracle: a
write to one of those keys returns `-EIO` and stores nothing. Request decoding by nanopb is
abstracted as an `Option<Request>`.

## Model

| member | source | states |
|---|---|---|
| `HistoryBuffer.Appended` | src/battery_history.c:53-65 | one append yields exactly the last min(count+1, capacity) entries of the old entries with the new one appended, so the count never exceeds the capacity |
| `HistoryBuffer.AppendBelowCapacity` | src/battery_history.c:62-65 | below capacity the count grows by one, existing entries keep their places and the new entry sits at index count-1 |
| `HistoryBuffer.AppendAtCapacityEvictsOldest` | src/battery_history.c:55-65 | at capacity exactly entry 0 is dropped, entries 1..MAX-1 move down one index, the new entry goes last and the count stays MAX |
| `HistoryBuffer.AppendAllKeepsLatest` | src/battery_history.c:53-65 | after any sequence of k appends to a buffer holding h, the buffer equals the last min(count of h + k, MAX) entries of the sequence h followed by the k appended entries, oldest first (induction over the appends) |
| `HistoryBuffer.AppendAllFromEmpty` | src/battery_history.c:53-65 | from an empty store, k appends leave exactly the last min(k, MAX) appended entries in order |
| `HistoryBuffer.CapacityThreeScenario` | src/battery_history.c:53-65 | with MAX = 3, appending (0,90),(1,85),(2,80),(3,75) leaves [(1,85),(2,80),(3,75)] |
| `HistoryBuffer.ShouldRecord` | src/battery_history.c:150-163 | an event records iff the store is empty or the new charge is at least 5 points above or below the last entry's |
| `HistoryBuffer.ThresholdBoundary` | src/battery_history.c:156-158 | a difference of 4 in either direction records nothing; a difference of 5 in either direction records |
| `Persistence.Persist` | src/battery_history.c:74-95 | the save succeeds iff the count write succeeds and, when count > 0, the entries write does too; a failed count write changes nothing; the entries record is written (with exactly the count entries) only when count > 0; no other key changes |
| `Persistence.ClearTwice` | src/battery_history.c:221-227 | with the same failing keys, a second clear leaves the same records and returns the same result as the first; after a successful clear, a second clear changes no record whatever the failing keys; a second clear that succeeds leaves count 0 stored and every other record as the first clear left it |
| `Persistence.LoadRecord` | src/battery_history.c:115-135 | a count record of the wrong size or out of range, and an entries record larger than the array, give -EINVAL and change nothing; other sub-keys give -ENOENT; accepted records set the count or overwrite the array prefix; the count stays within 0..MAX |
| `Persistence.LoadCountAsWritten` | src/battery_history.c:117-122 | the count branch as written: only the size is checked, and any int the record holds becomes the count |
| `Persistence.StaleCountEscapesCapacity` | src/battery_history.c:117-122 | a count record holding MAX+1 is accepted as written, so the count exceeds the capacity; the corrected handler rejects it with -EINVAL |
| `Persistence.LoadOrderIrrelevant` | src/battery_history.c:115-135 | loading the count record first or the entries record first gives the same store |
| `Persistence.SaveLoadRoundTrip` | src/battery_history.c:74-136 | a successful save followed by a load into any store of the same capacity reproduces the count and entries[0..count) exactly |
| `BatteryHistory.TimestampOf` | src/battery_history.c:44-48 | the timestamp is the uptime in whole seconds reduced mod 2^32; below 2^32 seconds it is the uptime in seconds exactly |
| `BatteryHistory.HistoryStore.constructor` | src/battery_history.c:32-33 | the store starts empty over a zero-filled array of the configured capacity |
| `BatteryHistory.HistoryStore.GetCount` | src/battery_history.c:207-209 | the count returned is the number of entries held |
| `BatteryHistory.HistoryStore.AddHistoryEntry` | src/battery_history.c:53-69 | after the shift-left loop and the indexed write, the contents are `Appended` of the old contents; the count stays in 0..MAX; slots beyond the count are untouched |
| `BatteryHistory.HistoryStore.SaveToStorage` | src/battery_history.c:74-96 | the result and the backend's new records are those of `Persist` on the current contents; the in-memory store is not touched |
| `BatteryHistory.HistoryStore.SaveBatteryState` | src/battery_history.c:101-110 | the periodic tick appends the reading unconditionally and saves; the append is kept whatever the save returns |
| `BatteryHistory.HistoryStore.OnBatteryStateChanged` | src/battery_history.c:142-166 | when `ShouldRecord` holds there is exactly one append and one save; otherwise the store and the backend are unchanged; the listener returns 0 |
| `BatteryHistory.HistoryStore.GetEntries` | src/battery_history.c:211-219 | an absent buffer or max <= 0 gives -EINVAL; otherwise it returns min(count, max) after copying exactly that prefix of the store, in order, into the caller's buffer; the store is unchanged |
| `BatteryHistory.HistoryStore.Clear` | src/battery_history.c:221-228 | the count becomes 0 whether or not the save succeeds, and the save's result is returned |
| `BatteryHistory.HistoryStore.SettingsLoad` | src/battery_history.c:115-136 | the store's new count and array, and the result, are those of `LoadRecord` |
| `BatteryHistory.HistoryStore.LoadFromStorage` | src/battery_history.c:189 | the start-up load leaves the store as `LoadSubtree` of the backend's records says |
| `CustomHandler.HandleGetBatteryHistory` | src/studio/custom_handler.c:94-129 | the response is the battery_history variant: current_battery is the reading, total_entries is the count, entries_count is the number retrieved (at most MAX), and entry i equals store entry i field by field; the sub-handler returns 0 |
| `CustomHandler.HandleClearBatteryHistory` | src/studio/custom_handler.c:134-152 | the store is emptied; the response is always the clear_battery_history variant with success == (clear rc == 0); the sub-handler returns 0 |
| `CustomHandler.HandleRequest` | src/studio/custom_handler.c:48-89 | the handler returns true with a response set on every path; a decode failure gives error "Failed to decode request" and an unknown variant gives error "Failed to process request", both leaving the store unchanged; get and clear give the responses above |

## Left out

- src/behaviors/behavior_battery_history_request.c: it only chooses, at build time, between two calls into code that is not part of this model.
- src/battery_history/battery_history_split.c and the whole cross-device relay: transport plumbing, and the receiving side is not part of this model.
- include/zmk/battery_history.h: declarations only. Its struct is the `Entry` datatype.
- Timer scheduling, `SYS_INIT` and settings registration (src/battery_history.c:174-203). The periodic firing is `SaveBatteryState`, without rescheduling. Of init, only the `settings_load_subtree` call (line 189) is modelled, as `LoadFromStorage`.
- `battery_history_get_current_battery` and the sensor: the reading is a parameter `soc`.
- `k_uptime_get`: the uptime is a parameter `uptimeMs`.
- nanopb decoding and response encoding: decoding is an `Option<Request>`; the response is a datatype.
- The fixed size of the error message field: both messages are assumed to fit, so `snprintf` does not truncate them.
- Raw byte layout: each record holds either one int or a whole number of entries. An entries payload whose length is not a multiple of the entry size is not modelled. A 4-byte record under `entries` overwrites the first entry's timestamp, the struct's first field.
- The settings read callback `read_cb`: it is assumed to deliver the stored record and to report its length. Read failures are not modelled.
- `BatteryHistory.HistoryStore.GetEntries`: requires the caller's buffer to hold `maxEntries` entries and to be distinct from the store's array. The header (include/zmk/battery_history.h:27-28) has the caller supply an array for up to `max_entries` entries, and the store's own array is private to the store.
- `CustomHandler.HandleGetBatteryHistory`: the `retrieved < 0` branch is kept. The proof shows it cannot be taken, because the buffer is never null and the maximum is positive. So the "error instead of partial history" path of the dispatcher is reached only by unknown variants.
- Logging, the event-manager listener and subscription macros, and the UI-URL and security metadata.

## Findings

| source | as written | input that shows it | evidently intended | confidence | as-written member | corrected member |
|---|---|---|---|---|---|---|
| src/battery_history.c:117-122 | the count record is checked only for its size (sizeof(int)); the int it holds becomes `history_count` unchecked | a count record holding MAX+1, for example left in flash by a build with a larger `CONFIG_ZMK_BATTERY_HISTORY_MAX_ENTRIES` | reject a count outside 0..MAX with -EINVAL, as an oversize entries record is rejected | medium, not executed | `Persistence.LoadCountAsWritten`, `Persistence.StaleCountEscapesCapacity` | `Persistence.LoadRecord`, `BatteryHistory.HistoryStore.SettingsLoad` |

What an out-of-range count leads to: a count above MAX is reported by the get-history handler
as `total_entries` beside only MAX entries in `entries_count` (src/studio/custom_handler.c:104-117).
A charge-change event that arrives before any append reads `history[count - 1]` past the end of
the array (line 156). A negative count makes `add_history_entry` write to `history[count]` before
the array (line 63). The first append repairs a count above MAX, because at capacity it sets the
count to MAX - 1 before adding one (lines 55-65). Every save comes right after an append or a
clear, so no save reads past the array. The rest of the model uses the corrected handler, which
keeps `0 <= count <= MAX` as an invariant of the store.

A rejected count record leaves `history_count` at the value it had before the load (0 at start-up).
