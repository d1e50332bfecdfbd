/**
 * The persistence adapter: the two records the store keeps in the settings backend
 * ("battery_history/count" and "battery_history/entries"), what a save writes, what the
 * load handler accepts, and the save/load round trip.
 *
 * Records are modelled at entry granularity: a record holds either one int (the shape of
 * the count record) or a whole number of entries (the shape of the entries record).
 */
module Persistence {
  import opened Types

  const CountKey: string := "battery_history/count"
  const EntriesKey: string := "battery_history/entries"

  /** A durable record of the settings backend. */
  datatype Blob =
    | Word(value: int32)            // sizeof(int) bytes holding one int
    | Entries(items: seq<Entry>)    // EntrySize bytes per entry

  /** The length in bytes that the backend reports for a record. */
  function Size(b: Blob): (n: nat) {
    match b
    case Word(_) => IntSize
    case Entries(items) => EntrySize * |items|
  }

  /** The backend's contents: full key to record. */
  type Records = map<string, Blob>

  /** True iff key maps to the same record, or to none, in both m and m'. */
  predicate SameRecord(m: Records, m': Records, key: string) {
    (key !in m && key !in m') || (key in m && key in m' && m[key] == m'[key])
  }

  datatype SaveOutcome = SaveOutcome(rc: int, records: Records)

  /**
   * The settings backend (an external collaborator): its records and, as a failure oracle,
   * the keys whose writes fail.
   */
  class SettingsBackend {
    var records: Records
    var failing: set<string>

    constructor (records: Records, failing: set<string>)
      ensures this.records == records && this.failing == failing
    {
      this.records := records;
      this.failing := failing;
    }

    /** settings_save_one(key, b). */
    method SaveOne(key: string, b: Blob) returns (rc: int)
      modifies this`records
      ensures SaveOutcome(rc, records) == WriteOne(old(records), failing, key, b)
    {
      if key in failing {
        rc := -EIO;
      } else {
        records := records[key := b];
        rc := 0;
      }
    }
  }

  /**
   * One settings_save_one call. A key in failing models a backend write that fails:
   * it returns -EIO and stores nothing.
   */
  function WriteOne(records: Records, failing: set<string>, key: string, b: Blob): (o: SaveOutcome) {
    if key in failing then SaveOutcome(-EIO, records) else SaveOutcome(0, records[key := b])
  }

  /**
   * save_to_storage for a store holding entries (its count is |entries|): the count record is
   * written first and a failure there ends the save; the entries record is written only when
   * the count is positive.
   */
  function Persist(records: Records, failing: set<string>, entries: seq<Entry>): (o: SaveOutcome)
    requires |entries| <= IntMax
    ensures o.rc == 0 || o.rc == -EIO
    ensures o.rc == 0 <==> CountKey !in failing && (|entries| == 0 || EntriesKey !in failing)
    ensures CountKey in failing ==> o.records == records
    ensures CountKey !in failing ==> CountKey in o.records && o.records[CountKey] == Word(|entries| as int32)
    ensures CountKey !in failing && |entries| > 0 && EntriesKey !in failing ==>
              EntriesKey in o.records && o.records[EntriesKey] == Entries(entries)
    ensures |entries| == 0 || EntriesKey in failing ==> SameRecord(records, o.records, EntriesKey)
    ensures forall k :: k != CountKey && k != EntriesKey ==> SameRecord(records, o.records, k)
  {
    var c := WriteOne(records, failing, CountKey, Word(|entries| as int32));
    if c.rc != 0 then c
    else if |entries| > 0 then
      var e := WriteOne(c.records, failing, EntriesKey, Entries(entries));
      if e.rc != 0 then e else SaveOutcome(0, e.records)
    else SaveOutcome(0, c.records)
  }

  /**
   * Two clears in a row, with failing keys f1 for the first save and f2 for the second. With the
   * same failing keys the second clear leaves the same records and reports the same result as the
   * first. After a successful first clear, a second one changes no record whatever it reports.
   * A second clear that succeeds leaves count 0 stored and every other record as the first left it.
   */
  lemma ClearTwice(records: Records, f1: set<string>, f2: set<string>)
    ensures var first := Persist(records, f1, []);
            var second := Persist(first.records, f2, []);
            && (f1 == f2 ==> second == first)
            && (first.rc == 0 ==> second.records == first.records)
            && (second.rc == 0 ==> second.records == first.records[CountKey := Word(0)])
  {
  }

  /** The in-memory store as the load handler sees it: history_count and the whole history array. */
  datatype Slots = Slots(count: int, slots: seq<Entry>)

  datatype LoadOutcome = LoadOutcome(rc: int, state: Slots)

  /** The first entry with its timestamp replaced by the bits of v (the first field lies at offset 0). */
  function OverwriteFirstTimestamp(slots: seq<Entry>, v: int32): (r: seq<Entry>)
    requires |slots| >= 1
  {
    [Entry(ToUint32(v as int), slots[0].percentage)] + slots[1..]
  }

  /**
   * settings_load_handler for sub-key key and stored record b, with history_count range-checked
   * against the capacity |slots| (see the finding in the README): the count record must be
   * exactly sizeof(int) bytes and hold a count in 0..capacity; the entries record must not be
   * larger than the whole array; any other sub-key is not found. A successful read reports the
   * number of bytes read.
   */
  function LoadRecord(key: string, b: Blob, s: Slots): (o: LoadOutcome)
    ensures |o.state.slots| == |s.slots|
    ensures o.rc < 0 ==> o.state == s
    ensures o.rc == -EINVAL <==>
              || (key == "count" && (Size(b) != IntSize || !(0 <= b.value as int <= |s.slots|)))
              || (key == "entries" && Size(b) > EntrySize * |s.slots|)
    ensures o.rc == -ENOENT <==> key != "count" && key != "entries"
    ensures o.rc >= 0 ==> o.rc == Size(b)
    ensures key == "count" && o.rc >= 0 ==> o.state == Slots(b.value as int, s.slots)
    ensures key == "entries" ==> o.state.count == s.count
    ensures key == "entries" && o.rc >= 0 && b.Entries? ==>
              o.state.slots[..|b.items|] == b.items && o.state.slots[|b.items|..] == s.slots[|b.items|..]
    ensures 0 <= s.count <= |s.slots| ==> 0 <= o.state.count <= |s.slots|
  {
    if key == "count" then
      if Size(b) != IntSize then LoadOutcome(-EINVAL, s)
      else if b.value < 0 || b.value as int > |s.slots| then LoadOutcome(-EINVAL, s)
      else LoadOutcome(IntSize, Slots(b.value as int, s.slots))
    else if key == "entries" then
      if Size(b) > EntrySize * |s.slots| then LoadOutcome(-EINVAL, s)
      else
        match b
        case Entries(items) => LoadOutcome(Size(b), Slots(s.count, items + s.slots[|items|..]))
        case Word(v) => LoadOutcome(Size(b), Slots(s.count, OverwriteFirstTimestamp(s.slots, v)))
    else LoadOutcome(-ENOENT, s)
  }

  /**
   * The count branch of settings_load_handler as written: only the record's size is checked,
   * so whatever int it holds becomes history_count.
   */
  function LoadCountAsWritten(b: Blob, s: Slots): (o: LoadOutcome)
    ensures o.rc == -EINVAL <==> Size(b) != IntSize
    ensures o.rc != -EINVAL ==> o.state == Slots(b.value as int, s.slots)
  {
    if Size(b) != IntSize then LoadOutcome(-EINVAL, s)
    else LoadOutcome(IntSize, Slots(b.value as int, s.slots))
  }

  /**
   * A count record left by a build with a larger capacity (here capacity + 1) is accepted as
   * written and leaves history_count above the capacity; the corrected handler rejects it.
   */
  lemma StaleCountEscapesCapacity(s: Slots)
    requires 0 <= s.count <= |s.slots| < IntMax
    ensures var stale := Word((|s.slots| + 1) as int32);
            && LoadCountAsWritten(stale, s).rc == IntSize
            && LoadCountAsWritten(stale, s).state.count > |s.slots|
            && LoadRecord("count", stale, s) == LoadOutcome(-EINVAL, s)
  {
  }

  /**
   * settings_load_subtree("battery_history"): the handler is called once for each record the
   * namespace holds; handler errors only skip that record.
   */
  function LoadSubtree(records: Records, s: Slots): (t: Slots) {
    var afterCount := if CountKey in records then LoadRecord("count", records[CountKey], s).state else s;
    if EntriesKey in records then LoadRecord("entries", records[EntriesKey], afterCount).state else afterCount
  }

  /** The same load with the entries record read before the count record. */
  function LoadSubtreeEntriesFirst(records: Records, s: Slots): (t: Slots) {
    var afterEntries := if EntriesKey in records then LoadRecord("entries", records[EntriesKey], s).state else s;
    if CountKey in records then LoadRecord("count", records[CountKey], afterEntries).state else afterEntries
  }

  /** The two records touch disjoint parts of the store, so the backend's enumeration order does not matter. */
  lemma LoadOrderIrrelevant(records: Records, s: Slots)
    ensures LoadSubtree(records, s) == LoadSubtreeEntriesFirst(records, s)
  {
  }

  /**
   * A successful save of entries followed by a load into a store of a capacity that holds them
   * (empty or not) reproduces the count and entries[0..count) exactly.
   */
  lemma SaveLoadRoundTrip(records: Records, failing: set<string>, entries: seq<Entry>, s: Slots)
    requires |entries| <= |s.slots| <= IntMax
    requires Persist(records, failing, entries).rc == 0
    ensures var t := LoadSubtree(Persist(records, failing, entries).records, s);
            t.count == |entries| && |t.slots| == |s.slots| && t.slots[..|entries|] == entries
  {
  }
}
