/**
 * The battery-history store: a fixed array of entries and a count, updated in place by the
 * append, the charge-change listener, the periodic tick, clear and the settings load handler,
 * and saved to the settings backend after every change.
 */
module BatteryHistory {
  import opened Types
  import opened HistoryBuffer
  import opened Persistence

  /** get_current_timestamp: uptime in whole seconds, wrapped to 32 bits by the uint32_t cast. */
  function TimestampOf(uptimeMs: nat): (t: uint32)
    ensures t as int == (uptimeMs / 1000) % 0x1_0000_0000
    ensures uptimeMs < 1000 * 0x1_0000_0000 ==> t as int == uptimeMs / 1000
  {
    ToUint32(uptimeMs / 1000)
  }

  class HistoryStore {
    /** history[MAX_HISTORY_ENTRIES]; its length is the capacity. */
    const history: array<Entry>
    /** history_count */
    var count: int
    /** The settings backend the store saves to and loads from. */
    const settings: SettingsBackend

    /** The count stays within the capacity, which is positive and fits a C int. */
    ghost predicate Valid()
      reads this
    {
      1 <= history.Length <= IntMax && 0 <= count <= history.Length
    }

    /** The entries held, oldest first. */
    ghost function Contents(): seq<Entry>
      reads this, history
      requires Valid()
    {
      history[..count]
    }

    /** The store at start-up: a zero-filled array and no entries. */
    constructor (capacity: nat, settings: SettingsBackend)
      requires 1 <= capacity <= IntMax
      ensures Valid() && fresh(history) && history.Length == capacity
      ensures count == 0 && this.settings == settings
      ensures forall i :: 0 <= i < capacity ==> history[i] == Entry(0, 0)
    {
      history := new Entry[capacity](_ => Entry(0, 0));
      count := 0;
      this.settings := settings;
    }

    /** battery_history_get_count */
    function GetCount(): (n: int)
      reads this, history
      requires Valid()
      ensures n == |Contents()|
    {
      count
    }

    /**
     * add_history_entry: at capacity, shift every entry down one place, dropping history[0];
     * then store the new entry after the last one. Slots past the new count are untouched.
     */
    method AddHistoryEntry(timestamp: uint32, percentage: uint8)
      requires Valid()
      modifies this`count, history
      ensures Valid()
      ensures Contents() == Appended(old(Contents()), Entry(timestamp, percentage), history.Length)
      ensures history[count..] == old(history[..])[count..]
    {
      if count >= history.Length {
        for i := 0 to history.Length - 1
          invariant forall k :: 0 <= k < i ==> history[k] == old(history[k + 1])
          invariant forall k :: i <= k < history.Length ==> history[k] == old(history[k])
        {
          history[i] := history[i + 1];
        }
        count := history.Length - 1;
      }
      history[count] := Entry(timestamp, percentage);
      count := count + 1;
    }

    /** save_to_storage: the count record first, then, if the count is positive, the entries. */
    method SaveToStorage() returns (rc: int)
      requires Valid()
      modifies settings`records
      ensures SaveOutcome(rc, settings.records) == Persist(old(settings.records), settings.failing, Contents())
    {
      rc := settings.SaveOne(CountKey, Word(count as int32));
      if rc != 0 {
        return;
      }
      if count > 0 {
        rc := settings.SaveOne(EntriesKey, Entries(history[..count]));
        if rc != 0 {
          return;
        }
      }
      rc := 0;
    }

    /**
     * save_battery_state, the periodic tick: append the current reading unconditionally, then
     * save; a failed save is ignored and the append stays. Rescheduling is not modelled.
     */
    method SaveBatteryState(soc: uint8, uptimeMs: nat)
      requires Valid()
      modifies this`count, history, settings`records
      ensures Valid()
      ensures Contents() == Appended(old(Contents()), Entry(TimestampOf(uptimeMs), soc), history.Length)
      ensures history[count..] == old(history[..])[count..]
      ensures settings.records == Persist(old(settings.records), settings.failing, Contents()).records
    {
      AddHistoryEntry(TimestampOf(uptimeMs), soc);
      var _ := SaveToStorage();
    }

    /**
     * battery_state_changed_listener: a charge-change event (None when the event is of another
     * type) appends and saves exactly when ShouldRecord holds; otherwise nothing changes.
     */
    method OnBatteryStateChanged(ev: Option<uint8>, uptimeMs: nat) returns (rc: int)
      requires Valid()
      modifies this`count, history, settings`records
      ensures Valid() && rc == 0
      ensures ev.Some? && ShouldRecord(old(Contents()), ev.value) ==>
                && Contents() == Appended(old(Contents()), Entry(TimestampOf(uptimeMs), ev.value), history.Length)
                && history[count..] == old(history[..])[count..]
                && settings.records == Persist(old(settings.records), settings.failing, Contents()).records
      ensures !(ev.Some? && ShouldRecord(old(Contents()), ev.value)) ==>
                && count == old(count) && history[..] == old(history[..])
                && settings.records == old(settings.records)
    {
      if ev.None? {
        return 0;
      }
      var soc := ev.value;
      if count == 0 {
        AddHistoryEntry(TimestampOf(uptimeMs), soc);
        var _ := SaveToStorage();
      } else {
        var diff := soc as int - history[count - 1].percentage as int;
        if diff < 0 {
          diff := -diff;
        }
        if diff >= ChangeThreshold {
          AddHistoryEntry(TimestampOf(uptimeMs), soc);
          var _ := SaveToStorage();
        }
      }
      rc := 0;
    }

    /**
     * battery_history_get_entries: -EINVAL for a null buffer or a non-positive maximum;
     * otherwise copy the oldest min(count, maxEntries) entries into dest and return how many.
     * The store itself is not changed.
     */
    method GetEntries(dest: array?<Entry>, maxEntries: int) returns (rc: int)
      requires Valid()
      requires dest != null && maxEntries > 0 ==> dest != history && maxEntries <= dest.Length
      modifies dest
      ensures dest == null || maxEntries <= 0 ==> rc == -EINVAL
      ensures dest != null && maxEntries <= 0 ==> dest[..] == old(dest[..])
      ensures dest != null && maxEntries > 0 ==>
                && rc == Min(count, maxEntries)
                && dest[..rc] == Contents()[..rc]
                && dest[rc..] == old(dest[rc..])
    {
      if dest == null || maxEntries <= 0 {
        return -EINVAL;
      }
      var n := if count < maxEntries then count else maxEntries;
      forall i | 0 <= i < n {
        dest[i] := history[i];
      }
      rc := n;
    }

    /** battery_history_clear: empty the store, then save; the store stays empty even if the save fails. */
    method Clear() returns (rc: int)
      requires Valid()
      modifies this`count, settings`records
      ensures Valid() && count == 0 && Contents() == []
      ensures SaveOutcome(rc, settings.records) == Persist(old(settings.records), settings.failing, [])
    {
      count := 0;
      rc := SaveToStorage();
    }

    /** settings_load_handler for one record of the namespace, with the count range-checked. */
    method SettingsLoad(key: string, b: Blob) returns (rc: int)
      requires Valid()
      modifies this`count, history
      ensures Valid()
      ensures LoadOutcome(rc, Slots(count, history[..])) == LoadRecord(key, b, Slots(old(count), old(history[..])))
    {
      if key == "count" {
        if Size(b) != IntSize {
          return -EINVAL;
        }
        var v := b.value;
        if v < 0 || v as int > history.Length {
          return -EINVAL;
        }
        count := v as int;
        rc := IntSize;
      } else if key == "entries" {
        if Size(b) > EntrySize * history.Length {
          return -EINVAL;
        }
        match b {
          case Entries(items) =>
            forall i | 0 <= i < |items| {
              history[i] := items[i];
            }
            assert history[..] == items + old(history[..])[|items|..];
          case Word(v) =>
            history[0] := Entry(ToUint32(v as int), history[0].percentage);
            assert history[..] == OverwriteFirstTimestamp(old(history[..]), v);
        }
        rc := Size(b);
      } else {
        rc := -ENOENT;
      }
    }

    /** settings_load_subtree at start-up: the count record, then the entries record, when present. */
    method LoadFromStorage()
      requires Valid()
      modifies this`count, history
      ensures Valid()
      ensures Slots(count, history[..]) == LoadSubtree(settings.records, Slots(old(count), old(history[..])))
    {
      if CountKey in settings.records {
        var _ := SettingsLoad("count", settings.records[CountKey]);
      }
      if EntriesKey in settings.records {
        var _ := SettingsLoad("entries", settings.records[EntriesKey]);
      }
    }
  }
}
