/**
 * The history buffer and the sampling rule as values: what the fixed-capacity store holds,
 * oldest entry first, after appends, and when a charge-change event leads to an append.
 * The imperative store in module BatteryHistory is proved against these functions.
 */
module HistoryBuffer {
  import opened Types

  /** The last min(|s|, n) elements of s, in their original order. */
  function LastN<T>(s: seq<T>, n: nat): (r: seq<T>)
    ensures |r| == Min(|s|, n)
    ensures forall i :: 0 <= i < |r| ==> r[i] == s[|s| - |r| + i]
  {
    s[|s| - Min(|s|, n)..]
  }

  /**
   * The buffer after one add_history_entry on a buffer of capacity cap holding h:
   * at capacity everything shifts down by one (the oldest entry is dropped), then e goes last.
   */
  function Appended(h: seq<Entry>, e: Entry, cap: nat): (r: seq<Entry>)
    requires 1 <= cap && |h| <= cap
    ensures |r| == Min(|h| + 1, cap)
    ensures r == LastN(h + [e], cap)
  {
    if |h| < cap then h + [e] else h[1..] + [e]
  }

  /** The buffer after appending the entries of es one after the other, first to last. */
  function AppendAll(h: seq<Entry>, es: seq<Entry>, cap: nat): (r: seq<Entry>)
    requires 1 <= cap && |h| <= cap
    decreases |es|
  {
    if es == [] then h else AppendAll(Appended(h, es[0], cap), es[1..], cap)
  }

  /** Below capacity an append keeps every entry where it was and puts the new one at index |h|. */
  lemma AppendBelowCapacity(h: seq<Entry>, e: Entry, cap: nat)
    requires 1 <= cap && |h| < cap
    ensures |Appended(h, e, cap)| == |h| + 1
    ensures Appended(h, e, cap)[..|h|] == h && Appended(h, e, cap)[|h|] == e
  {
  }

  /** At capacity an append drops exactly h[0], shifts h[1..] down by one and puts e last. */
  lemma AppendAtCapacityEvictsOldest(h: seq<Entry>, e: Entry, cap: nat)
    requires 1 <= cap && |h| == cap
    ensures |Appended(h, e, cap)| == cap
    ensures forall i :: 0 <= i < cap - 1 ==> Appended(h, e, cap)[i] == h[i + 1]
    ensures Appended(h, e, cap)[cap - 1] == e
  {
  }

  /** Taking the last n twice is the same as taking them once, whatever is appended in between. */
  lemma LastNAbsorbs<T>(s: seq<T>, t: seq<T>, n: nat)
    ensures LastN(LastN(s, n) + t, n) == LastN(s + t, n)
  {
  }

  /**
   * After any sequence of appends the buffer holds the last min(|h| + |es|, cap) of all entries
   * ever appended (the previous contents h first), oldest first.
   */
  lemma {:induction false} AppendAllKeepsLatest(h: seq<Entry>, es: seq<Entry>, cap: nat)
    requires 1 <= cap && |h| <= cap
    ensures AppendAll(h, es, cap) == LastN(h + es, cap)
    decreases |es|
  {
    if es == [] {
      assert h + es == h;
    } else {
      var h' := Appended(h, es[0], cap);
      calc {
        AppendAll(h, es, cap);
        AppendAll(h', es[1..], cap);
        { AppendAllKeepsLatest(h', es[1..], cap); }
        LastN(h' + es[1..], cap);
        LastN(LastN(h + [es[0]], cap) + es[1..], cap);
        { LastNAbsorbs(h + [es[0]], es[1..], cap); }
        LastN(h + [es[0]] + es[1..], cap);
        { assert h + [es[0]] + es[1..] == h + es; }
        LastN(h + es, cap);
      }
    }
  }

  /** Starting from an empty buffer, k appends leave exactly the last min(k, cap) appended entries. */
  lemma AppendAllFromEmpty(es: seq<Entry>, cap: nat)
    requires 1 <= cap
    ensures |AppendAll([], es, cap)| == Min(|es|, cap)
    ensures AppendAll([], es, cap) == es[|es| - Min(|es|, cap)..]
  {
    AppendAllKeepsLatest([], es, cap);
    assert [] + es == es;
  }

  /** Capacity 3, appends (0,90), (1,85), (2,80), (3,75): the buffer is [(1,85), (2,80), (3,75)]. */
  lemma CapacityThreeScenario()
    ensures AppendAll([], [Entry(0, 90), Entry(1, 85), Entry(2, 80), Entry(3, 75)], 3)
         == [Entry(1, 85), Entry(2, 80), Entry(3, 75)]
  {
  }

  /** The fixed charge change, in percentage points, that counts as significant. */
  const ChangeThreshold: int := 5

  /**
   * Whether a charge-change event reporting soc appends to buffer h: always on an empty buffer,
   * otherwise when soc lies at least ChangeThreshold points above or below the last entry.
   */
  function ShouldRecord(h: seq<Entry>, soc: uint8): (r: bool)
    ensures r <==> (|| h == []
                    || soc as int >= h[|h| - 1].percentage as int + ChangeThreshold
                    || soc as int <= h[|h| - 1].percentage as int - ChangeThreshold)
  {
    if h == [] then true
    else
      var diff := soc as int - h[|h| - 1].percentage as int;
      (if diff < 0 then -diff else diff) >= ChangeThreshold
  }

  /** A change of 4 points from the last entry records nothing; a change of 5 records. */
  lemma ThresholdBoundary(h: seq<Entry>, soc: uint8)
    requires h != []
    ensures soc as int - h[|h| - 1].percentage as int == 4 ==> !ShouldRecord(h, soc)
    ensures h[|h| - 1].percentage as int - soc as int == 4 ==> !ShouldRecord(h, soc)
    ensures soc as int - h[|h| - 1].percentage as int == 5 ==> ShouldRecord(h, soc)
    ensures h[|h| - 1].percentage as int - soc as int == 5 ==> ShouldRecord(h, soc)
  {
  }
}
