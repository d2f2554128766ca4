/** The history screen: on mount it reads the log once and shows it
    newest-first. */
module HistoryScreen {
  import opened Wrappers
  import opened HistoryStore

  /** `[...s].reverse()`: a reversed copy. */
  function Reverse<T>(s: seq<T>): (r: seq<T>)
    ensures |r| == |s|
    ensures forall i :: 0 <= i < |s| ==> r[i] == s[|s| - 1 - i]
  {
    if s == [] then [] else [s[|s| - 1]] + Reverse(s[..|s| - 1])
  }

  /** Reversing the shown list gives back the stored log: nothing is lost or reordered. */
  lemma ReverseTwice<T>(s: seq<T>)
    ensures Reverse(Reverse(s)) == s
  {
  }

  /** The list the screen shows for a given value under "history". */
  function Displayed(item: Option<seq<Entry>>): (shown: seq<Entry>)
    ensures item.None? ==> shown == []
    ensures |shown| == |Load(item)|
    ensures forall i :: 0 <= i < |shown| ==> shown[i] == Load(item)[|shown| - 1 - i]
  {
    Reverse(Load(item))
  }

  /** The `useEffect` on mount. It computes `Displayed`; what it adds is
      that it has no `modifies` clause, so loading never writes to the store. */
  method LoadHistory(store: Storage) returns (shown: seq<Entry>)
    ensures shown == Displayed(store.item)
  {
    var saved := Load(store.item);
    shown := Reverse(saved);
  }

  /** Right after a successful save, the new entry is shown first. */
  lemma SavedEntryShownFirst(fits: seq<Entry> -> bool, item: Option<seq<Entry>>, entry: Entry)
    requires LongestFit(fits, Load(item) + [entry]).Some?
    ensures var shown := Displayed(AfterSave(fits, item, entry)); shown != [] && shown[0] == entry
  {
    LongestFitIsLongest(fits, Load(item) + [entry]);
  }

  /** Saving three entries into an empty, unlimited store shows them newest-first. */
  lemma ThreeSavesShownNewestFirst(fits: seq<Entry> -> bool, a: Entry, b: Entry, c: Entry)
    requires forall log :: fits(log)
    ensures Displayed(AfterSave(fits, AfterSave(fits, AfterSave(fits, None, a), b), c)) == [c, b, a]
  {
    UnlimitedStoreKeepsEverything(fits, None, a);
    UnlimitedStoreKeepsEverything(fits, Some([a]), b);
    UnlimitedStoreKeepsEverything(fits, Some([a, b]), c);
  }
}
