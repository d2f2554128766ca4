/** The persisted search history (`saveToHistory`): an append-only log kept
    under the storage key "history" that sheds its oldest entries when the
    store refuses to hold it. */
module HistoryStore {
  import opened Wrappers

  /** `{ latitude, longitude }` as returned by the recognition service. */
  datatype Location = Location(latitude: Option<real>, longitude: Option<real>)

  /** One history record. `location` and `building` are `None` when the
      caller passes null or leaves them out. */
  datatype Entry = Entry(image: Option<string>, location: Option<Location>, timestamp: string, building: Option<string>)

  /** The log read from the store; a missing "history" key reads as the empty log. */
  function Load(item: Option<seq<Entry>>): (log: seq<Entry>)
    ensures item.None? ==> log == []
    ensures item.Some? ==> log == item.value
  {
    match item
    case None => []
    case Some(l) => l
  }

  /** The first log `saveToHistory` manages to write, if any: the longest
      non-empty suffix of `s` that the store accepts (see LongestFitIsLongest). */
  function LongestFit(fits: seq<Entry> -> bool, s: seq<Entry>): (r: Option<seq<Entry>>)
    decreases |s|
  {
    if s == [] then None
    else if fits(s) then Some(s)
    else LongestFit(fits, s[1..])
  }

  lemma {:induction false} LongestFitIsLongest(fits: seq<Entry> -> bool, s: seq<Entry>)
    decreases |s|
    ensures var r := LongestFit(fits, s);
      r.Some? ==> 0 < |r.value| <= |s| && r.value == s[|s| - |r.value|..] && fits(r.value)
    ensures var r := LongestFit(fits, s);
      r.Some? ==> forall k :: 0 <= k < |s| - |r.value| ==> !fits(s[k..])
    ensures LongestFit(fits, s).None? <==> forall k :: 0 <= k < |s| ==> !fits(s[k..])
  {
    if s != [] && !fits(s) {
      LongestFitIsLongest(fits, s[1..]);
      assert forall k :: 0 < k <= |s| ==> s[1..][k - 1..] == s[k..];
    }
  }

  /** The logs `saveToHistory` tries to write, in order, before its final
      single-entry attempt: `s`, then `s` without its oldest entry, and so
      on, stopping at the first one the store accepts or after the
      one-entry suffix (see AttemptsDropOldestFirst). */
  function Attempts(fits: seq<Entry> -> bool, s: seq<Entry>): (r: seq<seq<Entry>>)
    decreases |s|
  {
    if s == [] then []
    else if fits(s) then [s]
    else [s] + Attempts(fits, s[1..])
  }

  lemma {:induction false} AttemptsDropOldestFirst(fits: seq<Entry> -> bool, s: seq<Entry>)
    decreases |s|
    ensures var r := Attempts(fits, s); |r| <= |s| && (s != [] ==> r != [])
    ensures var r := Attempts(fits, s); forall i :: 0 <= i < |r| ==> r[i] == s[i..]
    ensures var r := Attempts(fits, s); forall i :: 0 <= i < |r| - 1 ==> !fits(r[i])
    ensures var r := Attempts(fits, s); r != [] ==> fits(r[|r| - 1]) || |r| == |s|
  {
    if s != [] && !fits(s) {
      var rest := Attempts(fits, s[1..]);
      AttemptsDropOldestFirst(fits, s[1..]);
      assert forall i :: 0 <= i < |rest| ==> rest[i] == s[i + 1..];
    }
  }

  /** The first `d` attempts of `saveToHistory` on `s`: `s[0..]` to `s[d - 1..]`. */
  function Tried(s: seq<Entry>, d: nat): (r: seq<seq<Entry>>)
    requires d <= |s|
    ensures |r| == d
  {
    if d == 0 then [] else Tried(s, d - 1) + [s[d - 1..]]
  }

  /** The attempts on `s` are `s` itself followed by the attempts on `s[1..]`. */
  lemma {:induction false} TriedCons(s: seq<Entry>, d: nat)
    requires d < |s|
    ensures [s] + Tried(s[1..], d) == Tried(s, d + 1)
  {
    if d == 0 {
      assert s[0..] == s;
    } else {
      TriedCons(s, d - 1);
      assert s[1..][d - 1..] == s[d..];
    }
  }

  /** When `s[d..]` is the first suffix the store accepts, or the
      one-entry suffix, the attempts are exactly `s[0..]` to `s[d..]`. */
  lemma {:induction false} AttemptsUntilFirstFit(fits: seq<Entry> -> bool, s: seq<Entry>, d: nat)
    requires d < |s|
    requires LongestFit(fits, s) == LongestFit(fits, s[d..])
    requires fits(s[d..]) || d == |s| - 1
    decreases d
    ensures Attempts(fits, s) == Tried(s, d + 1)
  {
    if d == 0 {
      assert s[0..] == s;
    } else {
      LongestFitIsLongest(fits, s[d..]);
      assert !fits(s);
      assert s[1..][d - 1..] == s[d..];
      AttemptsUntilFirstFit(fits, s[1..], d - 1);
      TriedCons(s, d);
    }
  }

  /** Writing stops at the first accepted log, and that log is the
      longest accepted suffix; when none is accepted the last attempt was
      the new entry alone. */
  lemma {:induction false} AttemptsEndAtLongestFit(fits: seq<Entry> -> bool, s: seq<Entry>)
    requires s != []
    decreases |s|
    ensures var r := Attempts(fits, s);
      r != [] && (LongestFit(fits, s).Some? <==> fits(r[|r| - 1]))
    ensures var r := Attempts(fits, s);
      r != [] && (LongestFit(fits, s).Some? ==> r[|r| - 1] == LongestFit(fits, s).value)
    ensures var r := Attempts(fits, s);
      r != [] && (LongestFit(fits, s).None? ==> r[|r| - 1] == [s[|s| - 1]])
  {
    if !fits(s) && |s| > 1 {
      AttemptsEndAtLongestFit(fits, s[1..]);
    }
  }

  /** The value under "history" after a save of `entry`. */
  function AfterSave(fits: seq<Entry> -> bool, item: Option<seq<Entry>>, entry: Entry): (r: Option<seq<Entry>>)
  {
    match LongestFit(fits, Load(item) + [entry])
    case Some(log) => Some(log)
    case None => item
  }

  /** When some suffix `full[k..]` of the old log plus the new entry fits,
      the save succeeds and keeps a suffix at least that long: the longest
      one that fits. It ends with the new entry and keeps insertion order. */
  lemma SaveKeepsLongestFittingSuffix(fits: seq<Entry> -> bool, item: Option<seq<Entry>>, entry: Entry, k: nat)
    requires k < |Load(item)| + 1 && fits((Load(item) + [entry])[k..])
    ensures LongestFit(fits, Load(item) + [entry]).Some?
    ensures var after := AfterSave(fits, item, entry);
      after.Some? && |Load(item)| + 1 - k <= |after.value| <= |Load(item)| + 1 &&
      after.value == (Load(item) + [entry])[|Load(item)| + 1 - |after.value|..] &&
      after.value[|after.value| - 1] == entry && fits(after.value)
  {
    var full := Load(item) + [entry];
    LongestFitIsLongest(fits, full);
  }

  /** When no suffix fits, not even the new entry alone, the save leaves
      the store as it was. */
  lemma FailedSaveLeavesStore(fits: seq<Entry> -> bool, item: Option<seq<Entry>>, entry: Entry)
    requires forall k :: 0 <= k <= |Load(item)| ==> !fits((Load(item) + [entry])[k..])
    ensures AfterSave(fits, item, entry) == item
  {
    LongestFitIsLongest(fits, Load(item) + [entry]);
  }

  /** The final `tryPersist([entry])` repeats the one-entry log the loop (or
      the first attempt) already had refused, so it cannot succeed. */
  lemma FinalAttemptRepeatsRefusedLog(fits: seq<Entry> -> bool, log: seq<Entry>, entry: Entry)
    requires LongestFit(fits, log + [entry]).None?
    ensures var r := Attempts(fits, log + [entry]); r != [] && r[|r| - 1] == [entry]
    ensures !fits([entry])
  {
    var full := log + [entry];
    AttemptsEndAtLongestFit(fits, full);
    LongestFitIsLongest(fits, full);
    assert full[|full| - 1..] == [entry];
  }

  /** With no quota every save keeps the whole log plus the new entry. */
  lemma UnlimitedStoreKeepsEverything(fits: seq<Entry> -> bool, item: Option<seq<Entry>>, entry: Entry)
    requires forall log :: fits(log)
    ensures AfterSave(fits, item, entry) == Some(Load(item) + [entry])
  {
  }

  /** A store that refuses every log of more than one entry keeps only the
      newest entry, whatever it held before. */
  lemma OneEntryStoreKeepsNewest(fits: seq<Entry> -> bool, item: Option<seq<Entry>>, entry: Entry)
    requires forall log :: fits(log) <==> |log| <= 1
    ensures AfterSave(fits, item, entry) == Some([entry])
  {
    var full := Load(item) + [entry];
    LongestFitIsLongest(fits, full);
    assert fits(full[|full| - 1..]);
  }

  /** `localStorage` holding the "history" key. `fits` is the store's
      quota: a deterministic judgement of whether a log can be written. */
  class Storage {
    const fits: seq<Entry> -> bool
    /** The log under "history"; `None` when the key is missing. */
    var item: Option<seq<Entry>>
    /** Every log a write was attempted with, oldest attempt first. */
    ghost var attempts: seq<seq<Entry>>

    constructor (fits: seq<Entry> -> bool, item: Option<seq<Entry>>)
      ensures this.fits == fits && this.item == item && attempts == []
    {
      this.fits := fits;
      this.item := item;
      attempts := [];
    }

    /** `tryPersist`: write `log` under "history"; a quota error is caught,
        reported as `false` and leaves the old value in place. */
    method TryPersist(log: seq<Entry>) returns (ok: bool)
      modifies this
      ensures ok == fits(log)
      ensures item == if ok then Some(log) else old(item)
      ensures attempts == old(attempts) + [log]
    {
      ok := fits(log);
      if ok {
        item := Some(log);
      }
      attempts := attempts + [log];
    }
  }

  /** `saveToHistory`: append a new entry to the log; while the store
      refuses the log, drop its oldest entry and retry; finally try the
      new entry alone. The timestamp is supplied by the caller. */
  method SaveToHistory(store: Storage, image: Option<string>, location: Option<Location>,
                       building: Option<string>, timestamp: string) returns (ok: bool)
    modifies store
    ensures ok == LongestFit(store.fits, Load(old(store.item)) + [Entry(image, location, timestamp, building)]).Some?
    ensures store.item == AfterSave(store.fits, old(store.item), Entry(image, location, timestamp, building))
    ensures ok ==> store.item.Some? && store.item.value != [] && store.item.value[|store.item.value| - 1] == Entry(image, location, timestamp, building)
    ensures !ok ==> store.item == old(store.item)
    ensures var full := Load(old(store.item)) + [Entry(image, location, timestamp, building)];
      store.attempts == old(store.attempts) + Attempts(store.fits, full) + (if ok then [] else [[full[|full| - 1]]])
    ensures |store.attempts| - |old(store.attempts)| <= |Load(old(store.item))| + 2
  {
    var entry := Entry(image, location, timestamp, building);
    var history := Load(store.item);
    var candidate := history + [entry];
    ghost var full := candidate;
    ghost var dropped: nat := 0;
    ghost var before := store.attempts;
    AttemptsDropOldestFirst(store.fits, full);

    // First attempt: the whole log
    ok := store.TryPersist(candidate);

    // Drop the oldest entry and retry while more than one is left
    while !ok && |candidate| > 1
      invariant dropped < |full| && candidate == full[dropped..]
      invariant ok == store.fits(candidate)
      invariant store.item == if ok then Some(candidate) else old(store.item)
      invariant LongestFit(store.fits, full) == LongestFit(store.fits, candidate)
      invariant store.attempts == before + Tried(full, dropped) + [candidate]
    {
      ghost var tried := Tried(full, dropped);
      ghost var last := candidate;
      candidate := candidate[1..];
      dropped := dropped + 1;
      assert Tried(full, dropped) == tried + [last];
      ok := store.TryPersist(candidate);
    }
    assert store.attempts == before + Attempts(store.fits, full) by {
      AttemptsUntilFirstFit(store.fits, full, dropped);
      assert Tried(full, dropped + 1) == Tried(full, dropped) + [candidate];
    }

    // Final attempt: the new entry alone
    if !ok {
      assert candidate == [entry];
      ok := store.TryPersist([entry]);
    }
  }
}
