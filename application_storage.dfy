/**
 * src/storage/applicationStorage.ts: the newest-first entry list under the
 * `applicationEntries` key, read and written through callbacks that check
 * `chrome.runtime.lastError`. The entries here have the shape of
 * src/types/application.ts.
 */
module ApplicationStorage {
  import opened Wrappers
  import opened Strings
  import opened Ranking

  /** `ApplicationEntry` of src/types/application.ts. */
  datatype CapturedEntry = CapturedEntry(
    id: string,
    jobTitle: string,
    company: Option<string>,
    jobDescription: string,
    postingUrl: string,
    createdAt: string)

  /** What the key holds: nothing, a value that is not an array, or an array of entries. */
  datatype StoredValue = Missing | NotAnArray | Entries(entries: seq<CapturedEntry>)

  /** `Array.isArray(raw) ? raw : []`. */
  function StoredEntries(v: StoredValue): (es: seq<CapturedEntry>)
    ensures !v.Entries? ==> es == []
    ensures v.Entries? ==> es == v.entries
  {
    if v.Entries? then v.entries else []
  }

  /** `a.createdAt < b.createdAt ? 1 : -1` puts `a` first exactly when `b.createdAt < a.createdAt`
      fails too, so for distinct keys `a` goes first when its key is the larger one. */
  predicate After(a: CapturedEntry, b: CapturedEntry) {
    Less(b.createdAt, a.createdAt)
  }

  /** Non-increasing `createdAt` under string comparison. */
  ghost predicate NewestFirst(es: seq<CapturedEntry>) {
    forall i, j :: 0 <= i < j < |es| ==> !Less(es[i].createdAt, es[j].createdAt)
  }

  lemma AfterIsStrictWeakOrder()
    ensures StrictWeakOrder(After)
  {
    forall a: CapturedEntry, b: CapturedEntry | After(a, b) ensures !After(b, a) {
      if After(b, a) {
        LessTransitive(a.createdAt, b.createdAt, a.createdAt);
        LessIrreflexive(a.createdAt);
      }
    }
    forall a: CapturedEntry, b: CapturedEntry, c: CapturedEntry | !After(a, b) && !After(b, c)
      ensures !After(a, c)
    {
      LessTotal(a.createdAt, b.createdAt);
      LessTotal(b.createdAt, c.createdAt);
      if After(a, c) {
        if Less(a.createdAt, b.createdAt) {
          LessTransitive(c.createdAt, a.createdAt, b.createdAt);
          if Less(b.createdAt, c.createdAt) {
            LessTransitive(b.createdAt, c.createdAt, b.createdAt);
            LessIrreflexive(b.createdAt);
          }
        } else if Less(b.createdAt, c.createdAt) {
          LessTransitive(b.createdAt, c.createdAt, a.createdAt);
        }
      }
    }
  }

  /** One outcome of `entries.sort(...)` with the comparator of line 19. */
  function SortNewestFirst(es: seq<CapturedEntry>): (r: seq<CapturedEntry>)
    ensures multiset(r) == multiset(es)
    ensures NewestFirst(r)
  {
    AfterIsStrictWeakOrder();
    SortBySorted(es, After);
    var r := SortBy(es, After);
    assert NewestFirst(r) by {
      forall i, j | 0 <= i < j < |r| ensures !Less(r[i].createdAt, r[j].createdAt) {
        assert !After(r[j], r[i]);
      }
    }
    r
  }

  /** The store behind the key, and the four operations on it. `lastError` stands for
      `chrome.runtime.lastError` as the callback sees it. */
  class ApplicationStore {
    var stored: StoredValue

    constructor (v: StoredValue)
      ensures stored == v
    {
      stored := v;
    }

    /** `getApplicationEntries`: reject on a runtime error; otherwise the stored array, or
        `[]` for anything else, sorted newest first. Only order and contents are promised:
        the comparator answers -1 for equal keys both ways round, so the order of entries
        with equal `createdAt` is up to the engine. */
    method GetApplicationEntries(lastError: Option<string>) returns (r: Result<seq<CapturedEntry>>)
      ensures lastError.Some? ==> r == Err(lastError.value)
      ensures lastError.None? ==> r.Ok?
      ensures r.Ok? ==> multiset(r.value) == multiset(StoredEntries(stored)) && NewestFirst(r.value)
    {
      if lastError.Some? {
        return Err(lastError.value);
      }
      var entries := StoredEntries(stored);
      entries := SortNewestFirst(entries);
      return Ok(entries);
    }

    /** `saveApplicationEntries`: the list is stored as given. A failed write is taken to
        leave the stored value as it was. */
    method SaveApplicationEntries(entries: seq<CapturedEntry>, lastError: Option<string>) returns (r: Result<()>)
      modifies this
      ensures lastError.Some? ==> r == Err(lastError.value) && stored == old(stored)
      ensures lastError.None? ==> r == Ok(()) && stored == Entries(entries)
    {
      if lastError.Some? {
        return Err(lastError.value);
      }
      stored := Entries(entries);
      return Ok(());
    }

    /** `addApplicationEntry`: read (sorted), put the new entry in front, write back.
        There is no check for an existing entry with the same id. */
    method AddApplicationEntry(entry: CapturedEntry, readError: Option<string>, writeError: Option<string>)
      returns (r: Result<()>)
      modifies this
      ensures readError.Some? ==> r == Err(readError.value) && stored == old(stored)
      ensures readError.None? && writeError.Some? ==> r == Err(writeError.value) && stored == old(stored)
      ensures readError.None? && writeError.None? ==>
        && r == Ok(())
        && stored.Entries?
        && |stored.entries| == |StoredEntries(old(stored))| + 1
        && stored.entries[0] == entry
        && multiset(stored.entries[1..]) == multiset(StoredEntries(old(stored)))
        && NewestFirst(stored.entries[1..])
    {
      var read := GetApplicationEntries(readError);
      if read.Err? {
        return Err(read.error);
      }
      var entries := [entry] + read.value;
      assert entries[1..] == read.value;
      r := SaveApplicationEntries(entries, writeError);
    }

    /** `clearApplicationEntries`: store the empty list. */
    method ClearApplicationEntries(lastError: Option<string>) returns (r: Result<()>)
      modifies this
      ensures lastError.Some? ==> r == Err(lastError.value) && stored == old(stored)
      ensures lastError.None? ==> r == Ok(()) && stored == Entries([])
    {
      r := SaveApplicationEntries([], lastError);
    }
  }
}
