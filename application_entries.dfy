/**
 * src/logic/applicationEntries.ts: capturing a posting as a stored entry, listing
 * entries newest first, and merging partial updates into an entry, all through
 * the store of src/storage/storage.ts.
 */
module ApplicationEntries {
  import opened Wrappers
  import opened Strings
  import opened Ranking
  import opened Profiles
  import opened EntryStore
  import PostingExtractor

  /** `Partial<ApplicationEntry>` as the capture reads it: `None` is a key that is absent
      or holds `null`/`undefined`. */
  datatype PartialEntry = PartialEntry(
    jobTitle: Option<string>,
    company: Option<string>,
    location: Option<string>,
    jobDescription: Option<string>,
    postingUrl: Option<string>)

  /** The object the extractor returns, seen as a partial entry: the three keys it sets,
      and no `location` or `postingUrl`. */
  function PartialOf(p: PostingExtractor.JobPosting): (r: PartialEntry)
    ensures r.location.None? && r.postingUrl.None?
    ensures r.jobTitle == Some(p.jobTitle) && r.company == Some(p.company)
    ensures r.jobDescription == Some(p.jobDescription)
  {
    PartialEntry(Some(p.jobTitle), Some(p.company), None, Some(p.jobDescription), None)
  }

  /** The entry literal of `createApplicationEntryFromPage`, with the generated id and the
      timestamp passed in. Every default is a `??`: it applies to a missing value only. */
  function EntryFromPartial(partial: PartialEntry, id: string, url: string, createdAt: string): (e: ApplicationEntry)
    ensures e.id == id && e.createdAt == createdAt
    ensures e.jobTitle == if partial.jobTitle.Some? then partial.jobTitle.value else "Untitled Role"
    ensures e.company == if partial.company.Some? then partial.company.value else "Unknown Company"
    ensures e.jobDescription == if partial.jobDescription.Some? then partial.jobDescription.value else ""
    ensures e.location == partial.location
    ensures e.postingUrl == Some(if partial.postingUrl.Some? then partial.postingUrl.value else url)
    ensures e.tailoredResumeMetadataId.None?
  {
    ApplicationEntry(
      id,
      partial.jobTitle.GetOr("Untitled Role"),
      partial.company.GetOr("Unknown Company"),
      partial.location,
      partial.jobDescription.GetOr(""),
      Some(partial.postingUrl.GetOr(url)),
      createdAt,
      None)
  }

  /** The entry captured from a page: an extracted empty title or company is kept, the
      page URL is the posting URL, and no location is recorded. */
  lemma CapturedEntryFields(page: PostingExtractor.Page, id: string, url: string, createdAt: string)
    ensures var e := EntryFromPartial(PartialOf(PostingExtractor.ExtractJobPosting(page)), id, url, createdAt);
      && e.jobTitle == PostingExtractor.ExtractJobPosting(page).jobTitle
      && e.company == PostingExtractor.ExtractJobPosting(page).company
      && e.jobDescription == PostingExtractor.ExtractJobPosting(page).jobDescription
      && Trimmed(e.jobTitle) && Trimmed(e.company)
      && e.postingUrl == Some(url) && e.location.None?
  {
  }

  /** `createApplicationEntryFromPage`: build the entry, upsert it, return it unchanged. */
  method CreateApplicationEntryFromPage(store: ExtensionStorage, url: string, page: PostingExtractor.Page,
                                        id: string, createdAt: string)
    returns (entry: ApplicationEntry)
    modifies store
    ensures entry == EntryFromPartial(PartialOf(PostingExtractor.ExtractJobPosting(page)), id, url, createdAt)
    ensures store.applicationEntries == Some(Upserted(old(store.Entries()), entry))
    ensures FindById(store.Entries(), id) == Some(entry)
    ensures store.userProfile == old(store.userProfile) && store.generalResumeText == old(store.generalResumeText)
  {
    var partial := PartialOf(PostingExtractor.ExtractJobPosting(page));
    entry := EntryFromPartial(partial, id, url, createdAt);
    store.UpsertApplicationEntry(entry);
    UpsertThenFind(old(store.Entries()), entry);
  }

  // ------------------------------------------------------------ listing

  /** The comparator of `listApplicationEntries`, `b.time - a.time < 0`: `a` is newer.
      `time` stands for `new Date(createdAt).getTime()`. */
  function Newer(time: string -> int): (above: (ApplicationEntry, ApplicationEntry) -> bool)
    ensures forall a, b :: above(a, b) <==> time(a.createdAt) > time(b.createdAt)
  {
    (a: ApplicationEntry, b: ApplicationEntry) => time(a.createdAt) > time(b.createdAt)
  }

  lemma NewerIsStrictWeakOrder(time: string -> int)
    ensures StrictWeakOrder(Newer(time))
  {
  }

  /** `listApplicationEntries`: the stored entries sorted newest first; the store is not changed. */
  method ListApplicationEntries(store: ExtensionStorage, time: string -> int) returns (es: seq<ApplicationEntry>)
    ensures es == SortBy(store.Entries(), Newer(time))
  {
    var entries := store.GetApplicationEntries();
    es := SortBy(entries, Newer(time));
  }

  /** The listing is a permutation of the stored entries, newest first, and entries with
      the same timestamp keep their stored order. */
  lemma ListingIsNewestFirst(stored: seq<ApplicationEntry>, time: string -> int)
    ensures multiset(SortBy(stored, Newer(time))) == multiset(stored)
    ensures forall i, j :: 0 <= i < j < |SortBy(stored, Newer(time))| ==>
      time(SortBy(stored, Newer(time))[i].createdAt) >= time(SortBy(stored, Newer(time))[j].createdAt)
    ensures forall z :: EquivalentTo(SortBy(stored, Newer(time)), z, Newer(time)) == EquivalentTo(stored, z, Newer(time))
  {
    NewerIsStrictWeakOrder(time);
    SortBySorted(stored, Newer(time));
    forall z ensures EquivalentTo(SortBy(stored, Newer(time)), z, Newer(time)) == EquivalentTo(stored, z, Newer(time)) {
      SortByStable(stored, z, Newer(time));
    }
  }

  // ------------------------------------------------------------ updating

  /** `Partial<ApplicationEntry>` as an update: `None` is a key the update object does not
      have. For the optional keys `Some(None)` is a key present with `undefined`. */
  datatype EntryUpdate = EntryUpdate(
    id: Option<string>,
    jobTitle: Option<string>,
    company: Option<string>,
    location: Option<Option<string>>,
    jobDescription: Option<string>,
    postingUrl: Option<Option<string>>,
    createdAt: Option<string>,
    tailoredResumeMetadataId: Option<Option<string>>)

  /** `{ ...existing, ...updates }`: the keys of the update win, the rest is kept. */
  function Merge(existing: ApplicationEntry, u: EntryUpdate): (r: ApplicationEntry)
  {
    ApplicationEntry(
      u.id.GetOr(existing.id),
      u.jobTitle.GetOr(existing.jobTitle),
      u.company.GetOr(existing.company),
      u.location.GetOr(existing.location),
      u.jobDescription.GetOr(existing.jobDescription),
      u.postingUrl.GetOr(existing.postingUrl),
      u.createdAt.GetOr(existing.createdAt),
      u.tailoredResumeMetadataId.GetOr(existing.tailoredResumeMetadataId))
  }

  /** The update with no keys. */
  const NoUpdate := EntryUpdate(None, None, None, None, None, None, None, None)

  /** Merging the empty update changes nothing, and a key that the update sets ends up
      with the update's value whatever the entry held. */
  lemma MergeLaws(existing: ApplicationEntry, u: EntryUpdate)
    ensures Merge(existing, NoUpdate) == existing
    ensures u.jobTitle.Some? ==> Merge(existing, u).jobTitle == u.jobTitle.value
    ensures u.jobTitle.None? ==> Merge(existing, u).jobTitle == existing.jobTitle
    ensures u.location.Some? ==> Merge(existing, u).location == u.location.value
    ensures u.location.None? ==> Merge(existing, u).location == existing.location
    ensures Merge(Merge(existing, u), u) == Merge(existing, u)
  {
  }

  /** `updateApplicationEntry`: nothing is written and undefined is returned when no entry
      has the id; otherwise the merged entry is upserted and returned. */
  method UpdateApplicationEntry(store: ExtensionStorage, id: string, updates: EntryUpdate)
    returns (r: Option<ApplicationEntry>)
    modifies store
    ensures !HasId(old(store.Entries()), id) ==>
      r.None? && store.applicationEntries == old(store.applicationEntries)
    ensures FindById(old(store.Entries()), id).Some? ==>
      && r == Some(Merge(FindById(old(store.Entries()), id).value, updates))
      && store.applicationEntries == Some(Upserted(old(store.Entries()), r.value))
    ensures store.userProfile == old(store.userProfile) && store.generalResumeText == old(store.generalResumeText)
  {
    FindByIdFirst(store.Entries(), id);
    var existing := store.GetApplicationEntryById(id);
    if existing.None? {
      return None;
    }
    var updated := Merge(existing.value, updates);
    store.UpsertApplicationEntry(updated);
    return Some(updated);
  }

  /** An update that keeps the id replaces the existing entry at its index. */
  lemma UpdateInPlace(es: seq<ApplicationEntry>, id: string, existing: ApplicationEntry, updates: EntryUpdate)
    requires FindById(es, id) == Some(existing)
    requires updates.id.None? || updates.id == Some(id)
    ensures FindIndex(es, id).Some?
    ensures Upserted(es, Merge(existing, updates)) == es[FindIndex(es, id).value := Merge(existing, updates)]
  {
  }

  /** An update that renames the entry to an unused id leaves the old entry in place and
      appends the merged one: the store then holds both. */
  lemma UpdateRenamingAppends(es: seq<ApplicationEntry>, id: string, existing: ApplicationEntry,
                               updates: EntryUpdate, newId: string)
    requires FindById(es, id) == Some(existing)
    requires updates.id == Some(newId) && !HasId(es, newId)
    ensures Upserted(es, Merge(existing, updates)) == es + [Merge(existing, updates)]
    ensures HasId(Upserted(es, Merge(existing, updates)), id)
  {
    FindIndexNone(es, newId);
    var k := FindIndex(es, id).value;
    assert (es + [Merge(existing, updates)])[k] == es[k];
  }

  /** `deleteApplicationEntry` forwards to the store. */
  method DeleteApplicationEntry(store: ExtensionStorage, id: string)
    modifies store
    ensures store.applicationEntries == Some(WithoutId(old(store.Entries()), id))
    ensures store.userProfile == old(store.userProfile) && store.generalResumeText == old(store.generalResumeText)
  {
    store.DeleteApplicationEntry(id);
  }

  /** `replaceApplicationEntries` writes the list as given. */
  method ReplaceApplicationEntries(store: ExtensionStorage, entries: seq<ApplicationEntry>)
    modifies store
    ensures store.applicationEntries == Some(entries)
    ensures store.userProfile == old(store.userProfile) && store.generalResumeText == old(store.generalResumeText)
  {
    store.SaveApplicationEntries(entries);
  }
}
