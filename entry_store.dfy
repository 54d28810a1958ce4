/**
 * The typed key/value layer of src/storage/storage.ts over `chrome.storage.local`:
 * one slot per logical key (`userProfile`, `applicationEntries`,
 * `generalResumeText`), and the list operations on the stored entries
 * (find by id, upsert, delete by id).
 */
module EntryStore {
  import opened Wrappers
  import opened Profiles

  // ------------------------------------------------------------ pure list operations

  /** Some entry of `es` carries the id. */
  predicate HasId(es: seq<ApplicationEntry>, id: string) {
    exists k :: 0 <= k < |es| && es[k].id == id
  }

  /** `entries.findIndex((item) => item.id === id)`, with `None` for -1. */
  function FindIndex(es: seq<ApplicationEntry>, id: string): (r: Option<nat>)
    ensures r.Some? ==> r.value < |es| && es[r.value].id == id
    ensures r.Some? ==> forall j :: 0 <= j < r.value ==> es[j].id != id
  {
    if |es| == 0 then None
    else if es[0].id == id then Some(0)
    else match FindIndex(es[1..], id)
      case None => None
      case Some(k) => Some(k + 1)
  }

  /** `findIndex` answers -1 exactly when no entry carries the id. */
  lemma {:induction false} FindIndexNone(es: seq<ApplicationEntry>, id: string)
    ensures FindIndex(es, id).None? <==> !HasId(es, id)
  {
    if |es| > 0 && es[0].id != id {
      FindIndexNone(es[1..], id);
      if HasId(es, id) {
        var k :| 0 <= k < |es| && es[k].id == id;
        assert es[1..][k - 1].id == id;
      }
    }
  }

  /** `entries.find((entry) => entry.id === id)`. */
  function FindById(es: seq<ApplicationEntry>, id: string): (r: Option<ApplicationEntry>)
  {
    match FindIndex(es, id)
    case None => None
    case Some(k) => Some(es[k])
  }

  /** `find` gives the first entry with the id, and undefined only when there is none. */
  lemma FindByIdFirst(es: seq<ApplicationEntry>, id: string)
    ensures FindById(es, id).None? <==> !HasId(es, id)
    ensures FindById(es, id).Some? ==>
      exists k :: 0 <= k < |es| && es[k] == FindById(es, id).value && es[k].id == id &&
        forall j :: 0 <= j < k ==> es[j].id != id
  {
    FindIndexNone(es, id);
  }

  /** The list `upsertApplicationEntry` writes back: the first entry with the same id
      is overwritten in place, otherwise the entry is pushed at the end. */
  function Upserted(es: seq<ApplicationEntry>, e: ApplicationEntry): (r: seq<ApplicationEntry>)
  {
    match FindIndex(es, e.id)
    case Some(k) => es[k := e]
    case None => es + [e]
  }

  /** With an entry of the same id present: same length, only the first such entry replaced. */
  lemma UpsertReplaces(es: seq<ApplicationEntry>, e: ApplicationEntry)
    requires HasId(es, e.id)
    ensures |Upserted(es, e)| == |es|
    ensures exists k :: (0 <= k < |es| && es[k].id == e.id && (forall j :: 0 <= j < k ==> es[j].id != e.id) &&
      Upserted(es, e) == es[k := e])
  {
    FindIndexNone(es, e.id);
  }

  /** Without one: the entry is appended and the earlier entries are kept. */
  lemma UpsertAppends(es: seq<ApplicationEntry>, e: ApplicationEntry)
    requires !HasId(es, e.id)
    ensures Upserted(es, e) == es + [e]
    ensures |Upserted(es, e)| == |es| + 1
  {
    FindIndexNone(es, e.id);
  }

  /** After an upsert, looking the id up gives the upserted entry. */
  lemma UpsertThenFind(es: seq<ApplicationEntry>, e: ApplicationEntry)
    ensures FindById(Upserted(es, e), e.id) == Some(e)
  {
    var r := Upserted(es, e);
    FindIndexNone(es, e.id);
    FindIndexNone(r, e.id);
    match FindIndex(es, e.id)
    case Some(k) =>
      assert r[k].id == e.id;
      assert FindIndex(r, e.id).value == k;
    case None =>
      assert r[|es|].id == e.id;
      assert FindIndex(r, e.id).value == |es|;
  }

  /** Every id occurs at most once. */
  ghost predicate UniqueIds(es: seq<ApplicationEntry>) {
    forall i, j :: 0 <= i < j < |es| ==> es[i].id != es[j].id
  }

  /** Upserting keeps ids unique ("only one copy is stored"), and the one entry with
      the upserted id is the upserted entry. */
  lemma UpsertKeepsIdsUnique(es: seq<ApplicationEntry>, e: ApplicationEntry)
    requires UniqueIds(es)
    ensures UniqueIds(Upserted(es, e))
    ensures forall k :: 0 <= k < |Upserted(es, e)| && Upserted(es, e)[k].id == e.id ==> Upserted(es, e)[k] == e
  {
    FindIndexNone(es, e.id);
  }

  /** `entries.filter((entry) => entry.id !== id)`. */
  function WithoutId(es: seq<ApplicationEntry>, id: string): (r: seq<ApplicationEntry>)
    ensures |r| <= |es|
    ensures !HasId(r, id)
  {
    if |es| == 0 then []
    else if es[0].id == id then WithoutId(es[1..], id)
    else [es[0]] + WithoutId(es[1..], id)
  }

  /** The filter keeps exactly the entries with another id ... */
  lemma {:induction false} WithoutIdMembers(es: seq<ApplicationEntry>, id: string, x: ApplicationEntry)
    ensures x in WithoutId(es, id) <==> x in es && x.id != id
  {
    if |es| > 0 {
      WithoutIdMembers(es[1..], id, x);
      assert es == [es[0]] + es[1..];
    }
  }

  /** ... in their original order: it works segment by segment ... */
  lemma {:induction false} WithoutIdAppend(a: seq<ApplicationEntry>, b: seq<ApplicationEntry>, id: string)
    ensures WithoutId(a + b, id) == WithoutId(a, id) + WithoutId(b, id)
  {
    if |a| == 0 {
      assert a + b == b;
    } else {
      assert (a + b)[0] == a[0] && (a + b)[1..] == a[1..] + b;
      WithoutIdAppend(a[1..], b, id);
    }
  }

  /** ... and leaves a list without the id untouched. */
  lemma {:induction false} WithoutAbsentId(es: seq<ApplicationEntry>, id: string)
    requires !HasId(es, id)
    ensures WithoutId(es, id) == es
  {
    if |es| > 0 {
      assert !HasId(es[1..], id) by {
        forall k | 0 <= k < |es| - 1 ensures es[1..][k].id != id { assert es[1..][k] == es[k + 1]; }
      }
      WithoutAbsentId(es[1..], id);
      assert [es[0]] + es[1..] == es;
    }
  }

  // ------------------------------------------------------------ the store

  /** `chrome.storage.local` as the three keys of `STORAGE_KEYS` see it; `None` is a key
      with nothing stored under it. */
  class ExtensionStorage {
    var userProfile: Option<UserProfile>
    var applicationEntries: Option<seq<ApplicationEntry>>
    var generalResumeText: Option<string>

    /** A store with nothing saved yet. */
    constructor ()
      ensures userProfile == None && applicationEntries == None && generalResumeText == None
    {
      userProfile := None;
      applicationEntries := None;
      generalResumeText := None;
    }

    /** The entry list as `getApplicationEntries` reads it: nothing stored reads as `[]`. */
    function Entries(): (es: seq<ApplicationEntry>)
      reads this
      ensures applicationEntries.None? ==> es == []
      ensures applicationEntries.Some? ==> es == applicationEntries.value
    {
      applicationEntries.GetOr([])
    }

    method GetUserProfile() returns (p: Option<UserProfile>)
      ensures p == userProfile
    {
      p := userProfile;
    }

    method SaveUserProfile(profile: UserProfile)
      modifies this
      ensures userProfile == Some(profile)
      ensures applicationEntries == old(applicationEntries) && generalResumeText == old(generalResumeText)
    {
      userProfile := Some(profile);
    }

    method GetGeneralResumeText() returns (t: Option<string>)
      ensures t == generalResumeText
    {
      t := generalResumeText;
    }

    method SaveGeneralResumeText(resumeText: Option<string>)
      modifies this
      ensures generalResumeText == resumeText
      ensures userProfile == old(userProfile) && applicationEntries == old(applicationEntries)
    {
      generalResumeText := resumeText;
    }

    /** `getApplicationEntries`: the stored list, or `[]` when nothing is stored. */
    method GetApplicationEntries() returns (es: seq<ApplicationEntry>)
      ensures applicationEntries.None? ==> es == []
      ensures applicationEntries.Some? ==> es == applicationEntries.value
    {
      match applicationEntries {
        case Some(stored) => es := stored;
        case None => es := [];
      }
    }

    method SaveApplicationEntries(es: seq<ApplicationEntry>)
      modifies this
      ensures applicationEntries == Some(es)
      ensures userProfile == old(userProfile) && generalResumeText == old(generalResumeText)
    {
      applicationEntries := Some(es);
    }

    /** `getApplicationEntryById`: the first stored entry with the id. */
    method GetApplicationEntryById(id: string) returns (e: Option<ApplicationEntry>)
      ensures e == FindById(Entries(), id)
    {
      var entries := GetApplicationEntries();
      e := FindById(entries, id);
    }

    /** `upsertApplicationEntry`: read, overwrite in place or push, write back. */
    method UpsertApplicationEntry(entry: ApplicationEntry)
      modifies this
      ensures applicationEntries == Some(Upserted(old(Entries()), entry))
      ensures userProfile == old(userProfile) && generalResumeText == old(generalResumeText)
    {
      var entries := GetApplicationEntries();
      assert entries == old(Entries());
      var existingIndex := FindIndex(entries, entry.id);
      match existingIndex {
        case Some(k) => entries := entries[k := entry];
        case None => entries := entries + [entry];
      }
      SaveApplicationEntries(entries);
    }

    /** `deleteApplicationEntry`: write back the entries with another id. */
    method DeleteApplicationEntry(id: string)
      modifies this
      ensures applicationEntries == Some(WithoutId(old(Entries()), id))
      ensures userProfile == old(userProfile) && generalResumeText == old(generalResumeText)
    {
      var entries := GetApplicationEntries();
      SaveApplicationEntries(WithoutId(entries, id));
    }

    /** `clearAllData`: remove the three keys. */
    method ClearAllData()
      modifies this
      ensures userProfile == None && applicationEntries == None && generalResumeText == None
    {
      userProfile := None;
      applicationEntries := None;
      generalResumeText := None;
    }
  }

  /** After `clearAllData` the profile and the resume read as undefined and the entries as `[]`. */
  method ClearThenRead(store: ExtensionStorage) returns (p: Option<UserProfile>, t: Option<string>, es: seq<ApplicationEntry>)
    modifies store
    ensures p == None && t == None && es == []
  {
    store.ClearAllData();
    p := store.GetUserProfile();
    t := store.GetGeneralResumeText();
    es := store.GetApplicationEntries();
  }
}
