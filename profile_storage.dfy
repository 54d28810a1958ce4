/**
 * src/storage/profileStorage.ts: the `userProfile` key read back as the six-field
 * profile of src/types/profile.ts. A stored object is a map from its keys to their
 * string values; a key holding `null` or `undefined` is a key the map does not have.
 */
module ProfileStorage {
  import opened Wrappers
  import opened Profiles

  type StoredObject = map<string, string>

  /** The six keys the read keeps. */
  const ProfileKeys: set<string> := {"firstName", "lastName", "email", "phone", "linkedinUrl", "githubUrl"}

  /** `raw.key ?? ""`. */
  function FieldOr(raw: StoredObject, key: string): (v: string)
    ensures key in raw ==> v == raw[key]
    ensures key !in raw ==> v == ""
  {
    if key in raw then raw[key] else ""
  }

  /** The record `getUserProfile` builds from a stored object: every one of the six keys
      is set, to the stored value or to `""`. */
  function NormalizeStored(raw: StoredObject): (p: BasicProfile)
    ensures p.phone.Some? && p.linkedinUrl.Some? && p.githubUrl.Some?
  {
    BasicProfile(
      FieldOr(raw, "firstName"),
      FieldOr(raw, "lastName"),
      FieldOr(raw, "email"),
      Some(FieldOr(raw, "phone")),
      Some(FieldOr(raw, "linkedinUrl")),
      Some(FieldOr(raw, "githubUrl")))
  }

  /** Keys other than the six do not matter: objects that agree on the six read the same. */
  lemma NormalizeIgnoresOtherKeys(raw1: StoredObject, raw2: StoredObject)
    requires forall k :: k in ProfileKeys ==> (k in raw1 <==> k in raw2)
    requires forall k :: k in ProfileKeys && k in raw1 ==> raw1[k] == raw2[k]
    ensures NormalizeStored(raw1) == NormalizeStored(raw2)
  {
    assert "firstName" in ProfileKeys && "lastName" in ProfileKeys && "email" in ProfileKeys;
    assert "phone" in ProfileKeys && "linkedinUrl" in ProfileKeys && "githubUrl" in ProfileKeys;
  }

  /** The object `saveUserProfile` stores: an optional field left undefined is no key. */
  function ToStored(p: BasicProfile): (raw: StoredObject)
    ensures raw.Keys <= ProfileKeys
    ensures "firstName" in raw && "lastName" in raw && "email" in raw
    ensures "phone" in raw <==> p.phone.Some?
    ensures "linkedinUrl" in raw <==> p.linkedinUrl.Some?
    ensures "githubUrl" in raw <==> p.githubUrl.Some?
    ensures raw["firstName"] == p.firstName && raw["lastName"] == p.lastName && raw["email"] == p.email
    ensures p.phone.Some? ==> raw["phone"] == p.phone.value
    ensures p.linkedinUrl.Some? ==> raw["linkedinUrl"] == p.linkedinUrl.value
    ensures p.githubUrl.Some? ==> raw["githubUrl"] == p.githubUrl.value
  {
    var base := map["firstName" := p.firstName, "lastName" := p.lastName, "email" := p.email];
    var withPhone := if p.phone.Some? then base["phone" := p.phone.value] else base;
    var withLinkedin := if p.linkedinUrl.Some? then withPhone["linkedinUrl" := p.linkedinUrl.value] else withPhone;
    if p.githubUrl.Some? then withLinkedin["githubUrl" := p.githubUrl.value] else withLinkedin
  }

  /** Saving and reading back gives the same profile exactly when the three optional
      fields are set; an unset one reads back as `""`. */
  lemma SaveThenReadRoundTrip(p: BasicProfile)
    ensures NormalizeStored(ToStored(p)) == p <==> p.phone.Some? && p.linkedinUrl.Some? && p.githubUrl.Some?
    ensures NormalizeStored(ToStored(p)).phone == Some(p.phone.GetOr(""))
    ensures NormalizeStored(ToStored(p)).linkedinUrl == Some(p.linkedinUrl.GetOr(""))
    ensures NormalizeStored(ToStored(p)).githubUrl == Some(p.githubUrl.GetOr(""))
  {
  }

  /** The `userProfile` key: `None` when nothing (or a falsy value) is stored. */
  class ProfileStore {
    var stored: Option<StoredObject>

    constructor (v: Option<StoredObject>)
      ensures stored == v
    {
      stored := v;
    }

    /** `getUserProfile`: reject on a runtime error, null when nothing is stored, else
        the normalised record. */
    method GetUserProfile(lastError: Option<string>) returns (r: Result<Option<BasicProfile>>)
      ensures lastError.Some? ==> r == Err(lastError.value)
      ensures lastError.None? && stored.None? ==> r == Ok(None)
      ensures lastError.None? && stored.Some? ==> r == Ok(Some(NormalizeStored(stored.value)))
    {
      if lastError.Some? {
        return Err(lastError.value);
      }
      if stored.None? {
        return Ok(None);
      }
      return Ok(Some(NormalizeStored(stored.value)));
    }

    /** `saveUserProfile`: store the profile, or reject with the runtime error (a failed
        write is taken to leave the key as it was). */
    method SaveUserProfile(profile: BasicProfile, lastError: Option<string>) returns (r: Result<()>)
      modifies this
      ensures lastError.Some? ==> r == Err(lastError.value) && stored == old(stored)
      ensures lastError.None? ==> r == Ok(()) && stored == Some(ToStored(profile))
    {
      if lastError.Some? {
        return Err(lastError.value);
      }
      stored := Some(ToStored(profile));
      return Ok(());
    }
  }

  /** Saving a profile whose optional fields are all set and reading it back gives it back. */
  method SaveThenRead(store: ProfileStore, p: BasicProfile) returns (r: Result<Option<BasicProfile>>)
    requires p.phone.Some? && p.linkedinUrl.Some? && p.githubUrl.Some?
    modifies store
    ensures r == Ok(Some(p))
  {
    var saved := store.SaveUserProfile(p, None);
    r := store.GetUserProfile(None);
    SaveThenReadRoundTrip(p);
  }
}
