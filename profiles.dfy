/**
 * The stored records (`UserProfile`, `ApplicationEntry` of src/storage/types.ts,
 * the smaller `UserProfile` of src/types/profile.ts) and the two ways the
 * extension composes a full name from them.
 */
module Profiles {
  import opened Wrappers
  import opened Strings

  /** The profile the autofill and the popup/options pages work with. Optional keys are `Option`s. */
  datatype UserProfile = UserProfile(
    firstName: string,
    lastName: string,
    email: string,
    phone: string,
    address: Option<string>,
    city: Option<string>,
    postalCode: Option<string>,
    linkedinUrl: Option<string>,
    githubUrl: Option<string>,
    websiteUrl: Option<string>,
    targetJobTitles: seq<string>,
    summary: Option<string>)

  /** A captured job posting as src/storage/storage.ts stores it. */
  datatype ApplicationEntry = ApplicationEntry(
    id: string,
    jobTitle: string,
    company: string,
    location: Option<string>,
    jobDescription: string,
    postingUrl: Option<string>,
    createdAt: string,
    tailoredResumeMetadataId: Option<string>)

  /** The profile of src/types/profile.ts, read and written by src/storage/profileStorage.ts. */
  datatype BasicProfile = BasicProfile(
    firstName: string,
    lastName: string,
    email: string,
    phone: Option<string>,
    linkedinUrl: Option<string>,
    githubUrl: Option<string>)

  /** `composeFullName`: drop empty parts, join with one space, trim the whole. */
  function ComposeFullName(p: UserProfile): (r: string)
    ensures Trimmed(r)
  {
    Trim(Join(NonEmpty([p.firstName, p.lastName]), " "))
  }

  /** Joining the non-empty ones of two parts with a separator. */
  lemma JoinNonEmptyPair(a: string, b: string, sep: string)
    ensures Join(NonEmpty([a, b]), sep) == if a == "" then b else if b == "" then a else a + sep + b
  {
    assert [a, b][1..] == [b];
    assert NonEmpty([b]) == if b == "" then [] else [b];
    if a != "" && b != "" {
      assert NonEmpty([a, b]) == [a, b];
      assert [a, b][1..] == [b];
    }
  }

  lemma JoinTwoTrimmed(a: string, b: string)
    requires a != "" && b != "" && Trimmed(a) && Trimmed(b)
    ensures Trimmed(a + " " + b)
  {
    assert (a + " " + b)[0] == a[0];
    assert (a + " " + b)[|a| + 1 + |b| - 1] == b[|b| - 1];
  }

  /** The cases of `composeFullName`. Only empty parts are dropped: a blank part is
      joined like any other and its whitespace disappears in the final trim only
      when it sits at an end. */
  lemma ComposeFullNameCases(p: UserProfile)
    ensures p.firstName == "" && p.lastName == "" ==> ComposeFullName(p) == ""
    ensures p.firstName == "" && p.lastName != "" ==> ComposeFullName(p) == Trim(p.lastName)
    ensures p.firstName != "" && p.lastName == "" ==> ComposeFullName(p) == Trim(p.firstName)
    ensures p.firstName != "" && p.lastName != "" ==>
      ComposeFullName(p) == Trim(p.firstName + " " + p.lastName)
    ensures p.firstName != "" && p.lastName != "" && Trimmed(p.firstName) && Trimmed(p.lastName) ==>
      ComposeFullName(p) == p.firstName + " " + p.lastName
  {
    JoinNonEmptyPair(p.firstName, p.lastName, " ");
    if p.firstName != "" && p.lastName != "" && Trimmed(p.firstName) && Trimmed(p.lastName) {
      JoinTwoTrimmed(p.firstName, p.lastName);
      TrimOfTrimmed(p.firstName + " " + p.lastName);
    }
  }

  /** A whitespace-only first name survives the filter and is removed by the trim. */
  lemma ComposeFullNameBlankFirst(p: UserProfile)
    requires p.firstName == "  " && p.lastName == "X"
    ensures ComposeFullName(p) == "X"
  {
    JoinNonEmptyPair(p.firstName, p.lastName, " ");
    assert Join(NonEmpty([p.firstName, p.lastName]), " ") == "   " + "X";
    TrimSpacePrefix("   ", "X");
    TrimOfTrimmed("X");
  }

  /** `getUserFullName`: trim each part, drop empty ones, join with one space. */
  function GetUserFullName(p: BasicProfile): (r: string)
    ensures Trimmed(r)
  {
    var first := Trim(p.firstName);
    var last := Trim(p.lastName);
    JoinNonEmptyPair(first, last, " ");
    if first != "" && last != "" then
      JoinTwoTrimmed(first, last);
      Join(NonEmpty([first, last]), " ")
    else Join(NonEmpty([first, last]), " ")
  }

  lemma GetUserFullNameCases(p: BasicProfile)
    ensures Trim(p.firstName) == "" && Trim(p.lastName) == "" ==> GetUserFullName(p) == ""
    ensures Trim(p.firstName) == "" && Trim(p.lastName) != "" ==> GetUserFullName(p) == Trim(p.lastName)
    ensures Trim(p.firstName) != "" && Trim(p.lastName) == "" ==> GetUserFullName(p) == Trim(p.firstName)
    ensures Trim(p.firstName) != "" && Trim(p.lastName) != "" ==>
      GetUserFullName(p) == Trim(p.firstName) + " " + Trim(p.lastName)
  {
    JoinNonEmptyPair(Trim(p.firstName), Trim(p.lastName), " ");
  }

  /** The two compositions agree on names that are already trimmed; they differ when
      inner whitespace is left on the parts (`composeFullName` keeps it). */
  lemma FullNamesAgreeOnTrimmedParts(p: UserProfile, q: BasicProfile)
    requires p.firstName == q.firstName && p.lastName == q.lastName
    requires Trimmed(p.firstName) && Trimmed(p.lastName)
    ensures ComposeFullName(p) == GetUserFullName(q)
  {
    TrimOfTrimmed(p.firstName);
    TrimOfTrimmed(p.lastName);
    ComposeFullNameCases(p);
  }

  /** `composeFullName` keeps whitespace that a part carries on its inner side ... */
  lemma ComposeKeepsInnerSpace(p: UserProfile)
    requires p.firstName == "Ada " && p.lastName == "Lovelace"
    ensures ComposeFullName(p) == "Ada  Lovelace"
  {
    JoinNonEmptyPair(p.firstName, p.lastName, " ");
    var joined := "Ada  Lovelace";
    assert Trimmed(joined);
    TrimOfTrimmed(joined);
  }

  /** ... while `getUserFullName` trims each part before joining. */
  lemma GetUserFullNameTrimsParts(q: BasicProfile)
    requires q.firstName == "Ada " && q.lastName == "Lovelace"
    ensures GetUserFullName(q) == "Ada Lovelace"
  {
    TrimStartOfTrimmed(q.firstName);
    assert TrimEnd(q.firstName) == TrimEnd("Ada");
    assert TrimEnd("Ada") == "Ada";
    assert Trim(q.firstName) == "Ada";
    assert Trimmed(q.lastName);
    TrimOfTrimmed(q.lastName);
    JoinNonEmptyPair("Ada", "Lovelace", " ");
  }
}
