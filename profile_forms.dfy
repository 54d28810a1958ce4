/**
 * The profile helpers of the popup (src/popup/Popup.tsx) and the options page
 * (src/options/Options.tsx): the comma-separated target-title field, the
 * normalisation of a stored profile that may still carry a legacy `fullName`,
 * and the profile the options page saves. Both pages define the same empty
 * profile and the same `normalizeProfile`; the model has one of each.
 */
module ProfileForms {
  import opened Wrappers
  import opened Strings
  import opened Profiles

  // ------------------------------------------------------------ target titles

  /** A title the parser can produce: non-empty, trimmed, without a comma. */
  predicate CleanTitle(t: string) {
    t != "" && Trimmed(t) && ',' !in t
  }

  /** `parseTargetTitles` (and the same chain in the options page's save handler):
      split on commas, trim each piece, drop the empty ones. */
  function ParseTargetTitles(input: string): (titles: seq<string>)
    ensures forall k :: 0 <= k < |titles| ==> CleanTitle(titles[k])
  {
    var pieces := Split(input, ',');
    var trimmed := TrimAll(pieces);
    var titles := NonEmpty(trimmed);
    forall k | 0 <= k < |titles| ensures CleanTitle(titles[k]) {
      NonEmptyMembers(trimmed, titles[k]);
      var j :| 0 <= j < |trimmed| && trimmed[j] == titles[k];
      TrimWithout(pieces[j], ',');
    }
    titles
  }

  /** `formatTargetTitles`: join with a comma and a space. */
  function FormatTargetTitles(titles: seq<string>): (s: string)
    ensures titles == [] ==> s == ""
  {
    Join(titles, ", ")
  }

  /** Parsing works piece by piece: the titles before a comma come first, in order. */
  lemma ParseConcat(a: string, b: string)
    ensures ParseTargetTitles(a + [','] + b) == ParseTargetTitles(a) + ParseTargetTitles(b)
  {
    SplitConcat(a, ',', b);
    TrimAllAppend(Split(a, ','), Split(b, ','));
    NonEmptyAppend(TrimAll(Split(a, ',')), TrimAll(Split(b, ',')));
  }

  /** Whitespace in front of the input changes nothing. */
  lemma ParseSpaceCons(c: char, s: string)
    requires IsSpace(c)
    ensures ParseTargetTitles([c] + s) == ParseTargetTitles(s)
  {
    var rest := Split(s, ',');
    SplitCons(c, s, ',');
    assert AllSpace([c]);
    TrimSpacePrefix([c], rest[0]);
    TrimAllAppend([[c] + rest[0]], rest[1..]);
    TrimAllAppend([rest[0]], rest[1..]);
    assert rest == [rest[0]] + rest[1..];
  }

  /** Only commas and whitespace: no titles. In particular the empty input gives none. */
  lemma {:induction false} ParseBlank(s: string)
    requires forall i :: 0 <= i < |s| ==> s[i] == ',' || IsSpace(s[i])
    ensures ParseTargetTitles(s) == []
    decreases |s|
  {
    if |s| == 0 {
      assert TrimAll([""]) == [""];
    } else {
      ParseBlank(s[1..]);
      if s[0] == ',' {
        ParseBlank("");
        ParseConcat("", s[1..]);
        assert "" + [','] + s[1..] == s;
      } else {
        ParseSpaceCons(s[0], s[1..]);
        assert [s[0]] + s[1..] == s;
      }
    }
  }

  /** A single clean title parses to itself. */
  lemma ParseOneTitle(t: string)
    requires CleanTitle(t)
    ensures ParseTargetTitles(t) == [t]
  {
    SplitWithout(t, ',');
    TrimOfTrimmed(t);
  }

  /** Round trip: formatting clean titles and parsing the text gives the titles back. */
  lemma {:induction false} FormatThenParse(titles: seq<string>)
    requires forall k :: 0 <= k < |titles| ==> CleanTitle(titles[k])
    ensures ParseTargetTitles(FormatTargetTitles(titles)) == titles
  {
    if |titles| == 0 {
      ParseBlank("");
    } else if |titles| == 1 {
      ParseOneTitle(titles[0]);
    } else {
      var t := titles[0];
      var rest := titles[1..];
      FormatThenParse(rest);
      ParseOneTitle(t);
      var tail := FormatTargetTitles(rest);
      assert FormatTargetTitles(titles) == t + [','] + ([' '] + tail);
      ParseConcat(t, [' '] + tail);
      ParseSpaceCons(' ', tail);
      assert [t] + rest == titles;
    }
  }

  /** Parsed titles are in normal form: formatting and parsing them again changes nothing. */
  lemma ParseFormatParse(input: string)
    ensures ParseTargetTitles(FormatTargetTitles(ParseTargetTitles(input))) == ParseTargetTitles(input)
  {
    FormatThenParse(ParseTargetTitles(input));
  }

  // ------------------------------------------------------------ the saved profile

  /** `nextProfile` of the options page: the profile with its titles re-read from the field. */
  function NextProfile(profile: UserProfile, targetTitlesInput: string): (next: UserProfile)
    ensures next.targetJobTitles == ParseTargetTitles(targetTitlesInput)
    ensures next.(targetJobTitles := profile.targetJobTitles) == profile
  {
    profile.(targetJobTitles := ParseTargetTitles(targetTitlesInput))
  }

  /** Saving the form as loaded (the titles formatted into the field) keeps the profile. */
  lemma SaveUneditedForm(profile: UserProfile)
    requires forall k :: 0 <= k < |profile.targetJobTitles| ==> CleanTitle(profile.targetJobTitles[k])
    ensures NextProfile(profile, FormatTargetTitles(profile.targetJobTitles)) == profile
  {
    FormatThenParse(profile.targetJobTitles);
  }

  // ------------------------------------------------------------ normalisation

  /** `emptyProfile` / `defaultProfile`: every listed key is `""`, no titles, no summary. */
  const EmptyProfile: UserProfile :=
    UserProfile("", "", "", "", Some(""), Some(""), Some(""), Some(""), Some(""), Some(""), [], None)

  /** A stored profile as the pages read it: any key may be missing (`None`), and an old
      profile may carry `fullName`. */
  datatype StoredProfile = StoredProfile(
    firstName: Option<string>,
    lastName: Option<string>,
    email: Option<string>,
    phone: Option<string>,
    address: Option<string>,
    city: Option<string>,
    postalCode: Option<string>,
    linkedinUrl: Option<string>,
    githubUrl: Option<string>,
    websiteUrl: Option<string>,
    targetJobTitles: Option<seq<string>>,
    summary: Option<string>,
    fullName: Option<string>)

  /** The words of a legacy full name: split on single spaces, empty pieces dropped. */
  function LegacyWords(stored: StoredProfile): seq<string> {
    NonEmpty(Split(stored.fullName.GetOr(""), ' '))
  }

  /** `normalizeProfile`: nothing stored gives the empty profile; otherwise the stored keys
      over the empty profile, with first and last name taken from the legacy full name
      (first word; the other words joined by one space) when they are missing. */
  function NormalizeProfile(stored: Option<StoredProfile>): (p: UserProfile)
    ensures stored.None? ==> p == EmptyProfile
    ensures stored.Some? ==> p.address.Some? && p.city.Some? && p.postalCode.Some?
    ensures stored.Some? ==> p.linkedinUrl.Some? && p.githubUrl.Some? && p.websiteUrl.Some?
  {
    match stored
    case None => EmptyProfile
    case Some(s) =>
      var words := LegacyWords(s);
      var legacyFirst := if |words| > 0 then Some(words[0]) else None;
      var legacyRest := if |words| > 0 then words[1..] else [];
      UserProfile(
        s.firstName.GetOr(legacyFirst.GetOr("")),
        s.lastName.GetOr(Join(legacyRest, " ")),
        s.email.GetOr(""),
        s.phone.GetOr(""),
        Some(s.address.GetOr("")),
        Some(s.city.GetOr("")),
        Some(s.postalCode.GetOr("")),
        Some(s.linkedinUrl.GetOr("")),
        Some(s.githubUrl.GetOr("")),
        Some(s.websiteUrl.GetOr("")),
        s.targetJobTitles.GetOr([]),
        s.summary)
  }

  /** A stored first or last name wins over the legacy full name, even when it is `""`. */
  lemma StoredNamesWin(s: StoredProfile)
    ensures s.firstName.Some? ==> NormalizeProfile(Some(s)).firstName == s.firstName.value
    ensures s.lastName.Some? ==> NormalizeProfile(Some(s)).lastName == s.lastName.value
    ensures s.firstName.None? && s.lastName.None? && s.fullName.None? ==>
      NormalizeProfile(Some(s)).firstName == "" && NormalizeProfile(Some(s)).lastName == ""
  {
    if s.fullName.None? {
      assert LegacyWords(s) == [] by {
        assert Split("", ' ') == [""];
      }
    }
  }

  /** Every other key is copied when stored and otherwise takes the empty profile's
      value; the summary is copied as it is, present or not. */
  lemma NormalizeOverEmpty(s: StoredProfile)
    ensures var p := NormalizeProfile(Some(s));
      && p.email == (if s.email.Some? then s.email.value else EmptyProfile.email)
      && p.phone == (if s.phone.Some? then s.phone.value else EmptyProfile.phone)
      && p.address == (if s.address.Some? then s.address else EmptyProfile.address)
      && p.city == (if s.city.Some? then s.city else EmptyProfile.city)
      && p.postalCode == (if s.postalCode.Some? then s.postalCode else EmptyProfile.postalCode)
      && p.linkedinUrl == (if s.linkedinUrl.Some? then s.linkedinUrl else EmptyProfile.linkedinUrl)
      && p.githubUrl == (if s.githubUrl.Some? then s.githubUrl else EmptyProfile.githubUrl)
      && p.websiteUrl == (if s.websiteUrl.Some? then s.websiteUrl else EmptyProfile.websiteUrl)
      && p.targetJobTitles == (if s.targetJobTitles.Some? then s.targetJobTitles.value else EmptyProfile.targetJobTitles)
      && p.summary == s.summary
  {
  }

  lemma {:induction false} JoinStartsWithFirst(ws: seq<string>, sep: string)
    requires |ws| >= 1
    ensures |Join(ws, sep)| >= |ws[0]|
  {
  }

  /** A legacy full name made of words separated by single spaces comes apart into its
      first word and the rest, and `composeFullName` puts it back together. */
  lemma LegacyFullNameSplits(s: StoredProfile, words: seq<string>)
    requires |words| >= 1
    requires forall k :: 0 <= k < |words| ==> words[k] != "" && ' ' !in words[k]
    requires s.firstName.None? && s.lastName.None? && s.fullName == Some(Join(words, " "))
    ensures NormalizeProfile(Some(s)).firstName == words[0]
    ensures NormalizeProfile(Some(s)).lastName == Join(words[1..], " ")
    ensures Trimmed(Join(words, " ")) ==> ComposeFullName(NormalizeProfile(Some(s))) == Join(words, " ")
  {
    SplitJoin(words, ' ');
    NonEmptyKeepsAll(words);
    assert LegacyWords(s) == words;
    var p := NormalizeProfile(Some(s));
    if Trimmed(Join(words, " ")) {
      ComposeFullNameCases(p);
      TrimOfTrimmed(Join(words, " "));
      if |words| > 1 {
        JoinStartsWithFirst(words[1..], " ");
      }
    }
  }

  /** A stored profile in the current shape: every key present, no legacy full name. */
  function AsStored(p: UserProfile): (s: StoredProfile)
    ensures s.fullName.None? && s.firstName == Some(p.firstName) && s.lastName == Some(p.lastName)
  {
    StoredProfile(Some(p.firstName), Some(p.lastName), Some(p.email), Some(p.phone), p.address, p.city,
      p.postalCode, p.linkedinUrl, p.githubUrl, p.websiteUrl, Some(p.targetJobTitles), p.summary, None)
  }

  /** Normalising a profile of the current shape gives it back exactly when its optional
      address and link keys are present; normalisation is therefore idempotent. */
  lemma NormalizeCurrentProfile(p: UserProfile)
    ensures NormalizeProfile(Some(AsStored(p))) == p <==>
      p.address.Some? && p.city.Some? && p.postalCode.Some? &&
      p.linkedinUrl.Some? && p.githubUrl.Some? && p.websiteUrl.Some?
  {
  }

  lemma NormalizeIdempotent(stored: Option<StoredProfile>)
    ensures NormalizeProfile(Some(AsStored(NormalizeProfile(stored)))) == NormalizeProfile(stored)
  {
    NormalizeCurrentProfile(NormalizeProfile(stored));
  }
}
