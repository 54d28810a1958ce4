# nextep-extension core, modelled in Dafny

This project models the logic core of the nextep browser extension:

- It detects the fields of a job-application form and fills them from the user's stored profile.
- It captures a job posting from the page the user is reading.
- It keeps the captured applications and the profile in `chrome.storage.local`.

The model has one Dafny module per concern:

| module | file | models |
|---|---|---|
| `Wrappers` | wrappers.dfy | `Option` (a value that may be `undefined`) and `Result` (a promise that resolves or rejects with an error message) |
| `Strings` | strings.dfy | the JavaScript string built-ins the core uses: `trim` with its white-space set, `split`, `join`, ASCII case folding for `/i` patterns, and `<` on strings |
| `Ranking` | ranking.dfy | `Array.prototype.sort` with a comparator, as a stable insertion sort with proved permutation, order and stability |
| `Profiles` | profiles.dfy | the two profile shapes, the application entry of the storage layer, `composeFullName` and `getUserFullName` |
| `FieldDetection` | field_detection.dfy | the `FIELD_PATTERNS` table, `computeScore`, `getLabelText`, `findFormFields` and `getValueForField` |
| `Autofill` | autofill.dfy | `applyValue`, `ensureHighlightStyle` and `autofillForm`, as a `Page` class whose array of form controls is written in place |
| `PostingExtractor` | posting_extractor.dfy | `extractJobPostingFromDom`, `pickText`, `documentTitleFallback` and `normalizeWhitespace` |
| `EntryStore` | entry_store.dfy | the typed store of `storage.ts`: one slot per storage key, and find, upsert and delete by id on the entry list |
| `ApplicationEntries` | application_entries.dfy | capturing, listing, updating, deleting and replacing entries through that store |
| `ApplicationStorage` | application_storage.dfy | the newest-first entry list of `applicationStorage.ts`, whose callbacks check `chrome.runtime.lastError` |
| `ProfileStorage` | profile_storage.dfy | the six-field profile of `profileStorage.ts`, read back with every key defaulted |
| `ProfileForms` | profile_forms.dfy | the popup's and the options page's helpers: the comma-separated target-title field, `normalizeProfile` with its legacy `fullName`, and `nextProfile` |

The DOM is abstracted.

- A form control is a record with these fields:
  - its tag and type;
  - whether it is disabled;
  - name, id and aria-label;
  - placeholder and label texts;
  - the options of a select;
  - its current value.
- A detection names its control by position in the document.
- A page, as the posting extractor sees it, maps each selector to the text of its first match, and carries the document title.

Several stateful pieces are Dafny classes with `modifies` clauses:

- the store: `EntryStore.ExtensionStorage`, `ApplicationStorage.ApplicationStore`, `ProfileStorage.ProfileStore`;
- the page being filled: `Autofill.Page`.

The loops of `computeScore`, `findFormFields` and `autofillForm` are methods with loop invariants. Each is proved equal to a specification function, and the properties are proved as lemmas about that function.

Some behaviours of the code are easy to miss, and the model keeps them:

- `composeFullName` returns `""` when both names are empty. The autofill pass skips that value, because `!value` holds for `""`.
- Setting `.value` of a file input to a non-empty string throws an `InvalidStateError`. The file input is not filtered out by `findFormFields`, and `autofillForm` has no `try`/`catch`. So the pass stops at the first detection whose write throws. It dispatches no events for that detection and returns no result, and the writes before it stay on the page (`Autofill.FirstThrow`, `Autofill.Page.FillDetected`).
- Detections are not deduplicated per control. When several fields match one control, every fillable one is written, and the last write wins (`Autofill.LastWriteWins`).
  - A control named `first_name` also scores for `fullName`, because `/name/` matches it (`FieldDetection.FirstNameAlsoFullName`).
  - A control named `email_address` also scores for `address`, because `/address/` matches it.
- A posting page whose only hit is an `h1` yields `""` for company and description (`PostingExtractor.OnlyHeading`).
- `storage.ts`, `applicationStorage.ts` and `profileStorage.ts` use the same storage keys (`userProfile`, `applicationEntries`) with different record shapes. The model gives each layer its own store.

## Model

| member | source | states |
|---|---|---|
| Profiles.ComposeFullName | src/storage/types.ts:36-38 | the composed full name never starts or ends with white space |
| Profiles.ComposeFullNameCases | src/storage/types.ts:37 | both parts empty gives `""`; one empty part gives the other part trimmed; two non-empty parts give the trim of `first + " " + last`, which is exactly that string when both parts are trimmed |
| Profiles.ComposeFullNameBlankFirst | src/storage/types.ts:37 | a blank first name survives the empty-part filter and is removed by the final trim |
| Profiles.ComposeKeepsInnerSpace | src/storage/types.ts:37 | white space on the inner side of a part is kept, e.g. `"Ada "` + `"Lovelace"` gives two spaces between the words |
| Profiles.GetUserFullName | src/types/profile.ts:22-26 | the full name never starts or ends with white space |
| Profiles.GetUserFullNameCases | src/types/profile.ts:23-25 | each part is trimmed first; blank parts are dropped; two remaining parts are joined by one space |
| Profiles.GetUserFullNameTrimsParts | src/types/profile.ts:23-25 | `"Ada "` + `"Lovelace"` gives `"Ada Lovelace"` with one space |
| Profiles.FullNamesAgreeOnTrimmedParts | src/storage/types.ts:36-38 | the two full-name functions agree whenever both parts are already trimmed |
| FieldDetection.RowOf | src/logic/fieldDetection.ts:22-34 | every field identifier has a row in the pattern table |
| FieldDetection.RowOfRow | src/logic/fieldDetection.ts:22-34 | every row holds a distinct field, so the table rows and the fields correspond one to one |
| FieldDetection.MatchesSomewhere | src/logic/fieldDetection.ts:49-53 | `pattern.test(s)` holds exactly when a match of the pattern begins at some position of `s` |
| FieldDetection.JoinLabelsIsJoin | src/logic/fieldDetection.ts:61-76 | the label text is the label texts, each trimmed, with blank ones dropped, joined by one space |
| FieldDetection.Signals | src/logic/fieldDetection.ts:40-47 | a control yields at most five signals, none of them empty |
| FieldDetection.ScoreExtremes | src/logic/fieldDetection.ts:48-55 | a score is 0 exactly when no signal matches any pattern of the row, and full exactly when every signal matches one |
| FieldDetection.ScoreFor | src/logic/fieldDetection.ts:39-56 | a score lies between 0 and the number of signals, which is at most 5 |
| FieldDetection.MatchesAnyPattern | src/logic/fieldDetection.ts:49-53 | the reduce callback's test holds exactly when some pattern of the row matches the signal |
| FieldDetection.ComputeScore | src/logic/fieldDetection.ts:39-56 | the loop counts exactly the signals that some pattern matches |
| FieldDetection.CandidateIndices | src/logic/fieldDetection.ts:82-84 | the considered positions are in range, in increasing document order, and each holds an enabled, non-hidden control |
| FieldDetection.CandidateIndicesMember | src/logic/fieldDetection.ts:82-84 | a position is considered exactly when its control is enabled and not hidden |
| FieldDetection.DetectControl | src/logic/fieldDetection.ts:89-94 | the inner loop pushes one detection per table row with a positive score, in table order |
| FieldDetection.RowDetectionsMember | src/logic/fieldDetection.ts:89-94 | a pair is pushed for a control exactly when its row is visited and its score is positive |
| FieldDetection.RowDetectionsOrdered | src/logic/fieldDetection.ts:89-94 | the pairs pushed for one control all name that control and follow table order |
| FieldDetection.EmittedMember | src/logic/fieldDetection.ts:88-95 | a pair is emitted exactly when it belongs to one of the visited controls and has a positive score |
| FieldDetection.FindFormFields | src/logic/fieldDetection.ts:81-99 | the filter, the two loops and the sort produce exactly the ranked detections |
| FieldDetection.DetectionsMember | src/logic/fieldDetection.ts:81-99 | a pair is detected exactly when its control is an enabled, non-hidden control of the document and its score is that control's positive score for the field |
| FieldDetection.DetectionsInRange | src/logic/fieldDetection.ts:81-99 | every detection names a control of the document |
| FieldDetection.EmittedOrdered | src/logic/fieldDetection.ts:88-95 | before the sort, detections come in document order, then table order |
| FieldDetection.EmissionInOrder | src/logic/fieldDetection.ts:88-95 | the unsorted `detected` array is ordered by control position, then table row |
| FieldDetection.ScoreAboveIsStrictWeakOrder | src/logic/fieldDetection.ts:97 | the comparator `b.score - a.score` is a strict weak order |
| FieldDetection.ScoreBandIsEquivalents | src/logic/fieldDetection.ts:97 | the detections with one score are exactly the comparator's equivalence class for that score |
| FieldDetection.DetectionsRanked | src/logic/fieldDetection.ts:97 | the result is a permutation of the emitted detections, in non-increasing score order, and detections with equal scores keep their emission order |
| FieldDetection.NoSignalsNoDetection | src/logic/fieldDetection.ts:39-56 | a control with no name, id, aria-label, placeholder or label text is never detected |
| FieldDetection.ScorePositive | src/logic/fieldDetection.ts:48-55 | one matching signal makes the score positive |
| FieldDetection.EmailNameScores | src/logic/fieldDetection.ts:26 | a control named `email` scores for the email row |
| FieldDetection.FirstNameAlsoFullName | src/logic/fieldDetection.ts:23-25 | a control whose only signal is the name `first_name` is detected as both first name and full name, with score 1 each |
| FieldDetection.ValueForField | src/logic/fieldDetection.ts:104-113 | `fullName` gives the composed full name; every other field gives the profile's value for its key, which for an optional key is `undefined` when unset |
| Autofill.FirstMatchFrom | src/logic/autofillEngine.ts:34-36 | the search of `find` stops at the first option, from the given position on, whose value or text is sought, or at the end when there is none |
| Autofill.FirstMatchingOption | src/logic/autofillEngine.ts:34-36 | the option found has the value or the text sought, and no option before it has either; there is none exactly when no option has either |
| Autofill.Apply | src/logic/autofillEngine.ts:31-47 | a write that does not throw changes the control's value and nothing else about it |
| Autofill.ApplyText | src/logic/autofillEngine.ts:42-44 | an input or textarea takes the value as given when the write does not throw (the browser's value sanitisation is left out) |
| Autofill.ApplySelectMatched | src/logic/autofillEngine.ts:37-38 | a select takes the value of the first option whose value or text matches |
| Autofill.ApplySelectUnmatched | src/logic/autofillEngine.ts:39-41 | a select with no matching option is left with no selection, value `""` |
| Autofill.ApplyTwice | src/logic/autofillEngine.ts:31-47 | a second write overrides the first |
| Autofill.Written | src/logic/autofillEngine.ts:58-69 | a pass keeps the number of controls |
| Autofill.FilledSkippedPartition | src/logic/autofillEngine.ts:58-69 | every detection is filled or skipped, never both, and two events are dispatched per filled field |
| Autofill.FilledValuesFromProfile | src/logic/autofillEngine.ts:59-67 | a filled field carries the profile's non-empty value for that field; a skipped field has no usable value |
| Autofill.EventsPaired | src/logic/autofillEngine.ts:58-69 | the k-th filled detection is a detection of the pass with a usable value; it is the k-th entry of `filledFields`, and the k-th pair of events is `input` then `change` on its own control |
| Autofill.LastWriteWins | src/logic/autofillEngine.ts:58-69 | after the pass a control holds the value last written into it, or its old value if none was written |
| Autofill.FirstThrow | src/logic/autofillEngine.ts:58-69 | the pass stops at the first detection with a usable value whose control is a file input, or runs to the end when there is none |
| Autofill.NoFileInputCompletes | src/logic/autofillEngine.ts:58-69 | on a page without file inputs the pass runs over every detection |
| Autofill.WrittenKeepsKind | src/logic/autofillEngine.ts:31-47 | the writes of a pass change only values, so whether a later write throws is decided by the controls as they were |
| Autofill.Page.EnsureHighlightStyle | src/logic/autofillEngine.ts:12-26 | afterwards an element with the style id exists, and one is added only when none existed |
| Autofill.Page.ApplyValue | src/logic/autofillEngine.ts:31-47 | a non-empty write into a file input throws and leaves the page unchanged with no events; otherwise exactly the one control is rewritten, and `input` then `change` are appended to the event log |
| Autofill.Page.FillStep | src/logic/autofillEngine.ts:64-67 | the write of one round throws exactly at the stopping point of the pass, and otherwise extends the pass by one detection |
| Autofill.Page.FillDetected | src/logic/autofillEngine.ts:58-69 | the page is left as the writes before the stopping point leave it, with their events. The loop returns the filled and skipped lists when it reaches the end, and otherwise fails with `InvalidStateError` |
| Autofill.Page.AutofillForm | src/logic/autofillEngine.ts:52-72 | the style is ensured, and the fields are detected on the controls as they were. The pass over those detections gives the result, or the exception of the first throwing write |
| PostingExtractor.PickText | src/logic/jobPostingExtractor.ts:40-47 | a picked text is non-empty and trimmed |
| PostingExtractor.PickTextFirstHit | src/logic/jobPostingExtractor.ts:41-46 | nothing is picked exactly when no selector hits a non-blank text; otherwise the text is the trimmed text of the first selector that does |
| PostingExtractor.SkipSpace | src/logic/jobPostingExtractor.ts:51 | `\s*` consumes the longest run of white space |
| PostingExtractor.MatchAtIsPattern | src/logic/jobPostingExtractor.ts:51 | a match of `\s*[class].*$` at a position is white space, then a separator, then no line terminator up to the end |
| PostingExtractor.FirstMatch | src/logic/jobPostingExtractor.ts:51 | the match used is the leftmost one, and there is none exactly when no position matches |
| PostingExtractor.StripSeparatorTail | src/logic/jobPostingExtractor.ts:51 | the replacement leaves a prefix of the title |
| PostingExtractor.DocumentTitleFallbackAsWritten | src/logic/jobPostingExtractor.ts:49-52 | the fallback, with the separator class as written, gives a trimmed string |
| PostingExtractor.DocumentTitleFallback | src/logic/jobPostingExtractor.ts:49-52 | the fallback, with the intended separator class, gives a trimmed string |
| PostingExtractor.CutAtFirstSeparator | src/logic/jobPostingExtractor.ts:51 | a title whose first separator is followed by one line gives the trimmed text before that separator |
| PostingExtractor.NoSeparatorOnlyTrims | src/logic/jobPostingExtractor.ts:51 | a title with no separator is only trimmed |
| PostingExtractor.FallbackCutsAtBullet | src/logic/jobPostingExtractor.ts:51 | `Engineer • Acme` falls back to `Engineer` |
| PostingExtractor.AsWrittenKeepsBullet | src/logic/jobPostingExtractor.ts:51 | as written, `Engineer • Acme` is kept whole |
| PostingExtractor.AsWrittenCutsAccentedWord | src/logic/jobPostingExtractor.ts:51 | as written, `Pâtissier - Bakery` is cut to `P` |
| PostingExtractor.FallbackKeepsAccentedWord | src/logic/jobPostingExtractor.ts:51 | `Pâtissier - Bakery` falls back to `Pâtissier` |
| PostingExtractor.CollapseSingleSpaced | src/logic/jobPostingExtractor.ts:55 | after `replace(/\s+/g, " ")` every white-space character is a `' '` that is never followed by another white-space character |
| PostingExtractor.CollapseOfSingleSpaced | src/logic/jobPostingExtractor.ts:55 | the replacement leaves single-spaced text unchanged |
| PostingExtractor.NormalizeWhitespace | src/logic/jobPostingExtractor.ts:54-56 | the result is trimmed and single-spaced |
| PostingExtractor.VisibleCollapse | src/logic/jobPostingExtractor.ts:55 | collapsing white-space runs keeps every other character, in order |
| PostingExtractor.VisibleTrim | src/logic/jobPostingExtractor.ts:55 | `trim` keeps every character that is not white space, in order |
| PostingExtractor.NormalizeKeepsVisible | src/logic/jobPostingExtractor.ts:54-56 | normalising keeps every character that is not white space, in order; only white space is removed or replaced |
| PostingExtractor.NormalizeFixesNormal | src/logic/jobPostingExtractor.ts:54-56 | text that is already trimmed and single-spaced is unchanged |
| PostingExtractor.NormalizeIdempotent | src/logic/jobPostingExtractor.ts:54-56 | normalising twice is normalising once |
| PostingExtractor.ExtractJobPosting | src/logic/jobPostingExtractor.ts:5-38 | the extracted title and company are trimmed, and the description is trimmed and single-spaced; what each attribute is, on a hit and without one, is stated by `PostingExtractor.ExtractFallbacks` |
| PostingExtractor.ExtractJobPostingAsWritten | src/logic/jobPostingExtractor.ts:5-38 | the extraction as written agrees with the intended one on company and description, and also on the title whenever a title selector hits |
| PostingExtractor.CaptureKeepsBulletAsWritten | src/logic/jobPostingExtractor.ts:13 | with no title hit and the document title `Engineer • Acme`, the extraction as written captures the whole title and the intended one captures `Engineer` |
| PostingExtractor.ExtractFallbacks | src/logic/jobPostingExtractor.ts:6-36 | each attribute is the first non-blank hit of its selectors: the title and the company as picked (trimmed), the description normalised. A picked title wins over the document title; with no hit, the title falls back to the intended document-title fallback, and company and description fall back to `""` |
| PostingExtractor.OnlyHeading | src/logic/jobPostingExtractor.ts:5-38 | a page whose only hit is an `h1` yields its trimmed text as title and `""` as company and description |
| EntryStore.FindIndex | src/storage/storage.ts:88 | a found index holds an entry with the id, and no earlier entry has it |
| EntryStore.FindIndexNone | src/storage/storage.ts:88 | `findIndex` answers -1 exactly when no entry has the id |
| EntryStore.FindByIdFirst | src/storage/storage.ts:78-81 | `find` gives the first entry with the id, and `undefined` exactly when there is none |
| EntryStore.UpsertReplaces | src/storage/storage.ts:88-91 | with the id present, the first entry with it is overwritten in place and the length is kept |
| EntryStore.UpsertAppends | src/storage/storage.ts:92-94 | with the id absent, the entry is pushed at the end |
| EntryStore.UpsertThenFind | src/storage/storage.ts:86-95 | after an upsert, looking the id up gives the upserted entry |
| EntryStore.UpsertKeepsIdsUnique | src/storage/storage.ts:86-95 | an upsert keeps the ids unique, and the one entry with the id is the new one |
| EntryStore.WithoutId | src/storage/storage.ts:102 | the filter never lengthens the list and leaves no entry with the id |
| EntryStore.WithoutIdMembers | src/storage/storage.ts:100-104 | an entry is kept exactly when it was stored and has another id |
| EntryStore.WithoutIdAppend | src/storage/storage.ts:100-104 | the filter keeps the order, working segment by segment |
| EntryStore.WithoutAbsentId | src/storage/storage.ts:100-104 | deleting an absent id leaves the list unchanged |
| EntryStore.ExtensionStorage.Entries | src/storage/storage.ts:63-66 | with nothing stored, the entries read as `[]` |
| EntryStore.ExtensionStorage.GetUserProfile | src/storage/storage.ts:35-37 | reads the profile slot |
| EntryStore.ExtensionStorage.SaveUserProfile | src/storage/storage.ts:42-44 | writes the profile slot and no other |
| EntryStore.ExtensionStorage.GetGeneralResumeText | src/storage/storage.ts:49-51 | reads the resume slot |
| EntryStore.ExtensionStorage.SaveGeneralResumeText | src/storage/storage.ts:56-58 | writes the resume slot and no other |
| EntryStore.ExtensionStorage.GetApplicationEntries | src/storage/storage.ts:63-66 | the stored list, or `[]` when nothing is stored |
| EntryStore.ExtensionStorage.SaveApplicationEntries | src/storage/storage.ts:71-73 | writes the list as given and no other slot |
| EntryStore.ExtensionStorage.GetApplicationEntryById | src/storage/storage.ts:78-81 | the first stored entry with the id |
| EntryStore.ExtensionStorage.UpsertApplicationEntry | src/storage/storage.ts:86-95 | the stored list becomes the upserted list, and the other slots are unchanged |
| EntryStore.ExtensionStorage.DeleteApplicationEntry | src/storage/storage.ts:100-104 | the stored list becomes the entries with another id |
| EntryStore.ExtensionStorage.ClearAllData | src/storage/storage.ts:109-111 | all three slots are emptied |
| EntryStore.ClearThenRead | src/storage/storage.ts:109-111 | after clearing, the profile and resume read as `undefined` and the entries as `[]` |
| ApplicationEntries.PartialOf | src/logic/applicationEntries.ts:25 | the extracted posting sets title, company and description, and neither location nor posting URL |
| ApplicationEntries.EntryFromPartial | src/logic/applicationEntries.ts:26-34 | the new entry takes the given id and timestamp; each `??` default applies only to a missing key; the posting URL defaults to the page URL; there is no tailored-resume id |
| ApplicationEntries.CapturedEntryFields | src/logic/applicationEntries.ts:25-34 | an extracted empty title or company is kept, not defaulted; title and company are trimmed; the posting URL is the page URL; no location is set |
| ApplicationEntries.CreateApplicationEntryFromPage | src/logic/applicationEntries.ts:24-37 | the entry returned is the one built from the page; it is upserted, and afterwards the store finds it by its id |
| ApplicationEntries.Newer | src/logic/applicationEntries.ts:44 | the comparator puts `a` first exactly when `a`'s time is later |
| ApplicationEntries.NewerIsStrictWeakOrder | src/logic/applicationEntries.ts:44 | that comparator is a strict weak order |
| ApplicationEntries.ListApplicationEntries | src/logic/applicationEntries.ts:42-45 | the listing is the stored entries sorted by that comparator, and the store is not written |
| ApplicationEntries.ListingIsNewestFirst | src/logic/applicationEntries.ts:42-45 | the listing is a permutation of the stored entries, newest first, and entries with the same time keep their stored order |
| ApplicationEntries.MergeLaws | src/logic/applicationEntries.ts:58 | merging the empty update changes nothing; a key the update sets takes the update's value, even `undefined`; merging the same update twice is merging once |
| ApplicationEntries.UpdateApplicationEntry | src/logic/applicationEntries.ts:50-61 | an unknown id writes nothing and returns `undefined`; otherwise the merged entry is upserted and returned |
| ApplicationEntries.UpdateInPlace | src/logic/applicationEntries.ts:58-59 | an update that keeps the id replaces the entry at its index |
| ApplicationEntries.UpdateRenamingAppends | src/logic/applicationEntries.ts:58-59 | an update that changes the id to an unused one appends the merged entry and leaves the old one stored |
| ApplicationEntries.DeleteApplicationEntry | src/logic/applicationEntries.ts:66-68 | the store keeps the entries with another id |
| ApplicationEntries.ReplaceApplicationEntries | src/logic/applicationEntries.ts:73-75 | the store holds the given list |
| ApplicationStorage.StoredEntries | src/storage/applicationStorage.ts:16-17 | a stored value that is not an array reads as `[]` |
| ApplicationStorage.AfterIsStrictWeakOrder | src/storage/applicationStorage.ts:19 | "later `createdAt` first", read from the comparator, is a strict weak order |
| ApplicationStorage.SortNewestFirst | src/storage/applicationStorage.ts:19 | the sorted entries are a permutation with non-increasing `createdAt` |
| ApplicationStorage.ApplicationStore.GetApplicationEntries | src/storage/applicationStorage.ts:8-23 | rejects with the runtime error; otherwise resolves to the stored entries, newest first |
| ApplicationStorage.ApplicationStore.SaveApplicationEntries | src/storage/applicationStorage.ts:28-35 | stores the list, or rejects and leaves the store as it was |
| ApplicationStorage.ApplicationStore.AddApplicationEntry | src/storage/applicationStorage.ts:40-44 | on success the new entry is first and the old entries follow, newest first; there is no deduplication by id; either failure rejects with its error |
| ApplicationStorage.ApplicationStore.ClearApplicationEntries | src/storage/applicationStorage.ts:49-51 | stores the empty list, or rejects |
| ProfileStorage.FieldOr | src/storage/profileStorage.ts:28-33 | a stored key gives its value, and a missing one gives `""` |
| ProfileStorage.NormalizeStored | src/storage/profileStorage.ts:27-34 | every optional key of the record read back is set |
| ProfileStorage.NormalizeIgnoresOtherKeys | src/storage/profileStorage.ts:27-34 | stored objects that agree on the six keys read back the same |
| ProfileStorage.ToStored | src/storage/profileStorage.ts:46-51 | the saved object holds only profile keys. The three required ones are always there with the profile's values; each optional one (`phone`, `linkedinUrl`, `githubUrl`) is there exactly when it is set, with its value |
| ProfileStorage.SaveThenReadRoundTrip | src/storage/profileStorage.ts:12-61 | save then read gives the profile back exactly when its three optional fields are set; an unset one reads back as `""` |
| ProfileStorage.ProfileStore.GetUserProfile | src/storage/profileStorage.ts:12-39 | rejects with the runtime error; resolves to `null` when nothing is stored; otherwise resolves to the normalised record |
| ProfileStorage.ProfileStore.SaveUserProfile | src/storage/profileStorage.ts:46-61 | stores the profile, or rejects and leaves the key as it was |
| ProfileStorage.SaveThenRead | src/storage/profileStorage.ts:12-61 | saving a profile with every field set, then reading, resolves to that profile |
| ProfileForms.ParseTargetTitles | src/popup/Popup.tsx:37-42 | every parsed title is non-empty, trimmed and free of commas |
| ProfileForms.FormatTargetTitles | src/options/Options.tsx:29-31 | no titles format as `""` |
| ProfileForms.ParseConcat | src/popup/Popup.tsx:38-41 | parsing splits at each comma: the titles before it come first, in order |
| ProfileForms.ParseSpaceCons | src/popup/Popup.tsx:38-41 | leading white space does not change the titles |
| ProfileForms.ParseBlank | src/popup/Popup.tsx:38-41 | input made only of commas and white space, the empty input included, gives no titles |
| ProfileForms.ParseOneTitle | src/popup/Popup.tsx:38-41 | a single clean title parses to itself |
| ProfileForms.FormatThenParse | src/options/Options.tsx:29-31 | formatting clean titles and parsing the text gives the same titles back |
| ProfileForms.ParseFormatParse | src/options/Options.tsx:84-87 | parsed titles survive format-then-parse unchanged |
| ProfileForms.NextProfile | src/options/Options.tsx:82-88 | the saved profile has the parsed titles and is otherwise the edited profile |
| ProfileForms.SaveUneditedForm | src/options/Options.tsx:82-88 | saving the form with its titles field untouched keeps the profile |
| ProfileForms.NormalizeProfile | src/popup/Popup.tsx:47-60 | nothing stored gives the empty profile; otherwise every optional address and link key is set (the value of each key is stated by `ProfileForms.NormalizeOverEmpty` and `ProfileForms.StoredNamesWin`) |
| ProfileForms.NormalizeOverEmpty | src/popup/Popup.tsx:53-55 | every key other than the names is copied when stored and otherwise takes the empty profile's value (`""`, no titles); the summary is copied as stored |
| ProfileForms.StoredNamesWin | src/options/Options.tsx:36-48 | a stored first or last name wins over the legacy full name, even when it is `""`; with neither, both names are `""` |
| ProfileForms.LegacyFullNameSplits | src/options/Options.tsx:40-46 | a legacy full name of single-spaced words gives its first word as first name and the rest as last name, and `composeFullName` rebuilds it |
| ProfileForms.NormalizeCurrentProfile | src/popup/Popup.tsx:53-58 | normalising a current-shape profile gives it back exactly when its optional address and link keys are set |
| ProfileForms.NormalizeIdempotent | src/popup/Popup.tsx:47-60 | normalising a normalised profile changes nothing |
| Ranking.SortBy | src/logic/fieldDetection.ts:97 | the sort returns a permutation of its input |
| Ranking.SortBySorted | src/logic/fieldDetection.ts:97 | under a strict weak order, no element is followed by one the comparator ranks above it |
| Ranking.SortByStable | src/logic/fieldDetection.ts:97 | elements the comparator ties keep their input order |

## Left out

- The DOM is abstracted to control records and a selector-to-text map. `querySelectorAll`, `labels`, `textContent` and `getElementById` are not modelled beyond those records.
- `chrome.storage.local` is modelled as fields of a store object, and its asynchrony is not modelled. Promises, interleaving of concurrent calls, and messaging between content script, popup and service worker are left out.
- `chrome.runtime.lastError` is a parameter of each operation in `applicationStorage.ts` and `profileStorage.ts`. A failed write is taken to leave the stored value as it was.
- `storage.ts` does not check `lastError`, so its rejections are not modelled.
- `generateId` is not modelled, and neither is `new Date().toISOString()` in `createApplicationEntryFromPage`. The id and the timestamp are parameters.
- `new Date(createdAt).getTime()` in `listApplicationEntries` is a parameter `time` returning an integer. An unparsable date gives `NaN` in the code, and that is not modelled.
- The highlight CSS class, `scrollIntoView` and the `setTimeout` that removes the class only affect how the page looks. They are not modelled. `ensureHighlightStyle` is modelled as adding one element id.
- `getValueForField` joins an array value with `", "`. No field identifier names an array key, so that branch cannot be reached, and it is not modelled.
- FieldDetection patterns: only the regular-expression forms that occur in the table are modelled, namely a literal word and `a.?b`, both with `/i`. Case folding is ASCII, which matches `/i` for these ASCII patterns.
- JavaScript strings are sequences of UTF-16 code units; the model's strings are sequences of code points. The two differ only for characters outside the Basic Multilingual Plane, and there the model departs from the code in three places: string `<`; the `.` of the field patterns (`/first.?name/i` does not match `first😀name` in JavaScript, because `.?` consumes only the high surrogate, while the model matches it); and the `.*` of the title regular expression.
- `Array.prototype.sort` is modelled by a stable insertion sort on sequences (`Ranking.SortBy`). The engine's in-place algorithm is not modelled, only its result.
- ApplicationStorage.ApplicationStore.GetApplicationEntries: does not fix the order of entries with equal `createdAt`, because the comparator answers -1 for them both ways round and the order is then up to the engine. The contract states permutation and newest-first order only. The same holds for ApplicationStorage.ApplicationStore.AddApplicationEntry.
- ProfileForms.NormalizeProfile: does not model two things the object spread copies. One is the legacy `fullName` key, which the profile record does not have. The other is a key stored explicitly as `undefined` or `null`, which the spread copies over the empty profile's `""`; the model treats both as absent and gives `""`.
- Profiles.GetUserFullName: the parts of the six-field profile are plain strings, so the `?.trim() ?? ""` path of a missing first or last name cannot arise in the model.
- PostingExtractor.ExtractJobPosting: the extraction the rest of the model uses, and through it `ApplicationEntries.CreateApplicationEntryFromPage`, has the corrected separator class. The extraction as written is `PostingExtractor.ExtractJobPostingAsWritten`. The two differ only in the title of a page where no title selector hits (see Findings).
- Autofill.Apply: the browser's value sanitisation of typed inputs is not modelled; an input or textarea stores the string as given (`Autofill.ApplyText`). In a browser, `text`, `search`, `tel` and `password` inputs strip line breaks, and `email` and `url` inputs also drop surrounding white space. `number`, `range`, `color` and the date and time kinds replace a string that is not valid for the type with `""` or a default. The control values stated by `Autofill.Written`, `Autofill.LastWriteWins`, `Autofill.Page.ApplyValue`, `Autofill.Page.FillDetected` and `Autofill.Page.AutofillForm` are therefore the unsanitised ones. In both the code and the model, `filledFields` reports the profile's value, not the stored one. The exception of a file input is modelled.
- ProfileStorage: a stored object is a map from keys to strings. Values of other types under the six keys are not modelled.
- The three storage layers share storage keys with different record shapes. Each layer is modelled with its own store, so the interaction between the layers is not modelled.
- `resumeEngineStub.ts`, the React components beyond the helpers listed, the service worker and the content-script message handling are outside the modelled core.

## Findings

| source | as written | input that shows it | evidently intended | confidence | as-written member | corrected member |
|---|---|---|---|---|---|---|
| src/logic/jobPostingExtractor.ts:51 | the separator class `[-\|â€¢]` matches `-`, `\|`, `â`, `€` and `¢`. These are the UTF-8 bytes of `•` read as Windows-1252. | the document title `Engineer • Acme` is kept whole, and `Pâtissier - Bakery` is cut to `P` | the class `[-\|•]`, so `Engineer • Acme` gives `Engineer` and `Pâtissier - Bakery` gives `Pâtissier` | high; not executed | PostingExtractor.DocumentTitleFallbackAsWritten | PostingExtractor.DocumentTitleFallback |

The as-written member is exhibited by `PostingExtractor.AsWrittenKeepsBullet` and `PostingExtractor.AsWrittenCutsAccentedWord`. At the level of the whole extraction, the difference is shown by `PostingExtractor.CaptureKeepsBulletAsWritten`. The corrected member is the one `PostingExtractor.ExtractJobPosting` uses. Its behaviour is proved by `PostingExtractor.CutAtFirstSeparator`, `PostingExtractor.FallbackCutsAtBullet` and `PostingExtractor.FallbackKeepsAccentedWord`.
