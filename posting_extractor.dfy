/**
 * The job-posting extractor of src/logic/jobPostingExtractor.ts: a first-hit
 * cascade over CSS selectors for the title, the company and the description,
 * the page title as a fallback for the job title, and whitespace normalisation
 * of the description.
 */
module PostingExtractor {
  import opened Wrappers
  import opened Strings

  /**
   * What the extractor reads from the page: for each selector, the `textContent`
   * of the first element `querySelector` finds (absent when nothing matches or the
   * text is null), and `document.title`.
   */
  datatype Page = Page(firstText: map<string, string>, title: string)

  /** The object `extractJobPostingFromDom` returns: exactly these three keys. */
  datatype JobPosting = JobPosting(jobTitle: string, company: string, jobDescription: string)

  const TitleSelectors: seq<string> := [
    "h1[data-testid=\"job-title\"]",
    "h1",
    "[data-testid=\"jobTitle\"]",
    "[class*=\"jobsearch-JobInfoHeader-title\"]",
    "[class*=\"jobTitle\"]"
  ]

  const CompanySelectors: seq<string> := [
    "[data-testid=\"company-name\"]",
    "[class*=\"jobsearch-CompanyInfoContainer\"] a",
    "[class*=\"jobsearch-CompanyInfoContainer\"]",
    "[class*=\"companyName\"]",
    "a[href*=\"company\"]"
  ]

  const DescriptionSelectors: seq<string> := [
    "#jobDescriptionText",
    "[data-testid=\"jobDescriptionText\"]",
    "[class*=\"jobsearch-jobDescriptionText\"]",
    "article",
    "main"
  ]

  // ------------------------------------------------------------- pickText

  /** The selector's first element has text that is not blank. */
  predicate Hit(page: Page, sel: string) {
    sel in page.firstText && Trim(page.firstText[sel]) != ""
  }

  /** `pickText`: the trimmed text of the first selector that hits, or null. */
  function PickText(page: Page, selectors: seq<string>): (r: Option<string>)
    ensures r.Some? ==> r.value != "" && Trimmed(r.value)
  {
    if |selectors| == 0 then None
    else if Hit(page, selectors[0]) then Some(Trim(page.firstText[selectors[0]]))
    else PickText(page, selectors[1..])
  }

  /** `pickText` returns the first hit, in list order, and looks no further; it
      returns null exactly when no selector hits. */
  lemma {:induction false} PickTextFirstHit(page: Page, selectors: seq<string>)
    ensures PickText(page, selectors).None? <==> forall k :: 0 <= k < |selectors| ==> !Hit(page, selectors[k])
    ensures PickText(page, selectors).Some? ==>
      exists k :: 0 <= k < |selectors| && Hit(page, selectors[k])
        && PickText(page, selectors).value == Trim(page.firstText[selectors[k]])
        && forall j :: 0 <= j < k ==> !Hit(page, selectors[j])
  {
    if |selectors| > 0 && !Hit(page, selectors[0]) {
      var rest := selectors[1..];
      PickTextFirstHit(page, rest);
      assert forall k :: 1 <= k < |selectors| ==> selectors[k] == rest[k - 1];
      if PickText(page, rest).Some? {
        var k :| 0 <= k < |rest| && Hit(page, rest[k])
          && PickText(page, rest).value == Trim(page.firstText[rest[k]])
          && forall j :: 0 <= j < k ==> !Hit(page, rest[j]);
        assert selectors[k + 1] == rest[k];
      }
    }
  }

  // ------------------------------------------------- documentTitleFallback

  /** The end of the whitespace run that starts at `i`. */
  function SkipSpace(s: string, i: nat): (j: nat)
    requires i <= |s|
    ensures i <= j <= |s|
    ensures forall k :: i <= k < j ==> IsSpace(s[k])
    ensures j == |s| || !IsSpace(s[j])
    decreases |s| - i
  {
    if i < |s| && IsSpace(s[i]) then SkipSpace(s, i + 1) else i
  }

  /** The run of whitespace from `i` stops exactly at `q`. */
  lemma {:induction false} SkipSpaceStops(s: string, i: nat, q: nat)
    requires i <= q < |s|
    requires forall k :: i <= k < q ==> IsSpace(s[k])
    requires !IsSpace(s[q])
    ensures SkipSpace(s, i) == q
    decreases q - i
  {
    if i < q {
      SkipSpaceStops(s, i + 1, q);
    }
  }

  predicate NoLineTerminatorFrom(s: string, i: nat) {
    forall k :: i <= k < |s| ==> !IsLineTerminator(s[k])
  }

  /** The pattern `\s*[seps].*$` matches starting at position `p`: the whitespace
      run from `p` ends on a separator, and no line terminator follows it. Since a
      separator is never whitespace, `\s*` has only this one way to succeed. */
  predicate MatchAt(s: string, p: nat, isSep: char -> bool)
    requires p <= |s|
  {
    var q := SkipSpace(s, p);
    q < |s| && isSep(s[q]) && NoLineTerminatorFrom(s, q + 1)
  }

  /** Whitespace never counts as a separator. */
  ghost predicate SeparatorsAreNotSpace(isSep: char -> bool) {
    forall c :: isSep(c) ==> !IsSpace(c)
  }

  /** `MatchAt` is the regular expression's own condition: some whitespace, then
      a separator, then characters other than line terminators up to the end. */
  lemma MatchAtIsPattern(s: string, p: nat, isSep: char -> bool)
    requires p <= |s| && SeparatorsAreNotSpace(isSep)
    ensures MatchAt(s, p, isSep) <==>
      exists q :: p <= q < |s| && (forall k :: p <= k < q ==> IsSpace(s[k])) && isSep(s[q]) && NoLineTerminatorFrom(s, q + 1)
  {
    if exists q :: p <= q < |s| && (forall k :: p <= k < q ==> IsSpace(s[k])) && isSep(s[q]) && NoLineTerminatorFrom(s, q + 1) {
      var q :| p <= q < |s| && (forall k :: p <= k < q ==> IsSpace(s[k])) && isSep(s[q]) && NoLineTerminatorFrom(s, q + 1);
      SkipSpaceStops(s, p, q);
    }
  }

  /** The leftmost position from `p` on where the pattern matches, as the regular
      expression engine tries start positions in increasing order. */
  function FirstMatch(s: string, p: nat, isSep: char -> bool): (r: Option<nat>)
    requires p <= |s|
    ensures r.Some? ==> p <= r.value <= |s| && MatchAt(s, r.value, isSep)
    ensures r.Some? ==> forall k :: p <= k < r.value ==> !MatchAt(s, k, isSep)
    ensures r.None? ==> forall k :: p <= k <= |s| ==> !MatchAt(s, k, isSep)
    decreases |s| - p
  {
    if MatchAt(s, p, isSep) then Some(p)
    else if p == |s| then None
    else FirstMatch(s, p + 1, isSep)
  }

  /** `s.replace(/\s*[seps].*$/, "")`: the first match runs to the end of the input,
      so the replacement keeps what comes before it. */
  function StripSeparatorTail(s: string, isSep: char -> bool): (r: string)
    ensures |r| <= |s| && r == s[..|r|]
  {
    match FirstMatch(s, 0, isSep)
    case None => s
    case Some(p) => s[..p]
  }

  /** The separator class as the source file spells it: `-`, `|` and the three
      characters `â`, `€`, `¢`, which are the UTF-8 bytes of `•` read as Windows-1252. */
  predicate IsWrittenSeparator(c: char) {
    c == '-' || c == '|' || c == '\U{00E2}' || c == '\U{20AC}' || c == '\U{00A2}'
  }

  /** The separator class the fallback is meant to use: `-`, `|` and `•`. */
  predicate IsIntendedSeparator(c: char) {
    c == '-' || c == '|' || c == '\U{2022}'
  }

  /** `documentTitleFallback` as written, with the mis-encoded separator class. */
  function DocumentTitleFallbackAsWritten(raw: string): (r: string)
    ensures Trimmed(r)
  {
    Trim(StripSeparatorTail(raw, IsWrittenSeparator))
  }

  /** `documentTitleFallback` with the separator class it is meant to have. */
  function DocumentTitleFallback(raw: string): (r: string)
    ensures Trimmed(r)
  {
    Trim(StripSeparatorTail(raw, IsIntendedSeparator))
  }

  /** On a single line, everything from the first separator on is dropped,
      together with the whitespace around it. */
  lemma CutAtFirstSeparator(a: string, c: char, b: string, isSep: char -> bool)
    requires SeparatorsAreNotSpace(isSep)
    requires isSep(c)
    requires forall k :: 0 <= k < |a| ==> !isSep(a[k])
    requires forall k :: 0 <= k < |b| ==> !IsLineTerminator(b[k])
    ensures Trim(StripSeparatorTail(a + [c] + b, isSep)) == Trim(a)
  {
    var s := a + [c] + b;
    assert s[|a|] == c;
    assert MatchAt(s, |a|, isSep) by {
      SkipSpaceStops(s, |a|, |a|);
      assert forall k :: |a| + 1 <= k < |s| ==> s[k] == b[k - |a| - 1];
    }
    var p := FirstMatch(s, 0, isSep).value;
    assert SkipSpace(s, p) == |a|;
    assert s[..p] + s[p..|a|] == a;
    TrimSpaceSuffix(s[..p], s[p..|a|]);
  }

  /** A title without any separator character is only trimmed. */
  lemma NoSeparatorOnlyTrims(raw: string, isSep: char -> bool)
    requires forall k :: 0 <= k < |raw| ==> !isSep(raw[k])
    ensures Trim(StripSeparatorTail(raw, isSep)) == Trim(raw)
  {
  }

  lemma NoLineTerminatorIn(b: string)
    requires b == " Acme" || b == " Bakery" || b == "tissier - Bakery"
    ensures forall k :: 0 <= k < |b| ==> !IsLineTerminator(b[k])
  {
  }

  lemma NoIntendedSeparatorIn(a: string)
    requires a == "Engineer " || a == "P\U{00E2}tissier "
    ensures forall k :: 0 <= k < |a| ==> !IsIntendedSeparator(a[k])
  {
  }

  lemma NoWrittenSeparatorIn(a: string)
    requires a == "P" || a == "Engineer \U{2022} Acme"
    ensures forall k :: 0 <= k < |a| ==> !IsWrittenSeparator(a[k])
  {
  }

  /** The intended fallback cuts `Engineer • Acme` at the bullet. */
  lemma FallbackCutsAtBullet()
    ensures DocumentTitleFallback("Engineer " + ['\U{2022}'] + " Acme") == "Engineer"
  {
    NoIntendedSeparatorIn("Engineer ");
    NoLineTerminatorIn(" Acme");
    CutAtFirstSeparator("Engineer ", '\U{2022}', " Acme", IsIntendedSeparator);
    TrimSpaceSuffix("Engineer", " ");
    TrimOfTrimmed("Engineer");
  }

  /** As written, the bullet is not a separator: `Engineer • Acme` is only trimmed,
      not cut. */
  lemma AsWrittenKeepsBullet()
    ensures DocumentTitleFallbackAsWritten("Engineer \U{2022} Acme") == Trim("Engineer \U{2022} Acme")
  {
    NoWrittenSeparatorIn("Engineer \U{2022} Acme");
    NoSeparatorOnlyTrims("Engineer \U{2022} Acme", IsWrittenSeparator);
  }

  /** As written, an `â` inside a word is taken for a separator: `Pâtissier - Bakery`
      falls back to `P`. */
  lemma AsWrittenCutsAccentedWord()
    ensures DocumentTitleFallbackAsWritten("P" + ['\U{00E2}'] + "tissier - Bakery") == "P"
  {
    NoWrittenSeparatorIn("P");
    NoLineTerminatorIn("tissier - Bakery");
    CutAtFirstSeparator("P", '\U{00E2}', "tissier - Bakery", IsWrittenSeparator);
    TrimOfTrimmed("P");
  }

  /** The intended fallback keeps `Pâtissier` and cuts at the dash. */
  lemma FallbackKeepsAccentedWord()
    ensures DocumentTitleFallback("P\U{00E2}tissier " + ['-'] + " Bakery") == "P\U{00E2}tissier"
  {
    NoIntendedSeparatorIn("P\U{00E2}tissier ");
    NoLineTerminatorIn(" Bakery");
    CutAtFirstSeparator("P\U{00E2}tissier ", '-', " Bakery", IsIntendedSeparator);
    TrimSpaceSuffix("P\U{00E2}tissier", " ");
    TrimOfTrimmed("P\U{00E2}tissier");
  }

  // --------------------------------------------------- normalizeWhitespace

  /** `s.replace(/\s+/g, " ")`: every maximal whitespace run becomes one space. */
  function Collapse(s: string): string
    decreases |s|
  {
    if |s| == 0 then ""
    else if IsSpace(s[0]) then " " + Collapse(TrimStart(s[1..]))
    else [s[0]] + Collapse(s[1..])
  }

  /** The only whitespace is single spaces. */
  ghost predicate SingleSpaced(s: string) {
    forall i :: 0 <= i < |s| && IsSpace(s[i]) ==> s[i] == ' ' && (i + 1 < |s| ==> !IsSpace(s[i + 1]))
  }

  /** What `normalizeWhitespace` promises: trimmed, and single spaces only. */
  ghost predicate Normal(s: string) {
    Trimmed(s) && SingleSpaced(s)
  }

  lemma {:induction false} CollapseSingleSpaced(s: string)
    ensures SingleSpaced(Collapse(s))
    ensures |Collapse(s)| > 0 && |s| > 0 ==> (IsSpace(Collapse(s)[0]) <==> IsSpace(s[0]))
    decreases |s|
  {
    if |s| > 0 {
      if IsSpace(s[0]) {
        var t := TrimStart(s[1..]);
        TrimStartSpec(s[1..]);
        CollapseSingleSpaced(t);
        assert |Collapse(t)| > 0 ==> |t| > 0;
      } else {
        CollapseSingleSpaced(s[1..]);
      }
    }
  }

  lemma {:induction false} CollapseOfSingleSpaced(s: string)
    requires SingleSpaced(s)
    ensures Collapse(s) == s
    decreases |s|
  {
    if |s| > 0 {
      assert SingleSpaced(s[1..]) by {
        assert forall i :: 0 <= i < |s| - 1 ==> s[1..][i] == s[i + 1];
      }
      if IsSpace(s[0]) {
        TrimStartOfTrimmed(s[1..]);
      }
      CollapseOfSingleSpaced(s[1..]);
    }
  }

  /** An infix of a single-spaced string is single-spaced. */
  lemma SingleSpacedInfix(s: string, i: nat, j: nat)
    requires i <= j <= |s| && SingleSpaced(s)
    ensures SingleSpaced(s[i..j])
  {
    assert forall k :: 0 <= k < j - i ==> s[i..j][k] == s[i + k];
  }

  /** `normalizeWhitespace`; `s || ""` only guards against a missing string. */
  function NormalizeWhitespace(s: string): (r: string)
    ensures Normal(r)
  {
    CollapseSingleSpaced(s);
    TrimInfix(Collapse(s));
    TrimStartSpec(Collapse(s));
    var i := |Collapse(s)| - |TrimStart(Collapse(s))|;
    SingleSpacedInfix(Collapse(s), i, i + |Trim(Collapse(s))|);
    Trim(Collapse(s))
  }

  /** Normal text is left alone; in particular normalising twice is normalising once. */
  lemma NormalizeFixesNormal(s: string)
    requires Normal(s)
    ensures NormalizeWhitespace(s) == s
  {
    CollapseOfSingleSpaced(s);
    TrimOfTrimmed(s);
  }

  lemma NormalizeIdempotent(s: string)
    ensures NormalizeWhitespace(NormalizeWhitespace(s)) == NormalizeWhitespace(s)
  {
    NormalizeFixesNormal(NormalizeWhitespace(s));
  }

  /** The characters of `s` that are not whitespace, in order. */
  function Visible(s: string): string
    decreases |s|
  {
    if |s| == 0 then "" else (if IsSpace(s[0]) then "" else [s[0]]) + Visible(s[1..])
  }

  lemma {:induction false} VisibleAppend(a: string, b: string)
    ensures Visible(a + b) == Visible(a) + Visible(b)
    decreases |a|
  {
    if |a| == 0 {
      assert a + b == b;
    } else {
      assert (a + b)[0] == a[0] && (a + b)[1..] == a[1..] + b;
      VisibleAppend(a[1..], b);
    }
  }

  lemma {:induction false} VisibleOfSpace(w: string)
    requires AllSpace(w)
    ensures Visible(w) == ""
    decreases |w|
  {
    if |w| > 0 {
      assert AllSpace(w[1..]) by {
        forall i | 0 <= i < |w| - 1 ensures IsSpace(w[1..][i]) { assert w[1..][i] == w[i + 1]; }
      }
      VisibleOfSpace(w[1..]);
    }
  }

  /** `trim` removes whitespace only. */
  lemma VisibleTrim(s: string)
    ensures Visible(Trim(s)) == Visible(s)
  {
    TrimInfix(s);
    var i := |s| - |TrimStart(s)|;
    var j := i + |Trim(s)|;
    assert s == s[..i] + Trim(s) + s[j..];
    VisibleAppend(s[..i] + Trim(s), s[j..]);
    VisibleAppend(s[..i], Trim(s));
    VisibleOfSpace(s[..i]);
    VisibleOfSpace(s[j..]);
  }

  /** Collapsing whitespace runs removes whitespace only. */
  lemma {:induction false} VisibleCollapse(s: string)
    ensures Visible(Collapse(s)) == Visible(s)
    decreases |s|
  {
    if |s| > 0 {
      if IsSpace(s[0]) {
        var t := TrimStart(s[1..]);
        TrimStartSpec(s[1..]);
        VisibleCollapse(t);
        var k := |s[1..]| - |t|;
        assert s[1..] == s[1..][..k] + t;
        VisibleAppend(s[1..][..k], t);
        VisibleOfSpace(s[1..][..k]);
        VisibleAppend(" ", Collapse(t));
        assert Visible(" ") == "" by { assert " "[1..] == ""; }
      } else {
        VisibleCollapse(s[1..]);
        VisibleAppend([s[0]], Collapse(s[1..]));
        assert Visible([s[0]]) == [s[0]] by { assert [s[0]][1..] == ""; }
      }
    }
  }

  /** Normalising keeps every character that is not whitespace, in order: only
      whitespace is removed or replaced. */
  lemma NormalizeKeepsVisible(s: string)
    ensures Visible(NormalizeWhitespace(s)) == Visible(s)
  {
    VisibleCollapse(s);
    VisibleTrim(Collapse(s));
  }

  // --------------------------------------------------------------- extract

  /** The selector cascade of `extractJobPostingFromDom`, given the document-title fallback. */
  function ExtractWith(page: Page, fallback: string -> string): JobPosting {
    var title := match PickText(page, TitleSelectors)
      case Some(t) => t
      case None => fallback(page.title);
    var company := PickText(page, CompanySelectors).GetOr("");
    var description := PickText(page, DescriptionSelectors).GetOr("");
    JobPosting(Trim(title), Trim(company), NormalizeWhitespace(description))
  }

  /** `extractJobPostingFromDom` with the intended title fallback: the title and the
      company are trimmed and the description is normalised. */
  function ExtractJobPosting(page: Page): (r: JobPosting)
    ensures Trimmed(r.jobTitle) && Trimmed(r.company) && Normal(r.jobDescription)
  {
    ExtractWith(page, DocumentTitleFallback)
  }

  /** `extractJobPostingFromDom` with the separator class as written. It differs from the
      intended extraction only in the title, and only when no title selector hits. */
  function ExtractJobPostingAsWritten(page: Page): (r: JobPosting)
    ensures r.company == ExtractJobPosting(page).company
    ensures r.jobDescription == ExtractJobPosting(page).jobDescription
    ensures PickText(page, TitleSelectors).Some? ==> r.jobTitle == ExtractJobPosting(page).jobTitle
  {
    ExtractWith(page, DocumentTitleFallbackAsWritten)
  }

  /** With no title hit, each extraction takes its title from its own fallback. */
  lemma NoTitleHit(page: Page)
    requires PickText(page, TitleSelectors).None?
    ensures ExtractJobPostingAsWritten(page).jobTitle == Trim(DocumentTitleFallbackAsWritten(page.title))
    ensures ExtractJobPosting(page).jobTitle == Trim(DocumentTitleFallback(page.title))
  {
  }

  /** The title of the bullet example, written as a concatenation and as one literal. */
  lemma BulletTitle()
    ensures "Engineer " + ['\U{2022}'] + " Acme" == "Engineer \U{2022} Acme"
  {
  }

  /** A page with no title hit and the document title `Engineer • Acme`: as written the
      whole title is captured, as intended only `Engineer`. */
  lemma CaptureKeepsBulletAsWritten(page: Page)
    requires forall k :: 0 <= k < |TitleSelectors| ==> !Hit(page, TitleSelectors[k])
    requires page.title == "Engineer \U{2022} Acme"
    ensures ExtractJobPostingAsWritten(page).jobTitle == Trim("Engineer \U{2022} Acme")
    ensures ExtractJobPosting(page).jobTitle == "Engineer"
  {
    PickTextFirstHit(page, TitleSelectors);
    NoTitleHit(page);
    var t := page.title;
    AsWrittenKeepsBullet();
    assert DocumentTitleFallbackAsWritten(t) == Trim(t);
    TrimIdempotent(t);
    BulletTitle();
    FallbackCutsAtBullet();
    assert DocumentTitleFallback(t) == "Engineer";
    TrimOfTrimmed("Engineer");
  }

  /** Each attribute is the first hit of its selectors: the title and the company as
      picked, the description normalised. The page title is consulted only when no title
      selector hits; company and description default to the empty string. */
  lemma ExtractFallbacks(page: Page)
    ensures PickText(page, TitleSelectors).Some? ==> ExtractJobPosting(page).jobTitle == PickText(page, TitleSelectors).value
    ensures PickText(page, TitleSelectors).None? ==> ExtractJobPosting(page).jobTitle == DocumentTitleFallback(page.title)
    ensures PickText(page, CompanySelectors).Some? ==> ExtractJobPosting(page).company == PickText(page, CompanySelectors).value
    ensures PickText(page, CompanySelectors).None? ==> ExtractJobPosting(page).company == ""
    ensures PickText(page, DescriptionSelectors).Some? ==>
      ExtractJobPosting(page).jobDescription == NormalizeWhitespace(PickText(page, DescriptionSelectors).value)
    ensures PickText(page, DescriptionSelectors).None? ==> ExtractJobPosting(page).jobDescription == ""
  {
    match PickText(page, TitleSelectors)
    case Some(t) => TrimOfTrimmed(t);
    case None => TrimOfTrimmed(DocumentTitleFallback(page.title));
    match PickText(page, CompanySelectors)
    case Some(c) => TrimOfTrimmed(c);
    case None =>
  }

  /** A page whose only structural marker is an `h1` with some text: the title is that
      text, trimmed; company and description are empty. */
  lemma OnlyHeading(page: Page, text: string)
    requires page.firstText == map["h1" := text] && Trim(text) != ""
    ensures ExtractJobPosting(page) == JobPosting(Trim(text), "", "")
  {
    assert TitleSelectors[0] !in page.firstText by {
      assert |TitleSelectors[0]| != |"h1"|;
    }
    assert TitleSelectors[1..][0] == "h1";
    assert PickText(page, TitleSelectors) == Some(Trim(text));
    assert forall k :: 0 <= k < |CompanySelectors| ==> CompanySelectors[k] !in page.firstText;
    assert forall k :: 0 <= k < |DescriptionSelectors| ==> DescriptionSelectors[k] !in page.firstText;
    PickTextFirstHit(page, CompanySelectors);
    PickTextFirstHit(page, DescriptionSelectors);
    ExtractFallbacks(page);
  }
}
