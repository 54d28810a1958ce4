/**
 * The field classifier of src/logic/fieldDetection.ts: every enabled, non-hidden
 * form control is scored against each row of the pattern table; every pair with
 * a positive score is emitted in control order then table order, and the
 * emission is stably sorted by descending score.
 */
module FieldDetection {
  import opened Wrappers
  import opened Strings
  import opened Ranking
  import opened Profiles

  datatype FieldId =
    | FullName | FirstName | LastName | Email | Phone | Address | City | PostalCode
    | LinkedinUrl | GithubUrl | WebsiteUrl

  /** The lower-cased `tagName` of a control. */
  datatype Tag = InputTag | TextAreaTag | SelectTag

  datatype SelectOption = SelectOption(value: string, text: string)

  /**
   * One `input`, `textarea` or `select` element of the page. `labels` holds the
   * `innerText` of each element of `field.labels`; `labelFor` the `textContent`
   * of the first `label[for=id]` of the document (None when there is none);
   * `ariaLabel` is the `aria-label` attribute (None when it is absent).
   */
  datatype Control = Control(
    tag: Tag,
    controlType: string,
    disabled: bool,
    name: string,
    id: string,
    ariaLabel: Option<string>,
    placeholder: string,
    labels: seq<string>,
    labelFor: Option<string>,
    options: seq<SelectOption>,
    value: string)

  /**
   * The case-insensitive regular expressions of the pattern table: a literal
   * word (`/email/i`), or two words with at most one character between them
   * (`/first.?name/i`). All words are lower-case ASCII.
   */
  datatype Pattern = Lit(word: string) | Gap(before: string, after: string)

  /** The order of the rows of `FIELD_PATTERNS`. */
  const FieldOrder: seq<FieldId> :=
    [FirstName, LastName, FullName, Email, Phone, Address, City, PostalCode, LinkedinUrl, GithubUrl, WebsiteUrl]

  /** The patterns of each row of `FIELD_PATTERNS`. */
  function PatternsOf(f: FieldId): seq<Pattern> {
    match f
    case FirstName => [Gap("first", "name"), Lit("given")]
    case LastName => [Gap("last", "name"), Lit("family"), Lit("surname")]
    case FullName => [Lit("name"), Gap("full", "name"), Lit("applicant")]
    case Email => [Lit("email"), Lit("e-mail")]
    case Phone => [Lit("phone"), Lit("mobile"), Lit("tel")]
    case Address => [Lit("address"), Lit("street")]
    case City => [Lit("city"), Lit("town")]
    case PostalCode => [Lit("postal"), Lit("zip")]
    case LinkedinUrl => [Lit("linkedin")]
    case GithubUrl => [Lit("github")]
    case WebsiteUrl => [Lit("portfolio"), Lit("website"), Lit("url")]
  }

  /** The row of each field: every field has exactly one row. */
  function RowOf(f: FieldId): (k: nat)
    ensures k < |FieldOrder| && FieldOrder[k] == f
  {
    match f
    case FirstName => 0
    case LastName => 1
    case FullName => 2
    case Email => 3
    case Phone => 4
    case Address => 5
    case City => 6
    case PostalCode => 7
    case LinkedinUrl => 8
    case GithubUrl => 9
    case WebsiteUrl => 10
  }

  lemma RowOfRow(k: nat)
    requires k < |FieldOrder|
    ensures RowOf(FieldOrder[k]) == k
  {
  }

  // ---------------------------------------------------------------- matching

  /** `s` starts with `w` up to ASCII case. */
  predicate StartsWithFold(s: string, w: string) {
    |w| <= |s| && forall i :: 0 <= i < |w| ==> Lower(s[i]) == w[i]
  }

  /** A match of the pattern begins at the start of `s`; `.` matches anything but a line terminator. */
  predicate MatchesAt(p: Pattern, s: string) {
    match p
    case Lit(w) => StartsWithFold(s, w)
    case Gap(a, b) =>
      && StartsWithFold(s, a)
      && (|| StartsWithFold(s[|a|..], b)
          || (|a| < |s| && !IsLineTerminator(s[|a|]) && StartsWithFold(s[|a| + 1..], b)))
  }

  /** `pattern.test(s)`. */
  predicate Matches(p: Pattern, s: string) {
    MatchesAt(p, s) || (|s| > 0 && Matches(p, s[1..]))
  }

  /** `test` succeeds exactly when a match begins at some position of `s`. */
  lemma {:induction false} MatchesSomewhere(p: Pattern, s: string)
    ensures Matches(p, s) <==> exists i :: 0 <= i <= |s| && MatchesAt(p, s[i..])
  {
    assert s[0..] == s;
    if |s| > 0 {
      MatchesSomewhere(p, s[1..]);
      if exists i :: 0 <= i <= |s| && MatchesAt(p, s[i..]) {
        var i :| 0 <= i <= |s| && MatchesAt(p, s[i..]);
        if i > 0 { assert s[1..][i - 1..] == s[i..]; }
      }
      if Matches(p, s[1..]) {
        var i :| 0 <= i <= |s| - 1 && MatchesAt(p, s[1..][i..]);
        assert s[1..][i..] == s[i + 1..];
      }
    }
  }

  /** The signal matches at least one pattern of the row. */
  predicate AnyMatch(ps: seq<Pattern>, s: string) {
    exists k :: 0 <= k < |ps| && Matches(ps[k], s)
  }

  // ------------------------------------------------------------ the signals

  /** The texts of the labels, trimmed, blank ones dropped, joined with a space. */
  function JoinLabels(labels: seq<string>): string {
    if |labels| == 0 then ""
    else
      var rest := JoinLabels(labels[1..]);
      var t := Trim(labels[0]);
      if t == "" then rest else if rest == "" then t else t + " " + rest
  }

  /** `JoinLabels` is `labels.map(trim).filter(Boolean).join(' ')`. */
  lemma {:induction false} JoinLabelsIsJoin(labels: seq<string>)
    ensures JoinLabels(labels) == Join(NonEmpty(TrimAll(labels)), " ")
  {
    if |labels| > 0 {
      JoinLabelsIsJoin(labels[1..]);
      var xs := NonEmpty(TrimAll(labels[1..]));
      assert TrimAll(labels) == [Trim(labels[0])] + TrimAll(labels[1..]);
      assert ([Trim(labels[0])] + TrimAll(labels[1..]))[1..] == TrimAll(labels[1..]);
      if |xs| > 0 {
        assert |Join(xs, " ")| >= |xs[0]| > 0;
        assert ([Trim(labels[0])] + xs)[1..] == xs;
      }
    }
  }

  /** `getLabelText`: the space-joined trimmed texts of the associated labels when
      there are any; otherwise, for a control with an id, the trimmed text of the
      first `label[for=id]` if that is not empty. */
  function LabelText(c: Control): Option<string> {
    if |c.labels| > 0 then Some(JoinLabels(c.labels))
    else if c.id == "" then None
    else
      match c.labelFor
      case None => None
      case Some(t) => if Trim(t) == "" then None else Some(Trim(t))
  }

  /** The strings `computeScore` collects: the non-empty name, id and aria-label,
      the placeholder unless the control is a `select`, and the label text. */
  function Signals(c: Control): (r: seq<string>)
    ensures |r| <= 5
    ensures forall k :: 0 <= k < |r| ==> r[k] != ""
  {
    var attributes := NonEmpty([c.name, c.id, c.ariaLabel.GetOr("")]);
    var withPlaceholder :=
      if c.tag != SelectTag && c.placeholder != "" then attributes + [c.placeholder] else attributes;
    match LabelText(c)
    case Some(t) => if t != "" then withPlaceholder + [t] else withPlaceholder
    case None => withPlaceholder
  }

  // ------------------------------------------------------------------ scores

  /** How many of the signals match at least one of the patterns. */
  function Score(attrs: seq<string>, ps: seq<Pattern>): (n: nat)
    ensures n <= |attrs|
  {
    if |attrs| == 0 then 0
    else Score(attrs[..|attrs| - 1], ps) + (if AnyMatch(ps, attrs[|attrs| - 1]) then 1 else 0)
  }

  /** A score is zero exactly when no signal matches any pattern, and full exactly
      when every signal does: each signal contributes 0 or 1. */
  lemma {:induction false} ScoreExtremes(attrs: seq<string>, ps: seq<Pattern>)
    ensures Score(attrs, ps) == 0 <==> forall k :: 0 <= k < |attrs| ==> !AnyMatch(ps, attrs[k])
    ensures Score(attrs, ps) == |attrs| <==> forall k :: 0 <= k < |attrs| ==> AnyMatch(ps, attrs[k])
  {
    if |attrs| > 0 {
      var front := attrs[..|attrs| - 1];
      ScoreExtremes(front, ps);
      assert forall k :: 0 <= k < |front| ==> front[k] == attrs[k];
    }
  }

  /** The score of a control against a field: between 0 and the number of its signals, at most 5. */
  function ScoreFor(c: Control, f: FieldId): (n: nat)
    ensures n <= |Signals(c)| <= 5
  {
    Score(Signals(c), PatternsOf(f))
  }

  /** The body of the `reduce` callback: try the patterns in turn, stopping at the first that matches. */
  method MatchesAnyPattern(patterns: seq<Pattern>, attr: string) returns (hit: bool)
    ensures hit <==> AnyMatch(patterns, attr)
  {
    hit := false;
    var j := 0;
    while j < |patterns| && !hit
      invariant 0 <= j <= |patterns|
      invariant hit ==> AnyMatch(patterns, attr)
      invariant !hit ==> forall q :: 0 <= q < j ==> !Matches(patterns[q], attr)
    {
      if Matches(patterns[j], attr) {
        hit := true;
      }
      j := j + 1;
    }
  }

  /** `computeScore`: collect the signals, then count those that some pattern matches. */
  method ComputeScore(c: Control, patterns: seq<Pattern>) returns (score: nat)
    ensures score == Score(Signals(c), patterns)
  {
    var attributes := NonEmpty([c.name, c.id, c.ariaLabel.GetOr("")]);
    if c.tag != SelectTag && c.placeholder != "" {
      attributes := attributes + [c.placeholder];
    }
    var labelText := LabelText(c);
    if labelText.Some? && labelText.value != "" {
      attributes := attributes + [labelText.value];
    }
    score := 0;
    for k := 0 to |attributes|
      invariant score == Score(attributes[..k], patterns)
    {
      var hit := MatchesAnyPattern(patterns, attributes[k]);
      if hit {
        score := score + 1;
      }
      assert attributes[..k + 1][..k] == attributes[..k];
    }
    assert attributes[..|attributes|] == attributes;
    assert attributes == Signals(c);
  }

  // --------------------------------------------------------------- emission

  /** The controls `findFormFields` considers: enabled and not of type `hidden`. */
  predicate IsCandidate(c: Control) {
    !c.disabled && c.controlType != "hidden"
  }

  /** One emitted pair; `element` is the control's position in the document. */
  datatype Detection = Detection(element: nat, field: FieldId, score: nat)

  /** The indices of the candidate controls, in document order. */
  function CandidateIndices(cs: seq<Control>): (idx: seq<nat>)
    ensures forall k :: 0 <= k < |idx| ==> idx[k] < |cs| && IsCandidate(cs[idx[k]])
    ensures forall p, q :: 0 <= p < q < |idx| ==> idx[p] < idx[q]
  {
    if |cs| == 0 then []
    else
      var front := CandidateIndices(cs[..|cs| - 1]);
      front + (if IsCandidate(cs[|cs| - 1]) then [|cs| - 1] else [])
  }

  /** The signals of every control of the document. */
  function SignalsOf(cs: seq<Control>): (sigs: seq<seq<string>>)
    ensures |sigs| == |cs|
  {
    if |cs| == 0 then [] else SignalsOf(cs[..|cs| - 1]) + [Signals(cs[|cs| - 1])]
  }

  lemma {:induction false} SignalsOfIndex(cs: seq<Control>, k: nat)
    requires k < |cs|
    ensures SignalsOf(cs)[k] == Signals(cs[k])
  {
    if k < |cs| - 1 {
      SignalsOfIndex(cs[..|cs| - 1], k);
    }
  }

  /** The detections of the control at position `i`, whose signals are `attrs`,
      for the first `j` rows of the table. */
  function RowDetections(i: nat, attrs: seq<string>, j: nat): seq<Detection>
    requires j <= |FieldOrder|
  {
    if j == 0 then []
    else
      var f := FieldOrder[j - 1];
      var score := Score(attrs, PatternsOf(f));
      RowDetections(i, attrs, j - 1) + (if score > 0 then [Detection(i, f, score)] else [])
  }

  /** The detections pushed for the controls at the positions `idx`, in that order. */
  function Emitted(sigs: seq<seq<string>>, idx: seq<nat>): seq<Detection>
    requires forall k :: 0 <= k < |idx| ==> idx[k] < |sigs|
  {
    if |idx| == 0 then []
    else Emitted(sigs, idx[..|idx| - 1]) + RowDetections(idx[|idx| - 1], sigs[idx[|idx| - 1]], |FieldOrder|)
  }

  /** The `detected` array before it is sorted. */
  function Emission(cs: seq<Control>): seq<Detection> {
    Emitted(SignalsOf(cs), CandidateIndices(cs))
  }

  /** The comparator `(a, b) => b.score - a.score` puts `a` first. */
  predicate ScoreAbove(a: Detection, b: Detection) {
    a.score > b.score
  }

  /** The result of `findFormFields`. */
  function Detections(cs: seq<Control>): seq<Detection> {
    SortBy(Emission(cs), ScoreAbove)
  }

  /** The inner loop of `findFormFields`: score control `c` (at position `i`)
      against every row of the table, in table order, keeping the positive scores. */
  method DetectControl(i: nat, c: Control) returns (ds: seq<Detection>)
    ensures ds == RowDetections(i, Signals(c), |FieldOrder|)
  {
    ds := [];
    for j := 0 to |FieldOrder|
      invariant ds == RowDetections(i, Signals(c), j)
    {
      var f := FieldOrder[j];
      var score := ComputeScore(c, PatternsOf(f));
      if score > 0 {
        ds := ds + [Detection(i, f, score)];
      }
    }
  }

  /** `findFormFields`: filter the candidates, push every positive-score pair, sort by score. */
  method FindFormFields(controls: seq<Control>) returns (detected: seq<Detection>)
    ensures detected == Detections(controls)
  {
    var fields := CandidateIndices(controls);
    ghost var sigs := SignalsOf(controls);
    var emitted := [];
    for n := 0 to |fields|
      invariant emitted == Emitted(sigs, fields[..n])
    {
      var found := DetectControl(fields[n], controls[fields[n]]);
      assert Emitted(sigs, fields[..n + 1]) == emitted + found by {
        assert fields[..n + 1][..n] == fields[..n];
        SignalsOfIndex(controls, fields[n]);
      }
      emitted := emitted + found;
    }
    assert emitted == Emission(controls) by {
      assert fields[..|fields|] == fields;
    }
    detected := SortBy(emitted, ScoreAbove);
  }

  // ------------------------------------------------------ what the output is

  lemma {:induction false} RowDetectionsMember(i: nat, attrs: seq<string>, j: nat, d: Detection)
    requires j <= |FieldOrder|
    ensures d in RowDetections(i, attrs, j) <==>
      d.element == i && RowOf(d.field) < j && d.score == Score(attrs, PatternsOf(d.field)) && d.score > 0
  {
    if j > 0 {
      RowDetectionsMember(i, attrs, j - 1, d);
      RowOfRow(j - 1);
    }
  }

  lemma {:induction false} RowDetectionsOrdered(i: nat, attrs: seq<string>, j: nat)
    requires j <= |FieldOrder|
    ensures forall p :: 0 <= p < |RowDetections(i, attrs, j)| ==> RowDetections(i, attrs, j)[p].element == i
    ensures forall p, q :: 0 <= p < q < |RowDetections(i, attrs, j)| ==>
      RowOf(RowDetections(i, attrs, j)[p].field) < RowOf(RowDetections(i, attrs, j)[q].field)
  {
    if j > 0 {
      var front := RowDetections(i, attrs, j - 1);
      var ds := RowDetections(i, attrs, j);
      RowDetectionsOrdered(i, attrs, j - 1);
      RowOfRow(j - 1);
      forall p | 0 <= p < |front| ensures RowOf(front[p].field) < j - 1 {
        RowDetectionsMember(i, attrs, j - 1, front[p]);
      }
      if |ds| > |front| {
        assert ds == front + [ds[|front|]];
        assert RowOf(ds[|front|].field) == j - 1;
      } else {
        assert ds == front;
      }
    }
  }

  lemma {:induction false} EmittedMember(sigs: seq<seq<string>>, idx: seq<nat>, d: Detection)
    requires forall k :: 0 <= k < |idx| ==> idx[k] < |sigs|
    ensures d in Emitted(sigs, idx) <==>
      d.element in idx && d.element < |sigs| && d.score == Score(sigs[d.element], PatternsOf(d.field)) && d.score > 0
  {
    if |idx| > 0 {
      var front := idx[..|idx| - 1];
      var last := idx[|idx| - 1];
      EmittedMember(sigs, front, d);
      RowDetectionsMember(last, sigs[last], |FieldOrder|, d);
      assert idx == front + [last];
    }
  }

  /** A position is a candidate position exactly when its control is a candidate. */
  lemma {:induction false} CandidateIndicesMember(cs: seq<Control>, i: nat)
    requires i < |cs|
    ensures i in CandidateIndices(cs) <==> IsCandidate(cs[i])
  {
    if i < |cs| - 1 {
      CandidateIndicesMember(cs[..|cs| - 1], i);
    }
  }

  /** Exactly the candidate pairs with a positive score are detected: no score-0 pair,
      no disabled or hidden control, and every positive pair of a candidate. */
  lemma DetectionsMember(cs: seq<Control>, d: Detection)
    ensures d in Detections(cs) <==>
      && d.element < |cs|
      && IsCandidate(cs[d.element])
      && d.score == ScoreFor(cs[d.element], d.field)
      && d.score > 0
  {
    var sigs := SignalsOf(cs);
    var idx := CandidateIndices(cs);
    EmittedMember(sigs, idx, d);
    assert d in Detections(cs) <==> d in Emitted(sigs, idx) by {
      assert d in Detections(cs) <==> d in multiset(Detections(cs));
    }
    if d.element < |cs| {
      SignalsOfIndex(cs, d.element);
      CandidateIndicesMember(cs, d.element);
    }
  }

  /** Every detection designates a control of the document. */
  lemma DetectionsInRange(cs: seq<Control>)
    ensures forall k :: 0 <= k < |Detections(cs)| ==> Detections(cs)[k].element < |cs|
  {
    forall k | 0 <= k < |Detections(cs)| ensures Detections(cs)[k].element < |cs| {
      DetectionsMember(cs, Detections(cs)[k]);
    }
  }

  /** The order of emission: by control position, then by table row. */
  ghost predicate EmissionOrdered(ds: seq<Detection>) {
    forall p, q :: 0 <= p < q < |ds| ==>
      || ds[p].element < ds[q].element
      || (ds[p].element == ds[q].element && RowOf(ds[p].field) < RowOf(ds[q].field))
  }

  lemma {:induction false} EmittedOrdered(sigs: seq<seq<string>>, idx: seq<nat>)
    requires forall k :: 0 <= k < |idx| ==> idx[k] < |sigs|
    requires forall p, q :: 0 <= p < q < |idx| ==> idx[p] < idx[q]
    ensures EmissionOrdered(Emitted(sigs, idx))
  {
    if |idx| > 0 {
      var front := idx[..|idx| - 1];
      var last := idx[|idx| - 1];
      EmittedOrdered(sigs, front);
      RowDetectionsOrdered(last, sigs[last], |FieldOrder|);
      var a := Emitted(sigs, front);
      var b := RowDetections(last, sigs[last], |FieldOrder|);
      forall p | 0 <= p < |a| ensures a[p].element < last {
        EmittedMember(sigs, front, a[p]);
      }
      var ds := Emitted(sigs, idx);
      assert ds == a + b;
      forall p, q | 0 <= p < q < |ds|
        ensures || ds[p].element < ds[q].element
                || (ds[p].element == ds[q].element && RowOf(ds[p].field) < RowOf(ds[q].field))
      {
        if q < |a| {
          assert ds[p] == a[p] && ds[q] == a[q];
        } else if p < |a| {
          assert ds[p] == a[p] && ds[q] == b[q - |a|];
        } else {
          assert ds[p] == b[p - |a|] && ds[q] == b[q - |a|];
        }
      }
    }
  }

  /** Before sorting, detections come in control order, then in table order. */
  lemma EmissionInOrder(cs: seq<Control>)
    ensures EmissionOrdered(Emission(cs))
  {
    EmittedOrdered(SignalsOf(cs), CandidateIndices(cs));
  }

  lemma ScoreAboveIsStrictWeakOrder()
    ensures StrictWeakOrder(ScoreAbove)
  {
  }

  /** The detections with a given score, in order. */
  function ScoreBand(ds: seq<Detection>, k: nat): seq<Detection> {
    if |ds| == 0 then []
    else (if ds[0].score == k then [ds[0]] else []) + ScoreBand(ds[1..], k)
  }

  lemma {:induction false} ScoreBandIsEquivalents(ds: seq<Detection>, k: nat)
    ensures ScoreBand(ds, k) == EquivalentTo(ds, Detection(0, FullName, k), ScoreAbove)
  {
    if |ds| > 0 {
      ScoreBandIsEquivalents(ds[1..], k);
    }
  }

  /** The output is ranked by non-increasing score, is a permutation of the emission,
      and keeps emission order among equal scores (the sort is stable). */
  lemma DetectionsRanked(cs: seq<Control>)
    ensures forall p, q :: 0 <= p < q < |Detections(cs)| ==> Detections(cs)[p].score >= Detections(cs)[q].score
    ensures multiset(Detections(cs)) == multiset(Emission(cs))
    ensures forall k: nat :: ScoreBand(Detections(cs), k) == ScoreBand(Emission(cs), k)
  {
    ScoreAboveIsStrictWeakOrder();
    SortBySorted(Emission(cs), ScoreAbove);
    forall k: nat ensures ScoreBand(Detections(cs), k) == ScoreBand(Emission(cs), k) {
      SortByStable(Emission(cs), Detection(0, FullName, k), ScoreAbove);
      ScoreBandIsEquivalents(Detections(cs), k);
      ScoreBandIsEquivalents(Emission(cs), k);
    }
  }

  /** A control with no non-empty name, id, aria-label, placeholder or label text is never detected. */
  lemma NoSignalsNoDetection(cs: seq<Control>, i: nat)
    requires i < |cs| && Signals(cs[i]) == []
    ensures forall k :: 0 <= k < |Detections(cs)| ==> Detections(cs)[k].element != i
  {
    forall k | 0 <= k < |Detections(cs)| ensures Detections(cs)[k].element != i {
      DetectionsMember(cs, Detections(cs)[k]);
    }
  }

  /** A signal that some pattern of the field matches gives a positive score. */
  lemma ScorePositive(c: Control, f: FieldId, k: nat)
    requires k < |Signals(c)|
    requires AnyMatch(PatternsOf(f), Signals(c)[k])
    ensures ScoreFor(c, f) >= 1
  {
    ScoreExtremes(Signals(c), PatternsOf(f));
  }

  /** A control named exactly `email` scores at least 1 for `email`. */
  lemma EmailNameScores(c: Control)
    requires c.name == "email"
    ensures ScoreFor(c, Email) >= 1
  {
    assert Signals(c)[0] == "email";
    assert MatchesAt(Lit("email"), "email");
    assert PatternsOf(Email)[0] == Lit("email");
    ScorePositive(c, Email, 0);
  }

  /** No per-control deduplication: `first_name` is detected both as a first name
      (`/first.?name/`) and as a full name (`/name/`). */
  lemma FirstNameAlsoFullName(cs: seq<Control>, i: nat)
    requires i < |cs| && IsCandidate(cs[i])
    requires cs[i].name == "first_name" && cs[i].id == "" && cs[i].ariaLabel == None
    requires cs[i].placeholder == "" && cs[i].labels == []
    ensures Detection(i, FirstName, 1) in Detections(cs)
    ensures Detection(i, FullName, 1) in Detections(cs)
  {
    var c := cs[i];
    var s := "first_name";
    assert Signals(c) == [s] by {
      assert [c.name, c.id, c.ariaLabel.GetOr("")] == [s, "", ""];
      assert NonEmpty([""]) == [];
      assert NonEmpty(["", ""]) == [] by { assert ["", ""][1..] == [""]; }
      assert NonEmpty([s, "", ""]) == [s] by { assert [s, "", ""][1..] == ["", ""]; }
    }
    assert MatchesAt(Gap("first", "name"), s) by {
      assert StartsWithFold(s, "first");
      assert s[5..] == "_name" && s[6..] == "name";
      assert StartsWithFold(s[6..], "name");
    }
    assert AnyMatch(PatternsOf(FirstName), s) by { assert PatternsOf(FirstName)[0] == Gap("first", "name"); }
    assert MatchesAt(Lit("name"), s[6..]) by { assert s[6..] == "name"; }
    MatchesSomewhere(Lit("name"), s);
    assert AnyMatch(PatternsOf(FullName), s) by { assert PatternsOf(FullName)[0] == Lit("name"); }
    assert Score([s], PatternsOf(FirstName)) == 1 by { assert [s][..0] == []; }
    assert Score([s], PatternsOf(FullName)) == 1 by { assert [s][..0] == []; }
    DetectionsMember(cs, Detection(i, FirstName, 1));
    DetectionsMember(cs, Detection(i, FullName, 1));
  }

  // ---------------------------------------------------------------- values

  /** `getValueForField`: the composed full name, or the profile's value for the field
      (`None` for an optional key that is unset). */
  function ValueForField(p: UserProfile, f: FieldId): (v: Option<string>)
    ensures f == FullName ==> v == Some(ComposeFullName(p))
    ensures f == FirstName ==> v == Some(p.firstName)
    ensures f == LastName ==> v == Some(p.lastName)
    ensures f == Email ==> v == Some(p.email)
    ensures f == Phone ==> v == Some(p.phone)
    ensures f == Address ==> v == p.address
    ensures f == City ==> v == p.city
    ensures f == PostalCode ==> v == p.postalCode
    ensures f == LinkedinUrl ==> v == p.linkedinUrl
    ensures f == GithubUrl ==> v == p.githubUrl
    ensures f == WebsiteUrl ==> v == p.websiteUrl
  {
    match f
    case FullName => Some(ComposeFullName(p))
    case FirstName => Some(p.firstName)
    case LastName => Some(p.lastName)
    case Email => Some(p.email)
    case Phone => Some(p.phone)
    case Address => p.address
    case City => p.city
    case PostalCode => p.postalCode
    case LinkedinUrl => p.linkedinUrl
    case GithubUrl => p.githubUrl
    case WebsiteUrl => p.websiteUrl
  }
}
