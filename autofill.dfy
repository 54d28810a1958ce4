/**
 * The autofill engine of src/logic/autofillEngine.ts: inject the highlight
 * style once, detect the fields, and for each detection in ranked order either
 * skip it (no usable profile value) or write the value into the control and
 * dispatch `input` then `change`.
 */
module Autofill {
  import opened Wrappers
  import opened Profiles
  import opened FieldDetection

  /** The id of the injected `<style>` element. */
  const HighlightStyleId: string := "nextep-autofill-style"

  datatype EventKind = InputEvent | ChangeEvent

  /** A bubbling event dispatched on the control at position `target`. */
  datatype Event = Event(kind: EventKind, target: nat)

  datatype FilledField = FilledField(field: FieldId, value: string)

  datatype AutofillResult = AutofillResult(filledFields: seq<FilledField>, skippedFields: seq<FieldId>)

  // ------------------------------------------------------------- one write

  /** No option before position `n` has `v` as its value or its text. */
  predicate NoMatchBefore(options: seq<SelectOption>, v: string, n: nat) {
    forall j :: 0 <= j < n && j < |options| ==> options[j].value != v && options[j].text != v
  }

  /** The search of `find` from position `from` on: the position of the first option
      whose value or text is `v`, or `|options|` when there is none. */
  function FirstMatchFrom(options: seq<SelectOption>, v: string, from: nat): (k: nat)
    requires from <= |options| && NoMatchBefore(options, v, from)
    ensures from <= k <= |options| && NoMatchBefore(options, v, k)
    ensures k < |options| ==> options[k].value == v || options[k].text == v
    decreases |options| - from
  {
    if from == |options| || options[from].value == v || options[from].text == v then from
    else FirstMatchFrom(options, v, from + 1)
  }

  /** `options.find(opt => opt.value === value || opt.text === value)`: the first
      option whose value or text is `v`. */
  function FirstMatchingOption(options: seq<SelectOption>, v: string): (r: Option<SelectOption>)
    ensures r.Some? ==> r.value in options && (r.value.value == v || r.value.text == v)
    ensures r.None? <==> forall k :: 0 <= k < |options| ==> options[k].value != v && options[k].text != v
    ensures r.Some? ==> exists k :: 0 <= k < |options| && options[k] == r.value && NoMatchBefore(options, v, k)
  {
    var k := FirstMatchFrom(options, v, 0);
    if k < |options| then Some(options[k]) else None
  }

  /** Some option of the select carries this value. */
  predicate HasOptionValue(options: seq<SelectOption>, w: string) {
    exists k :: 0 <= k < |options| && options[k].value == w
  }

  /** The string `applyValue` assigns to `.value`: for a select, the value of the
      first option whose value or text is `v`, or `v` itself when there is none. */
  function Assigned(c: Control, v: string): string {
    if c.tag == SelectTag then
      match FirstMatchingOption(c.options, v)
      case Some(o) => o.value
      case None => v
    else v
  }

  /** What the control reports as its value after `.value = w`: a select keeps `w`
      only if one of its options has that value, and is otherwise left with no
      selection; a text control keeps `w`. */
  function Stored(c: Control, w: string): string {
    if c.tag != SelectTag || HasOptionValue(c.options, w) then w else ""
  }

  /** The message of the `DOMException` a throwing write raises. */
  const InvalidStateError: string := "InvalidStateError"

  /** Setting `.value` of an `<input type="file">` to anything but `""` throws an
      `InvalidStateError`; a write into any other control does not throw. */
  predicate WriteThrows(c: Control, v: string) {
    c.tag == InputTag && c.controlType == "file" && v != ""
  }

  /** The control after `applyValue(element, v)` when the write does not throw:
      only its value changes. */
  function Apply(c: Control, v: string): (r: Control)
    ensures r.(value := c.value) == c
  {
    c.(value := Stored(c, Assigned(c, v)))
  }

  /** An input or a textarea takes the value as given. */
  lemma ApplyText(c: Control, v: string)
    requires c.tag != SelectTag
    ensures Apply(c, v).value == v
  {
  }

  /** A select takes the value of the first option whose value or text is `v`. */
  lemma ApplySelectMatched(c: Control, v: string, o: SelectOption)
    requires c.tag == SelectTag && FirstMatchingOption(c.options, v) == Some(o)
    ensures Apply(c, v).value == o.value
  {
    var k :| 0 <= k < |c.options| && c.options[k] == o;
    assert HasOptionValue(c.options, o.value);
  }

  /** A select none of whose options has `v` as value or text is left with no
      selection, although `autofillForm` still reports the field as filled with `v`. */
  lemma ApplySelectUnmatched(c: Control, v: string)
    requires c.tag == SelectTag && FirstMatchingOption(c.options, v) == None
    ensures Apply(c, v).value == ""
  {
  }

  /** A second write overrides the first: the outcome depends only on the last value. */
  lemma ApplyTwice(c: Control, a: string, b: string)
    ensures Apply(Apply(c, a), b) == Apply(c, b)
  {
  }

  // ------------------------------------------------------- the whole pass

  /** `!value` is false: the profile has a non-empty string for the field. */
  predicate Fillable(v: Option<string>) {
    v.Some? && v.value != ""
  }

  /** The `filledFields` of a pass over the detections `ds`. */
  function FilledOf(ds: seq<Detection>, p: UserProfile): seq<FilledField> {
    if |ds| == 0 then []
    else
      var v := ValueForField(p, ds[|ds| - 1].field);
      FilledOf(ds[..|ds| - 1], p) + (if Fillable(v) then [FilledField(ds[|ds| - 1].field, v.value)] else [])
  }

  /** The `skippedFields` of a pass over the detections `ds`. */
  function SkippedOf(ds: seq<Detection>, p: UserProfile): seq<FieldId> {
    if |ds| == 0 then []
    else
      var v := ValueForField(p, ds[|ds| - 1].field);
      SkippedOf(ds[..|ds| - 1], p) + (if Fillable(v) then [] else [ds[|ds| - 1].field])
  }

  /** The events dispatched during a pass over the detections `ds`. */
  function EventsOf(ds: seq<Detection>, p: UserProfile): seq<Event> {
    if |ds| == 0 then []
    else
      var d := ds[|ds| - 1];
      EventsOf(ds[..|ds| - 1], p)
        + (if Fillable(ValueForField(p, d.field)) then [Event(InputEvent, d.element), Event(ChangeEvent, d.element)] else [])
  }

  /** The controls after a pass over the detections `ds`, writing in order. */
  function Written(cs: seq<Control>, ds: seq<Detection>, p: UserProfile): (r: seq<Control>)
    ensures |r| == |cs|
  {
    if |ds| == 0 then cs
    else
      var before := Written(cs, ds[..|ds| - 1], p);
      var d := ds[|ds| - 1];
      var v := ValueForField(p, d.field);
      if Fillable(v) && d.element < |cs| then before[d.element := Apply(before[d.element], v.value)] else before
  }

  /** The value last written into control `e` during a pass over `ds`, if any. */
  function LastFill(ds: seq<Detection>, p: UserProfile, e: nat): Option<string> {
    if |ds| == 0 then None
    else
      var d := ds[|ds| - 1];
      var v := ValueForField(p, d.field);
      if d.element == e && Fillable(v) then Some(v.value) else LastFill(ds[..|ds| - 1], p, e)
  }

  /** The write for detection `d` throws: the profile has a value for its field and its
      control is a file input. Writes change only values, so the controls as they were
      before the pass decide this. */
  predicate Throwing(cs: seq<Control>, d: Detection, p: UserProfile) {
    var v := ValueForField(p, d.field);
    Fillable(v) && d.element < |cs| && WriteThrows(cs[d.element], v.value)
  }

  /** Where the pass stops: the position of the first detection whose write throws,
      or `|ds|` when none does. */
  function FirstThrow(cs: seq<Control>, ds: seq<Detection>, p: UserProfile): (n: nat)
    ensures n <= |ds|
    ensures forall k :: 0 <= k < n ==> !Throwing(cs, ds[k], p)
    ensures n < |ds| ==> Throwing(cs, ds[n], p)
  {
    if |ds| == 0 then 0
    else if Throwing(cs, ds[0], p) then 0
    else
      var n := FirstThrow(cs, ds[1..], p);
      assert forall k :: 1 <= k < |ds| ==> ds[k] == ds[1..][k - 1];
      1 + n
  }

  /** Before the stopping point, a detection either stops the pass exactly there or
      lets it go on. */
  lemma StopStep(cs: seq<Control>, ds: seq<Detection>, k: nat, p: UserProfile)
    requires k < |ds| && k <= FirstThrow(cs, ds, p)
    ensures Throwing(cs, ds[k], p) ==> k == FirstThrow(cs, ds, p)
    ensures !Throwing(cs, ds[k], p) ==> k + 1 <= FirstThrow(cs, ds, p)
  {
  }

  /** A pass over controls none of which is a file input runs to the end. */
  lemma NoFileInputCompletes(cs: seq<Control>, ds: seq<Detection>, p: UserProfile)
    requires forall j :: 0 <= j < |cs| ==> cs[j].controlType != "file"
    ensures FirstThrow(cs, ds, p) == |ds|
  {
  }

  /** A pass changes only the values of the controls, never their kind or options. */
  lemma {:induction false} WrittenKeepsKind(cs: seq<Control>, ds: seq<Detection>, p: UserProfile, e: nat)
    requires e < |cs|
    ensures Written(cs, ds, p)[e].(value := cs[e].value) == cs[e]
  {
    if |ds| > 0 {
      WrittenKeepsKind(cs, ds[..|ds| - 1], p, e);
    }
  }

  /** Whether the write for detection `k` throws is decided on the controls as the
      writes before it left them, and agrees with `Throwing` on the original ones. */
  lemma ThrowAt(cs: seq<Control>, ds: seq<Detection>, k: nat, p: UserProfile, v: string)
    requires k < |ds| && ds[k].element < |cs|
    requires ValueForField(p, ds[k].field) == Some(v) && v != ""
    ensures WriteThrows(Written(cs, ds[..k], p)[ds[k].element], v) == Throwing(cs, ds[k], p)
  {
    WrittenKeepsKind(cs, ds[..k], p, ds[k].element);
  }

  /** The lists of a pass over one more detection are the lists so far followed by
      that detection's entry. */
  lemma ListsStep(ds: seq<Detection>, k: nat, p: UserProfile)
    requires k < |ds|
    ensures var d := ds[k];
      var v := ValueForField(p, d.field);
      && FilledOf(ds[..k + 1], p) == FilledOf(ds[..k], p) + (if Fillable(v) then [FilledField(d.field, v.value)] else [])
      && SkippedOf(ds[..k + 1], p) == SkippedOf(ds[..k], p) + (if Fillable(v) then [] else [d.field])
  {
    assert ds[..k + 1][..k] == ds[..k];
  }

  /** The page after a pass over one more detection is the page so far after that
      detection's write and events, if it has a usable value. */
  lemma PageStep(cs: seq<Control>, ds: seq<Detection>, k: nat, p: UserProfile)
    requires k < |ds|
    ensures var d := ds[k];
      var v := ValueForField(p, d.field);
      var before := Written(cs, ds[..k], p);
      && EventsOf(ds[..k + 1], p) ==
        EventsOf(ds[..k], p) + (if Fillable(v) then [Event(InputEvent, d.element), Event(ChangeEvent, d.element)] else [])
      && Written(cs, ds[..k + 1], p) ==
        (if Fillable(v) && d.element < |cs| then before[d.element := Apply(before[d.element], v.value)] else before)
  {
    assert ds[..k + 1][..k] == ds[..k];
  }

  /** Every detection is either filled or skipped, never both, in order. */
  lemma {:induction false} FilledSkippedPartition(ds: seq<Detection>, p: UserProfile)
    ensures |FilledOf(ds, p)| + |SkippedOf(ds, p)| == |ds|
    ensures |EventsOf(ds, p)| == 2 * |FilledOf(ds, p)|
  {
    if |ds| > 0 {
      FilledSkippedPartition(ds[..|ds| - 1], p);
    }
  }

  /** A filled field carries the profile's non-empty value for it; a skipped one has none. */
  lemma {:induction false} FilledValuesFromProfile(ds: seq<Detection>, p: UserProfile)
    ensures forall k :: 0 <= k < |FilledOf(ds, p)| ==>
      FilledOf(ds, p)[k].value != "" && ValueForField(p, FilledOf(ds, p)[k].field) == Some(FilledOf(ds, p)[k].value)
    ensures forall k :: 0 <= k < |SkippedOf(ds, p)| ==> !Fillable(ValueForField(p, SkippedOf(ds, p)[k]))
  {
    if |ds| > 0 {
      FilledValuesFromProfile(ds[..|ds| - 1], p);
    }
  }

  /** The detections the pass fills, in order. */
  function FillableDetections(ds: seq<Detection>, p: UserProfile): seq<Detection> {
    if |ds| == 0 then []
    else
      var d := ds[|ds| - 1];
      FillableDetections(ds[..|ds| - 1], p) + (if Fillable(ValueForField(p, d.field)) then [d] else [])
  }

  /** The k-th filled detection is a fillable detection of the pass; it is the k-th entry
      of `filledFields`, and it dispatches `input` and then `change` on its own control
      as the k-th pair of events. */
  lemma {:induction false} EventsPaired(ds: seq<Detection>, p: UserProfile)
    ensures var fs := FillableDetections(ds, p);
      && |EventsOf(ds, p)| == 2 * |fs| && |FilledOf(ds, p)| == |fs|
      && forall k :: 0 <= k < |fs| ==>
        && fs[k] in ds && Fillable(ValueForField(p, fs[k].field))
        && FilledOf(ds, p)[k].field == fs[k].field
        && EventsOf(ds, p)[2 * k] == Event(InputEvent, fs[k].element)
        && EventsOf(ds, p)[2 * k + 1] == Event(ChangeEvent, fs[k].element)
  {
    if |ds| > 0 {
      var front := ds[..|ds| - 1];
      EventsPaired(front, p);
      assert forall x :: x in front ==> x in ds;
    }
  }

  /** The last write wins: after the pass a control holds the last value written into
      it, and a control no fillable detection designates is unchanged. */
  lemma {:induction false} LastWriteWins(cs: seq<Control>, ds: seq<Detection>, p: UserProfile, e: nat)
    requires e < |cs|
    requires forall k :: 0 <= k < |ds| ==> ds[k].element < |cs|
    ensures Written(cs, ds, p)[e] ==
      match LastFill(ds, p, e)
      case None => cs[e]
      case Some(v) => Apply(cs[e], v)
  {
    if |ds| > 0 {
      var front := ds[..|ds| - 1];
      LastWriteWins(cs, front, p, e);
      match LastFill(front, p, e)
      case None => {}
      case Some(a) => {
        var d := ds[|ds| - 1];
        var v := ValueForField(p, d.field);
        if d.element == e && Fillable(v) {
          ApplyTwice(cs[e], a, v.value);
        }
      }
    }
  }

  // ---------------------------------------------------------------- page

  /** The page's form controls, the ids of its other elements, and the events
      dispatched so far. */
  class Page {
    const controls: array<Control>
    var otherIds: seq<string>
    var events: seq<Event>

    constructor (cs: seq<Control>, ids: seq<string>)
      ensures fresh(controls) && controls[..] == cs
      ensures otherIds == ids && events == []
    {
      controls := new Control[|cs|](k requires 0 <= k < |cs| => cs[k]);
      otherIds := ids;
      events := [];
    }

    /** `document.getElementById(id)` finds an element. */
    predicate HasElementWithId(id: string)
      reads this, controls
    {
      id in otherIds || exists k :: 0 <= k < controls.Length && controls[k].id == id
    }

    /** `ensureHighlightStyle`: add the style element unless an element already has its id. */
    method EnsureHighlightStyle()
      modifies this
      ensures HasElementWithId(HighlightStyleId)
      ensures otherIds == if old(HasElementWithId(HighlightStyleId)) then old(otherIds) else old(otherIds) + [HighlightStyleId]
      ensures events == old(events)
    {
      if !HasElementWithId(HighlightStyleId) {
        otherIds := otherIds + [HighlightStyleId];
      }
    }

    /** `applyValue`: write the value (through the matching option for a select),
        then dispatch `input` and `change`. A write that throws leaves the page as it
        was and dispatches nothing. */
    method ApplyValue(i: nat, v: string) returns (thrown: bool)
      requires i < controls.Length
      modifies this, controls
      ensures thrown == WriteThrows(old(controls[i]), v)
      ensures thrown ==> controls[..] == old(controls[..]) && events == old(events)
      ensures !thrown ==> controls[..] == old(controls[..])[i := Apply(old(controls[i]), v)]
      ensures !thrown ==> events == old(events) + [Event(InputEvent, i), Event(ChangeEvent, i)]
      ensures otherIds == old(otherIds)
    {
      var c := controls[i];
      thrown := false;
      if c.tag == SelectTag {
        var option := FirstMatchingOption(c.options, v);
        if option.Some? {
          controls[i] := c.(value := Stored(c, option.value.value));
        } else {
          controls[i] := c.(value := Stored(c, v));
        }
      } else if WriteThrows(c, v) {
        thrown := true;
        return;
      } else {
        controls[i] := c.(value := v);
      }
      events := events + [Event(InputEvent, i), Event(ChangeEvent, i)];
    }

    /** The write of one round of the `detected.forEach`, with `cs` and `log` the
        controls and the events before the pass, and `v` the usable profile value for
        detection `k`. The write throws exactly where the pass stops, and otherwise
        extends the pass by one detection. */
    method FillStep(ghost cs: seq<Control>, ghost log: seq<Event>, detected: seq<Detection>, profile: UserProfile, k: nat, v: string)
      returns (thrown: bool)
      requires k < |detected| && detected[k].element < |cs| && |cs| == controls.Length
      requires ValueForField(profile, detected[k].field) == Some(v) && v != ""
      requires k <= FirstThrow(cs, detected, profile)
      requires controls[..] == Written(cs, detected[..k], profile)
      requires events == log + EventsOf(detected[..k], profile)
      modifies this, controls
      ensures thrown <==> k == FirstThrow(cs, detected, profile)
      ensures thrown ==> controls[..] == old(controls[..]) && events == old(events)
      ensures !thrown ==> controls[..] == Written(cs, detected[..k + 1], profile)
      ensures !thrown ==> events == log + EventsOf(detected[..k + 1], profile)
      ensures otherIds == old(otherIds)
    {
      PageStep(cs, detected, k, profile);
      StopStep(cs, detected, k, profile);
      ThrowAt(cs, detected, k, profile, v);
      thrown := ApplyValue(detected[k].element, v);
    }

    /** The `detected.forEach` of `autofillForm`: fill what the profile has a value
        for, skip the rest, in the order of `detected`. A throwing write ends the
        pass with the exception; the writes before it stay on the page. */
    method FillDetected(detected: seq<Detection>, profile: UserProfile) returns (result: Result<AutofillResult>)
      requires forall k :: 0 <= k < |detected| ==> detected[k].element < controls.Length
      modifies this, controls
      ensures var n := FirstThrow(old(controls[..]), detected, profile);
        && controls[..] == Written(old(controls[..]), detected[..n], profile)
        && events == old(events) + EventsOf(detected[..n], profile)
        && result == if n == |detected| then Ok(AutofillResult(FilledOf(detected, profile), SkippedOf(detected, profile)))
          else Err(InvalidStateError)
      ensures otherIds == old(otherIds)
    {
      ghost var n := FirstThrow(old(controls[..]), detected, profile);
      var filled: seq<FilledField> := [];
      var skipped: seq<FieldId> := [];
      for k := 0 to |detected|
        invariant k <= n
        invariant controls[..] == Written(old(controls[..]), detected[..k], profile)
        invariant events == old(events) + EventsOf(detected[..k], profile)
        invariant filled == FilledOf(detected[..k], profile)
        invariant skipped == SkippedOf(detected[..k], profile)
        invariant otherIds == old(otherIds)
      {
        var d := detected[k];
        var value := ValueForField(profile, d.field);
        ListsStep(detected, k, profile);
        if !Fillable(value) {
          PageStep(old(controls[..]), detected, k, profile);
          StopStep(old(controls[..]), detected, k, profile);
          skipped := skipped + [d.field];
        } else {
          var thrown := FillStep(old(controls[..]), old(events), detected, profile, k, value.value);
          if thrown {
            result := Err(InvalidStateError);
            return;
          }
          filled := filled + [FilledField(d.field, value.value)];
        }
      }
      assert n == |detected| && detected[..n] == detected;
      result := Ok(AutofillResult(filled, skipped));
    }

    /** `autofillForm`: inject the highlight style, detect the fields, then one pass
        over the ranked detections, which may end in an exception. */
    method AutofillForm(profile: UserProfile) returns (result: Result<AutofillResult>)
      modifies this, controls
      ensures var detected := Detections(old(controls[..]));
        var n := FirstThrow(old(controls[..]), detected, profile);
        && controls[..] == Written(old(controls[..]), detected[..n], profile)
        && events == old(events) + EventsOf(detected[..n], profile)
        && result == if n == |detected| then Ok(AutofillResult(FilledOf(detected, profile), SkippedOf(detected, profile)))
          else Err(InvalidStateError)
      ensures otherIds == if old(HasElementWithId(HighlightStyleId)) then old(otherIds) else old(otherIds) + [HighlightStyleId]
    {
      EnsureHighlightStyle();
      var detected := FindFormFields(controls[..]);
      DetectionsInRange(controls[..]);
      result := FillDetected(detected, profile);
    }
  }
}
