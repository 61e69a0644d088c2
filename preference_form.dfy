/** The preference form (components/PreferenceForm.tsx): the free-text list fields, the
    nutritional-focus checkboxes and submission, as functions from the previous
    preferences to the next. */
module PreferenceForm {
  import opened Wrappers
  import opened JsString
  import opened Types
  import opened Lists
  import opened Constants

  /** `.map(s => s.trim())`: piece `i` trimmed, for every `i`, in order. */
  function MapTrim(ps: seq<string>): (r: seq<string>)
    ensures |r| == |ps|
    ensures forall i :: 0 <= i < |ps| ==> r[i] == Trim(ps[i])
  {
    seq(|ps|, i requires 0 <= i < |ps| => Trim(ps[i]))
  }

  /** `.filter(s => s)`: the non-empty strings, in order. */
  function FilterNonEmpty(ps: seq<string>): (r: seq<string>)
    ensures |r| <= |ps|
    ensures forall i :: 0 <= i < |r| ==> r[i] != ""
  {
    if ps == [] then []
    else if ps[0] == "" then FilterNonEmpty(ps[1..])
    else [ps[0]] + FilterNonEmpty(ps[1..])
  }

  /** The filter keeps every non-empty entry and nothing else. */
  lemma {:induction false} FilterNonEmptyMembers(ps: seq<string>)
    ensures forall x :: x in FilterNonEmpty(ps) <==> x in ps && x != ""
    decreases |ps|
  {
    if ps != [] {
      FilterNonEmptyMembers(ps[1..]);
      assert ps == [ps[0]] + ps[1..];
    }
  }

  /** The filter looks at one entry at a time and keeps the survivors in order. */
  lemma FilterNonEmptyCons(p: string, ps: seq<string>)
    ensures FilterNonEmpty([p] + ps) == (if p == "" then [] else [p]) + FilterNonEmpty(ps)
  {
    assert ([p] + ps)[1..] == ps;
  }

  /** Filtering a concatenation filters each part and keeps them in order. */
  lemma {:induction false} FilterNonEmptyAppend(a: seq<string>, b: seq<string>)
    ensures FilterNonEmpty(a + b) == FilterNonEmpty(a) + FilterNonEmpty(b)
    decreases |a|
  {
    if a == [] {
      assert a + b == b;
    } else {
      assert a + b == [a[0]] + (a[1..] + b);
      FilterNonEmptyCons(a[0], a[1..] + b);
      FilterNonEmptyAppend(a[1..], b);
      FilterNonEmptyCons(a[0], a[1..]);
      assert [a[0]] + a[1..] == a;
    }
  }

  /** A list without empty entries passes the filter unchanged. */
  lemma {:induction false} FilterNonEmptyKeepsNonEmpty(ps: seq<string>)
    requires forall i :: 0 <= i < |ps| ==> ps[i] != ""
    ensures FilterNonEmpty(ps) == ps
    decreases |ps|
  {
    if ps != [] {
      FilterNonEmptyKeepsNonEmpty(ps[1..]);
    }
  }

  /** `value.split(',').map(s => s.trim()).filter(s => s)` */
  function ParseList(value: string): seq<string> {
    FilterNonEmpty(MapTrim(Split(value, ',')))
  }

  /** The text an input field shows for a list: `value.join(', ')`. */
  function Display(xs: seq<string>): string {
    Join(xs, ", ")
  }

  /** An element a field can hold: non-empty, without whitespace at either end and
      free of commas. */
  predicate IsListItem(x: string) {
    x != "" && !IsWhitespace(x[0]) && !IsWhitespace(x[|x| - 1]) && ',' !in x
  }

  /** A list a field can hold. */
  predicate AllListItems(xs: seq<string>) {
    forall i :: 0 <= i < |xs| ==> IsListItem(xs[i])
  }

  lemma AllListItemsConcat(a: seq<string>, b: seq<string>)
    requires AllListItems(a) && AllListItems(b)
    ensures AllListItems(a + b)
  {
    var r := a + b;
    forall i | 0 <= i < |r| ensures IsListItem(r[i]) {
      if i < |a| { assert r[i] == a[i]; } else { assert r[i] == b[i - |a|]; }
    }
  }

  /** A field item is already trimmed. */
  lemma ListItemIsTrimmed(x: string)
    requires IsListItem(x)
    ensures Trim(x) == x
  {
    TrimPadded([], x, []);
    assert [] + x + [] == x;
  }

  /** `handleTextArrayChange(field, value)` */
  function HandleTextArrayChange(prev: UserPreferences, field: PreferenceField, value: string): UserPreferences {
    WithField(prev, field, ParseList(value))
  }

  /** The focus list after a checkbox click on `focusKey`. */
  function ToggleFocus(focus: seq<string>, focusKey: string): (r: seq<string>)
    ensures focusKey in r <==> focusKey !in focus
  {
    if focusKey in focus then Remove(focus, focusKey) else focus + [focusKey]
  }

  /** `handleNutritionalFocusChange(focusKey)` */
  function HandleNutritionalFocusChange(prev: UserPreferences, focusKey: string): UserPreferences {
    prev.(nutritionalFocus := ToggleFocus(prev.nutritionalFocus, focusKey))
  }

  /** What the form does. A new `initialPreferences` prop replaces the local state
      (lines 45-47); submitting hands the local state to `onSubmit`. */
  datatype FormEvent =
    | TextChange(field: PreferenceField, value: string)
    | FocusToggle(focusKey: string)
    | Submit
    | NewInitialPreferences(preferences: UserPreferences)

  /** The state after an event, and the value passed to `onSubmit`, if any. */
  function Step(state: UserPreferences, e: FormEvent): (UserPreferences, Option<UserPreferences>) {
    match e
    case TextChange(field, value) => (HandleTextArrayChange(state, field, value), None)
    case FocusToggle(focusKey) => (HandleNutritionalFocusChange(state, focusKey), None)
    case Submit => (state, Some(state))
    case NewInitialPreferences(p) => (p, None)
  }

  // ---------------------------------------------------------------------------
  // The text-field parse

  lemma ParseListCons(p: string, ps: seq<string>)
    ensures FilterNonEmpty(MapTrim([p] + ps)) ==
      (if Trim(p) == "" then [] else [Trim(p)]) + FilterNonEmpty(MapTrim(ps))
  {
    assert ([p] + ps)[1..] == ps;
    assert MapTrim([p] + ps) == [Trim(p)] + MapTrim(ps);
    assert (MapTrim([p] + ps))[1..] == MapTrim(ps);
  }

  /** A comma-free piece that is not blank trims to a field item. */
  lemma TrimmedPieceIsItem(piece: string)
    requires ',' !in piece && Trim(piece) != ""
    ensures IsListItem(Trim(piece))
  {
    TrimStartSuffix(piece, ',');
    TrimEndPrefix(TrimStart(piece), ',');
  }

  /** Comma-free pieces, trimmed and filtered, are field items. */
  lemma {:induction false} PiecesGiveItems(ps: seq<string>)
    requires forall i :: 0 <= i < |ps| ==> ',' !in ps[i]
    ensures AllListItems(FilterNonEmpty(MapTrim(ps)))
  {
    if ps != [] {
      var tail := ps[1..];
      assert ps == [ps[0]] + tail;
      assert forall i :: 0 <= i < |tail| ==> tail[i] == ps[i + 1];
      PiecesGiveItems(tail);
      ParseListCons(ps[0], tail);
      var head: seq<string> := if Trim(ps[0]) == "" then [] else [Trim(ps[0])];
      if head != [] {
        TrimmedPieceIsItem(ps[0]);
      }
      AllListItemsConcat(head, FilterNonEmpty(MapTrim(tail)));
    }
  }

  /** Line 50: each element is a trimmed, comma-free, non-empty piece. */
  lemma ParseListItems(value: string)
    ensures AllListItems(ParseList(value))
  {
    PiecesGiveItems(Split(value, ','));
  }

  /** Line 50: the pieces come out in order. Parsing text joined at a comma is parsing
      each side. */
  lemma {:induction false} ParseListAtComma(a: string, t: string)
    requires ',' !in a
    ensures ParseList(a + "," + t) == (if Trim(a) == "" then [] else [Trim(a)]) + ParseList(t)
  {
    SplitAtSeparator(a, ',', t);
    assert a + "," + t == a + [','] + t;
    ParseListCons(a, Split(t, ','));
  }

  /** Text without a comma is one entry, trimmed, or nothing when it is blank. */
  lemma ParseListNoComma(a: string)
    requires ',' !in a
    ensures ParseList(a) == if Trim(a) == "" then [] else [Trim(a)]
  {
    SplitNoSeparator(a, ',');
    ParseListCons(a, []);
    assert [a] + [] == [a];
  }

  lemma WhitespaceHasNoComma(p: string)
    requires AllWhitespace(p)
    ensures ',' !in p
  {
    forall k | 0 <= k < |p| ensures p[k] != ',' { assert IsWhitespace(p[k]); }
  }

  /** A single padded item parses to that item. */
  lemma ParseListPaddedItem(p: string, x: string)
    requires AllWhitespace(p) && ',' !in p && IsListItem(x)
    ensures ParseList(p + x) == [x]
  {
    assert ',' !in p + x;
    ParseListNoComma(p + x);
    TrimPadded(p, x, []);
    assert p + x + [] == p + x;
  }

  lemma DisplayCons(p: string, xs: seq<string>)
    requires |xs| >= 2
    ensures p + Display(xs) == (p + xs[0]) + "," + (" " + Display(xs[1..]))
  {
    var rest := Display(xs[1..]);
    assert Display(xs) == xs[0] + ", " + rest;
  }

  /** A padded item before a comma contributes that item. */
  lemma ParseListPaddedItemAtComma(p: string, x: string, t: string)
    requires AllWhitespace(p) && ',' !in p && IsListItem(x)
    ensures ParseList((p + x) + "," + t) == [x] + ParseList(t)
  {
    assert ',' !in p + x;
    ParseListAtComma(p + x, t);
    TrimPadded(p, x, []);
    assert p + x + [] == p + x;
  }

  lemma SpaceIsWhitespace()
    ensures AllWhitespace(" ") && ',' !in " "
  {
    assert " "[0] == ' ';
  }

  /** Whitespace in front of a list display is dropped by the parse. */
  lemma {:induction false} ParseListPaddedDisplay(p: string, xs: seq<string>)
    requires AllWhitespace(p) && ',' !in p
    requires AllListItems(xs)
    ensures ParseList(p + Display(xs)) == xs
    decreases |xs|
  {
    if xs == [] {
      assert p + Display(xs) == p;
      ParseListNoComma(p);
      TrimPadded(p, [], []);
      assert p + [] + [] == p;
    } else if |xs| == 1 {
      assert p + Display(xs) == p + xs[0];
      ParseListPaddedItem(p, xs[0]);
    } else {
      DisplayCons(p, xs);
      ParseListPaddedItemAtComma(p, xs[0], " " + Display(xs[1..]));
      SpaceIsWhitespace();
      ParseListPaddedDisplay(" ", xs[1..]);
      assert [xs[0]] + xs[1..] == xs;
    }
  }

  /** Line 30 against line 50: parsing the displayed text of a list of field items gives
      the list back. */
  lemma DisplayParseRoundTrip(xs: seq<string>)
    requires AllListItems(xs)
    ensures ParseList(Display(xs)) == xs
  {
    assert AllWhitespace("") && ',' !in "";
    ParseListPaddedDisplay("", xs);
    assert "" + Display(xs) == Display(xs);
  }

  /** The other round trip: a parsed value displays and re-parses to the same list, so
      re-rendering a field never changes what it holds. */
  lemma ParseDisplayParse(value: string)
    ensures ParseList(Display(ParseList(value))) == ParseList(value)
  {
    ParseListItems(value);
    DisplayParseRoundTrip(ParseList(value));
  }

  /** Line 50: a text change sets the named field to the parse of the text, whose
      entries are all field items, and leaves every other field as it was. */
  lemma TextChangeOnlyTouchesField(prev: UserPreferences, field: PreferenceField, value: string)
    ensures Field(HandleTextArrayChange(prev, field, value), field) == ParseList(value)
    ensures forall g :: g != field ==> Field(HandleTextArrayChange(prev, field, value), g) == Field(prev, g)
    ensures AllListItems(Field(HandleTextArrayChange(prev, field, value), field))
  {
    ParseListItems(value);
  }

  // ---------------------------------------------------------------------------
  // The focus toggle

  /** Lines 55-57: a present key is removed with every occurrence, an absent key is
      appended at the end. */
  lemma ToggleFocusEffect(focus: seq<string>, focusKey: string)
    ensures focusKey in focus ==>
      focusKey !in ToggleFocus(focus, focusKey)
      && forall y :: y != focusKey ==> (y in ToggleFocus(focus, focusKey) <==> y in focus)
    ensures focusKey !in focus ==> ToggleFocus(focus, focusKey) == focus + [focusKey]
  {
  }

  /** Two clicks on a key the list lacks restore the list. */
  lemma ToggleTwiceRestores(focus: seq<string>, focusKey: string)
    requires focusKey !in focus
    ensures ToggleFocus(ToggleFocus(focus, focusKey), focusKey) == focus
  {
    RemoveAppend(focus, [focusKey], focusKey);
    RemoveAbsent(focus, focusKey);
    assert Remove([focusKey], focusKey) == [];
    assert focus + [] == focus;
  }

  /** Line 58: a toggle changes only the focus list. */
  lemma FocusToggleOnlyTouchesFocus(prev: UserPreferences, focusKey: string)
    ensures var next := HandleNutritionalFocusChange(prev, focusKey);
      && next.nutritionalFocus == ToggleFocus(prev.nutritionalFocus, focusKey)
      && next.healthConditions == prev.healthConditions && next.allergies == prev.allergies
      && next.likedFoods == prev.likedFoods && next.dislikedFoods == prev.dislikedFoods
  {
  }

  /** The checkboxes keep the focus list a duplicate-free selection from the vocabulary:
      starting from the defaults, clicks on vocabulary keys never add a duplicate or a
      foreign key. */
  predicate FocusWellFormed(focus: seq<string>) {
    Distinct(focus) && forall k :: k in focus ==> k in NutritionalFocusKeys
  }

  lemma ToggleKeepsFocusWellFormed(focus: seq<string>, focusKey: string)
    requires FocusWellFormed(focus) && focusKey in NutritionalFocusKeys
    ensures FocusWellFormed(ToggleFocus(focus, focusKey))
  {
    if focusKey in focus {
      RemoveDistinct(focus, focusKey);
    } else {
      var r := focus + [focusKey];
      forall i, j | 0 <= i < j < |r| ensures r[i] != r[j] {
        if j == |focus| { assert r[i] == focus[i]; }
      }
    }
  }

  lemma DefaultFocusWellFormed()
    ensures FocusWellFormed(DefaultUserPreferences.nutritionalFocus)
  {
    DefaultPreferencesShape();
  }

  // ---------------------------------------------------------------------------
  // The event loop

  /** Lines 62-65: submitting hands over the current preferences unchanged and keeps
      them; no other event submits anything. */
  lemma SubmitPassesPreferences(state: UserPreferences, e: FormEvent)
    ensures e.Submit? ==> Step(state, e) == (state, Some(state))
    ensures !e.Submit? ==> Step(state, e).1 == None
  {
  }

  /** The state a run of events leaves, starting from `state`. */
  function Run(state: UserPreferences, es: seq<FormEvent>): UserPreferences
    decreases |es|
  {
    if es == [] then state else Run(Step(state, es[0]).0, es[1..])
  }

  /** The events a user can cause: edits of the four text fields, clicks on the
      vocabulary's checkboxes, submissions, and preferences handed down by the page. */
  predicate ExpectedEvent(e: FormEvent) {
    match e
    case TextChange(field, _) => field != NutritionalFocus
    case FocusToggle(k) => k in NutritionalFocusKeys
    case Submit => true
    case NewInitialPreferences(p) => FocusWellFormed(p.nutritionalFocus)
  }

  /** One expected event keeps the focus list well-formed. */
  lemma StepKeepsFocusWellFormed(state: UserPreferences, e: FormEvent)
    requires FocusWellFormed(state.nutritionalFocus) && ExpectedEvent(e)
    ensures FocusWellFormed(Step(state, e).0.nutritionalFocus)
  {
    match e {
      case TextChange(field, value) =>
        var next := Step(state, e).0;
        assert next.nutritionalFocus == Field(next, NutritionalFocus) == Field(state, NutritionalFocus);
      case FocusToggle(k) =>
        ToggleKeepsFocusWellFormed(state.nutritionalFocus, k);
      case Submit =>
      case NewInitialPreferences(p) =>
    }
  }

  /** A run of expected events keeps the focus list well-formed. */
  lemma {:induction false} RunKeepsFocusWellFormed(state: UserPreferences, es: seq<FormEvent>)
    requires FocusWellFormed(state.nutritionalFocus)
    requires forall i :: 0 <= i < |es| ==> ExpectedEvent(es[i])
    ensures FocusWellFormed(Run(state, es).nutritionalFocus)
    decreases |es|
  {
    if es != [] {
      StepKeepsFocusWellFormed(state, es[0]);
      assert forall i :: 0 <= i < |es[1..]| ==> es[1..][i] == es[i + 1];
      RunKeepsFocusWellFormed(Step(state, es[0]).0, es[1..]);
    }
  }
}
