/** The bookmarklet's tag field: comma-separated tags, suggestions for the
    fragment being typed, insertion of a chosen suggestion and keyboard selection. */
module TagAutocomplete {
  import opened JsString

  // ---------------------------------------------------------------------
  // Fragments of the input

  /** `t.trim().toLowerCase()`. */
  function Normalize(t: string): string {
    ToLower(Trim(t))
  }

  /** `parts.map(f)`. */
  function Map(f: string -> string, parts: seq<string>): (r: seq<string>)
    ensures |r| == |parts|
    ensures forall i :: 0 <= i < |parts| ==> r[i] == f(parts[i])
  {
    seq(|parts|, i requires 0 <= i < |parts| => f(parts[i]))
  }

  lemma MapSnoc(f: string -> string, p: seq<string>, x: string)
    ensures Map(f, p + [x]) == Map(f, p) + [f(x)]
  {
  }

  /** `usedTags.slice(0, -1)`: every comma fragment but the last, normalised. */
  function EarlierTags(value: string): (r: seq<string>)
    ensures |r| == |Split(value, ',')| - 1
    ensures forall i :: 0 <= i < |r| ==> r[i] == Normalize(Split(value, ',')[i])
  {
    var parts := Split(value, ',');
    Map(Normalize, parts[..|parts| - 1])
  }

  /** The fragment being typed: the text after the last comma (all of it when there is
      none), normalised; that is, the last comma fragment. */
  function CurrentFragment(value: string): (r: string)
    ensures r == Normalize(Split(value, ',')[|Split(value, ',')| - 1])
  {
    var last := AfterLast(value, ',');
    assert last == Split(value, ',')[|Split(value, ',')| - 1];
    Normalize(last)
  }

  // ---------------------------------------------------------------------
  // Suggestions

  /** The filter of `updateTagDropdown`: the tag extends a non-empty fragment and is not
      already among the earlier fragments (both compared in lower case). */
  predicate Suggested(tag: string, fragment: string, earlier: seq<string>) {
    && |fragment| > 0
    && StartsWith(ToLower(tag), fragment)
    && ToLower(tag) !in earlier
  }

  /** `a` is `b` with some elements left out, the rest in their order. */
  predicate SubsequenceOf<T(==)>(a: seq<T>, b: seq<T>)
    decreases |b|
  {
    || a == []
    || (&& b != []
        && ((a[0] == b[0] && SubsequenceOf(a[1..], b[1..])) || SubsequenceOf(a, b[1..])))
  }

  function Filter(tags: seq<string>, fragment: string, earlier: seq<string>): (r: seq<string>)
    // the suggested tags, each as often as it occurs, in their original order
    ensures forall t :: multiset(r)[t] == if Suggested(t, fragment, earlier) then multiset(tags)[t] else 0
    ensures forall t :: t in r <==> t in tags && Suggested(t, fragment, earlier)
    ensures SubsequenceOf(r, tags)
    ensures fragment == "" ==> r == []
  {
    if tags == [] then []
    else
      assert tags == [tags[0]] + tags[1..];
      if Suggested(tags[0], fragment, earlier) then [tags[0]] + Filter(tags[1..], fragment, earlier)
      else Filter(tags[1..], fragment, earlier)
  }

  /** The options the dropdown shows for input `value`, given the tags the server knows. */
  function Suggestions(value: string, existing: seq<string>): (r: seq<string>)
    ensures CurrentFragment(value) == "" ==> r == []
    ensures forall t :: t in r <==> t in existing && Suggested(t, CurrentFragment(value), EarlierTags(value))
  {
    Filter(existing, CurrentFragment(value), EarlierTags(value))
  }

  // ---------------------------------------------------------------------
  // Insertion

  /** What `insertTag` puts before the final ", ": everything up to and including the
      last comma and a blank, then the tag. */
  function InsertHead(value: string, tag: string): string {
    var k := LastIndexOf(value, ',');
    var prefix := if k >= 0 then value[..k + 1] + " " else "";
    prefix + tag
  }

  /** `r` is what `insertTag` may leave for `value`: the text through the last comma of
      `value` stays and the fragment being typed is replaced by a blank, the tag and ", ";
      without a comma the whole text is replaced by the tag and ", ". */
  predicate InsertedShape(value: string, tag: string, r: string) {
    var k := LastIndexOf(value, ',');
    && |r| >= |tag| + 2 && OccursAt(r, tag, |r| - |tag| - 2) && r[|r| - 2..] == ", "
    && (k < 0 ==> r == tag + ", ")
    && (k >= 0 ==> |r| == k + |tag| + 4 && StartsWith(r, value[..k + 1]) && r[k + 1] == ' ')
  }

  /** `insertTag`: the new value of the input. */
  function InsertTag(value: string, tag: string): (r: string)
    ensures InsertedShape(value, tag, r)
  {
    InsertTagShape(value, tag);
    InsertHead(value, tag) + ", "
  }

  lemma InsertTagShape(value: string, tag: string)
    ensures InsertedShape(value, tag, InsertHead(value, tag) + ", ")
  {
    var r := InsertHead(value, tag) + ", ";
    var k := LastIndexOf(value, ',');
    var prefix := if k >= 0 then value[..k + 1] + " " else "";
    assert r == prefix + tag + ", ";
    assert r[|prefix|..|prefix| + |tag|] == tag;
    if k >= 0 {
      assert r[..k + 1] == value[..k + 1];
    }
  }

  /** An insertion always changes the input: the new text ends in ", " at a comma later
      than the last comma of the old text. */
  lemma InsertTagChanges(value: string, tag: string)
    ensures InsertTag(value, tag) != value
  {
    var k := LastIndexOf(value, ',');
    var v := InsertTag(value, tag);
    if |v| == |value| {
      assert |v| - 2 > k;
      assert v[|v| - 2] == ',' != value[|v| - 2];
    }
  }

  lemma NormalizeLeadingSpace(t: string)
    ensures Normalize(" " + t) == Normalize(t)
  {
    TrimLeadingSpace(' ', t);
  }

  lemma NormalizeBlank()
    ensures Normalize(" ") == ""
  {
  }

  /** Reading the tag state off the fragments: all but the last are earlier tags and the
      last one is being typed. */
  lemma FragmentsRead(s: string, p: seq<string>, x: string, y: string)
    requires Split(s, ',') == p + [x] + [y]
    ensures EarlierTags(s) == Map(Normalize, p) + [Normalize(x)]
    ensures CurrentFragment(s) == Normalize(y)
  {
    assert (p + [x] + [y])[..|p| + 1] == p + [x];
    MapSnoc(Normalize, p, x);
  }

  lemma NoCommaAfterBlank(t: string)
    requires ',' !in t
    ensures ',' !in " " + t
  {
  }

  /** With a comma in the input, the inserted text keeps the fragments before the last
      comma and ends with a blank and the tag. */
  lemma {:induction false} SplitInsertHeadAfterComma(value: string, tag: string)
    requires ',' !in tag && LastIndexOf(value, ',') >= 0
    ensures var parts := Split(value, ',');
      Split(InsertHead(value, tag), ',') == parts[..|parts| - 1] + [" " + tag]
  {
    var k := LastIndexOf(value, ',');
    SplitAtLast(value, ',');
    InsertHeadAfterComma(value, tag);
    NoCommaAfterBlank(tag);
    SplitAppend(value[..k], ',', " " + tag);
  }

  lemma InsertHeadAfterComma(value: string, tag: string)
    requires LastIndexOf(value, ',') >= 0
    ensures var k := LastIndexOf(value, ',');
      InsertHead(value, tag) == value[..k] + [','] + (" " + tag)
  {
    var k := LastIndexOf(value, ',');
    assert value[..k + 1] == value[..k] + [','];
  }

  /** Text typed after the inserted ", " is one fragment of its own. */
  lemma SplitAfterInsert(value: string, tag: string, more: string)
    requires ',' !in more
    ensures Split(InsertTag(value, tag) + more, ',') == Split(InsertHead(value, tag), ',') + [" " + more]
  {
    assert InsertTag(value, tag) + more == InsertHead(value, tag) + [','] + (" " + more);
    NoCommaAfterBlank(more);
    SplitAppend(InsertHead(value, tag), ',', " " + more);
  }

  /** The fragment the inserted tag forms: after a blank when a comma precedes it. */
  function TagFragment(value: string, tag: string): string {
    if LastIndexOf(value, ',') >= 0 then " " + tag else tag
  }

  lemma TagFragmentNormalizes(value: string, tag: string)
    ensures Normalize(TagFragment(value, tag)) == Normalize(tag)
  {
    if LastIndexOf(value, ',') >= 0 {
      NormalizeLeadingSpace(tag);
    }
  }

  /** The fragments once `tag` is inserted and `more` typed: the earlier fragments of
      `value`, the tag, then `more` after a blank. */
  lemma {:induction false} SplitInserted(value: string, tag: string, more: string)
    requires ',' !in tag && ',' !in more
    ensures var parts := Split(value, ',');
      Split(InsertTag(value, tag) + more, ',') == parts[..|parts| - 1] + [TagFragment(value, tag)] + [" " + more]
  {
    var parts := Split(value, ',');
    SplitAfterInsert(value, tag, more);
    if LastIndexOf(value, ',') >= 0 {
      SplitInsertHeadAfterComma(value, tag);
    } else {
      assert parts == [value];
      assert InsertHead(value, tag) == tag;
      SplitAbsent(tag, ',');
    }
  }

  /** After insertion the chosen tag is one more earlier fragment, nothing is being typed
      and the dropdown has nothing to offer. */
  lemma {:induction false} InsertTagCompletes(value: string, tag: string, existing: seq<string>)
    requires ',' !in tag
    ensures var v := InsertTag(value, tag);
      && EarlierTags(v) == EarlierTags(value) + [Normalize(tag)]
      && CurrentFragment(v) == ""
      && Suggestions(v, existing) == []
  {
    var v := InsertTag(value, tag);
    InsertedFragments(value, tag, v);
  }

  lemma InsertedFragments(value: string, tag: string, v: string)
    requires ',' !in tag && v == InsertHead(value, tag) + ", "
    ensures EarlierTags(v) == EarlierTags(value) + [Normalize(tag)]
    ensures CurrentFragment(v) == ""
  {
    var parts := Split(value, ',');
    SplitInserted(value, tag, "");
    assert v + "" == v && " " + "" == " ";
    assert Split(v, ',') == parts[..|parts| - 1] + [TagFragment(value, tag)] + [" "];
    FragmentsRead(v, parts[..|parts| - 1], TagFragment(value, tag), " ");
    TagFragmentNormalizes(value, tag);
    NormalizeBlank();
  }

  /** Once inserted, a tag with no surrounding blanks is not suggested again while the next
      fragment is typed. */
  lemma {:induction false} InsertedTagNotSuggestedAgain(value: string, tag: string, more: string, existing: seq<string>)
    requires ',' !in tag && ',' !in more && Trim(tag) == tag
    ensures tag !in Suggestions(InsertTag(value, tag) + more, existing)
  {
    var v := InsertTag(value, tag) + more;
    var parts := Split(value, ',');
    SplitInserted(value, tag, more);
    FragmentsRead(v, parts[..|parts| - 1], TagFragment(value, tag), " " + more);
    TagFragmentNormalizes(value, tag);
    assert EarlierTags(v)[|parts| - 1] == ToLower(tag);
  }

  // ---------------------------------------------------------------------
  // Keyboard selection

  datatype Key = ArrowDown | ArrowUp | Enter | OtherKey

  datatype KeyOutcome =
    | Unhandled               // the key is left to the input
    | Moved(selected: int)    // a new highlighted option
    | Inserted(tag: string)   // the highlighted option goes into the input
    | Faulted                 // `options[i]` is undefined and the listener throws

  function Min(a: int, b: int): int { if a <= b then a else b }
  function Max(a: int, b: int): int { if a >= b then a else b }

  /** The keydown listener: `shown` is whether the dropdown is visible, `options` what it
      lists and `selected` the highlighted index (-1 for none). */
  function OnKeyDown(key: Key, shown: bool, options: seq<string>, selected: int): (r: KeyOutcome)
    ensures !shown || options == [] ==> r == Unhandled
    ensures r.Inserted? ==> key == Enter && 0 <= selected < |options| && r.tag == options[selected]
    // the arrows stop at the ends: Down on the last option and Up with nothing highlighted
    ensures shown && options != [] && key == ArrowDown && selected == |options| - 1 ==> r == Moved(selected)
    ensures shown && options != [] && key == ArrowUp && selected == -1 ==> r == Moved(-1)
  {
    if !shown || |options| == 0 then Unhandled
    else match key
      case ArrowDown => Moved(Min(selected + 1, |options| - 1))
      case ArrowUp => Moved(Max(selected - 1, -1))
      case Enter =>
        if selected < 0 then Unhandled
        else if selected < |options| then Inserted(options[selected])
        else Faulted
      case OtherKey => Unhandled
  }

  predicate InRange(selected: int, options: seq<string>) {
    -1 <= selected < |options|
  }

  /** The highlighted index stays in [-1, n-1], so Enter never reaches a missing option. */
  lemma SelectionStaysInRange(key: Key, shown: bool, options: seq<string>, selected: int)
    requires InRange(selected, options)
    ensures var r := OnKeyDown(key, shown, options, selected);
      && r != Faulted
      && (r.Moved? ==> InRange(r.selected, options))
      && (key == Enter && shown && selected >= 0 ==> r == Inserted(options[selected]))
  {
  }

  /** Down then Up, or Up then Down, away from the ends returns to the same option. */
  lemma ArrowsUndo(options: seq<string>, selected: int)
    requires options != []
    ensures -1 <= selected < |options| - 1 ==>
      OnKeyDown(ArrowDown, true, options, selected) == Moved(selected + 1)
      && OnKeyDown(ArrowUp, true, options, selected + 1) == Moved(selected)
    ensures 0 <= selected < |options| ==>
      OnKeyDown(ArrowUp, true, options, selected) == Moved(selected - 1)
      && OnKeyDown(ArrowDown, true, options, selected - 1) == Moved(selected)
  {
  }

  /** The tag field as the listeners leave it: the input's text, whether the dropdown is
      shown, and the highlighted index. The dropdown lists `Suggestions(value, existing)`. */
  datatype TagField = TagField(value: string, shown: bool, selected: int)

  /** The `input` listener: the highlight is cleared and the dropdown re-rendered. */
  function OnInput(value: string, existing: seq<string>): (r: TagField)
    ensures r.value == value && r.selected == -1
    ensures r.shown <==> exists t :: t in existing && Suggested(t, CurrentFragment(value), EarlierTags(value))
  {
    var options := Suggestions(value, existing);
    assert options != [] ==> options[0] in options;
    TagField(value, options != [], -1)
  }

  /** The `keydown` listener on the field, whose dropdown renders `options`: arrows move the
      highlight (re-rendering the same options), Enter on a highlighted option runs
      `insertTag`, which hides the dropdown and clears the highlight; an undefined option
      throws and changes nothing. */
  function Step(f: TagField, key: Key, options: seq<string>): (r: TagField)
    ensures key != Enter ==> r.value == f.value && r.shown == f.shown
    ensures key == Enter && f.shown && 0 <= f.selected < |options| ==>
      r == TagField(InsertTag(f.value, options[f.selected]), false, -1)
    ensures r.value != f.value ==> !r.shown && r.selected == -1
    ensures r.value == f.value && InRange(f.selected, options) ==> InRange(r.selected, options)
  {
    var outcome := OnKeyDown(key, f.shown, options, f.selected);
    if outcome.Moved? then
      f.(selected := outcome.selected)
    else if outcome.Inserted? then
      InsertTagChanges(f.value, outcome.tag);
      TagField(InsertTag(f.value, outcome.tag), false, -1)
    else
      f
  }

  /** A run of key presses. `listed` gives the options the dropdown renders for a text:
      `Suggestions(value, existing)` in the bookmarklet. */
  function Run(f: TagField, keys: seq<Key>, listed: string -> seq<string>): TagField
    decreases keys
  {
    if keys == [] then f else Run(Step(f, keys[0], listed(f.value)), keys[1..], listed)
  }

  /** From a highlight in range, every run of keys ends with the highlight in range of the
      options then rendered. */
  lemma {:induction false} RunStaysInRange(f: TagField, keys: seq<Key>, listed: string -> seq<string>)
    requires InRange(f.selected, listed(f.value))
    ensures var g := Run(f, keys, listed); InRange(g.selected, listed(g.value))
    decreases keys
  {
    if keys != [] {
      RunStaysInRange(Step(f, keys[0], listed(f.value)), keys[1..], listed);
    }
  }
}
