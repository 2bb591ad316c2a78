/**
 * The tag-group input of the Pixiv page. Each group is a `|`-separated list of tags (OR within a
 * group, AND between groups): at most 3 groups, at most 20 tags per group, no group twice. Groups
 * are removed by value, and the request sends every group split at `|`.
 */
module PixivPage {
  import opened Wrappers
  import opened JsText

  const MaxGroups := 3
  const MaxTagsPerGroup := 20
  const TagSeparator := '|'

  const TooManyGroupsError := "最多只能添加3组标签"
  const TooManyTagsError := "每组最多只能添加20个标签"

  /** What a group looks like once accepted: trimmed, not empty, at most 20 tags. */
  predicate ValidGroup(g: string) {
    && g != []
    && !IsSpaceChar(g[0]) && !IsSpaceChar(g[|g| - 1])
    && |Split(g, TagSeparator)| <= MaxTagsPerGroup
  }

  /** The invariant of the group list. */
  predicate ValidTags(tags: seq<string>) {
    && |tags| <= MaxGroups
    && NoDuplicates(tags)
    && forall i :: 0 <= i < |tags| ==> ValidGroup(tags[i])
  }

  /** What `handleTagInput` leaves behind: the groups, the error shown and the input box's text. */
  datatype TagInputResult = TagInputResult(tags: seq<string>, error: Option<string>, box: string)

  /** The handler's guard: Enter, or a click event, with something other than white space typed. */
  predicate Triggered(key: string, eventType: string, box: string) {
    (key == "Enter" || eventType == "click") && TrimString(box) != []
  }

  /**
   * `handleTagInput`: a triggered event with the box holding `box` either is rejected (too many
   * groups, checked first, then too many tags), or appends the trimmed group when it is new and
   * clears the error, and in both of those last cases empties the box.
   */
  function TagInput(tags: seq<string>, error: Option<string>, key: string, eventType: string, box: string): (r: TagInputResult)
    ensures r.tags == tags || r.tags == tags + [TrimString(box)]
    ensures r.tags != tags ==> Triggered(key, eventType, box) && r.error == None && r.box == []
    ensures r.tags != tags ==> TrimString(box) !in tags && ValidGroup(TrimString(box)) && |tags| < MaxGroups
  {
    if !Triggered(key, eventType, box) then TagInputResult(tags, error, box)
    else
      var group := TrimString(box);
      if |tags| >= MaxGroups then TagInputResult(tags, Some(TooManyGroupsError), box)
      else if |Split(group, TagSeparator)| > MaxTagsPerGroup then TagInputResult(tags, Some(TooManyTagsError), box)
      else if group in tags then TagInputResult(tags, error, [])
      else TagInputResult(tags + [group], None, [])
  }

  /** Without Enter or a click, or with a blank box, nothing changes. */
  lemma TagInputIgnored(tags: seq<string>, error: Option<string>, key: string, eventType: string, box: string)
    requires !Triggered(key, eventType, box)
    ensures TagInput(tags, error, key, eventType, box) == TagInputResult(tags, error, box)
  {
  }

  /** With 3 groups already, the add is refused with the group error; groups and box are kept. */
  lemma TagInputTooManyGroups(tags: seq<string>, error: Option<string>, key: string, eventType: string, box: string)
    requires Triggered(key, eventType, box) && |tags| >= MaxGroups
    ensures TagInput(tags, error, key, eventType, box) == TagInputResult(tags, Some(TooManyGroupsError), box)
  {
  }

  /** Below 3 groups, a group with more than 20 tags (more than 19 separators) is refused with the tag error. */
  lemma TagInputTooManyTags(tags: seq<string>, error: Option<string>, key: string, eventType: string, box: string)
    requires Triggered(key, eventType, box) && |tags| < MaxGroups
    requires multiset(TrimString(box))[TagSeparator] >= MaxTagsPerGroup
    ensures TagInput(tags, error, key, eventType, box) == TagInputResult(tags, Some(TooManyTagsError), box)
  {
  }

  /** A group already present is ignored silently: the error is kept and only the box is emptied. */
  lemma TagInputDuplicate(tags: seq<string>, error: Option<string>, key: string, eventType: string, box: string)
    requires Triggered(key, eventType, box) && |tags| < MaxGroups
    requires multiset(TrimString(box))[TagSeparator] < MaxTagsPerGroup && TrimString(box) in tags
    ensures TagInput(tags, error, key, eventType, box) == TagInputResult(tags, error, [])
  {
  }

  /** A new acceptable group is appended, the error is cleared and the box emptied. */
  lemma TagInputAppends(tags: seq<string>, error: Option<string>, key: string, eventType: string, box: string)
    requires Triggered(key, eventType, box) && |tags| < MaxGroups
    requires multiset(TrimString(box))[TagSeparator] < MaxTagsPerGroup && TrimString(box) !in tags
    ensures TagInput(tags, error, key, eventType, box) == TagInputResult(tags + [TrimString(box)], None, [])
  {
  }

  /** The handler keeps the group list valid: at most 3 groups, none twice, each trimmed with at most 20 tags. */
  lemma TagInputKeepsValid(tags: seq<string>, error: Option<string>, key: string, eventType: string, box: string)
    requires ValidTags(tags)
    ensures ValidTags(TagInput(tags, error, key, eventType, box).tags)
  {
    var r := TagInput(tags, error, key, eventType, box);
    if r.tags != tags {
      var g := TrimString(box);
      assert r.tags == tags + [g];
      forall i, j | 0 <= i < j < |r.tags| ensures r.tags[i] != r.tags[j] {
        if j == |tags| {
          assert r.tags[i] == tags[i];
        } else {
          assert r.tags[i] == tags[i] && r.tags[j] == tags[j];
        }
      }
      forall i | 0 <= i < |r.tags| ensures ValidGroup(r.tags[i]) {
        if i < |tags| {
          assert r.tags[i] == tags[i];
        }
      }
    }
  }

  /** `removeTag`: every group equal to the argument goes, the others stay in order. */
  function RemoveTag(tags: seq<string>, group: string): (r: seq<string>)
    ensures |r| <= |tags|
    ensures forall g :: g in r <==> g in tags && g != group
  {
    RemoveMembers(tags, group);
    Remove(tags, group)
  }

  /** The groups around the removed one stay, in their order. */
  lemma RemoveTagKeepsOrder(before: seq<string>, group: string, after: seq<string>)
    requires group !in before && group !in after
    ensures RemoveTag(before + [group] + after, group) == before + after
  {
    RemoveOnly(before, after, group);
  }

  /** Removing a group keeps the list valid. */
  lemma RemoveTagKeepsValid(tags: seq<string>, group: string)
    requires ValidTags(tags)
    ensures ValidTags(RemoveTag(tags, group))
  {
    RemoveNoDuplicates(tags, group);
    var r := RemoveTag(tags, group);
    forall i | 0 <= i < |r| ensures ValidGroup(r[i]) {
      assert r[i] in tags;
    }
  }

  /** The request's `tag` field: every group split at `|`. */
  function RequestTags(tags: seq<string>): (r: seq<seq<string>>)
    ensures |r| == |tags|
    ensures forall i :: 0 <= i < |r| ==> Join(r[i], TagSeparator) == tags[i]
    ensures forall i, j :: 0 <= i < |r| && 0 <= j < |r[i]| ==> TagSeparator !in r[i][j]
  {
    JoinSplitEach(tags);
    seq(|tags|, i requires 0 <= i < |tags| => Split(tags[i], TagSeparator))
  }

  lemma JoinSplitEach(tags: seq<string>)
    ensures forall i :: 0 <= i < |tags| ==> Join(Split(tags[i], TagSeparator), TagSeparator) == tags[i]
  {
    forall i | 0 <= i < |tags| ensures Join(Split(tags[i], TagSeparator), TagSeparator) == tags[i] {
      JoinSplit(tags[i], TagSeparator);
    }
  }

  /** For a valid list, the request holds at most 3 groups of at most 20 tags each. */
  lemma RequestTagsBounds(tags: seq<string>)
    requires ValidTags(tags)
    ensures var r := RequestTags(tags);
      |r| <= MaxGroups && forall i :: 0 <= i < |r| ==> 1 <= |r[i]| <= MaxTagsPerGroup
  {
  }

  // ---- the "add" button ----

  /** What a click on the "add" button leads to: the handler's result, or an exception it throws. */
  datatype ClickOutcome = Threw | Handled(result: TagInputResult)

  /**
   * The "add" button as written: `document.querySelector('input[type="text"]')` finds the first text
   * input, the keyword box, not the tag box; and when that box is not blank, the hand-made event
   * `{ key: 'Enter', currentTarget: input }` reaches `e.preventDefault()`, which it lacks, so the
   * handler throws before changing anything.
   */
  function AddClickAsWritten(tags: seq<string>, error: Option<string>, keywordBox: string, tagBox: string): (r: ClickOutcome)
    ensures r == Threw <==> TrimString(keywordBox) != []
  {
    if TrimString(keywordBox) != [] then Threw else Handled(TagInputResult(tags, error, tagBox))
  }

  /** As written, the button never adds a group, whatever is typed in either box. */
  lemma AddClickAsWrittenNeverAdds(tags: seq<string>, error: Option<string>, keywordBox: string, tagBox: string)
    ensures match AddClickAsWritten(tags, error, keywordBox, tagBox)
      case Threw => true
      case Handled(result) => result.tags == tags
  {
  }

  /** The button as intended: the tag box's text is handled as if Enter had been pressed in it. */
  function AddClick(tags: seq<string>, error: Option<string>, tagBox: string): (r: TagInputResult)
    ensures r.box == [] || r.box == tagBox
  {
    TagInput(tags, error, "Enter", "click", tagBox)
  }

  /** The intended button adds an acceptable group (or finds it there already) and empties the box. */
  lemma AddClickAdds(tags: seq<string>, error: Option<string>, tagBox: string)
    requires TrimString(tagBox) != [] && |tags| < MaxGroups
    requires |Split(TrimString(tagBox), TagSeparator)| <= MaxTagsPerGroup
    ensures TrimString(tagBox) in AddClick(tags, error, tagBox).tags && AddClick(tags, error, tagBox).box == []
  {
    var group := TrimString(tagBox);
    if group in tags {
      TagInputDuplicate(tags, error, "Enter", "click", tagBox);
    } else {
      TagInputAppends(tags, error, "Enter", "click", tagBox);
      assert (tags + [group])[|tags|] == group;
    }
  }

  /** The difference: with `a` in the tag box and an empty keyword box, only the intended button adds it. */
  lemma AddClickDiscrepancy()
    ensures AddClickAsWritten([], None, "", "a") == Handled(TagInputResult([], None, "a"))
    ensures AddClick([], None, "a").tags == ["a"]
  {
    var box := "a";
    TrimOneLetter();
    assert multiset(box)[TagSeparator] == 0;
    AddClickAdds([], None, box);
  }

  /** `"a".trim()` is `"a"`, and `"".trim()` is `""`. */
  lemma TrimOneLetter()
    ensures TrimString("a") == "a" && TrimString("") == ""
  {
    var box := "a";
    assert !IsSpaceChar(box[0]);
    assert TrimStart(box, IsSpaceChar) == box;
    assert TrimEnd(box, IsSpaceChar) == box;
  }

  // ---- the page ----

  /** The state the tag input touches: the groups and the error, and the text of both boxes. */
  class PixivPageState {
    var tags: seq<string>
    var error: Option<string>
    var keyword: string
    var tagBox: string

    predicate Valid()
      reads this
    {
      ValidTags(tags)
    }

    /** No group, no error, both boxes empty. */
    constructor ()
      ensures tags == [] && error == None && keyword == [] && tagBox == []
      ensures Valid()
    {
      tags, error, keyword, tagBox := [], None, [], [];
    }

    /** A key press in the tag box. */
    method HandleTagInput(key: string, eventType: string)
      requires Valid()
      modifies this
      ensures Valid()
      ensures var r := TagInput(old(tags), old(error), key, eventType, old(tagBox));
        tags == r.tags && error == r.error && tagBox == r.box
      ensures keyword == old(keyword)
    {
      TagInputKeepsValid(tags, error, key, eventType, tagBox);
      var r := TagInput(tags, error, key, eventType, tagBox);
      tags, error, tagBox := r.tags, r.error, r.box;
    }

    /** The cross on a group. */
    method RemoveTagClick(group: string)
      requires Valid()
      modifies this
      ensures Valid()
      ensures tags == RemoveTag(old(tags), group)
      ensures error == old(error) && keyword == old(keyword) && tagBox == old(tagBox)
    {
      RemoveTagKeepsValid(tags, group);
      tags := RemoveTag(tags, group);
    }

    /**
     * The "add" button as the page has it: it reads the keyword box, throws when that box is not
     * blank and is ignored otherwise, so the state never changes.
     */
    method AddClickButton() returns (threw: bool)
      requires Valid()
      modifies this
      ensures Valid()
      ensures threw <==> TrimString(old(keyword)) != []
      ensures tags == old(tags) && error == old(error) && tagBox == old(tagBox) && keyword == old(keyword)
    {
      match AddClickAsWritten(tags, error, keyword, tagBox)
      case Threw =>
        threw := true;
      case Handled(r) =>
        threw := false;
        tags, error, tagBox := r.tags, r.error, r.box;
    }

    /** The "add" button as intended, reading the tag box. */
    method AddClickTagBox()
      requires Valid()
      modifies this
      ensures Valid()
      ensures var r := AddClick(old(tags), old(error), old(tagBox));
        tags == r.tags && error == r.error && tagBox == r.box
      ensures keyword == old(keyword)
    {
      TagInputKeepsValid(tags, error, "Enter", "click", tagBox);
      var r := AddClick(tags, error, tagBox);
      tags, error, tagBox := r.tags, r.error, r.box;
    }
  }
}
