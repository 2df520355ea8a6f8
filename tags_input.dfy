/** The tag list widget: a list of strings edited by adding a new tag,
    editing a tag in place, removing a tag and clearing the list. Each handler
    that calls `handleChange` hands the list to the `onChange` listener; the
    lists handed over are recorded in `notified`. */
module TagsInput {
  import opened Wrappers
  import opened Text
  import opened Lists

  /** `value?.trim()` for an optional input value. */
  function Trimmed(v: Option<string>): Option<string> {
    match v
    case None => None
    case Some(s) => Some(Trim(s))
  }

  /** JavaScript truthiness of an optional string: present and not empty. */
  predicate Truthy(v: Option<string>) {
    v.Some? && v.value != ""
  }

  /** The list after confirming the new-tag input holding `input`. */
  function AddTag(items: seq<string>, input: Option<string>): (r: seq<string>)
    ensures items <= r && |r| <= |items| + 1
  {
    var value := Trimmed(input);
    if Truthy(value) && value.value !in items then items + [value.value] else items
  }

  /** A tag is appended at the end exactly when its trimmed text is not empty
      and not in the list yet; otherwise the list stays as it is. */
  lemma AddTagAppendsNewTags(items: seq<string>, s: string)
    ensures Trim(s) != "" && Trim(s) !in items ==> AddTag(items, Some(s)) == items + [Trim(s)]
    ensures Trim(s) == "" || Trim(s) in items ==> AddTag(items, Some(s)) == items
    ensures AddTag(items, None) == items
  {
  }

  /** Adding a tag and removing it again gives back the list. */
  lemma RemoveUndoesAdd(items: seq<string>, s: string)
    requires Trim(s) !in items
    ensures Without(AddTag(items, Some(s)), Trim(s)) == items
  {
    var t := Trim(s);
    WithoutAbsent(items, t);
    if t != "" {
      WithoutAppend(items, [t], t);
      assert Without([t], t) == Without([], t) + [];
    }
  }

  /** The list after confirming the edit of the tag at `index` to `input`:
      an empty text removes that tag, a text already in the list changes
      nothing, and any other text replaces the tag. At an index past the
      end the JavaScript array assignment extends the list. */
  function EditTag(items: seq<string>, index: nat, input: Option<string>): (r: seq<string>)
    ensures index < |items| ==> |r| == |items| || |r| == |items| - 1
    ensures index >= |items| ==> |r| >= |items|
    ensures forall k | 0 <= k < |r| && k < |items| && k < index :: r[k] == items[k]
  {
    WithoutIndexSlices(items, index);
    var value := Trimmed(input);
    if !Truthy(value) then WithoutIndex(items, index)
    else if value.value in items then items
    else if index < |items| then items[index := value.value]
    else items + [value.value]
  }

  /** An empty edit removes exactly the tag at the edited index. */
  lemma EmptyEditRemovesTag(items: seq<string>, index: nat, input: Option<string>)
    requires !Truthy(Trimmed(input)) && index < |items|
    ensures EditTag(items, index, input) == items[..index] + items[index + 1..]
    ensures |EditTag(items, index, input)| == |items| - 1
  {
    WithoutIndexSlices(items, index);
  }

  /** A non-empty edit changes at most the tag at the edited index. */
  lemma EditChangesOnlyIndex(items: seq<string>, index: nat, s: string)
    requires Trim(s) != "" && index < |items|
    ensures var r := EditTag(items, index, Some(s));
            |r| == |items| &&
            (forall k | 0 <= k < |items| && k != index :: r[k] == items[k]) &&
            (r[index] == Trim(s) <==> Trim(s) !in items || items[index] == Trim(s))
  {
  }

  /** None of the list operations brings in a duplicate. */
  lemma AddTagKeepsNoDup(items: seq<string>, input: Option<string>)
    requires NoDup(items)
    ensures NoDup(AddTag(items, input))
  {
    var value := Trimmed(input);
    if Truthy(value) && value.value !in items {
      NoDupAppend(items, value.value);
    }
  }

  lemma EditTagKeepsNoDup(items: seq<string>, index: nat, input: Option<string>)
    requires NoDup(items)
    ensures NoDup(EditTag(items, index, input))
  {
    var value := Trimmed(input);
    if !Truthy(value) {
      NoDupWithoutIndex(items, index);
    } else if value.value !in items {
      if index < |items| {
        NoDupUpdate(items, index, value.value);
      } else {
        NoDupAppend(items, value.value);
      }
    }
  }

  /** Removing a tag takes out every occurrence of it and nothing else. */
  lemma RemoveTagSpec(items: seq<string>, tag: string)
    ensures tag !in Without(items, tag)
    ensures forall t | t in items && t != tag :: t in Without(items, tag)
    ensures multiset(Without(items, tag)) == multiset(items)[tag := 0]
  {
    WithoutCounts(items, tag);
    WithoutMembers(items, tag, tag);
    forall t | t in items && t != tag ensures t in Without(items, tag) {
      WithoutMembers(items, tag, t);
    }
  }

  class TagsInput {
    var items: seq<string>
    var editInputIndex: Option<nat>
    var editInputValue: Option<string>
    var newInputValue: Option<string>
    var isInputVisible: bool
    /** The lists handed to `onChange`, oldest first. */
    var notified: seq<seq<string>>

    /** `props.items || []`. */
    constructor(initial: Option<seq<string>>)
      ensures items == initial.GetOr([])
      ensures editInputIndex.None? && editInputValue.None? && newInputValue.None?
      ensures !isInputVisible && notified == []
    {
      items := initial.GetOr([]);
      editInputIndex := None;
      editInputValue := None;
      newInputValue := None;
      isInputVisible := false;
      notified := [];
    }

    /** The "+" tag: shows the new-tag input. */
    method ShowInput()
      modifies this
      ensures isInputVisible
      ensures items == old(items) && notified == old(notified) && newInputValue == old(newInputValue)
      ensures editInputIndex == old(editInputIndex) && editInputValue == old(editInputValue)
    {
      isInputVisible := true;
    }

    /** `handleRemove`: the list filtered; `onChange` is not called. */
    method HandleRemove(tag: string)
      modifies this
      ensures items == Without(old(items), tag)
      ensures notified == old(notified) && isInputVisible == old(isInputVisible) && newInputValue == old(newInputValue)
      ensures editInputIndex == old(editInputIndex) && editInputValue == old(editInputValue)
    {
      items := Without(items, tag);
    }

    method HandleNewInputChange(value: string)
      modifies this
      ensures newInputValue == Some(value)
      ensures items == old(items) && notified == old(notified) && isInputVisible == old(isInputVisible)
      ensures editInputIndex == old(editInputIndex) && editInputValue == old(editInputValue)
    {
      newInputValue := Some(value);
    }

    /** `handleNewInputConfirm`: a new tag is appended (and reported) when it
        is not empty and not in the list; either way the input is cleared
        and hidden. */
    method HandleNewInputConfirm()
      modifies this
      ensures items == AddTag(old(items), old(newInputValue))
      ensures notified == old(notified) + (if items != old(items) then [items] else [])
      ensures newInputValue.None? && !isInputVisible
      ensures editInputIndex == old(editInputIndex) && editInputValue == old(editInputValue)
    {
      var value := Trimmed(newInputValue);
      if Truthy(value) && value.value !in items {
        items := items + [value.value];
        notified := notified + [items];
      }
      newInputValue := None;
      isInputVisible := false;
    }

    /** The click on a tag: it becomes the edited one. */
    method StartEdit(index: nat)
      requires index < |items|
      modifies this
      ensures editInputIndex == Some(index) && editInputValue == Some(old(items)[index])
      ensures items == old(items) && notified == old(notified)
      ensures isInputVisible == old(isInputVisible) && newInputValue == old(newInputValue)
    {
      editInputIndex := Some(index);
      editInputValue := Some(items[index]);
    }

    /** `handleEditInputChange`: the edited text is stored and the (unchanged)
        list is reported. */
    method HandleEditInputChange(value: string)
      modifies this
      ensures editInputValue == Some(value)
      ensures items == old(items) && notified == old(notified) + [items]
      ensures editInputIndex == old(editInputIndex)
      ensures isInputVisible == old(isInputVisible) && newInputValue == old(newInputValue)
    {
      editInputValue := Some(value);
      notified := notified + [items];
    }

    /** `handleEditInputConfirm`: with a tag being edited the list becomes
        `EditTag` of it and is reported; the edit state is cleared. */
    method HandleEditInputConfirm()
      modifies this
      ensures old(editInputIndex).Some? ==> items == EditTag(old(items), old(editInputIndex).value, old(editInputValue))
      ensures old(editInputIndex).Some? ==> notified == old(notified) + [items]
      ensures old(editInputIndex).None? ==> items == old(items) && notified == old(notified)
      ensures editInputIndex.None? && editInputValue.None?
      ensures isInputVisible == old(isInputVisible) && newInputValue == old(newInputValue)
    {
      var value := Trimmed(editInputValue);
      if editInputIndex.Some? {
        var index := editInputIndex.value;
        var edited: seq<string>;
        if !Truthy(value) {
          edited := WithoutIndex(items, index);
        } else {
          edited := items;
          if value.value !in items {
            if index < |edited| {
              edited := edited[index := value.value];
            } else {
              edited := edited + [value.value];
            }
          }
        }
        items := edited;
        notified := notified + [items];
      }
      editInputIndex := None;
      editInputValue := None;
    }

    /** `handleClear`: the empty list, reported. */
    method HandleClear()
      modifies this
      ensures items == [] && notified == old(notified) + [[]]
      ensures editInputIndex == old(editInputIndex) && editInputValue == old(editInputValue)
      ensures isInputVisible == old(isInputVisible) && newInputValue == old(newInputValue)
    {
      items := [];
      notified := notified + [items];
    }
  }
}
