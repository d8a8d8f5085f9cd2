/**
 * The create-item form: its initial values and the editing of its tag
 * list, where a tag is typed into a separate input and added with the
 * button or the Enter key, and removed by its position in the list.
 */
module CreateItemForm {
  import opened Common
  import BackendModel

  /**
   * `form.tags.filter((_, i) => i !== index)`: every tag except the one
   * at position `index`, in order; an index outside the list removes
   * nothing.
   */
  function DropIndex(tags: seq<string>, index: int): (r: seq<string>)
    ensures 0 <= index < |tags| ==> r == tags[..index] + tags[index + 1..]
    ensures !(0 <= index < |tags|) ==> r == tags
    decreases |tags|
  {
    if tags == [] then []
    else (if index == 0 then [] else [tags[0]]) + DropIndex(tags[1..], index - 1)
  }

  /**
   * The tag list after `addTag` with input `input`: the trimmed input at
   * the end, unless it is empty once trimmed.
   */
  function TagsAfterAdd(tags: seq<string>, input: string): (r: seq<string>)
    ensures Trim(input) == "" ==> r == tags
    ensures Trim(input) != "" ==> |r| == |tags| + 1 && r[..|tags|] == tags && r[|tags|] == Trim(input)
  {
    if Trim(input) != "" then tags + [Trim(input)] else tags
  }

  /** Every tag is non-empty and has no surrounding whitespace. */
  predicate AllTrimmed(tags: seq<string>) {
    forall k :: 0 <= k < |tags| ==> tags[k] != "" && Trim(tags[k]) == tags[k]
  }

  /** Adding a tag keeps every tag trimmed and non-empty. */
  lemma AddKeepsTrimmed(tags: seq<string>, input: string)
    requires AllTrimmed(tags)
    ensures AllTrimmed(TagsAfterAdd(tags, input))
  {
    TrimIdempotent(input);
  }

  /** Removing a tag keeps every remaining tag trimmed and non-empty. */
  lemma RemoveKeepsTrimmed(tags: seq<string>, index: int)
    requires AllTrimmed(tags)
    ensures AllTrimmed(DropIndex(tags, index))
  {
    var r := DropIndex(tags, index);
    if 0 <= index < |tags| {
      forall k | 0 <= k < |r| ensures r[k] != "" && Trim(r[k]) == r[k] {
        var m := if k < index then k else k + 1;
        assert r[k] == tags[m];
      }
    }
  }

  /** Removing the tag just added gives back the list before it was added. */
  lemma RemoveUndoesAdd(tags: seq<string>, input: string)
    requires Trim(input) != ""
    ensures DropIndex(TagsAfterAdd(tags, input), |tags|) == tags
  {
    DropAppended(tags, Trim(input));
  }

  /** Dropping the last position of `tags + [x]` gives back `tags`. */
  lemma DropAppended(tags: seq<string>, x: string)
    ensures DropIndex(tags + [x], |tags|) == tags
  {
    var r := tags + [x];
    assert r[..|tags|] == tags && r[|tags| + 1..] == [];
  }

  /** The form's state: the fields of the new item and the pending tag input. */
  class FormState {
    var title: string
    var description: string
    var status: BackendModel.Status
    var priority: BackendModel.Priority
    var category: BackendModel.Category
    var forWhom: string
    var dueDate: string
    var assignee: string
    var tags: seq<string>
    var tagInput: string

    predicate Valid()
      reads this
    {
      AllTrimmed(tags)
    }

    /** A fresh form: `todo`, `medium`, `personal`, empty text and no tags. */
    constructor ()
      ensures Valid()
      ensures title == "" && description == "" && forWhom == "" && dueDate == "" && assignee == ""
      ensures status == BackendModel.Todo && priority == BackendModel.Medium && category == BackendModel.Personal
      ensures tags == [] && tagInput == ""
    {
      title, description := "", "";
      status, priority, category := BackendModel.Todo, BackendModel.Medium, BackendModel.Personal;
      forWhom, dueDate, assignee := "", "", "";
      tags, tagInput := [], "";
    }

    /** Typing into the tag input. */
    method SetTagInput(text: string)
      modifies this
      ensures tagInput == text && tags == old(tags)
      ensures title == old(title) && description == old(description) && status == old(status)
      ensures priority == old(priority) && category == old(category) && forWhom == old(forWhom)
      ensures dueDate == old(dueDate) && assignee == old(assignee)
      ensures Valid() == old(Valid())
    {
      tagInput := text;
    }

    /**
     * `addTag`: with a non-blank input, the trimmed input joins the end
     * of the list and the input is cleared; otherwise nothing changes.
     */
    method AddTag()
      requires Valid()
      modifies this
      ensures Valid()
      ensures tags == TagsAfterAdd(old(tags), old(tagInput))
      ensures tagInput == if Trim(old(tagInput)) != "" then "" else old(tagInput)
      ensures title == old(title) && description == old(description) && status == old(status)
      ensures priority == old(priority) && category == old(category) && forWhom == old(forWhom)
      ensures dueDate == old(dueDate) && assignee == old(assignee)
    {
      var trimmed := Trim(tagInput);
      if trimmed != "" {
        AddKeepsTrimmed(tags, tagInput);
        tags := tags + [trimmed];
        tagInput := "";
      }
    }

    /** `removeTag`: the tag at `index` leaves the list; nothing else changes. */
    method RemoveTag(index: int)
      requires Valid()
      modifies this
      ensures Valid()
      ensures tags == DropIndex(old(tags), index)
      ensures tagInput == old(tagInput)
      ensures title == old(title) && description == old(description) && status == old(status)
      ensures priority == old(priority) && category == old(category) && forWhom == old(forWhom)
      ensures dueDate == old(dueDate) && assignee == old(assignee)
    {
      RemoveKeepsTrimmed(tags, index);
      tags := DropIndex(tags, index);
    }
  }
}
