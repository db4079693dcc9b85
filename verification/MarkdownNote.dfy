/** A markdown note attached to a mind-map node. */
module MarkdownNotes {
  import opened Common

  class MarkdownNote {
    const Id: Guid
    const NodeId: Guid
    var Title: string
    var Content: string
    const CreatedAt: Ticks
    var UpdatedAt: Ticks

    /** The constructor once its null checks have passed. */
    constructor (id: Guid, nodeId: Guid, title: string, content: string, now: Ticks)
      ensures Id == id && NodeId == nodeId
      ensures Title == title && Content == content
      ensures CreatedAt == now && UpdatedAt == now
    {
      Id, NodeId := id, nodeId;
      Title, Content := title, content;
      CreatedAt, UpdatedAt := now, now;
    }

    /** `new MarkdownNote(id, nodeId, title, content)`: a null title or a null
        content throws ArgumentNullException, the title being checked first. */
    static method Create(id: Guid, nodeId: Guid, title: Nullable<string>, content: Nullable<string>, now: Ticks)
      returns (r: Result<MarkdownNote>)
      ensures r.Success? <==> title.NonNull? && content.NonNull?
      ensures title.Null? ==> r == Failure(ArgumentNull("title"))
      ensures title.NonNull? && content.Null? ==> r == Failure(ArgumentNull("content"))
      ensures r.Success? ==> fresh(r.value)
      ensures r.Success? ==> r.value.Id == id && r.value.NodeId == nodeId
      ensures r.Success? ==> r.value.Title == title.value && r.value.Content == content.value
      ensures r.Success? ==> r.value.CreatedAt == now && r.value.UpdatedAt == now
    {
      if title.Null? {
        return Failure(ArgumentNull("title"));
      }
      if content.Null? {
        return Failure(ArgumentNull("content"));
      }
      var note := new MarkdownNote(id, nodeId, title.value, content.value, now);
      return Success(note);
    }

    /** Replaces title and content. The title is assigned before the content
        is checked, so a null content throws with the new title in place. */
    method Update(title: Nullable<string>, content: Nullable<string>, now: Ticks) returns (s: Status)
      modifies this
      ensures s.Ok? <==> title.NonNull? && content.NonNull?
      ensures title.Null? ==> s == Fail(ArgumentNull("title")) && unchanged(this)
      ensures title.NonNull? && content.Null? ==> s == Fail(ArgumentNull("content"))
      ensures title.NonNull? && content.Null? ==>
                Title == title.value && Content == old(Content) && UpdatedAt == old(UpdatedAt)
      ensures s.Ok? ==> Title == title.value && Content == content.value && UpdatedAt == now
    {
      if title.Null? {
        return Fail(ArgumentNull("title"));
      }
      Title := title.value;
      if content.Null? {
        return Fail(ArgumentNull("content"));
      }
      Content := content.value;
      UpdatedAt := now;
      return Ok;
    }
  }
}
