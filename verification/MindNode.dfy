/** A node of a mind map: text content, a position, a color and the
    markdown notes it owns. */
module MindNodes {
  import opened Common
  import opened Sequences
  import opened MarkdownNotes

  const DefaultColor: string := "#FFFFFF"

  /** The key notes are identified by. */
  function NoteId(n: MarkdownNote): Guid
  {
    n.Id
  }

  class MindNode {
    const Id: Guid
    const MindMapId: Guid
    var Content: string
    var PositionX: Int32
    var PositionY: Int32
    var Color: string
    const CreatedAt: Ticks
    var UpdatedAt: Ticks
    var notes: seq<MarkdownNote>

    /** The owned notes have unique ids. */
    ghost predicate Valid()
      reads this
    {
      KeysUnique(notes, NoteId)
    }

    /** The constructor once its null check has passed; a null color takes the
        default, and the node starts without notes. */
    constructor (id: Guid, mindMapId: Guid, content: string, positionX: Int32, positionY: Int32,
                 color: Nullable<string>, now: Ticks)
      ensures Valid()
      ensures Id == id && MindMapId == mindMapId
      ensures Content == content && PositionX == positionX && PositionY == positionY
      ensures Color == (if color.NonNull? then color.value else DefaultColor)
      ensures notes == []
      ensures CreatedAt == now && UpdatedAt == now
    {
      Id, MindMapId := id, mindMapId;
      Content := content;
      PositionX, PositionY := positionX, positionY;
      Color := OrDefault(color, DefaultColor);
      CreatedAt, UpdatedAt := now, now;
      notes := [];
    }

    /** `new MindNode(...)`: a null content throws ArgumentNullException. */
    static method Create(id: Guid, mindMapId: Guid, content: Nullable<string>, positionX: Int32, positionY: Int32,
                         color: Nullable<string>, now: Ticks)
      returns (r: Result<MindNode>)
      ensures r.Success? <==> content.NonNull?
      ensures r.Failure? ==> r.error == ArgumentNull("content")
      ensures r.Success? ==> fresh(r.value) && r.value.Valid()
      ensures r.Success? ==> r.value.Id == id && r.value.MindMapId == mindMapId
      ensures r.Success? ==> r.value.Content == content.value
      ensures r.Success? ==> r.value.PositionX == positionX && r.value.PositionY == positionY
      ensures r.Success? ==> r.value.Color == (if color.NonNull? then color.value else DefaultColor)
      ensures r.Success? ==> r.value.notes == [] && r.value.CreatedAt == now && r.value.UpdatedAt == now
    {
      if content.Null? {
        return Failure(ArgumentNull("content"));
      }
      var node := new MindNode(id, mindMapId, content.value, positionX, positionY, color, now);
      return Success(node);
    }

    /** Replaces content, position and color (a null color takes the
        default); a null content throws before anything changes. */
    method Update(content: Nullable<string>, positionX: Int32, positionY: Int32, color: Nullable<string>, now: Ticks)
      returns (s: Status)
      modifies this
      ensures s.Ok? <==> content.NonNull?
      ensures s.Fail? ==> s.error == ArgumentNull("content") && unchanged(this)
      ensures s.Ok? ==> Content == content.value && PositionX == positionX && PositionY == positionY
      ensures s.Ok? ==> Color == (if color.NonNull? then color.value else DefaultColor)
      ensures s.Ok? ==> UpdatedAt == now && notes == old(notes)
    {
      if content.Null? {
        return Fail(ArgumentNull("content"));
      }
      Content := content.value;
      PositionX, PositionY := positionX, positionY;
      Color := OrDefault(color, DefaultColor);
      UpdatedAt := now;
      return Ok;
    }

    /** Appends a note; a null note or one whose id is already present throws
        and changes nothing. Note ids stay unique. */
    method AddNote(note: MarkdownNote?, now: Ticks) returns (s: Status)
      requires Valid()
      modifies this
      ensures Valid()
      ensures s.Ok? <==> note != null && !HasKey(old(notes), NoteId, note.Id)
      ensures note == null ==> s == Fail(ArgumentNull("note"))
      ensures note != null && HasKey(old(notes), NoteId, note.Id) ==> s == Fail(InvalidOperation(DuplicateId))
      ensures s.Fail? ==> unchanged(this)
      ensures s.Ok? ==> notes == old(notes) + [note] && UpdatedAt == now
      ensures s.Ok? ==> Content == old(Content) && PositionX == old(PositionX)
                        && PositionY == old(PositionY) && Color == old(Color)
    {
      if note == null {
        return Fail(ArgumentNull("note"));
      }
      if HasKey(notes, NoteId, note.Id) {
        return Fail(InvalidOperation(DuplicateId));
      }
      notes := notes + [note];
      UpdatedAt := now;
      return Ok;
    }

    /** Removes the note with the given id, keeping the others in order; an
        absent id changes nothing, not even UpdatedAt. */
    method RemoveNote(noteId: Guid, now: Ticks)
      requires Valid()
      modifies this
      ensures Valid()
      ensures notes == WithoutKey(old(notes), NoteId, noteId)
      ensures !HasKey(old(notes), NoteId, noteId) ==> unchanged(this)
      ensures HasKey(old(notes), NoteId, noteId) ==> |notes| == |old(notes)| - 1 && UpdatedAt == now
      ensures Content == old(Content) && Color == old(Color)
      ensures PositionX == old(PositionX) && PositionY == old(PositionY)
    {
      var i := IndexOfKey(notes, NoteId, noteId);
      if i < |notes| {
        RemoveFoundIsWithoutKey(notes, NoteId, noteId);
        notes := RemoveFirst(notes, notes[i]);
        UpdatedAt := now;
      } else {
        WithoutAbsentKey(notes, NoteId, noteId);
      }
      SubsequenceKeysUnique(notes, old(notes), NoteId);
    }

    /** Removes every note; UpdatedAt changes only if there was a note. */
    method ClearNotes(now: Ticks)
      requires Valid()
      modifies this
      ensures Valid()
      ensures notes == []
      ensures UpdatedAt == (if old(notes) != [] then now else old(UpdatedAt))
      ensures Content == old(Content) && Color == old(Color)
      ensures PositionX == old(PositionX) && PositionY == old(PositionY)
    {
      if |notes| > 0 {
        notes := [];
        UpdatedAt := now;
      }
    }
  }
}
