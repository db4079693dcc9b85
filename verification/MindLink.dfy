/** A directed, labelled connection between two nodes of a mind map. */
module MindLinks {
  import opened Common

  const DefaultLabel: string := ""
  const DefaultLineStyle: string := "solid"
  const DefaultColor: string := "#000000"

  class MindLink {
    const Id: Guid
    const MindMapId: Guid
    const SourceNodeId: Guid
    const TargetNodeId: Guid
    var Label: string
    var LineStyle: string
    var Color: string
    const CreatedAt: Ticks
    var UpdatedAt: Ticks

    /** A link never connects a node to itself. The endpoints are constants,
        so what the constructor establishes holds for the link's whole life. */
    predicate Valid()
    {
      SourceNodeId != TargetNodeId
    }

    /** The constructor once its self-loop guard has passed; null linkLabel, line
        style and color take their defaults. */
    constructor (id: Guid, mindMapId: Guid, sourceNodeId: Guid, targetNodeId: Guid,
                 linkLabel: Nullable<string>, lineStyle: Nullable<string>, color: Nullable<string>, now: Ticks)
      requires sourceNodeId != targetNodeId
      ensures Valid()
      ensures Id == id && MindMapId == mindMapId
      ensures SourceNodeId == sourceNodeId && TargetNodeId == targetNodeId
      ensures Label == (if linkLabel.NonNull? then linkLabel.value else DefaultLabel)
      ensures LineStyle == (if lineStyle.NonNull? then lineStyle.value else DefaultLineStyle)
      ensures Color == (if color.NonNull? then color.value else DefaultColor)
      ensures CreatedAt == now && UpdatedAt == now
    {
      Id, MindMapId := id, mindMapId;
      SourceNodeId, TargetNodeId := sourceNodeId, targetNodeId;
      Label := OrDefault(linkLabel, DefaultLabel);
      LineStyle := OrDefault(lineStyle, DefaultLineStyle);
      Color := OrDefault(color, DefaultColor);
      CreatedAt, UpdatedAt := now, now;
    }

    /** `new MindLink(...)`: a link from a node to itself throws
        InvalidOperationException; otherwise the ids are stored unchanged. */
    static method Create(id: Guid, mindMapId: Guid, sourceNodeId: Guid, targetNodeId: Guid,
                         linkLabel: Nullable<string>, lineStyle: Nullable<string>, color: Nullable<string>, now: Ticks)
      returns (r: Result<MindLink>)
      ensures r.Success? <==> sourceNodeId != targetNodeId
      ensures r.Failure? ==> r.error == InvalidOperation(SelfLoop)
      ensures r.Success? ==> fresh(r.value) && r.value.Valid()
      ensures r.Success? ==> r.value.Id == id && r.value.MindMapId == mindMapId
      ensures r.Success? ==> r.value.SourceNodeId == sourceNodeId && r.value.TargetNodeId == targetNodeId
      ensures r.Success? ==> r.value.Label == (if linkLabel.NonNull? then linkLabel.value else DefaultLabel)
      ensures r.Success? ==> r.value.LineStyle == (if lineStyle.NonNull? then lineStyle.value else DefaultLineStyle)
      ensures r.Success? ==> r.value.Color == (if color.NonNull? then color.value else DefaultColor)
      ensures r.Success? ==> r.value.CreatedAt == now && r.value.UpdatedAt == now
    {
      if sourceNodeId == targetNodeId {
        return Failure(InvalidOperation(SelfLoop));
      }
      var link := new MindLink(id, mindMapId, sourceNodeId, targetNodeId, linkLabel, lineStyle, color, now);
      return Success(link);
    }

    /** Replaces the link's metadata, null values taking their defaults. The
        identity and the endpoints are constants, so they stay as they were. */
    method Update(linkLabel: Nullable<string>, lineStyle: Nullable<string>, color: Nullable<string>, now: Ticks)
      modifies this
      ensures Label == (if linkLabel.NonNull? then linkLabel.value else DefaultLabel)
      ensures LineStyle == (if lineStyle.NonNull? then lineStyle.value else DefaultLineStyle)
      ensures Color == (if color.NonNull? then color.value else DefaultColor)
      ensures UpdatedAt == now
    {
      Label := OrDefault(linkLabel, DefaultLabel);
      LineStyle := OrDefault(lineStyle, DefaultLineStyle);
      Color := OrDefault(color, DefaultColor);
      UpdatedAt := now;
    }
  }
}
