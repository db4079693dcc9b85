/** The domain service: validates commands, looks mind maps up in the
    repository, applies aggregate operations, and answers two read-only
    queries. The repository is a map from mind-map id to aggregate. */
module Service {
  import opened Common
  import opened Text
  import opened Sequences
  import opened MarkdownNotes
  import opened MindNodes
  import opened MindLinks
  import opened MindMaps

  /** `n.Content.Contains(keyword, StringComparison.OrdinalIgnoreCase)`. */
  predicate ContentMatches(n: MindNode, keyword: string)
    reads n
  {
    ContainsIgnoreCase(n.Content, keyword)
  }

  /** The nodes whose content contains the keyword, up to case, in node order. */
  function MatchingNodes(nodes: seq<MindNode>, keyword: string): (r: seq<MindNode>)
    reads set n | n in nodes
    ensures forall n | n in r :: n in nodes && ContentMatches(n, keyword)
    ensures forall n | n in nodes && ContentMatches(n, keyword) :: n in r
    ensures IsSubsequence(r, nodes)
    ensures KeysUnique(nodes, NodeKey) ==> Distinct(r)
  {
    var r :=
      if nodes == [] then []
      else if ContentMatches(nodes[0], keyword) then [nodes[0]] + MatchingNodes(nodes[1..], keyword)
      else MatchingNodes(nodes[1..], keyword);
    SubsequenceOfUniqueNodes(r, nodes);
    r
  }

  /** The search ignores case: keywords that differ only in the case of
      their ASCII letters select the same nodes. */
  lemma {:induction false} MatchingNodesIgnoresCase(nodes: seq<MindNode>, keyword: string, other: string)
    requires FoldString(keyword) == FoldString(other)
    ensures MatchingNodes(nodes, keyword) == MatchingNodes(nodes, other)
  {
    if nodes != [] {
      ContainsRespectsFolding(nodes[0].Content, keyword, other);
      MatchingNodesIgnoresCase(nodes[1..], keyword, other);
    }
  }

  /** The targets of the links that leave `parentNodeId`, in link order. */
  function ChildNodeIds(links: seq<MindLink>, parentNodeId: Guid): (ids: seq<Guid>)
    ensures forall id | id in ids :: exists l | l in links :: l.SourceNodeId == parentNodeId && l.TargetNodeId == id
    ensures forall l | l in links && l.SourceNodeId == parentNodeId :: l.TargetNodeId in ids
  {
    if links == [] then []
    else if links[0].SourceNodeId == parentNodeId then [links[0].TargetNodeId] + ChildNodeIds(links[1..], parentNodeId)
    else ChildNodeIds(links[1..], parentNodeId)
  }

  /** The nodes one outgoing link away from `parentNodeId`, in node order,
      each once when node ids are unique. */
  function ChildNodes(nodes: seq<MindNode>, links: seq<MindLink>, parentNodeId: Guid): (r: seq<MindNode>)
    ensures forall n | n in r :: n in nodes && exists l | l in links :: l.SourceNodeId == parentNodeId && l.TargetNodeId == n.Id
    ensures forall n, l | n in nodes && l in links && l.SourceNodeId == parentNodeId && l.TargetNodeId == n.Id :: n in r
    ensures IsSubsequence(r, nodes)
    ensures KeysUnique(nodes, NodeKey) ==> Distinct(r)
  {
    var ids := ChildNodeIds(links, parentNodeId);
    var r := Filter(nodes, (n: MindNode) => n.Id in ids);
    SubsequenceOfUniqueNodes(r, nodes);
    r
  }

  lemma SubsequenceOfUniqueNodes(r: seq<MindNode>, nodes: seq<MindNode>)
    requires IsSubsequence(r, nodes)
    ensures KeysUnique(nodes, NodeKey) ==> Distinct(r)
  {
    if KeysUnique(nodes, NodeKey) {
      SubsequenceKeysUnique<MindNode, Guid>(r, nodes, NodeKey);
      KeysUniqueDistinct(r, NodeKey);
    }
  }

  class MindMapService {
    var repository: map<Guid, MindMap>

    /** Every stored mind map satisfies its invariant. */
    ghost predicate Valid()
      reads this, repository.Values, set m, n | m in repository.Values && n in m.nodes :: n
    {
      forall m | m in repository.Values :: m.Valid()
    }

    /** `new MindMapService(repository)`, given a repository whose maps all
        satisfy their invariant. */
    constructor (repository: map<Guid, MindMap>)
      requires forall m | m in repository.Values :: m.Valid()
      ensures Valid()
      ensures this.repository == repository
    {
      this.repository := repository;
    }

    /** CreateMindMapAsync: a blank title or root content throws
        ArgumentException before anything is created; otherwise a map with a
        single root node and no links is stored under its id. */
    method CreateMindMap(title: Nullable<string>, description: Nullable<string>, rootNodeContent: Nullable<string>,
                         mapId: Guid, rootNodeId: Guid, now: Ticks)
      returns (r: Result<MindMap>)
      requires Valid()
      modifies this
      ensures Valid()
      ensures r.Success? <==> !IsNullOrWhiteSpace(title) && !IsNullOrWhiteSpace(rootNodeContent)
      ensures IsNullOrWhiteSpace(title) ==> r == Failure(Argument("title"))
      ensures !IsNullOrWhiteSpace(title) && IsNullOrWhiteSpace(rootNodeContent) ==> r == Failure(Argument("rootNodeContent"))
      ensures r.Failure? ==> repository == old(repository)
      ensures r.Success? ==> fresh(r.value) && repository == old(repository)[mapId := r.value]
      ensures r.Success? ==> r.value.Id == mapId && r.value.Title == title && r.value.Description == description
      ensures r.Success? ==> |r.value.nodes| == 1 && r.value.links == []
      ensures r.Success? ==> var root := r.value.nodes[0];
                fresh(root) && root.Id == rootNodeId && root.MindMapId == mapId && root.Content == rootNodeContent.value
                && root.PositionX == 0 && root.PositionY == 0 && root.Color == MindNodes.DefaultColor && root.notes == []
    {
      if IsNullOrWhiteSpace(title) {
        return Failure(Argument("title"));
      }
      if IsNullOrWhiteSpace(rootNodeContent) {
        return Failure(Argument("rootNodeContent"));
      }
      var mindMap := new MindMap(mapId, title, description, now);
      var rootNode := new MindNode(rootNodeId, mapId, rootNodeContent.value, 0, 0, NonNull(MindNodes.DefaultColor), now);
      var added := mindMap.AddNode(rootNode, now);
      assert added.Ok?;
      repository := repository[mapId := mindMap];
      return Success(mindMap);
    }

    /** AddNodeWithLinkAsync: fails when the map is missing, then when the
        content is blank, then when the parent node is missing, each time with
        the map unchanged. Otherwise it adds a new node and then a link from
        the parent to it. If the new node id is taken, AddNode throws and the
        map is unchanged; if the new link id is taken, AddLink throws after
        the node has been added, and the node stays. */
    method AddNodeWithLink(mindMapId: Guid, nodeContent: Nullable<string>, parentNodeId: Guid,
                           linkLabel: Nullable<string>, newNodeId: Guid, linkId: Guid, now: Ticks)
      returns (r: Result<MindNode>)
      requires Valid()
      modifies if mindMapId in repository then {repository[mindMapId]} else {}
      ensures Valid()
      ensures mindMapId !in repository ==> r == Failure(InvalidOperation(NotFound))
      ensures mindMapId in repository && IsNullOrWhiteSpace(nodeContent) ==> r == Failure(Argument("nodeContent"))
      ensures mindMapId in repository && !IsNullOrWhiteSpace(nodeContent)
              && !HasKey(old(repository[mindMapId].nodes), NodeKey, parentNodeId)
              ==> r == Failure(InvalidOperation(NotFound))
      ensures mindMapId in repository && (IsNullOrWhiteSpace(nodeContent)
                || !HasKey(old(repository[mindMapId].nodes), NodeKey, parentNodeId)
                || HasKey(old(repository[mindMapId].nodes), NodeKey, newNodeId))
              ==> unchanged(repository[mindMapId])
      ensures mindMapId in repository && !IsNullOrWhiteSpace(nodeContent)
              && HasKey(old(repository[mindMapId].nodes), NodeKey, parentNodeId)
              && HasKey(old(repository[mindMapId].nodes), NodeKey, newNodeId)
              ==> r == Failure(InvalidOperation(DuplicateId))
      ensures mindMapId in repository && !IsNullOrWhiteSpace(nodeContent)
              && HasKey(old(repository[mindMapId].nodes), NodeKey, parentNodeId)
              && !HasKey(old(repository[mindMapId].nodes), NodeKey, newNodeId)
              && HasKey(old(repository[mindMapId].links), LinkKey, linkId)
              ==> var m := repository[mindMapId];
                  && r == Failure(InvalidOperation(DuplicateId))
                  && |m.nodes| == |old(m.nodes)| + 1 && m.nodes[..|old(m.nodes)|] == old(m.nodes)
                  && m.nodes[|old(m.nodes)|].Id == newNodeId && m.links == old(m.links)
      ensures r.Success? <==> mindMapId in repository && !IsNullOrWhiteSpace(nodeContent)
                              && HasKey(old(repository[mindMapId].nodes), NodeKey, parentNodeId)
                              && !HasKey(old(repository[mindMapId].nodes), NodeKey, newNodeId)
                              && !HasKey(old(repository[mindMapId].links), LinkKey, linkId)
      ensures r.Success? ==> var m := repository[mindMapId];
                fresh(r.value) && r.value.Id == newNodeId && r.value.MindMapId == mindMapId
                && r.value.Content == nodeContent.value
                && r.value.PositionX == 0 && r.value.PositionY == 0 && r.value.Color == MindNodes.DefaultColor
                && r.value.notes == []
                && m.nodes == old(m.nodes) + [r.value]
                && |m.links| == |old(m.links)| + 1 && m.links[..|m.links| - 1] == old(m.links)
                && m.links[|m.links| - 1].Id == linkId
                && m.links[|m.links| - 1].SourceNodeId == parentNodeId
                && m.links[|m.links| - 1].TargetNodeId == newNodeId
                && m.links[|m.links| - 1].Label == (if linkLabel.NonNull? then linkLabel.value else MindLinks.DefaultLabel)
                && m.links[|m.links| - 1].LineStyle == MindLinks.DefaultLineStyle
                && m.links[|m.links| - 1].Color == MindLinks.DefaultColor
                && m.links[|m.links| - 1].MindMapId == mindMapId
      ensures mindMapId in repository && HasKey(repository[mindMapId].nodes, NodeKey, newNodeId)
              && !HasKey(old(repository[mindMapId].nodes), NodeKey, newNodeId)
              ==> repository[mindMapId].UpdatedAt == now
      ensures mindMapId in repository ==>
                repository[mindMapId].Title == old(repository[mindMapId].Title)
                && repository[mindMapId].Description == old(repository[mindMapId].Description)
    {
      if mindMapId !in repository {
        return Failure(InvalidOperation(NotFound));
      }
      var mindMap := repository[mindMapId];
      if IsNullOrWhiteSpace(nodeContent) {
        return Failure(Argument("nodeContent"));
      }
      if !HasKey(mindMap.nodes, NodeKey, parentNodeId) {
        return Failure(InvalidOperation(NotFound));
      }
      var newNode := new MindNode(newNodeId, mindMapId, nodeContent.value, 0, 0, NonNull(MindNodes.DefaultColor), now);
      var added := mindMap.AddNode(newNode, now);
      if added.Fail? {
        return Failure(added.error);
      }
      assert HasKey(mindMap.nodes, NodeKey, newNodeId) by {
        assert mindMap.nodes[|mindMap.nodes| - 1] == newNode;
      }
      assert HasKey(mindMap.nodes, NodeKey, parentNodeId) by {
        AppendKeepsKey(old(mindMap.nodes), newNode, NodeKey, parentNodeId);
      }
      var link := new MindLink(linkId, mindMapId, parentNodeId, newNodeId, linkLabel, Null, Null, now);
      var linked := mindMap.AddLink(link, now);
      if linked.Fail? {
        return Failure(linked.error);
      }
      return Success(newNode);
    }

    /** RemoveNodeAsync: fails when the map is missing; otherwise RemoveNode. */
    method RemoveNode(mindMapId: Guid, nodeId: Guid, now: Ticks) returns (s: Status)
      requires Valid()
      modifies if mindMapId in repository then {repository[mindMapId]} else {}
      ensures Valid()
      ensures s.Ok? <==> mindMapId in repository
      ensures s.Fail? ==> s.error == InvalidOperation(NotFound)
      ensures s.Ok? ==> var m := repository[mindMapId];
                m.nodes == WithoutKey(old(m.nodes), NodeKey, nodeId)
                && m.links == (if HasKey(old(m.nodes), NodeKey, nodeId) then Detached(old(m.links), nodeId) else old(m.links))
                && m.UpdatedAt == (if HasKey(old(m.nodes), NodeKey, nodeId) then now else old(m.UpdatedAt))
                && m.Title == old(m.Title) && m.Description == old(m.Description)
    {
      if mindMapId !in repository {
        return Fail(InvalidOperation(NotFound));
      }
      var mindMap := repository[mindMapId];
      mindMap.RemoveNode(nodeId, now);
      return Ok;
    }

    /** GetMindMapAsync: the stored map, or null. */
    method GetMindMap(mindMapId: Guid) returns (r: MindMap?)
      ensures r == (if mindMapId in repository then repository[mindMapId] else null)
    {
      r := if mindMapId in repository then repository[mindMapId] else null;
    }

    /** SearchNodesByContentAsync: fails when the map is missing; a blank
        keyword finds nothing; otherwise the matching nodes in node order.
        The query changes nothing. */
    method SearchNodesByContent(mindMapId: Guid, keyword: Nullable<string>) returns (r: Result<seq<MindNode>>)
      ensures r.Failure? <==> mindMapId !in repository
      ensures r.Failure? ==> r.error == InvalidOperation(NotFound)
      ensures r.Success? && IsNullOrWhiteSpace(keyword) ==> r.value == []
      ensures r.Success? && !IsNullOrWhiteSpace(keyword) ==>
                r.value == MatchingNodes(repository[mindMapId].nodes, keyword.value)
    {
      if mindMapId !in repository {
        return Failure(InvalidOperation(NotFound));
      }
      var mindMap := repository[mindMapId];
      if IsNullOrWhiteSpace(keyword) {
        return Success([]);
      }
      return Success(MatchingNodes(mindMap.nodes, keyword.value));
    }

    /** GetChildNodesAsync: fails when the map is missing; otherwise the nodes
        one outgoing link away from the parent. The query changes nothing. */
    method GetChildNodes(mindMapId: Guid, parentNodeId: Guid) returns (r: Result<seq<MindNode>>)
      ensures r.Failure? <==> mindMapId !in repository
      ensures r.Failure? ==> r.error == InvalidOperation(NotFound)
      ensures r.Success? ==> var m := repository[mindMapId];
                r.value == ChildNodes(m.nodes, m.links, parentNodeId)
    {
      if mindMapId !in repository {
        return Failure(InvalidOperation(NotFound));
      }
      var mindMap := repository[mindMapId];
      return Success(ChildNodes(mindMap.nodes, mindMap.links, parentNodeId));
    }

    /** AddMarkdownNoteAsync: fails when the map is missing, then when the
        node is missing; then builds the note (null title or content throws)
        and appends it to the node, whose id it records. */
    method AddMarkdownNote(mindMapId: Guid, nodeId: Guid, noteTitle: Nullable<string>, noteContent: Nullable<string>,
                           noteId: Guid, now: Ticks)
      returns (r: Result<MarkdownNote>)
      requires Valid()
      modifies if mindMapId in repository && HasKey(repository[mindMapId].nodes, NodeKey, nodeId)
               then {repository[mindMapId].nodes[IndexOfKey(repository[mindMapId].nodes, NodeKey, nodeId)]} else {}
      ensures Valid()
      ensures mindMapId !in repository ==> r == Failure(InvalidOperation(NotFound))
      ensures mindMapId in repository && !HasKey(repository[mindMapId].nodes, NodeKey, nodeId)
              ==> r == Failure(InvalidOperation(NotFound))
      ensures mindMapId in repository && HasKey(repository[mindMapId].nodes, NodeKey, nodeId) ==>
                var node := repository[mindMapId].nodes[IndexOfKey(repository[mindMapId].nodes, NodeKey, nodeId)];
                && (noteTitle.Null? ==> r == Failure(ArgumentNull("title")))
                && (noteTitle.NonNull? && noteContent.Null? ==> r == Failure(ArgumentNull("content")))
                && ((noteTitle.NonNull? && noteContent.NonNull? && HasKey(old(node.notes), NoteId, noteId))
                      ==> r == Failure(InvalidOperation(DuplicateId)))
                && (r.Success? <==> noteTitle.NonNull? && noteContent.NonNull? && !HasKey(old(node.notes), NoteId, noteId))
                && (r.Success? ==> fresh(r.value) && r.value.Id == noteId && r.value.NodeId == nodeId
                                   && r.value.Title == noteTitle.value && r.value.Content == noteContent.value
                                   && node.notes == old(node.notes) + [r.value]
                                   && node.Content == old(node.Content) && node.UpdatedAt == now
                                   && node.PositionX == old(node.PositionX) && node.PositionY == old(node.PositionY)
                                   && node.Color == old(node.Color))
                && (r.Failure? ==> unchanged(node))
      ensures mindMapId in repository ==> repository[mindMapId].nodes == old(repository[mindMapId].nodes)
    {
      if mindMapId !in repository {
        return Failure(InvalidOperation(NotFound));
      }
      var mindMap := repository[mindMapId];
      var i := IndexOfKey(mindMap.nodes, NodeKey, nodeId);
      if i == |mindMap.nodes| {
        return Failure(InvalidOperation(NotFound));
      }
      var node := mindMap.nodes[i];
      assert mindMap in repository.Values && node in mindMap.nodes;
      var created := MarkdownNote.Create(noteId, nodeId, noteTitle, noteContent, now);
      if created.Failure? {
        return Failure(created.error);
      }
      var note := created.value;
      var added := node.AddNote(note, now);
      if added.Fail? {
        return Failure(added.error);
      }
      return Success(note);
    }
  }
}
