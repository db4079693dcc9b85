/** The MindMap aggregate: a graph held as two insertion-ordered lists, nodes
    and links, with unique ids and no link to a node that is not present. */
module MindMaps {
  import opened Common
  import opened Sequences
  import opened MindNodes
  import opened MindLinks

  /** The key nodes are identified by. */
  function NodeKey(n: MindNode): Guid
  {
    n.Id
  }

  /** The key links are identified by. */
  function LinkKey(l: MindLink): Guid
  {
    l.Id
  }

  /** The link starts or ends at the node. */
  predicate Touches(l: MindLink, nodeId: Guid)
  {
    l.SourceNodeId == nodeId || l.TargetNodeId == nodeId
  }

  /** The structural invariant of a map: node ids are unique, link ids are
      unique, no link is a self-loop and every link endpoint is a present node. */
  ghost predicate GraphInvariant(nodes: seq<MindNode>, links: seq<MindLink>)
  {
    && KeysUnique(nodes, NodeKey)
    && KeysUnique(links, LinkKey)
    && (forall l | l in links ::
          l.Valid() && HasKey(nodes, NodeKey, l.SourceNodeId) && HasKey(nodes, NodeKey, l.TargetNodeId))
  }

  /** The links that touch `nodeId`: the ones RemoveNode collects for removal. */
  function IncidentLinks(links: seq<MindLink>, nodeId: Guid): (r: seq<MindLink>)
    ensures forall l | l in r :: l in links && Touches(l, nodeId)
    ensures forall l | l in links && Touches(l, nodeId) :: l in r
  {
    Filter(links, l => Touches(l, nodeId))
  }

  /** The links that survive the removal of node `nodeId`: exactly those that
      do not touch it, in their original order. */
  function Detached(links: seq<MindLink>, nodeId: Guid): (r: seq<MindLink>)
    ensures forall l | l in r :: l in links && !Touches(l, nodeId)
    ensures forall l | l in links && !Touches(l, nodeId) :: l in r
    ensures IsSubsequence(r, links)
  {
    Filter(links, l => !Touches(l, nodeId))
  }

  /** One step of Detached, for unfolding it on a list of known length. */
  lemma DetachedCons(l: MindLink, links: seq<MindLink>, nodeId: Guid)
    ensures Detached([l] + links, nodeId)
         == (if Touches(l, nodeId) then [] else [l]) + Detached(links, nodeId)
  {
    assert ([l] + links)[1..] == links;
  }

  lemma AppendKeepsKey<T>(s: seq<T>, x: T, key: T -> Guid, k: Guid)
    requires HasKey(s, key, k)
    ensures HasKey(s + [x], key, k)
  {
    var i :| 0 <= i < |s| && key(s[i]) == k;
    assert (s + [x])[i] == s[i];
  }

  lemma AppendKeysUnique<T>(s: seq<T>, x: T, key: T -> Guid)
    requires KeysUnique(s, key)
    requires !HasKey(s, key, key(x))
    ensures KeysUnique(s + [x], key)
  {
    forall i, j | 0 <= i < j < |s + [x]| ensures key((s + [x])[i]) != key((s + [x])[j]) {
      if j == |s| {
        assert (s + [x])[i] == s[i];
      }
    }
  }

  /** Adding a node with a fresh id keeps the invariant. */
  lemma AddNodeKeepsInvariant(nodes: seq<MindNode>, links: seq<MindLink>, node: MindNode)
    requires GraphInvariant(nodes, links)
    requires !HasKey(nodes, NodeKey, node.Id)
    ensures GraphInvariant(nodes + [node], links)
  {
    AppendKeysUnique(nodes, node, NodeKey);
    forall l | l in links
      ensures HasKey(nodes + [node], NodeKey, l.SourceNodeId) && HasKey(nodes + [node], NodeKey, l.TargetNodeId)
    {
      AppendKeepsKey(nodes, node, NodeKey, l.SourceNodeId);
      AppendKeepsKey(nodes, node, NodeKey, l.TargetNodeId);
    }
  }

  /** Adding a loop-free link with a fresh id between present nodes keeps the invariant. */
  lemma AddLinkKeepsInvariant(nodes: seq<MindNode>, links: seq<MindLink>, link: MindLink)
    requires GraphInvariant(nodes, links)
    requires link.Valid()
    requires HasKey(nodes, NodeKey, link.SourceNodeId) && HasKey(nodes, NodeKey, link.TargetNodeId)
    requires !HasKey(links, LinkKey, link.Id)
    ensures GraphInvariant(nodes, links + [link])
  {
    AppendKeysUnique(links, link, LinkKey);
  }

  /** Dropping a link keeps the invariant. */
  lemma RemoveLinkKeepsInvariant(nodes: seq<MindNode>, links: seq<MindLink>, linkId: Guid)
    requires GraphInvariant(nodes, links)
    ensures GraphInvariant(nodes, WithoutKey(links, LinkKey, linkId))
  {
    SubsequenceKeysUnique<MindLink, Guid>(WithoutKey(links, LinkKey, linkId), links, LinkKey);
  }

  /** Removing a node together with every link that touches it leaves no
      dangling link: the cascade keeps the invariant. */
  lemma RemoveNodeKeepsInvariant(nodes: seq<MindNode>, links: seq<MindLink>, nodeId: Guid)
    requires GraphInvariant(nodes, links)
    ensures GraphInvariant(WithoutKey(nodes, NodeKey, nodeId), Detached(links, nodeId))
  {
    var ns := WithoutKey(nodes, NodeKey, nodeId);
    var ls := Detached(links, nodeId);
    SubsequenceKeysUnique<MindNode, Guid>(ns, nodes, NodeKey);
    SubsequenceKeysUnique<MindLink, Guid>(ls, links, LinkKey);
    forall l | l in ls
      ensures HasKey(ns, NodeKey, l.SourceNodeId) && HasKey(ns, NodeKey, l.TargetNodeId)
    {
      var i :| 0 <= i < |nodes| && nodes[i].Id == l.SourceNodeId;
      var j :| 0 <= j < |nodes| && nodes[j].Id == l.TargetNodeId;
      assert nodes[i] in ns && nodes[j] in ns;
      var i' :| 0 <= i' < |ns| && ns[i'] == nodes[i];
      var j' :| 0 <= j' < |ns| && ns[j'] == nodes[j];
      assert NodeKey(ns[i']) == l.SourceNodeId;
      assert NodeKey(ns[j']) == l.TargetNodeId;
    }
  }

  /** Removing every incident link, one List.Remove at a time, from a list
      with unique link ids leaves exactly the detached links. */
  lemma ExcludeIncidentIsDetached(links: seq<MindLink>, nodeId: Guid)
    ensures Exclude(links, IncidentLinks(links, nodeId)) == Detached(links, nodeId)
  {
    var associated := IncidentLinks(links, nodeId);
    FilterCongruent(links, x => x !in associated, l => !Touches(l, nodeId));
  }

  class MindMap {
    const Id: Guid
    var Title: Nullable<string>
    var Description: Nullable<string>
    const CreatedAt: Ticks
    var UpdatedAt: Ticks
    var nodes: seq<MindNode>
    var links: seq<MindLink>

    /** The aggregate's invariant, together with the invariant of every node. */
    ghost predicate Valid()
      reads this, set n | n in nodes
    {
      GraphInvariant(nodes, links) && forall n | n in nodes :: n.Valid()
    }

    /** `new MindMap(id, title, description)`: stores title and description as
        given (null included) and starts with no nodes and no links. */
    constructor (id: Guid, title: Nullable<string>, description: Nullable<string>, now: Ticks)
      ensures Valid()
      ensures Id == id && Title == title && Description == description
      ensures nodes == [] && links == []
      ensures CreatedAt == now && UpdatedAt == now
    {
      Id := id;
      Title, Description := title, description;
      CreatedAt, UpdatedAt := now, now;
      nodes, links := [], [];
    }

    /** Appends a node. A null node throws ArgumentNullException and a node
        whose id is already present throws InvalidOperationException; a
        failure changes nothing. */
    method AddNode(node: MindNode?, now: Ticks) returns (s: Status)
      requires Valid()
      requires node != null ==> node.Valid()
      modifies this
      ensures Valid()
      ensures s.Ok? <==> node != null && !HasKey(old(nodes), NodeKey, node.Id)
      ensures node == null ==> s == Fail(ArgumentNull("node"))
      ensures node != null && HasKey(old(nodes), NodeKey, node.Id) ==> s == Fail(InvalidOperation(DuplicateId))
      ensures s.Fail? ==> unchanged(this)
      ensures s.Ok? ==> nodes == old(nodes) + [node] && links == old(links) && UpdatedAt == now
      ensures Title == old(Title) && Description == old(Description)
    {
      if node == null {
        return Fail(ArgumentNull("node"));
      }
      if HasKey(nodes, NodeKey, node.Id) {
        return Fail(InvalidOperation(DuplicateId));
      }
      AddNodeKeepsInvariant(nodes, links, node);
      nodes := nodes + [node];
      UpdatedAt := now;
      return Ok;
    }

    /** Removes the node with the given id and then, one by one, every link
        that starts or ends at it. An absent id changes nothing, not even
        UpdatedAt. The other nodes and links keep their relative order. */
    method RemoveNode(nodeId: Guid, now: Ticks)
      requires Valid()
      modifies this
      ensures Valid()
      ensures nodes == WithoutKey(old(nodes), NodeKey, nodeId)
      ensures !HasKey(old(nodes), NodeKey, nodeId) ==> unchanged(this)
      ensures HasKey(old(nodes), NodeKey, nodeId) ==>
                |nodes| == |old(nodes)| - 1 && links == Detached(old(links), nodeId) && UpdatedAt == now
      ensures Title == old(Title) && Description == old(Description)
    {
      var i := IndexOfKey(nodes, NodeKey, nodeId);
      if i < |nodes| {
        RemoveFoundIsWithoutKey(nodes, NodeKey, nodeId);
        RemoveNodeKeepsInvariant(nodes, links, nodeId);
        nodes := RemoveFirst(nodes, nodes[i]);

        var associated := IncidentLinks(links, nodeId);
        ExcludeIncidentIsDetached(links, nodeId);
        KeysUniqueDistinct(links, LinkKey);
        SubsequenceKeysUnique<MindLink, Guid>(associated, links, LinkKey);
        KeysUniqueDistinct(associated, LinkKey);
        RemoveEach(associated);
        UpdatedAt := now;
      } else {
        WithoutAbsentKey(nodes, NodeKey, nodeId);
      }
    }

    /** The `foreach` of RemoveNode: calls List.Remove on each given link in turn. */
    method RemoveEach(associated: seq<MindLink>)
      requires Distinct(links) && Distinct(associated)
      modifies this`links
      ensures links == Exclude(old(links), associated)
    {
      ghost var before := links;
      FilterCongruent(before, x => x !in associated[..0], x => true);
      TrueFilterIdentity(before);
      var k := 0;
      while k < |associated|
        invariant 0 <= k <= |associated|
        invariant links == Exclude(before, associated[..k])
      {
        assert associated[..k + 1] == associated[..k] + [associated[k]];
        RemoveFirstFromExclude(before, associated[..k], associated[k]);
        links := RemoveFirst(links, associated[k]);
        k := k + 1;
      }
      assert associated[..k] == associated;
    }

    /** Appends a link. A null link throws ArgumentNullException; an endpoint
        that is not a present node throws InvalidOperationException, and this
        is checked before the duplicate-id check; a failure changes nothing. */
    method AddLink(link: MindLink?, now: Ticks) returns (s: Status)
      requires Valid()
      requires link != null ==> link.Valid()
      modifies this
      ensures Valid()
      ensures s.Ok? <==> link != null && HasKey(old(nodes), NodeKey, link.SourceNodeId)
                         && HasKey(old(nodes), NodeKey, link.TargetNodeId) && !HasKey(old(links), LinkKey, link.Id)
      ensures link == null ==> s == Fail(ArgumentNull("link"))
      ensures (link != null && !(HasKey(old(nodes), NodeKey, link.SourceNodeId) && HasKey(old(nodes), NodeKey, link.TargetNodeId)))
                ==> s == Fail(InvalidOperation(MissingEndpoint))
      ensures (link != null && HasKey(old(nodes), NodeKey, link.SourceNodeId) && HasKey(old(nodes), NodeKey, link.TargetNodeId)
               && HasKey(old(links), LinkKey, link.Id)) ==> s == Fail(InvalidOperation(DuplicateId))
      ensures s.Fail? ==> unchanged(this)
      ensures s.Ok? ==> links == old(links) + [link] && nodes == old(nodes) && UpdatedAt == now
      ensures Title == old(Title) && Description == old(Description)
    {
      if link == null {
        return Fail(ArgumentNull("link"));
      }
      var sourceExists := HasKey(nodes, NodeKey, link.SourceNodeId);
      var targetExists := HasKey(nodes, NodeKey, link.TargetNodeId);
      if !sourceExists || !targetExists {
        return Fail(InvalidOperation(MissingEndpoint));
      }
      if HasKey(links, LinkKey, link.Id) {
        return Fail(InvalidOperation(DuplicateId));
      }
      AddLinkKeepsInvariant(nodes, links, link);
      links := links + [link];
      UpdatedAt := now;
      return Ok;
    }

    /** Removes the link with the given id and nothing else; an absent id
        changes nothing, not even UpdatedAt. */
    method RemoveLink(linkId: Guid, now: Ticks)
      requires Valid()
      modifies this
      ensures Valid()
      ensures links == WithoutKey(old(links), LinkKey, linkId) && nodes == old(nodes)
      ensures !HasKey(old(links), LinkKey, linkId) ==> unchanged(this)
      ensures HasKey(old(links), LinkKey, linkId) ==> |links| == |old(links)| - 1 && UpdatedAt == now
      ensures Title == old(Title) && Description == old(Description)
    {
      var i := IndexOfKey(links, LinkKey, linkId);
      if i < |links| {
        RemoveFoundIsWithoutKey(links, LinkKey, linkId);
        RemoveLinkKeepsInvariant(nodes, links, linkId);
        links := RemoveFirst(links, links[i]);
        UpdatedAt := now;
      } else {
        WithoutAbsentKey(links, LinkKey, linkId);
      }
    }

    /** Replaces title and description. A null title throws before anything
        changes; a null description throws after the title has been replaced. */
    method Update(title: Nullable<string>, description: Nullable<string>, now: Ticks) returns (s: Status)
      requires Valid()
      modifies this
      ensures Valid()
      ensures s.Ok? <==> title.NonNull? && description.NonNull?
      ensures title.Null? ==> s == Fail(ArgumentNull("title")) && unchanged(this)
      ensures title.NonNull? && description.Null? ==>
                s == Fail(ArgumentNull("description")) && Title == title
                && Description == old(Description) && UpdatedAt == old(UpdatedAt)
      ensures s.Ok? ==> Title == title && Description == description && UpdatedAt == now
      ensures nodes == old(nodes) && links == old(links)
    {
      if title.Null? {
        return Fail(ArgumentNull("title"));
      }
      Title := title;
      if description.Null? {
        return Fail(ArgumentNull("description"));
      }
      Description := description;
      UpdatedAt := now;
      return Ok;
    }
  }

  /** Nodes A, B, C, D: removing B by id leaves A, C, D in order. */
  lemma RemoveMiddleNodeScenario(a: MindNode, b: MindNode, c: MindNode, d: MindNode)
    requires a.Id == 1 && b.Id == 2 && c.Id == 3 && d.Id == 4
    ensures WithoutKey([a, b, c, d], NodeKey, 2) == [a, c, d]
  {
    var empty: seq<MindNode> := [];
    assert WithoutKey([d], NodeKey, 2) == [d] by {
      WithoutKeyCons(d, empty, NodeKey, 2);
      assert [d] == [d] + empty;
    }
    assert WithoutKey([c, d], NodeKey, 2) == [c, d] by {
      WithoutKeyCons(c, [d], NodeKey, 2);
      assert [c, d] == [c] + [d];
    }
    assert WithoutKey([b, c, d], NodeKey, 2) == [c, d] by {
      WithoutKeyCons(b, [c, d], NodeKey, 2);
      assert [b, c, d] == [b] + [c, d];
    }
    WithoutKeyCons(a, [b, c, d], NodeKey, 2);
    assert [a, b, c, d] == [a] + [b, c, d];
  }

  /** Links A->B, B->C, C->D: detaching B leaves only C->D. */
  lemma DetachMiddleNodeScenario(ab: MindLink, bc: MindLink, cd: MindLink)
    requires ab.SourceNodeId == 1 && ab.TargetNodeId == 2
    requires bc.SourceNodeId == 2 && bc.TargetNodeId == 3
    requires cd.SourceNodeId == 3 && cd.TargetNodeId == 4
    ensures Detached([ab, bc, cd], 2) == [cd]
  {
    DetachedCons(cd, [], 2);
    DetachedCons(bc, [cd], 2);
    DetachedCons(ab, [bc, cd], 2);
    assert [ab, bc, cd] == [ab] + [bc, cd] && [bc, cd] == [bc] + [cd];
  }
}
