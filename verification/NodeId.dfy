/** The NodeId value object: a non-empty Guid compared by value. */
module NodeIds {
  import opened Common

  datatype NodeId = NodeId(value: Guid)

  /** The constructor `new NodeId(value)`: Guid.Empty is rejected. */
  function NewNodeId(value: Guid): (r: Result<NodeId>)
    ensures r.Success? <==> value != EmptyGuid
    ensures r.Success? ==> r.value.value == value
    ensures r.Failure? ==> r.error == Argument("value")
  {
    if value == EmptyGuid then Failure(Argument("value")) else Success(NodeId(value))
  }

  /** `NodeId.Create(value)`: behaves exactly as the constructor. */
  function Create(value: Guid): (r: Result<NodeId>)
    ensures r == NewNodeId(value)
  {
    NewNodeId(value)
  }

  /** `Equals(NodeId? other)`: true exactly for a non-null id with the same value. */
  function Equals(id: NodeId, other: Nullable<NodeId>): (r: bool)
    ensures r <==> other == NonNull(id)
  {
    other.NonNull? && id.value == other.value.value
  }

  /** `operator ==`: two nulls are equal, a null and an id are not,
      two ids are equal when `Equals` says so. */
  function OpEquality(left: Nullable<NodeId>, right: Nullable<NodeId>): (r: bool)
    ensures r <==> left == right
    ensures left.NonNull? ==> r == Equals(left.value, right)
  {
    match left
    case NonNull(l) => Equals(l, right)
    case Null => right.Null?
  }

  /** `operator !=`: the negation of `==`. */
  function OpInequality(left: Nullable<NodeId>, right: Nullable<NodeId>): (r: bool)
    ensures r <==> left != right
  {
    !OpEquality(left, right)
  }

  /** Every id that could have been constructed is reconstructed from its value. */
  lemma NodeIdRoundTrip(id: NodeId)
    requires id.value != EmptyGuid
    ensures Create(id.value) == Success(id)
  {
  }
}
