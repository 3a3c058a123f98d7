/**
 Any sequence of `MountItem` setter calls. Each field ends up holding the
 value of the last call that wrote it, whatever the other calls were.
 */
module RenderCoreHistory {
  import opened Lang
  import opened RenderCore

  datatype Op =
    | SetContentOp(content: Option<Obj>)
    | SetIsBoundOp(bound: bool)
    | SetHostOp(host: Option<Host>)
    | UpdateOp(node: Option<RenderTreeNode>)
    | SetMountDataOp(data: Option<Obj>)

  /** The field an operation writes. */
  function Writes(op: Op): Field {
    match op
    case SetContentOp(_) => ContentField
    case SetIsBoundOp(_) => BoundField
    case SetHostOp(_) => HostField
    case UpdateOp(_) => NodeField
    case SetMountDataOp(_) => MountDataField
  }

  /** One setter call: only the field the operation names may change. */
  function Apply(item: MountItem, op: Op): (r: MountItem)
    ensures AgreeExcept(item, r, Writes(op))
  {
    match op
    case SetContentOp(content) => SetContent(item, content)
    case SetIsBoundOp(bound) => SetIsBound(item, bound)
    case SetHostOp(host) => SetHost(item, host)
    case UpdateOp(node) => Update(item, node)
    case SetMountDataOp(data) => SetMountData(item, data)
  }

  /** The calls in order, first call first. */
  function ApplyAll(item: MountItem, ops: seq<Op>): MountItem
    decreases |ops|
  {
    if ops == [] then item else ApplyAll(Apply(item, ops[0]), ops[1..])
  }

  /** The item whose fields are each the last value written to them in `ops`, else `item`'s. */
  function LastWrites(item: MountItem, ops: seq<Op>): MountItem
    decreases |ops|
  {
    if ops == [] then item
    else
      var earlier := LastWrites(item, ops[..|ops| - 1]);
      match ops[|ops| - 1]
      case SetContentOp(content) => earlier.(content := content)
      case SetIsBoundOp(bound) => earlier.(bound := bound)
      case SetHostOp(host) => earlier.(host := host)
      case UpdateOp(node) => earlier.(renderTreeNode := node)
      case SetMountDataOp(data) => earlier.(mountData := data)
  }

  /** No operation in `ops` writes `f`. */
  predicate Untouched(ops: seq<Op>, f: Field) {
    forall i :: 0 <= i < |ops| ==> Writes(ops[i]) != f
  }

  lemma {:induction false} ApplyAllSnoc(item: MountItem, ops: seq<Op>, op: Op)
    ensures ApplyAll(item, ops + [op]) == Apply(ApplyAll(item, ops), op)
    decreases |ops|
  {
    if ops == [] {
      assert [op][1..] == [];
    } else {
      assert (ops + [op])[0] == ops[0];
      assert (ops + [op])[1..] == ops[1..] + [op];
      ApplyAllSnoc(Apply(item, ops[0]), ops[1..], op);
    }
  }

  /** Replaying the calls gives the last value written to each field. */
  lemma {:induction false} ApplyAllIsLastWrites(item: MountItem, ops: seq<Op>)
    ensures ApplyAll(item, ops) == LastWrites(item, ops)
    decreases |ops|
  {
    if ops != [] {
      var front := ops[..|ops| - 1];
      assert ops == front + [ops[|ops| - 1]];
      ApplyAllSnoc(item, front, ops[|ops| - 1]);
      ApplyAllIsLastWrites(item, front);
    }
  }

  /** A field no call writes keeps its value through any history. */
  lemma {:induction false} UntouchedFieldValue(item: MountItem, ops: seq<Op>, f: Field)
    requires Untouched(ops, f)
    ensures var r := ApplyAll(item, ops);
            && (f == NodeField ==> r.renderTreeNode == item.renderTreeNode)
            && (f == HostField ==> r.host == item.host)
            && (f == BoundField ==> r.bound == item.bound)
            && (f == ContentField ==> r.content == item.content)
            && (f == MountDataField ==> r.mountData == item.mountData)
    decreases |ops|
  {
    if ops != [] {
      UntouchedFieldValue(Apply(item, ops[0]), ops[1..], f);
    }
  }

  /** `item` holds, in the field `op` writes, the value `op` writes. */
  predicate Holds(item: MountItem, op: Op) {
    match op
    case SetContentOp(content) => item.content == content
    case SetIsBoundOp(bound) => item.bound == bound
    case SetHostOp(host) => item.host == host
    case UpdateOp(node) => item.renderTreeNode == node
    case SetMountDataOp(data) => item.mountData == data
  }

  lemma {:induction false} ApplyAllAppend(item: MountItem, a: seq<Op>, b: seq<Op>)
    ensures ApplyAll(item, a + b) == ApplyAll(ApplyAll(item, a), b)
    decreases |a|
  {
    if a == [] {
      assert a + b == b;
    } else {
      assert (a + b)[0] == a[0];
      assert (a + b)[1..] == a[1..] + b;
      ApplyAllAppend(Apply(item, a[0]), a[1..], b);
    }
  }

  /**
   The last write to a field wins: if call `i` writes a field and no later
   call writes it, the field ends holding the value call `i` wrote.
   */
  lemma LastWriteWins(item: MountItem, ops: seq<Op>, i: nat)
    requires i < |ops|
    requires Untouched(ops[i + 1..], Writes(ops[i]))
    ensures Holds(ApplyAll(item, ops), ops[i])
  {
    assert ops == ops[..i + 1] + ops[i + 1..];
    ApplyAllAppend(item, ops[..i + 1], ops[i + 1..]);
    assert ops[..i + 1] == ops[..i] + [ops[i]];
    ApplyAllSnoc(item, ops[..i], ops[i]);
    var mid := ApplyAll(item, ops[..i + 1]);
    assert Holds(mid, ops[i]);
    UntouchedFieldValue(mid, ops[i + 1..], Writes(ops[i]));
  }

  /**
   `getRenderUnit` follows the node of the last `update`: setting the content,
   host, bound flag or mount data in between never changes it.
   */
  lemma RenderUnitFollowsLastUpdate(item: MountItem, node: RenderTreeNode, later: seq<Op>)
    requires Untouched(later, NodeField)
    ensures GetRenderUnit(ApplyAll(item, [UpdateOp(Some(node))] + later)) == Ok(node.renderUnit)
  {
    var ops := [UpdateOp(Some(node))] + later;
    assert ops[0] == UpdateOp(Some(node)) && ops[1..] == later;
    UntouchedFieldValue(Update(item, Some(node)), later, NodeField);
  }

  /**
   A new item stays unbound through any history that never calls
   `setIsBound(true)`.
   */
  lemma NewItemBoundOnlyBySetIsBound(node: Option<RenderTreeNode>, host: Option<Host>, content: Option<Obj>, ops: seq<Op>)
    requires forall i :: 0 <= i < |ops| ==> ops[i] != SetIsBoundOp(true)
    ensures !ApplyAll(NewMountItem(node, host, content), ops).bound
  {
    NeverSetTrueStaysUnbound(NewMountItem(node, host, content), ops);
  }

  lemma {:induction false} NeverSetTrueStaysUnbound(item: MountItem, ops: seq<Op>)
    requires !item.bound
    requires forall i :: 0 <= i < |ops| ==> ops[i] != SetIsBoundOp(true)
    ensures !ApplyAll(item, ops).bound
    decreases |ops|
  {
    if ops != [] {
      NeverSetTrueStaysUnbound(Apply(item, ops[0]), ops[1..]);
    }
  }

  /**
   `releaseMountContent` after any history releases the last node's unit and
   the last content written.
   */
  lemma ReleaseUsesCurrentFields(item: MountItem, ops: seq<Op>, pool: seq<PoolEvent>)
    requires LastWrites(item, ops).renderTreeNode.Some?
    ensures ReleaseMountContent(ApplyAll(item, ops), pool)
            == Ok(pool + [Release(LastWrites(item, ops).renderTreeNode.value.renderUnit,
                                  LastWrites(item, ops).content)])
  {
    ApplyAllIsLastWrites(item, ops);
  }
}
