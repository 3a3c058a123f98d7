/**
 `MountItem`: the live record tying a render-tree node to its mounted
 content, its host, a bound flag and opaque mount data. Each setter returns
 the updated record; `releaseMountContent` returns the pool's event log.
 */
module RenderCore {
  import opened Lang

  /** The content-type descriptor a node mounts with; the pool is keyed by it. */
  datatype RenderUnit = RenderUnit(id: nat)

  /** A positioned node of the render tree. */
  datatype RenderTreeNode = RenderTreeNode(id: nat, renderUnit: RenderUnit)

  /** The `Host` view that holds mounted content. */
  datatype Host = Host(id: nat)

  /** Any Java object, used for content and mount data. */
  datatype Obj = Obj(id: nat)

  datatype MountItem = MountItem(
    renderTreeNode: Option<RenderTreeNode>,
    host: Option<Host>,
    bound: bool,
    content: Option<Obj>,
    mountData: Option<Obj>)

  /** A call to `MountItemsPool.release`. */
  datatype PoolEvent = Release(renderUnit: RenderUnit, content: Option<Obj>)

  /** The five fields of a mount item. */
  datatype Field = NodeField | HostField | BoundField | ContentField | MountDataField

  /** `a` and `b` agree on every field but `f`. */
  predicate AgreeExcept(a: MountItem, b: MountItem, f: Field) {
    && (f == NodeField || a.renderTreeNode == b.renderTreeNode)
    && (f == HostField || a.host == b.host)
    && (f == BoundField || a.bound == b.bound)
    && (f == ContentField || a.content == b.content)
    && (f == MountDataField || a.mountData == b.mountData)
  }

  /** The constructor: the given node, host and content; unbound, no mount data. */
  function NewMountItem(node: Option<RenderTreeNode>, host: Option<Host>, content: Option<Obj>): (r: MountItem)
    ensures r.renderTreeNode == node && r.host == host && r.content == content
    ensures !r.bound
    ensures r.mountData == None
  {
    MountItem(node, host, false, content, None)
  }

  /** `setContent`: `getContent` now returns `content`; nothing else changes. */
  function SetContent(item: MountItem, content: Option<Obj>): (r: MountItem)
    ensures r.content == content
    ensures AgreeExcept(item, r, ContentField)
  {
    item.(content := content)
  }

  /** `setIsBound`: `isBound` now returns `bound`; nothing else changes. */
  function SetIsBound(item: MountItem, bound: bool): (r: MountItem)
    ensures r.bound == bound
    ensures AgreeExcept(item, r, BoundField)
  {
    item.(bound := bound)
  }

  /** `setHost`: `getHost` now returns `host`, null included; nothing else changes. */
  function SetHost(item: MountItem, host: Option<Host>): (r: MountItem)
    ensures r.host == host
    ensures AgreeExcept(item, r, HostField)
  {
    item.(host := host)
  }

  /** `update`: the item now refers to `node`; nothing else changes. */
  function Update(item: MountItem, node: Option<RenderTreeNode>): (r: MountItem)
    ensures r.renderTreeNode == node
    ensures AgreeExcept(item, r, NodeField)
  {
    item.(renderTreeNode := node)
  }

  /** `setMountData`: `getMountData` now returns `data`; nothing else changes. */
  function SetMountData(item: MountItem, data: Option<Obj>): (r: MountItem)
    ensures r.mountData == data
    ensures AgreeExcept(item, r, MountDataField)
  {
    item.(mountData := data)
  }

  /** `getRenderUnit`: the current node's unit; a null node throws. */
  function GetRenderUnit(item: MountItem): (r: Result<RenderUnit>)
    ensures r.Ok? <==> item.renderTreeNode.Some?
    ensures r.Err? ==> r.exception == NullPointerException
    ensures r.Ok? ==> r.value == item.renderTreeNode.value.renderUnit
  {
    match item.renderTreeNode
    case None => Err(NullPointerException)
    case Some(node) => Ok(node.renderUnit)
  }

  /**
   `releaseMountContent`: one pool release of the current unit and content
   appended to `pool`. The item is an argument, not a result, so it cannot
   change. When the node is null `getRenderUnit` throws before the pool is
   called.
   */
  function ReleaseMountContent(item: MountItem, pool: seq<PoolEvent>): (r: Result<seq<PoolEvent>>)
    ensures r.Ok? <==> item.renderTreeNode.Some?
    ensures r.Err? ==> r.exception == NullPointerException
    ensures r.Ok? ==>
              && |r.value| == |pool| + 1
              && r.value[..|pool|] == pool
              && r.value[|pool|] == Release(item.renderTreeNode.value.renderUnit, item.content)
  {
    match GetRenderUnit(item)
    case Err(e) => Err(e)
    case Ok(unit) => Ok(pool + [Release(unit, item.content)])
  }
}
