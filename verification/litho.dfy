/**
 `DrawableComponent`: the leaf descriptor that wraps one Android drawable.
 Its mounted content is a `MatrixDrawable`, whose own behaviour is not part
 of this model: the calls made on it are recorded as effects in the trace.
 The component is a value: the bounds setter returns the updated component.
 */
module Litho {
  import opened Lang
  import Systrace

  const SIMPLE_NAME := "DrawableComponent"
  const ON_MOUNT_SECTION := "onMount:" + SIMPLE_NAME
  const ON_BIND_SECTION := "onBind:" + SIMPLE_NAME

  /** An `android.graphics.drawable.Drawable` reference, possibly null. */
  datatype DrawableHandle = NullDrawable | Drawable(id: nat)

  /** The `Object` handed to the lifecycle callbacks as mounted content. */
  datatype Content = NullContent | MatrixDrawable(id: nat) | OtherContent(id: nat)

  /** A call made on the mounted `MatrixDrawable`. */
  datatype ContentCall =
    | MatrixMount(target: nat, drawable: DrawableHandle)
    | MatrixBind(target: nat, width: int32, height: int32)
    | MatrixUnmount(target: nat)

  /** What `ComponentLayout` exposes to `onBoundsDefined`. */
  datatype Layout = Layout(width: int32, height: int32)

  datatype MountType = NONE | DRAWABLE | VIEW

  /** One `DrawableComponent` object: its reference, drawable and stored bounds. */
  datatype DrawableComponent = DrawableComponent(
    ref: nat,
    drawable: DrawableHandle,
    drawableWidth: int32,
    drawableHeight: int32)

  /**
   A `Component` argument: null, a `DrawableComponent`, or an object of
   another class. References come from one heap, so an `OtherComponent`
   never shares its `ref` with a `DrawableComponent`; values that do describe
   no Java state.
   */
  datatype ComponentRef =
    | NullComponent
    | DrawableComponentRef(component: DrawableComponent)
    | OtherComponent(ref: nat)
  {
    /** The reference compared by `==`. */
    function Ref(): Option<nat> {
      match this
      case NullComponent => None
      case DrawableComponentRef(c) => Some(c.ref)
      case OtherComponent(ref) => Some(ref)
    }
  }

  /** `DrawableUtils.isEquivalentTo`, which is not part of this model. */
  type Equivalence = (DrawableHandle, DrawableHandle) -> bool

  /** A lifecycle callback: the calls it made on the content and how it ended. */
  datatype Callback = Callback(calls: seq<ContentCall>, outcome: Outcome)

  /** A traced lifecycle call: the span log around the calls, and how it ended. */
  datatype Traced = Traced(log: seq<Systrace.Entry<ContentCall>>, outcome: Outcome)

  /** `DrawableComponent.create(drawable)`: a new object with bounds 0 x 0. */
  function Create(heap: Heap, drawable: DrawableHandle): (r: (DrawableComponent, Heap))
    ensures !heap.Allocated(r.0.ref) && r.1.Allocated(r.0.ref)
    ensures forall ref :: heap.Allocated(ref) ==> r.1.Allocated(ref)
    ensures r.0.drawable == drawable
    ensures r.0.drawableWidth == 0 && r.0.drawableHeight == 0
  {
    var (heap', ref) := heap.Alloc();
    (DrawableComponent(ref, drawable, 0, 0), heap')
  }

  /** `onBoundsDefined`: stores the layout's size and keeps everything else. */
  function OnBoundsDefined(c: DrawableComponent, layout: Layout): (r: DrawableComponent)
    ensures r.drawableWidth == layout.width && r.drawableHeight == layout.height
    ensures r.ref == c.ref && r.drawable == c.drawable
  {
    c.(drawableWidth := layout.width, drawableHeight := layout.height)
  }

  /** `onCreateMountContent`: a fresh `MatrixDrawable`. */
  function OnCreateMountContent(heap: Heap): (r: (Content, Heap))
    ensures r.0.MatrixDrawable?
    ensures !heap.Allocated(r.0.id) && r.1.Allocated(r.0.id)
    ensures forall ref :: heap.Allocated(ref) ==> r.1.Allocated(ref)
  {
    var (heap', ref) := heap.Alloc();
    (MatrixDrawable(ref), heap')
  }

  /** Two successive `onCreateMountContent` calls never return the same content. */
  lemma CreatedContentIsFresh(heap: Heap)
    ensures var (first, heap') := OnCreateMountContent(heap);
            var (second, _) := OnCreateMountContent(heap');
            first != second
  {
  }

  /**
   The `(MatrixDrawable) content` cast followed by one call on the result:
   null passes the cast and fails on the call, any other class fails the cast.
   */
  function OnMatrixDrawable(content: Content, call: nat -> ContentCall): (r: Callback)
    ensures content.MatrixDrawable? ==> r == Callback([call(content.id)], Completed)
    ensures content.NullContent? ==> r == Callback([], Threw(NullPointerException))
    ensures content.OtherContent? ==> r == Callback([], Threw(ClassCastException))
  {
    match content
    case NullContent => Callback([], Threw(NullPointerException))
    case MatrixDrawable(id) => Callback([call(id)], Completed)
    case OtherContent(_) => Callback([], Threw(ClassCastException))
  }

  /** `onMount`: hands this component's own drawable to the content, once. */
  function OnMount(c: DrawableComponent, content: Content): (r: Callback)
    ensures r.outcome.Completed? <==> content.MatrixDrawable?
    ensures r.outcome.Completed? ==> r.calls == [MatrixMount(content.id, c.drawable)]
    ensures r.outcome.Threw? ==> r.calls == []
    ensures content.NullContent? ==> r.outcome == Threw(NullPointerException)
    ensures content.OtherContent? ==> r.outcome == Threw(ClassCastException)
  {
    OnMatrixDrawable(content, (id: nat) => MatrixMount(id, c.drawable))
  }

  /** `onBind`: applies the stored bounds to the content, once. */
  function OnBind(c: DrawableComponent, content: Content): (r: Callback)
    ensures r.outcome.Completed? <==> content.MatrixDrawable?
    ensures r.outcome.Completed? ==>
              r.calls == [MatrixBind(content.id, c.drawableWidth, c.drawableHeight)]
    ensures r.outcome.Threw? ==> r.calls == []
    ensures content.NullContent? ==> r.outcome == Threw(NullPointerException)
    ensures content.OtherContent? ==> r.outcome == Threw(ClassCastException)
  {
    OnMatrixDrawable(content, (id: nat) => MatrixBind(id, c.drawableWidth, c.drawableHeight))
  }

  /** `onUnmount`: calls the content's `unmount`, once. It is not traced. */
  function OnUnmount(content: Content): (r: Callback)
    ensures r.outcome.Completed? <==> content.MatrixDrawable?
    ensures r.outcome.Completed? ==> r.calls == [MatrixUnmount(content.id)]
    ensures r.outcome.Threw? ==> r.calls == []
    ensures content.NullContent? ==> r.outcome == Threw(NullPointerException)
    ensures content.OtherContent? ==> r.outcome == Threw(ClassCastException)
  {
    OnMatrixDrawable(content, (id: nat) => MatrixUnmount(id))
  }

  /**
   `mount`: `onMount` inside an "onMount:DrawableComponent" section when
   tracing is on, with no tracing call when it is off. The section is closed
   whether or not `onMount` throws, and the exception still propagates.
   */
  function Mount(c: DrawableComponent, content: Content, isTracing: bool): (r: Traced)
    ensures Systrace.WellNested(r.log)
    ensures Systrace.Effects(r.log) == OnMount(c, content).calls
    ensures r.outcome == OnMount(c, content).outcome
    ensures !isTracing ==> Systrace.SpanFree(r.log)
    ensures isTracing ==>
              && |r.log| >= 2
              && r.log[0] == Systrace.BeginSection("onMount:DrawableComponent")
              && r.log[|r.log| - 1] == Systrace.EndSection
              && Systrace.SpanFree(r.log[1..|r.log| - 1])
  {
    var callback := OnMount(c, content);
    assert ON_MOUNT_SECTION == "onMount:DrawableComponent";
    Traced(Systrace.Section(isTracing, ON_MOUNT_SECTION, callback.calls), callback.outcome)
  }

  /** `bind`: `onBind` inside an "onBind:DrawableComponent" section, as for `mount`. */
  function Bind(c: DrawableComponent, content: Content, isTracing: bool): (r: Traced)
    ensures Systrace.WellNested(r.log)
    ensures Systrace.Effects(r.log) == OnBind(c, content).calls
    ensures r.outcome == OnBind(c, content).outcome
    ensures !isTracing ==> Systrace.SpanFree(r.log)
    ensures isTracing ==>
              && |r.log| >= 2
              && r.log[0] == Systrace.BeginSection("onBind:DrawableComponent")
              && r.log[|r.log| - 1] == Systrace.EndSection
              && Systrace.SpanFree(r.log[1..|r.log| - 1])
  {
    var callback := OnBind(c, content);
    assert ON_BIND_SECTION == "onBind:DrawableComponent";
    Traced(Systrace.Section(isTracing, ON_BIND_SECTION, callback.calls), callback.outcome)
  }

  /** `isPureRender`: every drawable component may skip an equivalent update. */
  function IsPureRender(c: DrawableComponent): (r: bool)
    ensures r
  {
    true
  }

  /** `getMountType`: drawable components always mount as drawables. */
  function GetMountType(c: DrawableComponent): (r: MountType)
    ensures r == DRAWABLE
  {
    DRAWABLE
  }

  /** `((DrawableComponent) o).getDrawable()`, with null mapped to a null drawable. */
  function DrawableOf(o: ComponentRef): (r: Result<DrawableHandle>)
    ensures r.Err? <==> o.OtherComponent?
    ensures r.Err? ==> r.exception == ClassCastException
    ensures o.NullComponent? ==> r == Ok(NullDrawable)
    ensures o.DrawableComponentRef? ==> r == Ok(o.component.drawable)
  {
    match o
    case NullComponent => Ok(NullDrawable)
    case DrawableComponentRef(c) => Ok(c.drawable)
    case OtherComponent(_) => Err(ClassCastException)
  }

  /**
   `shouldUpdate(previous, _, next, _)`: an update is needed exactly when the
   two drawables are not equivalent. The state containers are not read. A
   component of another class fails the cast, `previous` being cast first.
   */
  function ShouldUpdate(previous: ComponentRef, next: ComponentRef, eq: Equivalence): (r: Result<bool>)
    ensures r.Err? <==> previous.OtherComponent? || next.OtherComponent?
    ensures r.Err? ==> r.exception == ClassCastException
    ensures r.Ok? ==> (r.value <==> !eq(DrawableOf(previous).value, DrawableOf(next).value))
  {
    match DrawableOf(previous)
    case Err(e) => Err(e)
    case Ok(previousDrawable) =>
      match DrawableOf(next)
      case Err(e) => Err(e)
      case Ok(nextDrawable) => Ok(!eq(previousDrawable, nextDrawable))
  }

  /**
   `isEquivalentTo(o)`: the same reference is always equivalent; null and
   other classes never are; another drawable component is equivalent exactly
   when its drawable is.
   */
  function IsEquivalentTo(c: DrawableComponent, o: ComponentRef, eq: Equivalence): (r: bool)
    ensures o.Ref() == Some(c.ref) ==> r
    ensures o.Ref() != Some(c.ref) && !o.DrawableComponentRef? ==> !r
    ensures o.Ref() != Some(c.ref) && o.DrawableComponentRef? ==>
              (r <==> eq(c.drawable, o.component.drawable))
  {
    if o.Ref() == Some(c.ref) then true
    else if o.NullComponent? || o.OtherComponent? then false
    else eq(c.drawable, o.component.drawable)
  }

  /** Every component is equivalent to itself, whatever `eq` is. */
  lemma IsEquivalentToReflexive(c: DrawableComponent, eq: Equivalence)
    ensures IsEquivalentTo(c, DrawableComponentRef(c), eq)
  {
  }

  /**
   For two distinct drawable components, `shouldUpdate` is the negation of
   `isEquivalentTo`.
   */
  lemma ShouldUpdateNegatesEquivalence(previous: DrawableComponent, next: DrawableComponent, eq: Equivalence)
    requires previous.ref != next.ref
    ensures ShouldUpdate(DrawableComponentRef(previous), DrawableComponentRef(next), eq)
            == Ok(!IsEquivalentTo(previous, DrawableComponentRef(next), eq))
  {
  }

  /**
   Compared with itself, a component is always equivalent, yet `shouldUpdate`
   asks for an update exactly when `eq` does not hold of its own drawable:
   the identity shortcut of `isEquivalentTo` is not in `shouldUpdate`.
   */
  lemma SelfUpdateFollowsDrawableEquivalence(c: DrawableComponent, eq: Equivalence)
    ensures IsEquivalentTo(c, DrawableComponentRef(c), eq)
    ensures ShouldUpdate(DrawableComponentRef(c), DrawableComponentRef(c), eq)
            == Ok(!eq(c.drawable, c.drawable))
  {
  }
}
