# DrawableComponent and MountItem, modelled in Dafny

This project models two small pieces of Litho's mount layer.

- `DrawableComponent` (package `com.facebook.litho`) is the leaf descriptor that wraps one Android
  `Drawable`. It records the bounds it is given, creates a `MatrixDrawable` as mounted content, and
  hands the content its drawable on mount and its bounds on bind. It wraps `mount` and `bind` in a
  tracing section that `try`/`finally` always closes. It decides equivalence and update-skip by
  comparing drawables.
- `MountItem` (package `com.facebook.rendercore`) is the mutable record that ties a render-tree node
  to its mounted content, its host, a bound flag and opaque mount data. It also hands content back
  to the pool.

The model is functional. Components and mount items are immutable values. Every setter returns
the updated value. Every lifecycle call returns a log of the tracing calls and content calls it
made, plus how it ended: normally, or with the exception Java would throw.

Modules:

- `Lang` holds Java's `int`, a nullable reference (as `Option`), the two exceptions the code can throw
  (`NullPointerException` and `ClassCastException`), and `new` (as a counter heap).
- `Systrace` holds the span log and the `try`/`finally` section.
- `Litho` holds `DrawableComponent`. Its handle types carry their own null constructor
  (`NullDrawable`, `NullContent`, `NullComponent`) instead of `Option`, because each also tells
  the classes apart.
- `LithoLifecycle` holds arbitrary sequences of lifecycle calls on one component.
- `RenderCore` holds `MountItem`.
- `RenderCoreHistory` holds arbitrary sequences of `MountItem` setter calls.

Modelling choices:

- `DrawableUtils.isEquivalentTo` is a function parameter `eq`. Nothing is assumed about it: it need
  not be reflexive or symmetric.
- A cast to `MatrixDrawable` or `DrawableComponent` of an object of another class throws
  `ClassCastException`. A null content passes the cast and then throws `NullPointerException`
  on the method call. A null render-tree node makes `getRenderUnit` throw `NullPointerException`.
- The tracing flag is read once per call, as in the code. So a section that was opened is always
  closed, even if tracing is switched off during the call.
- `shouldUpdate` does not call `isEquivalentTo`. It compares the two drawables directly, has no
  identity shortcut, and throws `ClassCastException` for a component of another class.
  `ShouldUpdateNegatesEquivalence` and `SelfUpdateFollowsDrawableEquivalence` show where the two
  agree and where they differ.
- Only `mount` and `bind` open a section; `onUnmount` does not.
- In a sequence of calls each call reads the tracing flag afresh, so tracing may start or stop
  between any two calls.

## Model

| member | source | states |
|---|---|---|
| Litho.Create | litho-core/src/main/java/com/facebook/litho/DrawableComponent.java:109-111 | a new component has a reference no earlier object had, keeps the given drawable, and starts with width and height 0 |
| Litho.OnBoundsDefined | litho-core/src/main/java/com/facebook/litho/DrawableComponent.java:39-42 | the stored width and height become the layout's; the reference and drawable are kept |
| Litho.OnCreateMountContent | litho-core/src/main/java/com/facebook/litho/DrawableComponent.java:45-47 | the content is a `MatrixDrawable` not allocated before the call |
| Litho.CreatedContentIsFresh | litho-core/src/main/java/com/facebook/litho/DrawableComponent.java:45-47 | two successive content creations never return the same `MatrixDrawable` |
| Litho.OnMount | litho-core/src/main/java/com/facebook/litho/DrawableComponent.java:50-54 | it completes exactly when the content is a `MatrixDrawable`, and then makes one `mount` call with this component's own drawable; null content throws NullPointerException, another class throws ClassCastException, and neither makes a call |
| Litho.OnBind | litho-core/src/main/java/com/facebook/litho/DrawableComponent.java:57-61 | one `bind` call with exactly the stored width and height, under the same error cases as `onMount` |
| Litho.OnUnmount | litho-core/src/main/java/com/facebook/litho/DrawableComponent.java:94-97 | one `unmount` call on the content, under the same error cases, with no tracing section |
| Litho.Mount | litho-core/src/main/java/com/facebook/litho/DrawableComponent.java:79-91 | the log is well nested and its content calls are exactly those of `onMount`; the exception of `onMount` propagates unchanged; with tracing on the log opens with one "onMount:DrawableComponent" section and closes it last, with nothing else traced between; with tracing off there is no tracing call |
| Litho.Bind | litho-core/src/main/java/com/facebook/litho/DrawableComponent.java:64-76 | the same as `Mount`, for `onBind` and the "onBind:DrawableComponent" section |
| Systrace.Section | litho-core/src/main/java/com/facebook/litho/DrawableComponent.java:79-91 | a body wrapped by the conditional `beginSection` and the `finally` `endSection` is well nested and keeps the body's effects in order; tracing on gives exactly one begin first and one end last; tracing off gives no tracing call |
| Litho.IsPureRender | litho-core/src/main/java/com/facebook/litho/DrawableComponent.java:99-102 | true for every drawable component |
| Litho.GetMountType | litho-core/src/main/java/com/facebook/litho/DrawableComponent.java:104-107 | DRAWABLE for every drawable component |
| Litho.DrawableOf | litho-core/src/main/java/com/facebook/litho/DrawableComponent.java:119-121 | null maps to a null drawable, a drawable component to its drawable, and a component of another class throws ClassCastException |
| Litho.ShouldUpdate | litho-core/src/main/java/com/facebook/litho/DrawableComponent.java:114-124 | it throws ClassCastException exactly when either argument is of another class; otherwise an update is needed exactly when the two drawables (null for a null component) are not equivalent |
| Litho.IsEquivalentTo | litho-core/src/main/java/com/facebook/litho/DrawableComponent.java:131-143 | the same reference is always equivalent; null and other classes never are; another drawable component is equivalent exactly when its drawable is |
| Litho.IsEquivalentToReflexive | litho-core/src/main/java/com/facebook/litho/DrawableComponent.java:132-134 | every component is equivalent to itself, whatever the drawable equivalence is |
| Litho.ShouldUpdateNegatesEquivalence | litho-core/src/main/java/com/facebook/litho/DrawableComponent.java:114-143 | for two distinct drawable components, `shouldUpdate` is the negation of `isEquivalentTo` |
| Litho.SelfUpdateFollowsDrawableEquivalence | litho-core/src/main/java/com/facebook/litho/DrawableComponent.java:114-143 | compared with itself a component is always equivalent, yet `shouldUpdate` asks for an update exactly when the drawable equivalence fails on its own drawable |
| LithoLifecycle.RunWellNested | litho-core/src/main/java/com/facebook/litho/DrawableComponent.java:64-91 | over any sequence of bounds, mount, bind and unmount calls, with tracing switched on or off independently for each call and including a sequence that stops at an exception, every section opened is closed and the log is well nested |
| LithoLifecycle.TracingIsObservabilityOnly | litho-core/src/main/java/com/facebook/litho/DrawableComponent.java:64-91 | whatever the tracing flag reads at each call, any call sequence makes the same content calls in the same order, leaves the same component and ends the same way as with tracing off throughout; with tracing off throughout it makes no tracing call |
| LithoLifecycle.RunKeepsLatestBounds | litho-core/src/main/java/com/facebook/litho/DrawableComponent.java:145-159 | after a completed call sequence the stored width and height are those of the last `onBoundsDefined`, or the initial ones if there was none, and the reference and drawable are kept |
| LithoLifecycle.BindAppliesLatestBounds | litho-core/src/main/java/com/facebook/litho/DrawableComponent.java:57-61 | after any completed call sequence, a bind adds exactly one content call, a `bind` with the width and height of the latest `onBoundsDefined` |
| LithoLifecycle.MountScenario | litho-core/src/main/java/com/facebook/litho/DrawableComponent.java:39-91 | bounds 100 x 50, then mount with tracing on, then bind with tracing off, give one traced mount of the component's drawable, then one untraced bind of 100 x 50 |
| RenderCore.NewMountItem | litho-rendercore/src/main/java/com/facebook/rendercore/MountItem.java:25-35 | a new item holds the given node, host and content, is not bound, and has no mount data |
| RenderCore.SetContent | litho-rendercore/src/main/java/com/facebook/rendercore/MountItem.java:49-51 | `getContent` then returns the given content; every other field is unchanged |
| RenderCore.SetIsBound | litho-rendercore/src/main/java/com/facebook/rendercore/MountItem.java:53-55 | `isBound` then returns the given flag; every other field is unchanged |
| RenderCore.SetHost | litho-rendercore/src/main/java/com/facebook/rendercore/MountItem.java:61-63 | `getHost` then returns the given host, null included; every other field is unchanged |
| RenderCore.Update | litho-rendercore/src/main/java/com/facebook/rendercore/MountItem.java:65-67 | the item then refers to the given node; content, host, bound flag and mount data are unchanged |
| RenderCore.SetMountData | litho-rendercore/src/main/java/com/facebook/rendercore/MountItem.java:81-83 | `getMountData` then returns the given data; every other field is unchanged |
| RenderCore.GetRenderUnit | litho-rendercore/src/main/java/com/facebook/rendercore/MountItem.java:45-47 | the current node's render unit, or NullPointerException exactly when the node is null |
| RenderCore.ReleaseMountContent | litho-rendercore/src/main/java/com/facebook/rendercore/MountItem.java:69-71 | exactly one pool release is appended, carrying the current render unit and current content, and earlier events are kept; a null node throws NullPointerException before the pool is called |
| RenderCoreHistory.Apply | litho-rendercore/src/main/java/com/facebook/rendercore/MountItem.java:49-83 | each setter changes at most the one field it names |
| RenderCoreHistory.ApplyAllIsLastWrites | litho-rendercore/src/main/java/com/facebook/rendercore/MountItem.java:37-83 | after any sequence of setter calls, each getter returns the last value written to its field, or the original value if nothing wrote it |
| RenderCoreHistory.LastWriteWins | litho-rendercore/src/main/java/com/facebook/rendercore/MountItem.java:37-83 | if call `i` of a sequence writes a field and no later call writes it, the getter of that field returns the value call `i` wrote |
| RenderCoreHistory.UntouchedFieldValue | litho-rendercore/src/main/java/com/facebook/rendercore/MountItem.java:37-83 | a field that no call in a sequence writes keeps its value through the whole sequence |
| RenderCoreHistory.RenderUnitFollowsLastUpdate | litho-rendercore/src/main/java/com/facebook/rendercore/MountItem.java:45-67 | after `update(node)` followed by any calls that do not update, `getRenderUnit` returns that node's render unit |
| RenderCoreHistory.NewItemBoundOnlyBySetIsBound | litho-rendercore/src/main/java/com/facebook/rendercore/MountItem.java:25-55 | a new item stays unbound through any sequence of calls that has no `setIsBound(true)` |
| RenderCoreHistory.ReleaseUsesCurrentFields | litho-rendercore/src/main/java/com/facebook/rendercore/MountItem.java:65-71 | after any sequence of setter calls, the pool release carries the render unit of the last node and the last content written |

## Left out

- `OnInitializeAccessibilityNodeInfoEvent` is a plain carrier of Android accessibility objects with no logic.
- `DrawableUtils.isEquivalentTo` is not part of this model. It is the parameter `eq`, with no property assumed.
- `MatrixDrawable` is not part of this model. Its `mount`, `bind` and `unmount` are recorded calls only.
- `MountItemsPool` is not part of this model. A release is a recorded event, with no capacity or eviction.
- `ComponentsSystrace` is reduced to a tracing flag per call and an append-only log of sections.
- Android `Drawable` and `Host` are opaque handles. `ComponentContext` is dropped, because no modelled method reads it.
- Android `Context` is dropped. `releaseMountContent` passes it as the first argument of `MountItemsPool.release`, and the `Release` event omits it.
- Litho.OnBoundsDefined: the layout cannot be null, so the NullPointerException that `layout.getWidth()` throws on a null layout is not modelled.
- `Litho.ShouldUpdate` takes no state-container arguments, because `shouldUpdate` never reads them.
- `MountType` has the three values of Litho's `Component.MountType`. That enum is not part of this model.
- `getRenderTreeNode`, `getContent`, `getHost`, `isBound` and `getMountData` are the record's fields, and the drawable width and height accessors are the component's fields.
- RenderCore.ReleaseMountContent: "does not modify the item" holds because the item is only an argument. It is not stated as an ensures clause.
- The reconciliation loop, the content pool and the lifecycle-order checks are not in these files and are not modelled.
