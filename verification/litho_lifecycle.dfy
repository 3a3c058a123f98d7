/**
 Sequences of calls on one `DrawableComponent` and its mounted content, in
 any order the framework issues them. Each call reads the tracing flag
 afresh, so tracing may start or stop between any two calls. A call that
 throws ends the sequence, as an uncaught exception ends the caller's
 straight-line code.
 */
module LithoLifecycle {
  import opened Lang
  import Systrace
  import opened Litho

  datatype Request = BoundsDefined(layout: Layout) | MountRequest | BindRequest | UnmountRequest

  /** The component after the calls, the span log they left, and how the last one ended. */
  datatype Session = Session(component: DrawableComponent, log: seq<Systrace.Entry<ContentCall>>, outcome: Outcome)

  /** One call, with the tracing flag as read at its start. */
  function Step(c: DrawableComponent, content: Content, isTracing: bool, request: Request): Session {
    match request
    case BoundsDefined(layout) => Session(OnBoundsDefined(c, layout), [], Completed)
    case MountRequest =>
      var t := Mount(c, content, isTracing);
      Session(c, t.log, t.outcome)
    case BindRequest =>
      var t := Bind(c, content, isTracing);
      Session(c, t.log, t.outcome)
    case UnmountRequest =>
      var u := OnUnmount(content);
      Session(c, Systrace.Lift(u.calls), u.outcome)
  }

  /**
   The calls in order, stopping at the first that throws; `tracing[i]` is
   what `ComponentsSystrace.isTracing()` answers when call `i` starts.
   */
  function Run(c: DrawableComponent, content: Content, tracing: seq<bool>, requests: seq<Request>): Session
    requires |tracing| == |requests|
    decreases |requests|
  {
    if requests == [] then Session(c, [], Completed)
    else
      var first := Step(c, content, tracing[0], requests[0]);
      if first.outcome.Threw? then first
      else
        var rest := Run(first.component, content, tracing[1..], requests[1..]);
        Session(rest.component, first.log + rest.log, rest.outcome)
  }

  /** Tracing off for all of `n` calls. */
  function Off(n: nat): (r: seq<bool>)
    ensures |r| == n
    ensures forall i :: 0 <= i < n ==> !r[i]
  {
    seq(n, _ => false)
  }

  /** The bounds stored by the last `onBoundsDefined` among `requests`, else `initial`. */
  function LatestBounds(requests: seq<Request>, initial: Layout): Layout
    decreases |requests|
  {
    if requests == [] then initial
    else if requests[|requests| - 1].BoundsDefined? then requests[|requests| - 1].layout
    else LatestBounds(requests[..|requests| - 1], initial)
  }

  function BoundsOf(c: DrawableComponent): Layout {
    Layout(c.drawableWidth, c.drawableHeight)
  }

  /** Running `a` then `b` is running `a + b`. */
  lemma {:induction false} RunAppend(c: DrawableComponent, content: Content,
                                     ta: seq<bool>, a: seq<Request>, tb: seq<bool>, b: seq<Request>)
    requires |ta| == |a| && |tb| == |b|
    ensures var ra := Run(c, content, ta, a);
            var rb := Run(ra.component, content, tb, b);
            Run(c, content, ta + tb, a + b)
            == if ra.outcome.Threw? then ra else Session(rb.component, ra.log + rb.log, rb.outcome)
    decreases |a|
  {
    if a == [] {
      assert a + b == b && ta + tb == tb;
      var rb := Run(c, content, tb, b);
      assert [] + rb.log == rb.log;
    } else {
      assert (a + b)[0] == a[0] && (ta + tb)[0] == ta[0];
      assert (a + b)[1..] == a[1..] + b;
      assert (ta + tb)[1..] == ta[1..] + tb;
      var first := Step(c, content, ta[0], a[0]);
      if !first.outcome.Threw? {
        RunAppend(first.component, content, ta[1..], a[1..], tb, b);
        var ra' := Run(first.component, content, ta[1..], a[1..]);
        var rb := Run(ra'.component, content, tb, b);
        assert first.log + (ra'.log + rb.log) == (first.log + ra'.log) + rb.log;
      }
    }
  }

  /**
   Whatever the calls, whenever tracing starts or stops between them, and
   wherever one throws, every section opened is closed and the log is well
   nested.
   */
  lemma {:induction false} RunWellNested(c: DrawableComponent, content: Content, tracing: seq<bool>, requests: seq<Request>)
    requires |tracing| == |requests|
    ensures Systrace.WellNested(Run(c, content, tracing, requests).log)
    decreases |requests|
  {
    if requests == [] {
      assert Systrace.Depth<ContentCall>([]) == 0;
    } else {
      var first := Step(c, content, tracing[0], requests[0]);
      if requests[0].UnmountRequest? {
        Systrace.SpanFreeWellNested(first.log);
      } else if requests[0].BoundsDefined? {
        assert Systrace.Depth(first.log) == 0;
      }
      if !first.outcome.Threw? {
        RunWellNested(first.component, content, tracing[1..], requests[1..]);
        Systrace.WellNestedConcat(first.log, Run(first.component, content, tracing[1..], requests[1..]).log);
      }
    }
  }

  /**
   Tracing is observability only: however it is switched on and off across
   the calls, the same calls reach the content in the same order, the
   component ends the same and the same exception escapes as with tracing
   off throughout; with tracing off throughout the log holds no tracing call.
   */
  lemma {:induction false} TracingIsObservabilityOnly(c: DrawableComponent, content: Content, tracing: seq<bool>, requests: seq<Request>)
    requires |tracing| == |requests|
    ensures var traced := Run(c, content, tracing, requests);
            var off := Run(c, content, Off(|requests|), requests);
            && Systrace.SpanFree(off.log)
            && Systrace.Effects(traced.log) == Systrace.Effects(off.log)
            && traced.component == off.component
            && traced.outcome == off.outcome
    decreases |requests|
  {
    if requests != [] {
      var off := Off(|requests|);
      assert off[1..] == Off(|requests| - 1);
      var on1 := Step(c, content, tracing[0], requests[0]);
      var off1 := Step(c, content, false, requests[0]);
      assert on1.outcome == off1.outcome && on1.component == off1.component;
      assert Systrace.Effects(on1.log) == Systrace.Effects(off1.log) by {
        if requests[0].UnmountRequest? {
          assert on1.log == off1.log;
        }
      }
      if !on1.outcome.Threw? {
        TracingIsObservabilityOnly(on1.component, content, tracing[1..], requests[1..]);
        var onRest := Run(on1.component, content, tracing[1..], requests[1..]);
        var offRest := Run(off1.component, content, off[1..], requests[1..]);
        Systrace.EffectsConcat(on1.log, onRest.log);
        Systrace.EffectsConcat(off1.log, offRest.log);
      }
    }
  }

  /** A run that completes leaves the component holding the latest bounds given to it. */
  lemma {:induction false} RunKeepsLatestBounds(c: DrawableComponent, content: Content, tracing: seq<bool>, requests: seq<Request>)
    requires |tracing| == |requests|
    requires Run(c, content, tracing, requests).outcome == Completed
    ensures var s := Run(c, content, tracing, requests);
            && BoundsOf(s.component) == LatestBounds(requests, BoundsOf(c))
            && s.component.ref == c.ref
            && s.component.drawable == c.drawable
    decreases |requests|
  {
    if requests != [] {
      var n := |requests| - 1;
      var front, tf := requests[..n], tracing[..n];
      var last, tl := requests[n], tracing[n];
      assert requests == front + [last] && tracing == tf + [tl];
      RunAppend(c, content, tf, front, [tl], [last]);
      var rf := Run(c, content, tf, front);
      RunKeepsLatestBounds(c, content, tf, front);
      assert [last][1..] == [] && [tl][1..] == [];
    }
  }

  /**
   After any completed run, a bind applies to the content the bounds of the
   latest `onBoundsDefined` (or the initial ones if there was none).
   */
  lemma BindAppliesLatestBounds(c: DrawableComponent, id: nat, tracing: seq<bool>, requests: seq<Request>, isTracing: bool)
    requires |tracing| == |requests|
    requires Run(c, MatrixDrawable(id), tracing, requests).outcome == Completed
    ensures var s := Run(c, MatrixDrawable(id), tracing + [isTracing], requests + [BindRequest]);
            var b := LatestBounds(requests, BoundsOf(c));
            && s.outcome == Completed
            && Systrace.Effects(s.log)
               == Systrace.Effects(Run(c, MatrixDrawable(id), tracing, requests).log)
                  + [MatrixBind(id, b.width, b.height)]
  {
    var content := MatrixDrawable(id);
    RunAppend(c, content, tracing, requests, [isTracing], [BindRequest]);
    RunKeepsLatestBounds(c, content, tracing, requests);
    var ra := Run(c, content, tracing, requests);
    var rb := Run(ra.component, content, [isTracing], [BindRequest]);
    assert [BindRequest][1..] == [] && [isTracing][1..] == [];
    assert rb.log == Bind(ra.component, content, isTracing).log + [];
    Systrace.EffectsConcat(ra.log, rb.log);
    Systrace.EffectsConcat(Bind(ra.component, content, isTracing).log, []);
  }

  /**
   Bounds 100 x 50, then mount with tracing on, then bind with tracing off:
   one traced mount of the component's drawable, then one untraced bind of
   100 x 50.
   */
  lemma MountScenario(c: DrawableComponent, id: nat)
    ensures Run(c, MatrixDrawable(id), [false, true, false],
                [BoundsDefined(Layout(100, 50)), MountRequest, BindRequest])
            == Session(
                 c.(drawableWidth := 100, drawableHeight := 50),
                 [ Systrace.BeginSection("onMount:DrawableComponent"),
                   Systrace.Effect(MatrixMount(id, c.drawable)),
                   Systrace.EndSection,
                   Systrace.Effect(MatrixBind(id, 100, 50)) ],
                 Completed)
  {
    var requests := [BoundsDefined(Layout(100, 50)), MountRequest, BindRequest];
    var tracing := [false, true, false];
    assert requests[1..] == [MountRequest, BindRequest] && tracing[1..] == [true, false];
    assert requests[1..][1..] == [BindRequest] && tracing[1..][1..] == [false];
    assert requests[1..][1..][1..] == [] && tracing[1..][1..][1..] == [];
  }
}
