/**
 The tracing collaborator: a global "is tracing" flag and an append-only
 log of `beginSection(name)` / `endSection()` calls. The log also records
 the effects made between the calls, so that nesting is visible.
 */
module Systrace {

  datatype Entry<+E> = BeginSection(name: string) | EndSection | Effect(effect: E)

  /** How far an entry moves the open-section count. */
  function Delta<E>(e: Entry<E>): int {
    match e
    case BeginSection(_) => 1
    case EndSection => -1
    case Effect(_) => 0
  }

  /** Sections opened and not yet closed by the end of `log`. */
  function Depth<E>(log: seq<Entry<E>>): int {
    if log == [] then 0 else Delta(log[0]) + Depth(log[1..])
  }

  /** Every `endSection` closes an open section, and none is left open. */
  predicate WellNested<E>(log: seq<Entry<E>>) {
    && Depth(log) == 0
    && forall i :: 0 <= i <= |log| ==> Depth(log[..i]) >= 0
  }

  /** No tracing call at all: what a log looks like with tracing off. */
  predicate SpanFree<E>(log: seq<Entry<E>>) {
    forall i :: 0 <= i < |log| ==> log[i].Effect?
  }

  /** The log with the tracing calls erased. */
  function Effects<E>(log: seq<Entry<E>>): seq<E> {
    if log == [] then []
    else if log[0].Effect? then [log[0].effect] + Effects(log[1..])
    else Effects(log[1..])
  }

  /** Effects recorded without any section around them. */
  function Lift<E>(effects: seq<E>): (r: seq<Entry<E>>)
    ensures |r| == |effects|
    ensures forall i :: 0 <= i < |r| ==> r[i] == Effect(effects[i])
  {
    seq(|effects|, i requires 0 <= i < |effects| => Effect(effects[i]))
  }

  /**
   A call whose effects are `body`, wrapped as
   `if (isTracing) beginSection(name); try { body } finally { if (isTracing) endSection(); }`.
   The flag is read once, so the section is closed exactly when it was
   opened, and the outcome of the body plays no part: the `finally` runs on
   the normal and on the exceptional exit alike.
   */
  function Section<E>(isTracing: bool, name: string, body: seq<E>): (r: seq<Entry<E>>)
    ensures WellNested(r)
    ensures Effects(r) == body
    ensures !isTracing ==> SpanFree(r)
    ensures isTracing ==>
              && |r| == |body| + 2
              && r[0] == BeginSection(name)
              && r[|r| - 1] == EndSection
              && SpanFree(r[1..|r| - 1])
  {
    var inner := Lift(body);
    SpanFreeWellNested(inner);
    EffectsLift(body);
    if isTracing then
      var r := [BeginSection(name)] + inner + [EndSection];
      assert r[1..|r| - 1] == inner;
      OpenSectionWellNested(name, inner);
      EffectsConcat([BeginSection(name)], inner + [EndSection]);
      EffectsConcat(inner, [EndSection]);
      assert r == [BeginSection(name)] + (inner + [EndSection]);
      r
    else
      inner
  }

  lemma {:induction false} DepthConcat<E>(a: seq<Entry<E>>, b: seq<Entry<E>>)
    ensures Depth(a + b) == Depth(a) + Depth(b)
  {
    if a != [] {
      assert (a + b)[1..] == a[1..] + b;
      DepthConcat(a[1..], b);
    } else {
      assert a + b == b;
    }
  }

  lemma {:induction false} EffectsConcat<E>(a: seq<Entry<E>>, b: seq<Entry<E>>)
    ensures Effects(a + b) == Effects(a) + Effects(b)
  {
    if a != [] {
      assert (a + b)[1..] == a[1..] + b;
      EffectsConcat(a[1..], b);
    } else {
      assert a + b == b;
    }
  }

  lemma {:induction false} EffectsLift<E>(effects: seq<E>)
    ensures Effects(Lift(effects)) == effects
  {
    if effects != [] {
      assert Lift(effects)[1..] == Lift(effects[1..]);
      EffectsLift(effects[1..]);
    }
  }

  lemma {:induction false} SpanFreeDepth<E>(log: seq<Entry<E>>)
    requires SpanFree(log)
    ensures Depth(log) == 0
  {
    if log != [] {
      SpanFreeDepth(log[1..]);
    }
  }

  /** A log without tracing calls is well nested, and so is each prefix of it. */
  lemma SpanFreeWellNested<E>(log: seq<Entry<E>>)
    requires SpanFree(log)
    ensures WellNested(log)
  {
    SpanFreeDepth(log);
    forall i | 0 <= i <= |log|
      ensures Depth(log[..i]) >= 0
    {
      SpanFreeDepth(log[..i]);
    }
  }

  /** One section around span-free effects is well nested. */
  lemma OpenSectionWellNested<E>(name: string, inner: seq<Entry<E>>)
    requires SpanFree(inner)
    ensures WellNested([BeginSection(name)] + inner + [EndSection])
  {
    var r := [BeginSection(name)] + inner + [EndSection];
    SpanFreeDepth(inner);
    DepthConcat([BeginSection(name)], inner);
    DepthConcat([BeginSection(name)] + inner, [EndSection]);
    forall i | 0 <= i <= |r|
      ensures Depth(r[..i]) >= 0
    {
      if 1 <= i <= |inner| + 1 {
        assert r[..i] == [BeginSection(name)] + inner[..i - 1];
        SpanFreeDepth(inner[..i - 1]);
        DepthConcat([BeginSection(name)], inner[..i - 1]);
      } else if i == |r| {
        assert r[..i] == r;
      }
    }
  }

  /** Running well-nested calls one after the other keeps the log well nested. */
  lemma WellNestedConcat<E>(a: seq<Entry<E>>, b: seq<Entry<E>>)
    requires WellNested(a) && WellNested(b)
    ensures WellNested(a + b)
  {
    DepthConcat(a, b);
    forall i | 0 <= i <= |a + b|
      ensures Depth((a + b)[..i]) >= 0
    {
      if i <= |a| {
        assert (a + b)[..i] == a[..i];
      } else {
        assert (a + b)[..i] == a + b[..i - |a|];
        DepthConcat(a, b[..i - |a|]);
      }
    }
  }
}
