/**
 * Error conversion through middleware: a boxed error becomes the framework's own error, and a
 * stack of layers applies that conversion at every level.
 */
module Errors {
  import opened Text

  /**
   * `Native` and `Wrapped` are variants of the framework's error; `Wrapped` carries a message and
   * a shared pointer.  `Opaque` is the wrapper whose source is its pointee.  `Shared` is a shared
   * pointer seen as an error: it forwards to its pointee.
   */
  datatype Error =
    | Elapsed
    | Foreign(name: string, cause: Option<Error>)
    | Opaque(pointee: Error)
    | Shared(pointee: Error)
    | Native(name: string)
    | Wrapped(message: string, pointer: Error)

  predicate IsNative(e: Error) {
    e.Native? || e.Wrapped?
  }

  /**
   * The derived `source()` of `Wrapped` either shows the shared pointer as a node of its own or,
   * as the documentation has it, forwards through it; everything below holds for both.
   */
  datatype Derive = ShowsPointer | Forwards

  function Source(d: Derive, e: Error): Option<Error> {
    match e
    case Elapsed => None
    case Foreign(_, cause) => cause
    case Opaque(pointee) => Some(pointee)
    case Shared(pointee) => Source(d, pointee)
    case Native(_) => None
    case Wrapped(_, pointer) => if d == Forwards then Source(d, pointer) else Some(Shared(pointer))
  }

  function Size(e: Error): nat {
    match e
    case Elapsed => 1
    case Foreign(_, cause) => 1 + (match cause { case None => 0 case Some(c) => Size(c) })
    case Opaque(pointee) => 1 + Size(pointee)
    case Shared(pointee) => 1 + Size(pointee)
    case Native(_) => 1
    case Wrapped(_, pointer) => 2 + Size(pointer)
  }

  lemma {:induction false} SourceIsSmaller(d: Derive, e: Error)
    ensures Source(d, e).Some? ==> Size(Source(d, e).value) < Size(e)
  {
    match e
    case Shared(pointee) => SourceIsSmaller(d, pointee);
    case Wrapped(_, pointer) => SourceIsSmaller(d, pointer);
    case _ =>
  }

  /** The error and its sources, outermost first. */
  function Chain(d: Derive, e: Error): seq<Error>
    decreases Size(e)
  {
    SourceIsSmaller(d, e);
    match Source(d, e)
    case None => [e]
    case Some(s) => [e] + Chain(d, s)
  }

  /** The error after `n` hops. */
  function Hop(d: Derive, e: Error, n: nat): Option<Error>
    decreases n
  {
    if n == 0 then Some(e)
    else
      match Source(d, e)
      case None => None
      case Some(s) => Hop(d, s, n - 1)
  }

  /** The chain holds exactly what repeated hops reach. */
  lemma {:induction false} ChainIsHops(d: Derive, e: Error, n: nat)
    ensures Hop(d, e, n) == if n < |Chain(d, e)| then Some(Chain(d, e)[n]) else None
    decreases n
  {
    if n > 0 && Source(d, e).Some? {
      ChainIsHops(d, Source(d, e).value, n - 1);
    }
  }

  method SourceChainContainsElapsed(d: Derive, e: Error) returns (found: bool)
    ensures found <==> Elapsed in Chain(d, e)
  {
    var current := Some(e);
    while current.Some?
      invariant Elapsed in Chain(d, e) <==> current.Some? && Elapsed in Chain(d, current.value)
      decreases if current.Some? then Size(current.value) else 0
    {
      if current.value == Elapsed {
        assert Chain(d, current.value)[0] == Elapsed;
        return true;
      }
      SourceIsSmaller(d, current.value);
      current := Source(d, current.value);
    }
    found := false;
  }

  const TIMEOUT := "middleware timeout elapsed"
  const FAILURE := "middleware error"

  function FromBox(d: Derive, e: Error): Error {
    if IsNative(e) then e
    else Wrapped(if Elapsed in Chain(d, e) then TIMEOUT else FAILURE, Opaque(e))
  }

  method ConvertBox(d: Derive, e: Error) returns (r: Error)
    ensures r == FromBox(d, e)
  {
    if IsNative(e) {
      return e;
    }
    var elapsed := SourceChainContainsElapsed(d, e);
    r := Wrapped(if elapsed then TIMEOUT else FAILURE, Opaque(e));
  }

  /** The hops between a converted error and the original one. */
  function Prefix(d: Derive, e: Error): seq<Error> {
    [FromBox(d, e)] + if d == Forwards then [] else [Shared(Opaque(e))]
  }

  /** A native error is kept; a foreign one stays whole, at most two hops behind the new root. */
  lemma ConversionKeepsChain(d: Derive, e: Error)
    ensures IsNative(FromBox(d, e))
    ensures IsNative(e) ==> FromBox(d, e) == e
    ensures !IsNative(e) ==> Chain(d, FromBox(d, e)) == Prefix(d, e) + Chain(d, e)
  {
    if !IsNative(e) {
      var r, node := FromBox(d, e), Shared(Opaque(e));
      assert Source(d, Opaque(e)) == Some(e);
      assert Source(d, node) == Some(e);
      if d == Forwards {
        assert Source(d, r) == Some(e);
      } else {
        assert Source(d, r) == Some(node);
        assert Chain(d, node) == [node] + Chain(d, e);
        assert Chain(d, r) == [r] + Chain(d, node);
        assert [r] + ([node] + Chain(d, e)) == [r] + [node] + Chain(d, e);
      }
    }
  }

  lemma MessagesDiffer()
    ensures TIMEOUT != FAILURE
  {
    assert |TIMEOUT| != |FAILURE|;
  }

  /** The timeout message appears exactly when some hop of a foreign error is a timeout. */
  lemma TimeoutMessage(d: Derive, e: Error)
    requires !IsNative(e)
    ensures FromBox(d, e).message == TIMEOUT <==> exists n: nat :: Hop(d, e, n) == Some(Elapsed)
    ensures FromBox(d, e).message == TIMEOUT || FromBox(d, e).message == FAILURE
  {
    MessagesDiffer();
    if Elapsed in Chain(d, e) {
      var n: nat :| n < |Chain(d, e)| && Chain(d, e)[n] == Elapsed;
      ChainIsHops(d, e, n);
    } else {
      forall n: nat
        ensures Hop(d, e, n) != Some(Elapsed)
      {
        ChainIsHops(d, e, n);
        assert n < |Chain(d, e)| ==> Chain(d, e)[n] in Chain(d, e);
      }
    }
  }

  // ---- stacks of layers ----

  /** A layer passes the inner outcome on, fails by itself, or wraps the inner error in its own. */
  datatype Layer = Pass | Raise(error: Error) | Enclose(name: string)

  type Outcome = Option<Error>

  function LayerOutcome(layer: Layer, inner: Outcome): Outcome {
    match layer
    case Pass => inner
    case Raise(e) => Some(e)
    case Enclose(name) => if inner.None? then None else Some(Foreign(name, inner))
  }

  /** A layer behind its adapter. */
  function Adapted(d: Derive, layer: Layer, inner: Outcome): Outcome {
    match LayerOutcome(layer, inner)
    case None => None
    case Some(e) => Some(FromBox(d, e))
  }

  /** The first layer is the outermost. */
  function Stack(d: Derive, layers: seq<Layer>, base: Outcome): Outcome {
    if layers == [] then base else Adapted(d, layers[0], Stack(d, layers[1..], base))
  }

  predicate NativeOutcome(o: Outcome) {
    o.Some? ==> IsNative(o.value)
  }

  lemma {:induction false} StackIsNative(d: Derive, layers: seq<Layer>, base: Outcome)
    requires NativeOutcome(base)
    ensures NativeOutcome(Stack(d, layers, base))
  {
    if layers != [] {
      StackIsNative(d, layers[1..], base);
    }
  }

  predicate AllPass(layers: seq<Layer>) {
    forall i | 0 <= i < |layers| :: layers[i].Pass?
  }

  /** However deep the stack, an outcome that every layer passes on leaves unchanged. */
  lemma {:induction false} PassedUnchanged(d: Derive, layers: seq<Layer>, base: Outcome)
    requires AllPass(layers) && NativeOutcome(base)
    ensures Stack(d, layers, base) == base
  {
    if layers != [] {
      PassedUnchanged(d, layers[1..], base);
    }
  }

  lemma {:induction false} StackConcat(d: Derive, a: seq<Layer>, b: seq<Layer>, base: Outcome)
    ensures Stack(d, a + b, base) == Stack(d, a, Stack(d, b, base))
  {
    if a == [] {
      assert a + b == b;
    } else {
      assert (a + b)[1..] == a[1..] + b;
      StackConcat(d, a[1..], b, base);
    }
  }

  /** The outermost failing layer decides, and its error is converted once, whatever is around it. */
  lemma RaisedOnce(d: Derive, above: seq<Layer>, e: Error, below: seq<Layer>, base: Outcome)
    requires AllPass(above)
    ensures Stack(d, above + [Raise(e)] + below, base) == Some(FromBox(d, e))
    ensures e in Chain(d, FromBox(d, e))
  {
    var raised := [Raise(e)] + below;
    assert above + [Raise(e)] + below == above + raised;
    assert raised[0] == Raise(e);
    StackConcat(d, above, raised, base);
    ConversionKeepsChain(d, e);
    assert Chain(d, e)[0] == e;
    PassedUnchanged(d, above, Some(FromBox(d, e)));
  }

  /** Without enclosing layers every outcome is the base or one converted error. */
  lemma {:induction false} StackOutcome(d: Derive, layers: seq<Layer>, base: Outcome) returns (k: nat)
    requires NativeOutcome(base) && forall i | 0 <= i < |layers| :: !layers[i].Enclose?
    ensures k <= |layers| && AllPass(layers[..k])
    ensures k == |layers| ==> Stack(d, layers, base) == base
    ensures k < |layers| ==> layers[k].Raise? && Stack(d, layers, base) == Some(FromBox(d, layers[k].error))
  {
    k := 0;
    while k < |layers| && layers[k].Pass?
      invariant k <= |layers| && AllPass(layers[..k])
    {
      k := k + 1;
    }
    if k == |layers| {
      assert layers[..k] == layers;
      PassedUnchanged(d, layers, base);
    } else {
      RaisedOnce(d, layers[..k], layers[k].error, layers[k + 1..], base);
      assert layers == layers[..k] + [layers[k]] + layers[k + 1..];
    }
  }

  predicate HasElapsed(d: Derive, o: Outcome) {
    o.Some? && Elapsed in Chain(d, o.value)
  }

  lemma EncloseKeepsElapsed(d: Derive, name: string, e: Error)
    ensures Elapsed in Chain(d, FromBox(d, Foreign(name, Some(e)))) <==> Elapsed in Chain(d, e)
    ensures FromBox(d, Foreign(name, Some(e))).message == TIMEOUT <==> Elapsed in Chain(d, e)
  {
    var outer := Foreign(name, Some(e));
    ConversionKeepsChain(d, outer);
    MessagesDiffer();
    assert Chain(d, outer) == [outer] + Chain(d, e);
    assert Elapsed !in Prefix(d, outer);
  }

  /** A timeout inside stays visible through any stack of passing and enclosing layers, and nothing else becomes one. */
  lemma {:induction false} TimeoutSurvives(d: Derive, layers: seq<Layer>, base: Outcome)
    requires NativeOutcome(base) && forall i | 0 <= i < |layers| :: !layers[i].Raise?
    ensures HasElapsed(d, Stack(d, layers, base)) <==> HasElapsed(d, base)
  {
    if layers != [] {
      TimeoutSurvives(d, layers[1..], base);
      StackIsNative(d, layers[1..], base);
      var inner := Stack(d, layers[1..], base);
      if layers[0].Enclose? && inner.Some? {
        EncloseKeepsElapsed(d, layers[0].name, inner.value);
      }
    }
  }
}
