/**
  The right-to-left assembly of a processing chain in midiproc.py's `main`:
  the constructors are listed in data-flow order (source first), and the loop
  calls them from the last to the first, handing each the stage built by the
  call before it.  The last constructor is called with no argument.
 */
module Chain {
  import opened MidiBytes

  /**
    A constructor in a chain list.  Coroutine constructors return the primed
    stage; a source such as `iter_source` runs the whole stream itself and
    returns `None`.
   */
  datatype Ctor = Ctor(name: string, returnsStage: bool)

  /** A built stage and the stage it pushes to (`None`: called with no argument). */
  datatype Node = Node(ctor: Ctor, downstream: Option<Node>)

  /**
    One constructor call.  `fn(result) if result is not None else fn()`:
    calling with no argument is modelled as passing `None`, the default of
    every optional target.
   */
  function Apply(c: Ctor, arg: Option<Node>): Option<Node>
  {
    if c.returnsStage then Some(Node(c, arg)) else None
  }

  /** The chain the list describes: each stage bound to the one built from the rest of the list. */
  function Fold(ctors: seq<Ctor>): Option<Node>
    decreases |ctors|
  {
    if ctors == [] then None else Apply(ctors[0], Fold(ctors[1..]))
  }

  /** The constructors of a built chain, head first, following the downstream references. */
  function Visited(chain: Option<Node>): seq<Ctor>
  {
    match chain
    case None => []
    case Some(n) => [n.ctor] + Visited(n.downstream)
  }

  /**
    The assembly loop.  `args[i]` is what constructor `i` was called with:
    the last is called with nothing and every earlier one receives exactly
    the stage built by the call after it.
   */
  method BuildChain(ctors: seq<Ctor>) returns (result: Option<Node>, args: seq<Option<Node>>)
    ensures |args| == |ctors|
    ensures |ctors| > 0 ==> args[|ctors| - 1] == None
    ensures forall i :: 0 <= i < |ctors| - 1 ==> args[i] == Apply(ctors[i + 1], args[i + 1])
    ensures result == if ctors == [] then None else Apply(ctors[0], args[0])
    ensures result == Fold(ctors)
  {
    result := None;
    args := [];
    var i := |ctors|;
    while i > 0
      invariant 0 <= i <= |ctors|
      invariant result == Fold(ctors[i..])
      invariant |args| == |ctors| - i
      invariant forall k :: 0 <= k < |args| ==> args[k] == Fold(ctors[i + k + 1..])
    {
      i := i - 1;
      assert ctors[i..][1..] == ctors[i + 1..];
      args := [result] + args;
      result := Apply(ctors[i], result);
    }
    forall k | 0 <= k < |ctors| - 1
      ensures args[k] == Apply(ctors[k + 1], args[k + 1])
    {
      assert ctors[k + 1..][1..] == ctors[k + 2..];
    }
    assert ctors[|ctors|..] == [];
  }

  /**
    When every constructor returns a stage, the built chain visits the
    constructors in list order: the head is the first and each stage pushes
    to the next.  When only the first is a source, the chain stops at the
    source (which returns `None`) and the source was handed the chain of the
    remaining constructors, in order.
   */
  lemma {:induction false} ChainOrder(ctors: seq<Ctor>)
    requires forall i :: 1 <= i < |ctors| ==> ctors[i].returnsStage
    ensures |ctors| > 0 && !ctors[0].returnsStage ==> Fold(ctors) == None && Visited(Fold(ctors[1..])) == ctors[1..]
    ensures (|ctors| == 0 || ctors[0].returnsStage) ==> Visited(Fold(ctors)) == ctors
    decreases |ctors|
  {
    if |ctors| > 0 {
      var rest := ctors[1..];
      assert forall i :: 0 <= i < |rest| ==> rest[i] == ctors[i + 1];
      ChainOrder(rest);
      if |rest| > 0 {
        assert rest[0].returnsStage;
      }
      assert [ctors[0]] + rest == ctors;
    }
  }
}
