/** `RegularResolvingEngine` of `interview_2022_03_03`: signals computed on
    demand by resolvers that read some signals and produce others.

    A resolver is data: its input signals, its output signals and its `run`,
    a function of the known signals that returns new signal values, or None
    when it raises. The engine maps each output signal to the resolver last
    registered for it. `resolve` fills the known signals in place; here it
    returns them. Python's recursion limit is the `depth` parameter: a
    resolution that needs more nested calls fails with RecursionError. */
module ResolvingEngine {
  import opened Orders

  type Signal = string
  type Known = map<Signal, int>

  datatype Resolver = Resolver(inputs: seq<Signal>, outputs: seq<Signal>, run: Known -> Option<Known>)

  datatype Engine = Engine(resolvers: map<Signal, Resolver>)

  datatype Failure =
    | MissingResolverError(message: string)
    | RecursionError
    | ResolverFailed        // the resolver's own `run` raised

  datatype Result = Done(known: Known) | Fail(failure: Failure)

  /** `RegularResolvingEngine()`. */
  const Empty := Engine(map[])

  /** `register_resolver`: every output signal now names this resolver; the
      other signals keep theirs. */
  function Register(e: Engine, r: Resolver): (e': Engine)
    ensures forall s :: s in r.outputs ==> s in e'.resolvers && e'.resolvers[s] == r
    ensures forall s :: s !in r.outputs ==>
      (s in e'.resolvers <==> s in e.resolvers) && (s in e.resolvers ==> e'.resolvers[s] == e.resolvers[s])
  {
    Engine(Assign(e.resolvers, r.outputs, r))
  }

  function Assign(m: map<Signal, Resolver>, signals: seq<Signal>, r: Resolver): (m': map<Signal, Resolver>)
    ensures forall s :: s in signals ==> s in m' && m'[s] == r
    ensures forall s :: s !in signals ==> (s in m' <==> s in m) && (s in m ==> m'[s] == m[s])
    decreases |signals|
  {
    if |signals| == 0 then m else Assign(m[signals[0] := r], signals[1..], r)
  }

  /** `resolve`: a known signal is returned as is; an unknown one needs a
      resolver, whose unknown inputs are resolved first, one by one, before
      its outputs are merged into the known signals. */
  function Resolve(e: Engine, lookup: Signal, known: Known, depth: nat): Result
    decreases depth, 0
  {
    if lookup in known then Done(known)
    else if lookup !in e.resolvers then Fail(MissingResolverError("Missing resolver for signal: " + lookup))
    else if depth == 0 then Fail(RecursionError)
    else
      var r := e.resolvers[lookup];
      match ResolveInputs(e, r.inputs, known, depth - 1)
      case Fail(f) => Fail(f)
      case Done(k) =>
        match r.run(k)
        case None => Fail(ResolverFailed)
        case Some(out) => Done(k + out)
  }

  /** The loop over a resolver's inputs: each input still unknown when its
      turn comes is resolved against the signals known by then. */
  function ResolveInputs(e: Engine, inputs: seq<Signal>, known: Known, depth: nat): Result
    decreases depth, |inputs| + 1
  {
    if |inputs| == 0 then Done(known)
    else if inputs[0] in known then ResolveInputs(e, inputs[1..], known, depth)
    else
      match Resolve(e, inputs[0], known, depth)
      case Fail(f) => Fail(f)
      case Done(k) => ResolveInputs(e, inputs[1..], k, depth)
  }

  // ---------------------------------------------------------------------------
  // Well-behaved engines

  /** Each registered signal is among its resolver's outputs. */
  predicate Registered(e: Engine) {
    forall s :: s in e.resolvers ==> s in e.resolvers[s].outputs
  }

  /** A resolver that, when it runs, produces every output it declares. */
  ghost predicate Delivers(r: Resolver) {
    forall k, o :: r.run(k).Some? && o in r.outputs ==> o in r.run(k).value
  }

  ghost predicate Delivering(e: Engine) {
    forall s :: s in e.resolvers ==> Delivers(e.resolvers[s])
  }

  /** No cycles: every input of a resolver ranks below the signals it is
      registered for. */
  ghost predicate Ranked(e: Engine, rank: Signal -> nat) {
    forall s, i :: s in e.resolvers && i in e.resolvers[s].inputs ==> rank(i) < rank(s)
  }

  // ---------------------------------------------------------------------------
  // Lemmas

  lemma EmptyRegistered()
    ensures Registered(Empty) && Delivering(Empty)
  {
  }

  /** Registration keeps every signal pointing at a resolver that outputs it. */
  lemma RegisterKeepsRegistered(e: Engine, r: Resolver)
    requires Registered(e)
    ensures Registered(Register(e, r))
    ensures Delivering(e) && Delivers(r) ==> Delivering(Register(e, r))
  {
  }

  /** What one `resolve` call promises: a known signal returns the known
      signals untouched; a signal without a resolver fails with a message
      that ends with the signal's name; a result never loses a signal. */
  lemma {:induction false} ResolveSpec(e: Engine, lookup: Signal, known: Known, depth: nat)
    ensures lookup in known ==> Resolve(e, lookup, known, depth) == Done(known)
    ensures lookup !in known && lookup !in e.resolvers ==>
      var r := Resolve(e, lookup, known, depth);
      r.Fail? && r.failure.MissingResolverError?
      && |lookup| <= |r.failure.message| && r.failure.message[|r.failure.message| - |lookup|..] == lookup
    ensures Resolve(e, lookup, known, depth).Done? ==> known.Keys <= Resolve(e, lookup, known, depth).known.Keys
    decreases depth, 0
  {
    if lookup !in known && lookup in e.resolvers && depth > 0 {
      InputsKeepKeys(e, e.resolvers[lookup].inputs, known, depth - 1);
    }
    if lookup !in known && lookup !in e.resolvers {
      var msg := "Missing resolver for signal: " + lookup;
      assert msg[|msg| - |lookup|..] == lookup;
    }
  }

  lemma {:induction false} InputsKeepKeys(e: Engine, inputs: seq<Signal>, known: Known, depth: nat)
    ensures ResolveInputs(e, inputs, known, depth).Done? ==>
      known.Keys <= ResolveInputs(e, inputs, known, depth).known.Keys
    decreases depth, |inputs| + 1
  {
    if |inputs| > 0 {
      if inputs[0] in known {
        InputsKeepKeys(e, inputs[1..], known, depth);
      } else {
        ResolveSpec(e, inputs[0], known, depth);
        var r := Resolve(e, inputs[0], known, depth);
        if r.Done? {
          InputsKeepKeys(e, inputs[1..], r.known, depth);
        }
      }
    }
  }

  /** The inputs not among `keys`, in their order. */
  function Unknown(inputs: seq<Signal>, keys: set<Signal>): (r: seq<Signal>)
    ensures forall i :: i in r <==> i in inputs && i !in keys
  {
    if |inputs| == 0 then []
    else if inputs[0] in keys then Unknown(inputs[1..], keys)
    else [inputs[0]] + Unknown(inputs[1..], keys)
  }

  /** Inputs that are already known are not recomputed: the input pass does
      exactly what a pass over the unknown inputs alone does, and when all of
      them are known it returns the known signals as they are. */
  lemma KnownInputsNotRecomputed(e: Engine, inputs: seq<Signal>, known: Known, depth: nat)
    ensures ResolveInputs(e, inputs, known, depth) == ResolveInputs(e, Unknown(inputs, known.Keys), known, depth)
    ensures (forall i :: i in inputs ==> i in known) ==> ResolveInputs(e, inputs, known, depth) == Done(known)
  {
    SkipKnown(e, inputs, known.Keys, known, depth);
    if forall i :: i in inputs ==> i in known {
      assert Unknown(inputs, known.Keys) == [];
    }
  }

  /** Inputs known before the pass stay known while it runs, so each is
      skipped at its turn. */
  lemma {:induction false} SkipKnown(e: Engine, inputs: seq<Signal>, keys: set<Signal>, known: Known, depth: nat)
    requires keys <= known.Keys
    ensures ResolveInputs(e, inputs, known, depth) == ResolveInputs(e, Unknown(inputs, keys), known, depth)
    decreases |inputs|
  {
    if |inputs| > 0 {
      var rest := Unknown(inputs[1..], keys);
      if inputs[0] in keys {
        SkipKnown(e, inputs[1..], keys, known, depth);
      } else {
        assert ([inputs[0]] + rest)[1..] == rest;
        if inputs[0] in known {
          SkipKnown(e, inputs[1..], keys, known, depth);
        } else {
          ResolveSpec(e, inputs[0], known, depth);
          var r := Resolve(e, inputs[0], known, depth);
          if r.Done? {
            SkipKnown(e, inputs[1..], keys, r.known, depth);
          }
        }
      }
    }
  }

  /** With resolvers that deliver what they declare, a successful resolution
      knows the signal it looked up, and a resolver runs only once all its
      inputs are known. */
  lemma {:induction false} ResolvedIsKnown(e: Engine, lookup: Signal, known: Known, depth: nat)
    requires Registered(e) && Delivering(e)
    ensures Resolve(e, lookup, known, depth).Done? ==> lookup in Resolve(e, lookup, known, depth).known
    decreases depth, 0
  {
    if lookup !in known && lookup in e.resolvers && depth > 0 {
      var r := e.resolvers[lookup];
      var res := ResolveInputs(e, r.inputs, known, depth - 1);
      if res.Done? && r.run(res.known).Some? {
        assert lookup in r.outputs;
        assert lookup in r.run(res.known).value;
      }
    }
  }

  lemma {:induction false} InputsResolved(e: Engine, inputs: seq<Signal>, known: Known, depth: nat)
    requires Registered(e) && Delivering(e)
    ensures ResolveInputs(e, inputs, known, depth).Done? ==>
      forall i :: i in inputs ==> i in ResolveInputs(e, inputs, known, depth).known
    decreases depth, |inputs| + 1
  {
    var res := ResolveInputs(e, inputs, known, depth);
    if |inputs| > 0 && res.Done? {
      var k := if inputs[0] in known then known else Resolve(e, inputs[0], known, depth).known;
      if inputs[0] !in known {
        ResolvedIsKnown(e, inputs[0], known, depth);
      }
      assert res == ResolveInputs(e, inputs[1..], k, depth);
      InputsResolved(e, inputs[1..], k, depth);
      InputsKeepKeys(e, inputs[1..], k, depth);
      forall i | i in inputs
        ensures i in res.known
      {
        if i != inputs[0] {
          assert i in inputs[1..];
        }
      }
    }
  }

  /** Without cycles, a recursion limit above the looked-up signal's rank is
      never reached. */
  lemma {:induction false} AcyclicWithinDepth(e: Engine, rank: Signal -> nat, lookup: Signal, known: Known, depth: nat)
    requires Ranked(e, rank) && depth > rank(lookup)
    ensures Resolve(e, lookup, known, depth) != Fail(RecursionError)
    decreases depth, 0
  {
    if lookup !in known && lookup in e.resolvers {
      InputsWithinDepth(e, rank, e.resolvers[lookup].inputs, known, depth - 1, rank(lookup));
    }
  }

  lemma {:induction false} InputsWithinDepth(e: Engine, rank: Signal -> nat, inputs: seq<Signal>, known: Known,
                                             depth: nat, bound: nat)
    requires Ranked(e, rank) && bound <= depth
    requires forall i :: i in inputs ==> rank(i) < bound
    ensures ResolveInputs(e, inputs, known, depth) != Fail(RecursionError)
    decreases depth, |inputs| + 1
  {
    if |inputs| > 0 {
      assert inputs[0] in inputs;
      assert forall i :: i in inputs[1..] ==> i in inputs;
      if inputs[0] in known {
        InputsWithinDepth(e, rank, inputs[1..], known, depth, bound);
      } else {
        AcyclicWithinDepth(e, rank, inputs[0], known, depth);
        var r := Resolve(e, inputs[0], known, depth);
        if r.Done? {
          InputsWithinDepth(e, rank, inputs[1..], r.known, depth, bound);
        }
      }
    }
  }

  // ---------------------------------------------------------------------------
  // The engines of the tests

  /** Adds `step` to the value of `input` and calls it `output`. */
  function Step(input: Signal, output: Signal, step: int): Resolver {
    Resolver([input], [output], (k: Known) => if input in k then Some(map[output := k[input] + step]) else None)
  }

  const Chain := Register(Register(Register(Empty, Step("A", "B", 1)), Step("B", "C", 10)), Step("C", "D", 100))

  /** Resolvers chain: from A = 0 the engine computes B = 1, C = 11, D = 111. */
  lemma ChainResolves()
    ensures Resolve(Chain, "D", map["A" := 0], 3) == Done(map["A" := 0, "B" := 1, "C" := 11, "D" := 111])
  {
    ChainTable();
    var k0: Known := map["A" := 0];
    var k1 := k0["B" := 1];
    var k2 := k1["C" := 11];
    StepResolves(Chain, "A", "B", 1, k0, 1, k0);
    StepResolves(Chain, "B", "C", 10, k0, 2, k1);
    StepResolves(Chain, "C", "D", 100, k0, 3, k2);
  }

  lemma ChainTable()
    ensures "B" in Chain.resolvers && Chain.resolvers["B"] == Step("A", "B", 1)
    ensures "C" in Chain.resolvers && Chain.resolvers["C"] == Step("B", "C", 10)
    ensures "D" in Chain.resolvers && Chain.resolvers["D"] == Step("C", "D", 100)
  {
  }

  /** An unknown `output` computed by a Step resolver from `input`, once the
      input pass has given `k`. */
  lemma StepResolves(e: Engine, input: Signal, output: Signal, step: int, known: Known, depth: nat, k: Known)
    requires output in e.resolvers && e.resolvers[output] == Step(input, output, step)
    requires output !in known && depth > 0
    requires if input in known then k == known else Resolve(e, input, known, depth - 1) == Done(k)
    requires input in k
    ensures Resolve(e, output, known, depth) == Done(k[output := k[input] + step])
  {
    var r := Step(input, output, step);
    assert k + map[output := k[input] + step] == k[output := k[input] + step];
    assert r.inputs == [input] && r.inputs[1..] == [];
    assert ResolveInputs(e, r.inputs, known, depth - 1) == Done(k);
  }

  /** There is no cycle detection: with A computed from B and B from A, an
      unknown A exhausts any recursion limit. */
  lemma {:induction false} CycleExhaustsDepth(depth: nat)
    ensures Resolve(Register(Register(Empty, Step("B", "A", 1)), Step("A", "B", 1)), "A", map[], depth)
      == Fail(RecursionError)
    decreases depth
  {
    var e := Register(Register(Empty, Step("B", "A", 1)), Step("A", "B", 1));
    CycleLoops(e, depth);
  }

  lemma {:induction false} CycleLoops(e: Engine, depth: nat)
    requires "A" in e.resolvers && "B" in e.resolvers
    requires e.resolvers["A"] == Step("B", "A", 1) && e.resolvers["B"] == Step("A", "B", 1)
    ensures Resolve(e, "A", map[], depth) == Fail(RecursionError)
    ensures Resolve(e, "B", map[], depth) == Fail(RecursionError)
    decreases depth
  {
    if depth > 0 {
      CycleLoops(e, depth - 1);
      assert ["B"][0] == "B" && ["A"][0] == "A";
    }
  }
}
