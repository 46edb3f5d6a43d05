/**
 * The readiness-gated input discovery of the VIFF translator: a breadth-first
 * walk from the roots that marks relation NAMES as visited, reports a read
 * relation as an input when
 * it is neither visited nor already an input and the node's parents do not
 * generate it, lets a child through when its inputs are ready or either
 * operator is a WHILE, and records every relation it meets in the
 * translator's name-to-relation registry.
 *
 * The walk is specified by a functional reference on a `WalkState`:
 * `Seed` for the root loop, `ReadAll` and `ChildAll` for the two inner loops,
 * `Round` for one dequeue and `Drain` for the whole walk.
 */
module Spark {
  import opened Catalog
  import Resolver

  /** Whether a relation name is generated by one of the given parent nodes; not part of this model. */
  type Generated = (string, seq<nat>) -> bool

  /** The walk state: the queue, the visited and input names, the reported inputs and the registry. */
  datatype WalkState = WalkState(queue: seq<nat>, visited: set<string>, inputs: set<string>,
                                 out: seq<Relation>, registry: map<string, Relation>)

  /** The root loop: every root is enqueued, its output name visited and registered. */
  function Seed(g: Graph, roots: seq<nat>, registry: map<string, Relation>,
                inputs: set<string>, visited: set<string>): (s: WalkState)
    requires InRange(g, roots)
    ensures s.queue == roots && s.inputs == inputs && s.out == []
  {
    if roots == [] then WalkState([], visited, inputs, [], registry)
    else
      var s := Seed(g, roots[..|roots| - 1], registry, inputs, visited);
      var rel := g[roots[|roots| - 1]].op.output;
      s.(queue := s.queue + [roots[|roots| - 1]], visited := s.visited + {rel.name},
         registry := s.registry[rel.name := rel])
  }

  /** A read of `rel` by a node with the given parents is reported as an input. */
  predicate IsInput(rel: Relation, parents: seq<nat>, gen: Generated, visited: set<string>, inputs: set<string>) {
    (|parents| == 0 || !gen(rel.name, parents)) && rel.name !in visited && rel.name !in inputs
  }

  /** One read: the relation is registered either way, and reported when it is an input. */
  function ReadStep(s: WalkState, rel: Relation, parents: seq<nat>, gen: Generated): WalkState {
    if IsInput(rel, parents, gen, s.visited, s.inputs) then
      s.(inputs := s.inputs + {rel.name}, out := s.out + [rel], registry := s.registry[rel.name := rel])
    else
      s.(registry := s.registry[rel.name := rel])
  }

  /** The reads of `rels`, in order. */
  function ReadAll(s: WalkState, rels: seq<Relation>, parents: seq<nat>, gen: Generated): WalkState {
    if rels == [] then s
    else ReadStep(ReadAll(s, rels[..|rels| - 1], parents, gen), rels[|rels| - 1], parents, gen)
  }

  /**
   * A child is ready unless one of its inputs is neither visited nor an
   * input and is generated by the parents of the node being dequeued.
   */
  predicate Ready(rels: seq<Relation>, parents: seq<nat>, gen: Generated, visited: set<string>, inputs: set<string>) {
    forall k :: 0 <= k < |rels| ==>
      !(rels[k].name !in visited && rels[k].name !in inputs && gen(rels[k].name, parents))
  }

  /** The gate a child of `n` must pass to be registered and possibly enqueued. */
  predicate Passes(g: Graph, gen: Generated, n: nat, c: nat, s: WalkState)
    requires n < |g| && c < |g|
  {
    Ready(g[c].op.inputs, g[n].parents, gen, s.visited, s.inputs) || IsWhile(g[n].op) || IsWhile(g[c].op)
  }

  /** One child: past the gate its output is registered, and it is enqueued when its name is new. */
  function ChildStep(g: Graph, gen: Generated, n: nat, s: WalkState, c: nat): WalkState
    requires n < |g| && c < |g|
  {
    if !Passes(g, gen, n, c, s) then s
    else
      var rel := g[c].op.output;
      var s1 := s.(registry := s.registry[rel.name := rel]);
      if rel.name in s.visited then s1 else s1.(visited := s.visited + {rel.name}, queue := s.queue + [c])
  }

  /** The children `cs` of `n`, in order. */
  function ChildAll(g: Graph, gen: Generated, n: nat, s: WalkState, cs: seq<nat>): WalkState
    requires n < |g| && InRange(g, cs)
  {
    if cs == [] then s
    else ChildStep(g, gen, n, ChildAll(g, gen, n, s, cs[..|cs| - 1]), cs[|cs| - 1])
  }

  /** One dequeue: pop the front node, read its inputs, then pass its loop children and children. */
  function Round(g: Graph, gen: Generated, s: WalkState): WalkState
    requires ValidGraph(g) && InRange(g, s.queue) && s.queue != []
  {
    var n := s.queue[0];
    KidsInRange(g, n);
    ChildAll(g, gen, n, ReadAll(s.(queue := s.queue[1..]), g[n].op.inputs, g[n].parents, gen), Resolver.Kids(g, n))
  }

  /** The walk run until the queue is empty. */
  function Drain(g: Graph, gen: Generated, s: WalkState): WalkState
    requires ValidGraph(g) && InRange(g, s.queue)
    decreases |OutNames(g) - s.visited|, |s.queue|
  {
    if s.queue == [] then s
    else
      RoundMeasure(g, gen, s);
      Drain(g, gen, Round(g, gen, s))
  }

  lemma KidsInRange(g: Graph, n: nat)
    requires ValidGraph(g) && n < |g|
    ensures InRange(g, Resolver.Kids(g, n))
  {
    assert InRange(g, g[n].loopChildren) && InRange(g, g[n].children);
  }

  /** Reads change neither the queue nor the visited names. */
  lemma {:induction false} ReadAllFrame(s: WalkState, rels: seq<Relation>, parents: seq<nat>, gen: Generated)
    ensures ReadAll(s, rels, parents, gen).queue == s.queue
    ensures ReadAll(s, rels, parents, gen).visited == s.visited
  {
    if rels != [] {
      ReadAllFrame(s, rels[..|rels| - 1], parents, gen);
    }
  }

  /**
   * Passing children only appends to the queue, only adds visited names,
   * and enqueues exactly one node per name it adds to the visited ones.
   */
  lemma {:induction false} ChildAllGrowth(g: Graph, gen: Generated, n: nat, s: WalkState, cs: seq<nat>)
    requires n < |g| && InRange(g, cs) && InRange(g, s.queue)
    ensures var r := ChildAll(g, gen, n, s, cs);
      && |s.queue| <= |r.queue| && r.queue[..|s.queue|] == s.queue && InRange(g, r.queue)
      && s.visited <= r.visited
      && |OutNames(g) - r.visited| + |r.queue| == |OutNames(g) - s.visited| + |s.queue|
      && r.inputs == s.inputs && r.out == s.out
  {
    if cs != [] {
      var cs' := cs[..|cs| - 1];
      assert InRange(g, cs');
      ChildAllGrowth(g, gen, n, s, cs');
      var p := ChildAll(g, gen, n, s, cs');
      var c := cs[|cs| - 1];
      var name := g[c].op.output.name;
      if Passes(g, gen, n, c, p) && name !in p.visited {
        ComplementShrinks(OutNames(g), p.visited, name);
        assert (p.queue + [c])[..|s.queue|] == p.queue[..|s.queue|];
      }
    }
  }

  /** Each round either visits a new name or shortens the queue. */
  lemma RoundMeasure(g: Graph, gen: Generated, s: WalkState)
    requires ValidGraph(g) && InRange(g, s.queue) && s.queue != []
    ensures InRange(g, Round(g, gen, s).queue)
    ensures |OutNames(g) - Round(g, gen, s).visited| <= |OutNames(g) - s.visited|
    ensures |OutNames(g) - Round(g, gen, s).visited| + |Round(g, gen, s).queue|
         == |OutNames(g) - s.visited| + |s.queue| - 1
  {
    var n := s.queue[0];
    KidsInRange(g, n);
    var s0 := s.(queue := s.queue[1..]);
    var s1 := ReadAll(s0, g[n].op.inputs, g[n].parents, gen);
    ReadAllFrame(s0, g[n].op.inputs, g[n].parents, gen);
    ChildAllGrowth(g, gen, n, s1, Resolver.Kids(g, n));
    ComplementMonotone(OutNames(g), s.visited, Round(g, gen, s).visited);
  }

  /**
   * The reported inputs: no name twice, the input names are the earlier ones
   * plus the reported ones, and no reported name was an earlier input or
   * visited before the walk.
   */
  predicate Ledger(s: WalkState, inputs0: set<string>, visited0: set<string>) {
    && visited0 <= s.visited
    && NoDup(RelNames(s.out)) && s.inputs == inputs0 + Elems(RelNames(s.out))
    && (forall k :: 0 <= k < |s.out| ==> s.out[k].name !in inputs0 && s.out[k].name !in visited0)
  }

  /** Every registry entry is a relation of the name it is filed under. */
  predicate Registered(registry: map<string, Relation>) {
    forall name :: name in registry ==> registry[name].name == name
  }

  /** `r` is a later state than `s`: sets and registry grown, reported inputs extended. */
  predicate Extends(s: WalkState, r: WalkState) {
    && s.visited <= r.visited && s.inputs <= r.inputs && s.registry.Keys <= r.registry.Keys
    && |s.out| <= |r.out| && r.out[..|s.out|] == s.out
    && (Registered(s.registry) ==> Registered(r.registry))
  }

  lemma ExtendsTrans(s: WalkState, t: WalkState, r: WalkState)
    requires Extends(s, t) && Extends(t, r)
    ensures Extends(s, r)
  {
    assert r.out[..|s.out|] == r.out[..|t.out|][..|s.out|];
  }

  /** A read keeps the ledger: a reported name is new to the inputs and to the visited names. */
  lemma ReadStepLedger(s: WalkState, rel: Relation, parents: seq<nat>, gen: Generated, inputs0: set<string>, visited0: set<string>)
    requires Ledger(s, inputs0, visited0)
    ensures Ledger(ReadStep(s, rel, parents, gen), inputs0, visited0)
    ensures Extends(s, ReadStep(s, rel, parents, gen))
    ensures rel.name in ReadStep(s, rel, parents, gen).registry
  {
    if IsInput(rel, parents, gen, s.visited, s.inputs) {
      assert RelNames(s.out + [rel]) == RelNames(s.out) + [rel.name];
      ElemsSnoc(RelNames(s.out), rel.name);
      assert (s.out + [rel])[..|s.out|] == s.out;
    } else {
      assert s.out[..|s.out|] == s.out;
    }
  }

  /** The reads of one node keep the ledger and register every relation read. */
  lemma {:induction false} ReadAllLedger(s: WalkState, rels: seq<Relation>, parents: seq<nat>, gen: Generated,
                                         inputs0: set<string>, visited0: set<string>)
    requires Ledger(s, inputs0, visited0)
    ensures Ledger(ReadAll(s, rels, parents, gen), inputs0, visited0)
    ensures Extends(s, ReadAll(s, rels, parents, gen))
    ensures forall k :: 0 <= k < |rels| ==> rels[k].name in ReadAll(s, rels, parents, gen).registry
  {
    if rels == [] {
      assert s.out[..|s.out|] == s.out;
    } else {
      var pre := rels[..|rels| - 1];
      ReadAllLedger(s, pre, parents, gen, inputs0, visited0);
      var p := ReadAll(s, pre, parents, gen);
      ReadStepLedger(p, rels[|rels| - 1], parents, gen, inputs0, visited0);
      ExtendsTrans(s, p, ReadAll(s, rels, parents, gen));
      forall k | 0 <= k < |rels|
        ensures rels[k].name in ReadAll(s, rels, parents, gen).registry
      {
        if k < |rels| - 1 {
          assert rels[k] == pre[k];
        }
      }
    }
  }

  /** Passing children keeps the ledger and extends the state. */
  lemma {:induction false} ChildAllLedger(g: Graph, gen: Generated, n: nat, s: WalkState, cs: seq<nat>,
                                          inputs0: set<string>, visited0: set<string>)
    requires n < |g| && InRange(g, cs) && Ledger(s, inputs0, visited0)
    ensures Ledger(ChildAll(g, gen, n, s, cs), inputs0, visited0)
    ensures Extends(s, ChildAll(g, gen, n, s, cs))
  {
    if cs == [] {
      assert s.out[..|s.out|] == s.out;
    } else {
      var cs' := cs[..|cs| - 1];
      assert InRange(g, cs');
      ChildAllLedger(g, gen, n, s, cs', inputs0, visited0);
      var p := ChildAll(g, gen, n, s, cs');
      assert p.out[..|p.out|] == p.out;
      ExtendsTrans(s, p, ChildAll(g, gen, n, s, cs));
    }
  }

  /**
   * A child is enqueued exactly when it passes the gate and its output name
   * is newly visited; past the gate its output is registered either way.
   */
  lemma ChildStepGate(g: Graph, gen: Generated, n: nat, s: WalkState, c: nat)
    requires n < |g| && c < |g|
    ensures var r := ChildStep(g, gen, n, s, c);
      (r.queue == s.queue + [c] <==> Passes(g, gen, n, c, s) && g[c].op.output.name !in s.visited)
      && (r.queue != s.queue + [c] ==> r.queue == s.queue && r.visited == s.visited)
    ensures Passes(g, gen, n, c, s) ==>
      && ChildStep(g, gen, n, s, c).registry == s.registry[g[c].op.output.name := g[c].op.output]
      && g[c].op.output.name in ChildStep(g, gen, n, s, c).visited
    ensures !Passes(g, gen, n, c, s) ==> ChildStep(g, gen, n, s, c) == s
  {
    var r := ChildStep(g, gen, n, s, c);
    if r.queue == s.queue + [c] {
      assert |r.queue| != |s.queue|;
    }
  }

  /**
   * The nodes one round enqueues have pairwise distinct output names, none
   * visited before the round and all visited after it.
   */
  lemma {:induction false} ChildAllFresh(g: Graph, gen: Generated, n: nat, s: WalkState, cs: seq<nat>)
    requires n < |g| && InRange(g, cs) && InRange(g, s.queue)
    ensures InRange(g, ChildAll(g, gen, n, s, cs).queue)
    ensures var r := ChildAll(g, gen, n, s, cs);
      forall i :: |s.queue| <= i < |r.queue| ==>
        g[r.queue[i]].op.output.name !in s.visited && g[r.queue[i]].op.output.name in r.visited
    ensures var r := ChildAll(g, gen, n, s, cs);
      forall i, j :: |s.queue| <= i < j < |r.queue| ==> g[r.queue[i]].op.output.name != g[r.queue[j]].op.output.name
  {
    ChildAllGrowth(g, gen, n, s, cs);
    if cs != [] {
      var cs' := cs[..|cs| - 1];
      assert InRange(g, cs');
      ChildAllFresh(g, gen, n, s, cs');
      ChildAllGrowth(g, gen, n, s, cs');
      var p := ChildAll(g, gen, n, s, cs');
      var c := cs[|cs| - 1];
      ChildStepGate(g, gen, n, p, c);
    }
  }

  /** A round keeps the ledger and extends the state. */
  lemma RoundLedger(g: Graph, gen: Generated, s: WalkState, inputs0: set<string>, visited0: set<string>)
    requires ValidGraph(g) && InRange(g, s.queue) && s.queue != [] && Ledger(s, inputs0, visited0)
    ensures Ledger(Round(g, gen, s), inputs0, visited0) && Extends(s, Round(g, gen, s))
  {
    var n := s.queue[0];
    KidsInRange(g, n);
    var s0 := s.(queue := s.queue[1..]);
    var s1 := ReadAll(s0, g[n].op.inputs, g[n].parents, gen);
    ReadAllLedger(s0, g[n].op.inputs, g[n].parents, gen, inputs0, visited0);
    ChildAllLedger(g, gen, n, s1, Resolver.Kids(g, n), inputs0, visited0);
    assert Extends(s, s0) by {
      assert s.out[..|s.out|] == s.out;
    }
    ExtendsTrans(s, s0, s1);
    ExtendsTrans(s, s1, Round(g, gen, s));
  }

  /** The whole walk keeps the ledger, extends the state and empties the queue. */
  lemma {:induction false} DrainLedger(g: Graph, gen: Generated, s: WalkState, inputs0: set<string>, visited0: set<string>)
    requires ValidGraph(g) && InRange(g, s.queue) && Ledger(s, inputs0, visited0)
    ensures Ledger(Drain(g, gen, s), inputs0, visited0) && Extends(s, Drain(g, gen, s))
    ensures Drain(g, gen, s).queue == []
    decreases |OutNames(g) - s.visited|, |s.queue|
  {
    if s.queue == [] {
      assert s.out[..|s.out|] == s.out;
    } else {
      RoundMeasure(g, gen, s);
      RoundLedger(g, gen, s, inputs0, visited0);
      DrainLedger(g, gen, Round(g, gen, s), inputs0, visited0);
      ExtendsTrans(s, Round(g, gen, s), Drain(g, gen, s));
    }
  }

  /** Every name visited or reported since the start of the walk is in the registry. */
  predicate Covered(s: WalkState, visited0: set<string>, inputs0: set<string>) {
    (s.visited - visited0) + (s.inputs - inputs0) <= s.registry.Keys
  }

  lemma {:induction false} SeedCovered(g: Graph, roots: seq<nat>, registry: map<string, Relation>,
                                       inputs: set<string>, visited: set<string>)
    requires InRange(g, roots)
    ensures Covered(Seed(g, roots, registry, inputs, visited), visited, inputs)
  {
    if roots != [] {
      var pre := roots[..|roots| - 1];
      assert InRange(g, pre);
      SeedCovered(g, pre, registry, inputs, visited);
    }
  }

  lemma {:induction false} ReadAllCovered(s: WalkState, rels: seq<Relation>, parents: seq<nat>, gen: Generated,
                                          visited0: set<string>, inputs0: set<string>)
    requires Covered(s, visited0, inputs0)
    ensures Covered(ReadAll(s, rels, parents, gen), visited0, inputs0)
  {
    if rels != [] {
      ReadAllCovered(s, rels[..|rels| - 1], parents, gen, visited0, inputs0);
    }
  }

  lemma {:induction false} ChildAllCovered(g: Graph, gen: Generated, n: nat, s: WalkState, cs: seq<nat>,
                                           visited0: set<string>, inputs0: set<string>)
    requires n < |g| && InRange(g, cs) && Covered(s, visited0, inputs0)
    ensures Covered(ChildAll(g, gen, n, s, cs), visited0, inputs0)
  {
    if cs != [] {
      var cs' := cs[..|cs| - 1];
      assert InRange(g, cs');
      ChildAllCovered(g, gen, n, s, cs', visited0, inputs0);
    }
  }

  lemma RoundCovered(g: Graph, gen: Generated, s: WalkState, visited0: set<string>, inputs0: set<string>)
    requires ValidGraph(g) && InRange(g, s.queue) && s.queue != [] && Covered(s, visited0, inputs0)
    ensures Covered(Round(g, gen, s), visited0, inputs0)
  {
    var n := s.queue[0];
    KidsInRange(g, n);
    var s0 := s.(queue := s.queue[1..]);
    ReadAllCovered(s0, g[n].op.inputs, g[n].parents, gen, visited0, inputs0);
    ChildAllCovered(g, gen, n, ReadAll(s0, g[n].op.inputs, g[n].parents, gen), Resolver.Kids(g, n), visited0, inputs0);
  }

  lemma {:induction false} DrainCovered(g: Graph, gen: Generated, s: WalkState, visited0: set<string>, inputs0: set<string>)
    requires ValidGraph(g) && InRange(g, s.queue) && Covered(s, visited0, inputs0)
    ensures Covered(Drain(g, gen, s), visited0, inputs0)
    decreases |OutNames(g) - s.visited|, |s.queue|
  {
    if s.queue != [] {
      RoundMeasure(g, gen, s);
      RoundCovered(g, gen, s, visited0, inputs0);
      DrainCovered(g, gen, Round(g, gen, s), visited0, inputs0);
    }
  }

  /** The nodes the walk dequeues, in dequeue order. */
  function DrainTrace(g: Graph, gen: Generated, s: WalkState): (t: seq<nat>)
    requires ValidGraph(g) && InRange(g, s.queue)
    ensures InRange(g, t)
    decreases |OutNames(g) - s.visited|, |s.queue|
  {
    if s.queue == [] then []
    else
      RoundMeasure(g, gen, s);
      [s.queue[0]] + DrainTrace(g, gen, Round(g, gen, s))
  }

  /** The queue is first-in first-out: the walk dequeues the nodes queued at the start first, in order. */
  lemma {:induction false} DrainTraceQueue(g: Graph, gen: Generated, s: WalkState)
    requires ValidGraph(g) && InRange(g, s.queue)
    ensures |s.queue| <= |DrainTrace(g, gen, s)| && DrainTrace(g, gen, s)[..|s.queue|] == s.queue
    decreases |OutNames(g) - s.visited|, |s.queue|
  {
    if s.queue != [] {
      var n := s.queue[0];
      KidsInRange(g, n);
      var s0 := s.(queue := s.queue[1..]);
      var s1 := ReadAll(s0, g[n].op.inputs, g[n].parents, gen);
      ReadAllFrame(s0, g[n].op.inputs, g[n].parents, gen);
      ChildAllGrowth(g, gen, n, s1, Resolver.Kids(g, n));
      var r := Round(g, gen, s);
      RoundMeasure(g, gen, s);
      DrainTraceQueue(g, gen, r);
      var t := DrainTrace(g, gen, r);
      assert t[..|s.queue| - 1] == r.queue[..|s.queue| - 1] == s.queue[1..];
    }
  }

  /** One round registers every relation the dequeued node reads. */
  lemma RoundRegistersReads(g: Graph, gen: Generated, s: WalkState, inputs0: set<string>, visited0: set<string>)
    requires ValidGraph(g) && InRange(g, s.queue) && s.queue != [] && Ledger(s, inputs0, visited0)
    ensures forall k :: 0 <= k < |g[s.queue[0]].op.inputs| ==> g[s.queue[0]].op.inputs[k].name in Round(g, gen, s).registry
  {
    var n := s.queue[0];
    KidsInRange(g, n);
    var s0 := s.(queue := s.queue[1..]);
    var s1 := ReadAll(s0, g[n].op.inputs, g[n].parents, gen);
    ReadAllLedger(s0, g[n].op.inputs, g[n].parents, gen, inputs0, visited0);
    ChildAllLedger(g, gen, n, s1, Resolver.Kids(g, n), inputs0, visited0);
  }

  /** Every relation read by a node of `t` is in the registry. */
  predicate ReadsRegistered(g: Graph, t: seq<nat>, registry: map<string, Relation>)
    requires InRange(g, t)
  {
    forall i, k :: 0 <= i < |t| && 0 <= k < |g[t[i]].op.inputs| ==> g[t[i]].op.inputs[k].name in registry
  }

  lemma ReadsRegisteredCons(g: Graph, n: nat, t: seq<nat>, registry: map<string, Relation>, later: map<string, Relation>)
    requires n < |g| && InRange(g, t) && registry.Keys <= later.Keys && ReadsRegistered(g, t, later)
    requires forall k :: 0 <= k < |g[n].op.inputs| ==> g[n].op.inputs[k].name in registry
    ensures ReadsRegistered(g, [n] + t, later)
  {
    forall i, k | 0 <= i < |[n] + t| && 0 <= k < |g[([n] + t)[i]].op.inputs|
      ensures g[([n] + t)[i]].op.inputs[k].name in later
    {
      if i > 0 {
        assert ([n] + t)[i] == t[i - 1];
      }
    }
  }

  /** Every relation read by a dequeued node is in the registry when the walk ends. */
  lemma {:induction false} DrainRegistersReads(g: Graph, gen: Generated, s: WalkState, inputs0: set<string>, visited0: set<string>)
    requires ValidGraph(g) && InRange(g, s.queue) && Ledger(s, inputs0, visited0)
    ensures ReadsRegistered(g, DrainTrace(g, gen, s), Drain(g, gen, s).registry)
    decreases |OutNames(g) - s.visited|, |s.queue|
  {
    if s.queue != [] {
      var r := Round(g, gen, s);
      RoundMeasure(g, gen, s);
      RoundRegistersReads(g, gen, s, inputs0, visited0);
      RoundLedger(g, gen, s, inputs0, visited0);
      DrainLedger(g, gen, r, inputs0, visited0);
      DrainRegistersReads(g, gen, r, inputs0, visited0);
      ReadsRegisteredCons(g, s.queue[0], DrainTrace(g, gen, r), r.registry, Drain(g, gen, r).registry);
    }
  }

  /** The root loop enqueues the roots in order and visits and registers every root's output name. */
  lemma {:induction false} SeedFacts(g: Graph, roots: seq<nat>, registry: map<string, Relation>,
                                     inputs: set<string>, visited: set<string>)
    requires InRange(g, roots)
    ensures var s := Seed(g, roots, registry, inputs, visited);
      && s.queue == roots && s.inputs == inputs && s.out == [] && visited <= s.visited
      && registry.Keys <= s.registry.Keys && (Registered(registry) ==> Registered(s.registry))
    ensures forall k :: 0 <= k < |roots| ==> g[roots[k]].op.output.name in Seed(g, roots, registry, inputs, visited).visited
    ensures forall k :: 0 <= k < |roots| ==> g[roots[k]].op.output.name in Seed(g, roots, registry, inputs, visited).registry
  {
    if roots != [] {
      var pre := roots[..|roots| - 1];
      assert InRange(g, pre);
      SeedFacts(g, pre, registry, inputs, visited);
      forall k | 0 <= k < |roots| - 1
        ensures roots[k] == pre[k]
      {
      }
    }
  }

  /**
   * What the walk reports from a start with the given inputs and visited
   * names: every root's output name is visited, the reported relations have
   * distinct names, none of them an earlier input, an earlier visited name or
   * a root's output, and the input names grow by exactly the reported ones;
   * the registry only gains names and keeps every entry filed under its own name.
   */
  lemma SparkResult(g: Graph, gen: Generated, roots: seq<nat>, registry: map<string, Relation>,
                    inputs: set<string>, visited: set<string>)
    requires ValidGraph(g) && InRange(g, roots)
    ensures var r := Drain(g, gen, Seed(g, roots, registry, inputs, visited));
      && r.queue == [] && NoDup(RelNames(r.out)) && r.inputs == inputs + Elems(RelNames(r.out))
      && (forall k :: 0 <= k < |r.out| ==> r.out[k].name !in inputs && r.out[k].name !in visited)
      && (forall k, i :: 0 <= k < |r.out| && 0 <= i < |roots| ==> r.out[k].name != g[roots[i]].op.output.name)
      && (forall i :: 0 <= i < |roots| ==> g[roots[i]].op.output.name in r.visited)
      && visited <= r.visited && registry.Keys <= r.registry.Keys
      && (Registered(registry) ==> Registered(r.registry))
      && (forall i :: 0 <= i < |roots| ==> g[roots[i]].op.output.name in r.registry)
      && (r.visited - visited) + (r.inputs - inputs) <= r.registry.Keys
  {
    var s := Seed(g, roots, registry, inputs, visited);
    SeedFacts(g, roots, registry, inputs, visited);
    assert RelNames(s.out) == [];
    DrainLedger(g, gen, s, inputs, s.visited);
    SeedCovered(g, roots, registry, inputs, visited);
    DrainCovered(g, gen, s, visited, inputs);
  }

  /**
   * The walk dequeues the roots first, in order, and every relation read by
   * a node it dequeues is in the registry at the end.
   */
  lemma SparkReadsRegistered(g: Graph, gen: Generated, roots: seq<nat>, registry: map<string, Relation>,
                             inputs: set<string>, visited: set<string>)
    requires ValidGraph(g) && InRange(g, roots)
    ensures var s := Seed(g, roots, registry, inputs, visited);
      var t := DrainTrace(g, gen, s);
      && |roots| <= |t| && t[..|roots|] == roots
      && ReadsRegistered(g, t, Drain(g, gen, s).registry)
  {
    var s := Seed(g, roots, registry, inputs, visited);
    SeedFacts(g, roots, registry, inputs, visited);
    assert RelNames(s.out) == [];
    DrainTraceQueue(g, gen, s);
    DrainRegistersReads(g, gen, s, inputs, s.visited);
  }

  /** The readiness test of one child: it stops at the first input that is not ready. */
  method CanAdd(rels: seq<Relation>, parents: seq<nat>, gen: Generated, visited: set<string>, inputs: set<string>)
    returns (canAdd: bool)
    ensures canAdd <==> Ready(rels, parents, gen, visited, inputs)
  {
    canAdd := true;
    var k := 0;
    while k < |rels|
      invariant k <= |rels|
      invariant canAdd <==> Ready(rels[..k], parents, gen, visited, inputs)
      invariant !canAdd ==> !Ready(rels, parents, gen, visited, inputs)
    {
      assert rels[..k + 1][k] == rels[k];
      var name := rels[k].name;
      if name !in visited && name !in inputs && gen(name, parents) {
        canAdd := false;
        break;
      }
      k := k + 1;
    }
    if canAdd {
      assert rels[..k] == rels;
    }
  }

  /** The translator, holding the registry of every relation its walks meet, by name. */
  class TranslatorViff {
    var relations: map<string, Relation>

    constructor()
      ensures relations == map[]
    {
      relations := map[];
    }

    /** The reads of a dequeued node: each relation is registered, and reported when it is an input. */
    method ReadRelations(rels: seq<Relation>, parents: seq<nat>, gen: Generated, visited: set<string>,
                         inputs: set<string>, out: seq<Relation>, ghost queue: seq<nat>)
      returns (inputs': set<string>, out': seq<Relation>)
      modifies this
      ensures WalkState(queue, visited, inputs', out', relations)
           == ReadAll(WalkState(queue, visited, inputs, out, old(relations)), rels, parents, gen)
    {
      inputs', out' := inputs, out;
      var k := 0;
      while k < |rels|
        invariant k <= |rels|
        invariant WalkState(queue, visited, inputs', out', relations)
               == ReadAll(WalkState(queue, visited, inputs, out, old(relations)), rels[..k], parents, gen)
      {
        assert rels[..k + 1][..k] == rels[..k];
        var rel := rels[k];
        if (|parents| == 0 || !gen(rel.name, parents)) && rel.name !in visited && rel.name !in inputs' {
          inputs' := inputs' + {rel.name};
          out' := out' + [rel];
          relations := relations[rel.name := rel];
        } else {
          relations := relations[rel.name := rel];
        }
        k := k + 1;
      }
      assert rels[..k] == rels;
    }

    /** The children of a dequeued node that pass the gate are registered and, when new, enqueued. */
    method PassChildren(g: Graph, gen: Generated, n: nat, children: seq<nat>, queue: seq<nat>,
                        visited: set<string>, inputs: set<string>, ghost out: seq<Relation>)
      returns (queue': seq<nat>, visited': set<string>)
      requires n < |g| && InRange(g, children)
      modifies this
      ensures WalkState(queue', visited', inputs, out, relations)
           == ChildAll(g, gen, n, WalkState(queue, visited, inputs, out, old(relations)), children)
    {
      queue', visited' := queue, visited;
      var j := 0;
      while j < |children|
        invariant j <= |children|
        invariant WalkState(queue', visited', inputs, out, relations)
               == ChildAll(g, gen, n, WalkState(queue, visited, inputs, out, old(relations)), children[..j])
      {
        assert children[..j + 1][..j] == children[..j];
        var child := children[j];
        var canAdd := CanAdd(g[child].op.inputs, g[n].parents, gen, visited', inputs);
        if canAdd || IsWhile(g[n].op) || IsWhile(g[child].op) {
          var rel := g[child].op.output;
          relations := relations[rel.name := rel];
          if rel.name !in visited' {
            visited' := visited' + {rel.name};
            queue' := queue' + [child];
          }
        }
        j := j + 1;
      }
      assert children[..j] == children;
    }

    /**
     * The readiness-gated walk from `roots`: returns the reported inputs in
     * report order with the grown input and visited names, and leaves the
     * registry as the reference walk does.
     */
    method DetermineInputsSpark(g: Graph, roots: seq<nat>, gen: Generated, inputs: set<string>, visited: set<string>)
      returns (inputRelsOut: seq<Relation>, inputs': set<string>, visited': set<string>)
      requires ValidGraph(g) && InRange(g, roots)
      modifies this
      ensures var r := Drain(g, gen, Seed(g, roots, old(relations), inputs, visited));
        inputRelsOut == r.out && inputs' == r.inputs && visited' == r.visited && relations == r.registry
    {
      inputRelsOut, inputs', visited' := [], inputs, visited;
      var toVisit: seq<nat> := [];
      var r := 0;
      while r < |roots|
        invariant r <= |roots|
        invariant WalkState(toVisit, visited', inputs', inputRelsOut, relations)
               == Seed(g, roots[..r], old(relations), inputs, visited)
      {
        assert roots[..r + 1][..r] == roots[..r];
        var rel := g[roots[r]].op.output;
        toVisit := toVisit + [roots[r]];
        visited' := visited' + {rel.name};
        relations := relations[rel.name := rel];
        r := r + 1;
      }
      assert roots[..r] == roots;
      ghost var start := WalkState(toVisit, visited', inputs', inputRelsOut, relations);
      while toVisit != []
        invariant InRange(g, toVisit)
        invariant Drain(g, gen, WalkState(toVisit, visited', inputs', inputRelsOut, relations)) == Drain(g, gen, start)
        decreases |OutNames(g) - visited'|, |toVisit|
      {
        ghost var cur := WalkState(toVisit, visited', inputs', inputRelsOut, relations);
        RoundMeasure(g, gen, cur);
        var node := toVisit[0];
        toVisit := toVisit[1..];
        inputs', inputRelsOut := ReadRelations(g[node].op.inputs, g[node].parents, gen, visited', inputs',
                                               inputRelsOut, toVisit);
        var children := g[node].loopChildren + g[node].children;
        KidsInRange(g, node);
        toVisit, visited' := PassChildren(g, gen, node, children, toVisit, visited', inputs', inputRelsOut);
        assert WalkState(toVisit, visited', inputs', inputRelsOut, relations) == Round(g, gen, cur);
      }
    }
  }
}
