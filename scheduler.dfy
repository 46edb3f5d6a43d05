/**
 * The scheduling of the VIFF translator: an operator is scheduled once its
 * output is not yet processed and all its inputs are; scheduling emits its
 * fragment, marks its output processed, and either records the node as a
 * leaf or continues with its ordinary children.
 *
 * `Sched` is the reference of `TranslateDAG`. Besides the code, leaves and
 * processed names it records the trace `emitted` of scheduled nodes, so that
 * `Inv` and `Rooted` can state what every scheduled node contributed.
 */
module Scheduler {
  import opened Catalog
  import opened Emitter

  /** Every edge points into the arena and every operator has the inputs and columns it reads. */
  predicate Translatable(g: Graph) {
    ValidGraph(g) && forall i :: 0 <= i < |g| ==> WellFormed(g[i].op)
  }

  /** An operator is ready: its output is not processed, and every input is. */
  predicate Schedulable(op: Operator, processed: set<string>) {
    op.output.name !in processed && forall k :: 0 <= k < |op.inputs| ==> op.inputs[k].name in processed
  }

  /** The readiness check; it returns at the first input that is missing. */
  method CanSchedule(op: Operator, processed: set<string>) returns (b: bool)
    ensures b <==> Schedulable(op, processed)
  {
    var output := op.output.name;
    if output in processed {
      return false;
    }
    var inputs := op.inputs;
    var k := 0;
    while k < |inputs|
      invariant k <= |inputs|
      invariant forall j :: 0 <= j < k ==> inputs[j].name in processed
    {
      if inputs[k].name !in processed {
        return false;
      }
      k := k + 1;
    }
    return true;
  }

  /** The state the scheduling grows, with the trace of the nodes it scheduled. */
  datatype Dag = Dag(code: string, leaves: set<nat>, processed: set<string>, emitted: seq<nat>)

  /** The outcome of scheduling: the grown state, or the node whose operator has no fragment. */
  datatype Step = Scheduled(dag: Dag) | Unsupported(node: nat)

  /** Scheduling node `n` with fragment `c`: code appended, output processed, a leaf recorded. */
  function Emit(g: Graph, d: Dag, n: nat, c: string): (r: Dag)
    requires n < |g|
  {
    Dag(d.code + c, if IsLeaf(g[n]) then d.leaves + {n} else d.leaves,
        d.processed + {g[n].op.output.name}, d.emitted + [n])
  }

  /** The scheduling of `ns` in order; it stops at the first node that has no fragment. */
  function Sched(g: Graph, dir: string, expand: Expander, ns: seq<nat>, d: Dag): (r: Step)
    requires Translatable(g) && InRange(g, ns)
    ensures r.Scheduled? ==> d.processed <= r.dag.processed
    decreases |OutNames(g) - d.processed|, |ns|
  {
    if ns == [] then Scheduled(d)
    else
      match SchedOne(g, dir, expand, ns[0], d)
      case Unsupported(n) => Unsupported(n)
      case Scheduled(d1) =>
        ComplementMonotone(OutNames(g), d.processed, d1.processed);
        Sched(g, dir, expand, ns[1..], d1)
  }

  /**
   * The scheduling of one node: nothing when it is not ready; otherwise its
   * fragment is emitted and, unless it is a leaf, its ordinary children follow.
   */
  function SchedOne(g: Graph, dir: string, expand: Expander, n: nat, d: Dag): (r: Step)
    requires Translatable(g) && n < |g|
    ensures r.Scheduled? ==> d.processed <= r.dag.processed
    decreases |OutNames(g) - d.processed|, 0
  {
    var op := g[n].op;
    if !Schedulable(op, d.processed) then Scheduled(d)
    else
      match OperatorCode(op, dir, expand)
      case None => Unsupported(n)
      case Some(c) =>
        var d1 := Emit(g, d, n, c);
        ComplementShrinks(OutNames(g), d.processed, op.output.name);
        if IsLeaf(g[n]) then Scheduled(d1) else Sched(g, dir, expand, g[n].children, d1)
  }

  /**
   * Translates the nodes of `nextSet` that can be scheduled, recursing into
   * the ordinary children of every scheduled non-leaf; stops at an operator
   * that has no fragment.
   */
  method TranslateDAG(g: Graph, nextSet: seq<nat>, dir: string, expand: Expander,
                      code: string, leaves: set<nat>, processed: set<string>, ghost emitted: seq<nat>)
    returns (unsupported: Option<nat>, code': string, leaves': set<nat>, processed': set<string>,
             ghost emitted': seq<nat>)
    requires Translatable(g) && InRange(g, nextSet)
    ensures Sched(g, dir, expand, nextSet, Dag(code, leaves, processed, emitted))
         == if unsupported.Some? then Unsupported(unsupported.value)
            else Scheduled(Dag(code', leaves', processed', emitted'))
    ensures unsupported.Some? ==> unsupported.value < |g| && IsWhile(g[unsupported.value].op)
    ensures unsupported.None? ==> processed <= processed'
    decreases |OutNames(g) - processed|, |nextSet|
  {
    SchedFails(g, dir, expand, nextSet, Dag(code, leaves, processed, emitted));
    unsupported := None;
    code', leaves', processed', emitted' := code, leaves, processed, emitted;
    ghost var start := Dag(code, leaves, processed, emitted);
    var i := 0;
    while i < |nextSet|
      invariant i <= |nextSet| && processed <= processed'
      invariant Sched(g, dir, expand, nextSet, start)
             == Sched(g, dir, expand, nextSet[i..], Dag(code', leaves', processed', emitted'))
    {
      ghost var cur := Dag(code', leaves', processed', emitted');
      assert nextSet[i..][0] == nextSet[i] && nextSet[i..][1..] == nextSet[i + 1..];
      ComplementMonotone(OutNames(g), processed, cur.processed);
      var failed;
      failed, code', leaves', processed', emitted' :=
        TranslateNode(g, nextSet[i], dir, expand, code', leaves', processed', emitted');
      if failed.Some? {
        unsupported := failed;
        return;
      }
      i := i + 1;
    }
  }

  /** The body of the scheduling loop for one node. */
  method TranslateNode(g: Graph, node: nat, dir: string, expand: Expander,
                       code: string, leaves: set<nat>, processed: set<string>, ghost emitted: seq<nat>)
    returns (unsupported: Option<nat>, code': string, leaves': set<nat>, processed': set<string>,
             ghost emitted': seq<nat>)
    requires Translatable(g) && node < |g|
    ensures SchedOne(g, dir, expand, node, Dag(code, leaves, processed, emitted))
         == if unsupported.Some? then Unsupported(unsupported.value)
            else Scheduled(Dag(code', leaves', processed', emitted'))
    ensures unsupported.Some? ==> unsupported.value < |g| && IsWhile(g[unsupported.value].op)
    ensures unsupported.None? ==> processed <= processed'
    decreases |OutNames(g) - processed|, 0
  {
    SchedOneFails(g, dir, expand, node, Dag(code, leaves, processed, emitted));
    unsupported := None;
    code', leaves', processed', emitted' := code, leaves, processed, emitted;
    var op := g[node].op;
    var outputRel := op.output.name;
    var ready := CanSchedule(op, processed);
    if ready {
      var jobCode := TranslateOperator(op, dir, expand);
      if jobCode.None? {
        unsupported := Some(node);
        return;
      }
      code' := code' + jobCode.value;
      processed' := processed' + {outputRel};
      emitted' := emitted' + [node];
      if IsLeaf(g[node]) {
        leaves' := leaves' + {node};
      } else {
        ComplementShrinks(OutNames(g), processed, outputRel);
        unsupported, code', leaves', processed', emitted' :=
          TranslateDAG(g, g[node].children, dir, expand, code', leaves', processed', emitted');
      }
    }
  }

  /** The output names of the nodes of `e`, in order. */
  function OutSeq(g: Graph, e: seq<nat>): (r: seq<string>)
    requires InRange(g, e)
    ensures |r| == |e| && forall k :: 0 <= k < |e| ==> r[k] == g[e[k]].op.output.name
  {
    seq(|e|, k requires 0 <= k < |e| => g[e[k]].op.output.name)
  }

  /** The fragment of one node's operator; empty for an operator that has none. */
  function Fragment(g: Graph, dir: string, expand: Expander, n: nat): string
    requires Translatable(g) && n < |g|
  {
    match OperatorCode(g[n].op, dir, expand)
    case Some(c) => c
    case None => ""
  }

  /** The fragments of the nodes of `e`, concatenated in order. */
  function Fragments(g: Graph, dir: string, expand: Expander, e: seq<nat>): string
    requires Translatable(g) && InRange(g, e)
  {
    if e == [] then ""
    else
      assert InRange(g, e[..|e| - 1]);
      Fragments(g, dir, expand, e[..|e| - 1]) + Fragment(g, dir, expand, e[|e| - 1])
  }

  /** The leaf nodes of `e`. */
  function LeafSet(g: Graph, e: seq<nat>): set<nat>
    requires InRange(g, e)
  {
    if e == [] then {}
    else
      assert InRange(g, e[..|e| - 1]);
      LeafSet(g, e[..|e| - 1]) + (if IsLeaf(g[e[|e| - 1]]) then {e[|e| - 1]} else {})
  }

  /** The `i`th scheduled node read only names already processed: seeded ones or earlier outputs. */
  predicate ReadyAt(g: Graph, seed: set<string>, e: seq<nat>, i: nat)
    requires InRange(g, e) && i < |e|
  {
    forall k :: 0 <= k < |g[e[i]].op.inputs| ==> g[e[i]].op.inputs[k].name in seed + Elems(OutSeq(g, e)[..i])
  }

  /**
   * The scheduling state explained by its trace: the processed names are the
   * seed plus the scheduled outputs, the code is their fragments in order, the
   * leaves are the scheduled leaf nodes; every output name was scheduled once
   * and was not seeded, no loop operator was scheduled, and every scheduled
   * node read only names already processed.
   */
  predicate Inv(g: Graph, dir: string, expand: Expander, seed: set<string>, d: Dag)
    requires Translatable(g)
  {
    && InRange(g, d.emitted)
    && d.processed == seed + Elems(OutSeq(g, d.emitted))
    && d.code == Fragments(g, dir, expand, d.emitted)
    && d.leaves == LeafSet(g, d.emitted)
    && NoDup(OutSeq(g, d.emitted))
    && (forall k :: 0 <= k < |d.emitted| ==> g[d.emitted[k]].op.output.name !in seed && !IsWhile(g[d.emitted[k]].op))
    && (forall i :: 0 <= i < |d.emitted| ==> ReadyAt(g, seed, d.emitted, i))
  }

  /** Emitting keeps the readiness of the earlier nodes and establishes that of the new one. */
  lemma EmitReady(g: Graph, seed: set<string>, e: seq<nat>, n: nat, processed: set<string>)
    requires InRange(g, e) && n < |g| && processed == seed + Elems(OutSeq(g, e))
    requires forall i :: 0 <= i < |e| ==> ReadyAt(g, seed, e, i)
    requires Schedulable(g[n].op, processed)
    ensures InRange(g, e + [n])
    ensures forall i :: 0 <= i < |e| + 1 ==> ReadyAt(g, seed, e + [n], i)
  {
    var e' := e + [n];
    assert InRange(g, e');
    forall i | 0 <= i < |e'|
      ensures ReadyAt(g, seed, e', i)
    {
      assert OutSeq(g, e')[..i] == OutSeq(g, e)[..i];
      if i == |e| {
        assert OutSeq(g, e)[..i] == OutSeq(g, e);
      } else {
        assert e'[i] == e[i] && ReadyAt(g, seed, e, i);
      }
    }
  }

  /** Scheduling a ready node whose operator has a fragment keeps the invariant. */
  lemma EmitKeepsInv(g: Graph, dir: string, expand: Expander, seed: set<string>, d: Dag, n: nat, c: string)
    requires Translatable(g) && n < |g| && Inv(g, dir, expand, seed, d)
    requires Schedulable(g[n].op, d.processed) && OperatorCode(g[n].op, dir, expand) == Some(c)
    ensures Inv(g, dir, expand, seed, Emit(g, d, n, c))
  {
    var e := d.emitted;
    var name := g[n].op.output.name;
    EmitReady(g, seed, e, n, d.processed);
    EmitFragments(g, dir, expand, e, n, c);
    assert OutSeq(g, e + [n]) == OutSeq(g, e) + [name];
    ElemsSnoc(OutSeq(g, e), name);
    NoDupSnoc(OutSeq(g, e), name);
    OperatorCodeTotal(g[n].op, dir, expand);
    var e' := e + [n];
    assert Emit(g, d, n, c).processed == seed + Elems(OutSeq(g, e'));
    forall k | 0 <= k < |e'|
      ensures g[e'[k]].op.output.name !in seed && !IsWhile(g[e'[k]].op)
    {
      if k < |e| {
        assert e'[k] == e[k];
      }
    }
  }

  /** Emitting appends the node's fragment to the code and records it when it is a leaf. */
  lemma EmitFragments(g: Graph, dir: string, expand: Expander, e: seq<nat>, n: nat, c: string)
    requires Translatable(g) && InRange(g, e) && n < |g| && OperatorCode(g[n].op, dir, expand) == Some(c)
    ensures InRange(g, e + [n])
    ensures Fragments(g, dir, expand, e + [n]) == Fragments(g, dir, expand, e) + c
    ensures LeafSet(g, e + [n]) == LeafSet(g, e) + (if IsLeaf(g[n]) then {n} else {})
  {
    assert (e + [n])[..|e|] == e;
  }

  /**
   * Scheduling keeps every property of the state that scheduling one ready
   * node with a fragment keeps.
   */
  lemma {:induction false} SchedPreserves(g: Graph, dir: string, expand: Expander, ns: seq<nat>, d: Dag,
                                          inv: Dag -> bool)
    requires Translatable(g) && InRange(g, ns) && inv(d)
    requires forall d': Dag, n: nat, c: string ::
      (n < |g| && inv(d') && Schedulable(g[n].op, d'.processed) && OperatorCode(g[n].op, dir, expand) == Some(c))
      ==> inv(Emit(g, d', n, c))
    ensures Sched(g, dir, expand, ns, d).Scheduled? ==> inv(Sched(g, dir, expand, ns, d).dag)
    decreases |OutNames(g) - d.processed|, |ns|
  {
    if ns != [] {
      SchedOnePreserves(g, dir, expand, ns[0], d, inv);
      var one := SchedOne(g, dir, expand, ns[0], d);
      if one.Scheduled? {
        ComplementMonotone(OutNames(g), d.processed, one.dag.processed);
        SchedPreserves(g, dir, expand, ns[1..], one.dag, inv);
      }
    }
  }

  lemma {:induction false} SchedOnePreserves(g: Graph, dir: string, expand: Expander, n: nat, d: Dag,
                                             inv: Dag -> bool)
    requires Translatable(g) && n < |g| && inv(d)
    requires forall d': Dag, n: nat, c: string ::
      (n < |g| && inv(d') && Schedulable(g[n].op, d'.processed) && OperatorCode(g[n].op, dir, expand) == Some(c))
      ==> inv(Emit(g, d', n, c))
    ensures SchedOne(g, dir, expand, n, d).Scheduled? ==> inv(SchedOne(g, dir, expand, n, d).dag)
    decreases |OutNames(g) - d.processed|, 0
  {
    var op := g[n].op;
    if Schedulable(op, d.processed) && OperatorCode(op, dir, expand).Some? && !IsLeaf(g[n]) {
      var d1 := Emit(g, d, n, OperatorCode(op, dir, expand).value);
      ComplementShrinks(OutNames(g), d.processed, op.output.name);
      SchedPreserves(g, dir, expand, g[n].children, d1, inv);
    }
  }

  /** What scheduling does to a state that satisfies the invariant. */
  lemma SchedKeepsInv(g: Graph, dir: string, expand: Expander, ns: seq<nat>, d: Dag, seed: set<string>)
    requires Translatable(g) && InRange(g, ns) && Inv(g, dir, expand, seed, d)
    ensures Sched(g, dir, expand, ns, d).Scheduled? ==> Inv(g, dir, expand, seed, Sched(g, dir, expand, ns, d).dag)
  {
    var inv := (x: Dag) => Translatable(g) && Inv(g, dir, expand, seed, x);
    forall d': Dag, n: nat, c: string |
      n < |g| && inv(d') && Schedulable(g[n].op, d'.processed) && OperatorCode(g[n].op, dir, expand) == Some(c)
      ensures inv(Emit(g, d', n, c))
    {
      EmitKeepsInv(g, dir, expand, seed, d', n, c);
    }
    SchedPreserves(g, dir, expand, ns, d, inv);
  }

  /** `d` extends the trace `e0` and stays in the arena. */
  predicate ExtendsTrace(g: Graph, e0: seq<nat>, d: Dag) {
    InRange(g, d.emitted) && |e0| <= |d.emitted| && d.emitted[..|e0|] == e0
  }

  /** Scheduling only appends to the trace. */
  lemma SchedExtends(g: Graph, dir: string, expand: Expander, ns: seq<nat>, d: Dag)
    requires Translatable(g) && InRange(g, ns) && InRange(g, d.emitted)
    ensures Sched(g, dir, expand, ns, d).Scheduled? ==> ExtendsTrace(g, d.emitted, Sched(g, dir, expand, ns, d).dag)
    ensures forall n :: 0 <= n < |g| ==>
      SchedOne(g, dir, expand, n, d).Scheduled? ==> ExtendsTrace(g, d.emitted, SchedOne(g, dir, expand, n, d).dag)
  {
    var inv := (x: Dag) => ExtendsTrace(g, d.emitted, x);
    forall d': Dag, n: nat, c: string |
      n < |g| && inv(d') && Schedulable(g[n].op, d'.processed) && OperatorCode(g[n].op, dir, expand) == Some(c)
      ensures inv(Emit(g, d', n, c))
    {
      assert (d'.emitted + [n])[..|d.emitted|] == d'.emitted[..|d.emitted|];
    }
    assert d.emitted[..|d.emitted|] == d.emitted;
    SchedPreserves(g, dir, expand, ns, d, inv);
    forall n | 0 <= n < |g|
      ensures SchedOne(g, dir, expand, n, d).Scheduled? ==> inv(SchedOne(g, dir, expand, n, d).dag)
    {
      SchedOnePreserves(g, dir, expand, n, d, inv);
    }
  }

  /** `x` is a root, or an ordinary child of one of the first `i` nodes of `e` that is not a leaf. */
  predicate Reached(g: Graph, roots: seq<nat>, e: seq<nat>, i: nat, x: nat)
    requires InRange(g, e) && i <= |e|
  {
    x in roots || exists j :: 0 <= j < i && !IsLeaf(g[e[j]]) && x in g[e[j]].children
  }

  /** Every node of the trace was reached before it was scheduled. */
  predicate Rooted(g: Graph, roots: seq<nat>, e: seq<nat>)
    requires InRange(g, e)
  {
    forall i :: 0 <= i < |e| ==> Reached(g, roots, e, i, e[i])
  }

  lemma ReachedGrow(g: Graph, roots: seq<nat>, e: seq<nat>, e': seq<nat>, i: nat, i': nat, x: nat)
    requires InRange(g, e) && InRange(g, e') && i <= i' <= |e'| && i <= |e| && e'[..i] == e[..i]
    requires Reached(g, roots, e, i, x)
    ensures Reached(g, roots, e', i', x)
  {
    if x !in roots {
      var j :| 0 <= j < i && !IsLeaf(g[e[j]]) && x in g[e[j]].children;
      assert e'[j] == e'[..i][j] == e[..i][j] == e[j];
    }
  }

  /** Scheduling only ever schedules reached nodes, and recurses only into ordinary children. */
  lemma {:induction false} SchedRooted(g: Graph, dir: string, expand: Expander, roots: seq<nat>, ns: seq<nat>, d: Dag)
    requires Translatable(g) && InRange(g, ns) && InRange(g, d.emitted) && Rooted(g, roots, d.emitted)
    requires forall x :: x in ns ==> Reached(g, roots, d.emitted, |d.emitted|, x)
    ensures var r := Sched(g, dir, expand, ns, d);
      r.Scheduled? ==> InRange(g, r.dag.emitted) && Rooted(g, roots, r.dag.emitted)
    decreases |OutNames(g) - d.processed|, |ns|
  {
    if ns != [] {
      SchedOneRooted(g, dir, expand, roots, ns[0], d);
      var one := SchedOne(g, dir, expand, ns[0], d);
      if one.Scheduled? {
        SchedExtends(g, dir, expand, ns, d);
        forall x | x in ns[1..]
          ensures Reached(g, roots, one.dag.emitted, |one.dag.emitted|, x)
        {
          ReachedGrow(g, roots, d.emitted, one.dag.emitted, |d.emitted|, |one.dag.emitted|, x);
        }
        ComplementMonotone(OutNames(g), d.processed, one.dag.processed);
        SchedRooted(g, dir, expand, roots, ns[1..], one.dag);
      }
    }
  }

  lemma {:induction false} SchedOneRooted(g: Graph, dir: string, expand: Expander, roots: seq<nat>, n: nat, d: Dag)
    requires Translatable(g) && n < |g| && InRange(g, d.emitted) && Rooted(g, roots, d.emitted)
    requires Reached(g, roots, d.emitted, |d.emitted|, n)
    ensures var r := SchedOne(g, dir, expand, n, d);
      r.Scheduled? ==> InRange(g, r.dag.emitted) && Rooted(g, roots, r.dag.emitted)
    decreases |OutNames(g) - d.processed|, 0
  {
    var op := g[n].op;
    if Schedulable(op, d.processed) && OperatorCode(op, dir, expand).Some? {
      var e := d.emitted;
      var d1 := Emit(g, d, n, OperatorCode(op, dir, expand).value);
      var e' := e + [n];
      assert InRange(g, e');
      forall i | 0 <= i < |e'|
        ensures Reached(g, roots, e', i, e'[i])
      {
        assert e'[..i] == e[..i] by {
          assert e'[..|e|] == e;
        }
        if i < |e| {
          assert e'[i] == e[i];
          ReachedGrow(g, roots, e, e', i, i, e[i]);
        } else {
          ReachedGrow(g, roots, e, e', i, i, n);
        }
      }
      if !IsLeaf(g[n]) {
        forall x | x in g[n].children
          ensures Reached(g, roots, e', |e'|, x)
        {
          assert e'[|e|] == n;
        }
        ComplementShrinks(OutNames(g), d.processed, op.output.name);
        SchedRooted(g, dir, expand, roots, g[n].children, d1);
      }
    }
  }

  /** Scheduling fails only at a node of the arena whose operator is a loop. */
  lemma {:induction false} SchedFails(g: Graph, dir: string, expand: Expander, ns: seq<nat>, d: Dag)
    requires Translatable(g) && InRange(g, ns)
    ensures var r := Sched(g, dir, expand, ns, d); r.Unsupported? ==> r.node < |g| && IsWhile(g[r.node].op)
    decreases |OutNames(g) - d.processed|, |ns|
  {
    if ns != [] {
      SchedOneFails(g, dir, expand, ns[0], d);
      var one := SchedOne(g, dir, expand, ns[0], d);
      if one.Scheduled? {
        ComplementMonotone(OutNames(g), d.processed, one.dag.processed);
        SchedFails(g, dir, expand, ns[1..], one.dag);
      }
    }
  }

  lemma {:induction false} SchedOneFails(g: Graph, dir: string, expand: Expander, n: nat, d: Dag)
    requires Translatable(g) && n < |g|
    ensures var r := SchedOne(g, dir, expand, n, d); r.Unsupported? ==> r.node < |g| && IsWhile(g[r.node].op)
    decreases |OutNames(g) - d.processed|, 0
  {
    var op := g[n].op;
    OperatorCodeTotal(op, dir, expand);
    if Schedulable(op, d.processed) && OperatorCode(op, dir, expand).Some? && !IsLeaf(g[n]) {
      var d1 := Emit(g, d, n, OperatorCode(op, dir, expand).value);
      ComplementShrinks(OutNames(g), d.processed, op.output.name);
      SchedFails(g, dir, expand, g[n].children, d1);
    }
  }

  /** A node that is not ready contributes nothing: no code, no leaf, no processed name. */
  lemma SchedOneUnready(g: Graph, dir: string, expand: Expander, n: nat, d: Dag)
    requires Translatable(g) && n < |g| && !Schedulable(g[n].op, d.processed)
    ensures SchedOne(g, dir, expand, n, d) == Scheduled(d)
  {
  }

  /** The leaf set holds exactly the trace's nodes that are leaves. */
  lemma {:induction false} LeafSetMembers(g: Graph, e: seq<nat>, x: nat)
    requires InRange(g, e)
    ensures x in LeafSet(g, e) <==> exists k :: 0 <= k < |e| && e[k] == x && IsLeaf(g[e[k]])
  {
    if e != [] {
      var pre := e[..|e| - 1];
      assert InRange(g, pre);
      LeafSetMembers(g, pre, x);
      if x in LeafSet(g, pre) {
        var k :| 0 <= k < |pre| && pre[k] == x && IsLeaf(g[pre[k]]);
        assert e[k] == pre[k];
      }
      if exists k :: 0 <= k < |e| && e[k] == x && IsLeaf(g[e[k]]) {
        var k :| 0 <= k < |e| && e[k] == x && IsLeaf(g[e[k]]);
        if k < |pre| {
          assert pre[k] == e[k];
        }
      }
    }
  }

  /**
   * Scheduling from a seeded state with nothing emitted: a successful run
   * satisfies the invariant and schedules only reached nodes; a failed run
   * stopped at a loop operator.
   */
  lemma ProtocolFacts(g: Graph, dir: string, expand: Expander, roots: seq<nat>, seed: set<string>)
    requires Translatable(g) && InRange(g, roots)
    ensures var r := Sched(g, dir, expand, roots, Dag("", {}, seed, []));
      && (r.Scheduled? ==> Inv(g, dir, expand, seed, r.dag) && Rooted(g, roots, r.dag.emitted))
      && (r.Unsupported? ==> r.node < |g| && IsWhile(g[r.node].op))
  {
    var d := Dag("", {}, seed, []);
    assert OutSeq(g, []) == [];
    assert Inv(g, dir, expand, seed, d);
    SchedKeepsInv(g, dir, expand, roots, d, seed);
    SchedRooted(g, dir, expand, roots, roots, d);
    SchedFails(g, dir, expand, roots, d);
  }
}
