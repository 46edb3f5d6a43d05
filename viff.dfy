/**
 * The code generation of the VIFF translator: the input discovery, the
 * input fragments, the scheduled protocol, the output fragments and the
 * fixed sections, concatenated in the order of the generated program.
 */
module Viff {
  import opened Catalog
  import opened Emitter
  import opened Resolver
  import opened Scheduler

  /** The names of the reported input relations. */
  function InputNames(pairs: set<(Relation, string)>): set<string> {
    set p | p in pairs :: p.0.name
  }

  /** The processed names the scheduling starts from: one per reported input. */
  method SeedProcessed(pairs: set<(Relation, string)>) returns (proc: set<string>)
    ensures forall name :: name in proc <==> exists p :: p in pairs && p.0.name == name
  {
    proc := {};
    var remaining := pairs;
    while remaining != {}
      invariant remaining <= pairs
      invariant forall name :: name in proc <==> exists p :: p in pairs - remaining && p.0.name == name
      decreases |remaining|
    {
      var p :| p in remaining;
      assert pairs - (remaining - {p}) == (pairs - remaining) + {p};
      proc := proc + {p.0.name};
      remaining := remaining - {p};
    }
  }

  /**
   * The generated program: imports and utilities, the inputs, the protocol,
   * the outputs, the protocol close and the entry section, in this order.
   * The inputs are those the discovery walk reports; the protocol starts
   * with their names processed. None when the protocol reaches an operator
   * without a secure translation.
   */
  method GenerateCode(g: Graph, dag: seq<nat>, dir: string, configLoc: string,
                      inputPath: (Operator, Relation) -> string, owns: Relation -> bool, expand: Expander)
    returns (code: Option<string>, ghost walk: seq<nat>, ghost inputOrder: seq<(Relation, string)>,
             ghost leafOrder: seq<nat>)
    requires Translatable(g) && InRange(g, dag)
    ensures InRange(g, walk) && walk == Pushes(g, dag, walk) && Enqueued(g, dag, walk)
    ensures Elems(inputOrder) == FirstReads(Events(g, walk), inputPath) && NoDup(inputOrder)
    ensures var r := Sched(g, dir, expand, dag, Dag("", {}, InputNames(FirstReads(Events(g, walk), inputPath)), []));
      && (code.Some? <==> r.Scheduled?)
      && (code.Some? ==>
        && Elems(leafOrder) == r.dag.leaves && NoDup(leafOrder) && InRange(g, leafOrder)
        && code.value == ImportAndUtils(dir, expand) + InputCode(inputOrder, dir, owns, expand) + r.dag.code
                         + OutputCode(g, leafOrder, dir, expand) + CloseProtocol(dir, expand)
                         + MainSection(dir, configLoc, expand))
    ensures code.None? ==> exists n :: 0 <= n < |g| && IsWhile(g[n].op)
    ensures code.Some? ==> ImportAndUtils(dir, expand) <= code.value
  {
    var importAndUtils := ImportAndUtils(dir, expand);
    var inputRelsPaths;
    inputRelsPaths, walk := GetInputRelsAndPaths(g, dag, inputPath);
    var inputs;
    inputs, inputOrder := TranslateInput(inputRelsPaths, dir, owns, expand);
    var proc := SeedProcessed(inputRelsPaths);
    assert proc == InputNames(inputRelsPaths);
    ProtocolFacts(g, dir, expand, dag, proc);
    var failed, protocolOps, leaves, processed, trace := TranslateDAG(g, dag, dir, expand, "", {}, proc, []);
    if failed.Some? {
      code, leafOrder := None, [];
      return;
    }
    forall n | n in leaves
      ensures n < |g|
    {
      LeafSetMembers(g, trace, n);
    }
    var output;
    output, leafOrder := TranslateOutput(g, leaves, dir, expand);
    var closeProtocol := CloseProtocol(dir, expand);
    var main := MainSection(dir, configLoc, expand);
    code := Some(importAndUtils + inputs + protocolOps + output + closeProtocol + main);
  }
}
