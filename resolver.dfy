/**
 * Input discovery of the VIFF translator: a breadth-first walk from the
 * roots of the operator graph that reports every relation read before any
 * operator of the walk has produced or read it.
 *
 * The walk is specified by two independent definitions:
 *  - `Pushes`, the order in which a FIFO walk that marks nodes when it
 *    enqueues them visits the graph; the dequeue order of the walk is the
 *    fixpoint `order == Pushes(g, roots, order)`;
 *  - `Events` and `FirstReads`, the reads and productions of the visited
 *    operators in that order, and the reads that come first for their name.
 */
module Resolver {
  import opened Catalog

  /** Where the walk goes from a node: its loop children, then its ordinary children. */
  function Kids(g: Graph, n: nat): seq<nat>
    requires n < |g|
  {
    g[n].loopChildren + g[n].children
  }

  /** The members of `cs` not in `seen`, each at its first occurrence, in order. */
  function Fresh(cs: seq<nat>, seen: set<nat>): seq<nat> {
    if cs == [] then []
    else
      var f := Fresh(cs[..|cs| - 1], seen);
      var c := cs[|cs| - 1];
      if c in seen || c in f then f else f + [c]
  }

  lemma FreshSnoc(cs: seq<nat>, c: nat, seen: set<nat>)
    ensures Fresh(cs + [c], seen)
         == if c in seen || c in Fresh(cs, seen) then Fresh(cs, seen) else Fresh(cs, seen) + [c]
  {
    assert (cs + [c])[..|cs|] == cs;
  }

  /** `Fresh` keeps exactly the unseen members of `cs`, once each. */
  lemma {:induction false} FreshFacts(cs: seq<nat>, seen: set<nat>)
    ensures forall x :: x in Fresh(cs, seen) <==> x in cs && x !in seen
    ensures NoDup(Fresh(cs, seen))
  {
    if cs != [] {
      var pre := cs[..|cs| - 1];
      FreshFacts(pre, seen);
      assert cs == pre + [cs[|cs| - 1]];
    }
  }

  /**
   * Everything a FIFO walk has enqueued once it has dequeued `done`: the
   * roots, then for each dequeued node its children not enqueued before.
   */
  function Pushes(g: Graph, roots: seq<nat>, done: seq<nat>): seq<nat>
    requires InRange(g, done)
  {
    if done == [] then roots
    else
      var before := Pushes(g, roots, done[..|done| - 1]);
      before + Fresh(Kids(g, done[|done| - 1]), Elems(before))
  }

  /**
   * A FIFO walk dequeues only what it has already enqueued: the `k`-th node
   * of `done` lies within what the walk had pushed after its first `k` dequeues.
   */
  predicate Enqueued(g: Graph, roots: seq<nat>, done: seq<nat>)
    requires InRange(g, done)
  {
    forall k :: 0 <= k < |done| ==> k < |Pushes(g, roots, done[..k])|
  }

  /** What the walk has pushed only grows with the dequeued prefix. */
  lemma {:induction false} PushesPrefix(g: Graph, roots: seq<nat>, done: seq<nat>, j: nat)
    requires InRange(g, done) && j <= |done|
    ensures InRange(g, done[..j])
    ensures Pushes(g, roots, done[..j]) <= Pushes(g, roots, done)
    decreases |done| - j
  {
    if j < |done| {
      var pre := done[..|done| - 1];
      assert pre[..j] == done[..j];
      PushesPrefix(g, roots, pre, j);
    } else {
      assert done[..j] == done;
    }
  }

  lemma EnqueuedSnoc(g: Graph, roots: seq<nat>, done: seq<nat>, n: nat)
    requires InRange(g, done) && n < |g| && Enqueued(g, roots, done)
    requires |done| < |Pushes(g, roots, done)|
    ensures InRange(g, done + [n]) && Enqueued(g, roots, done + [n])
  {
    var d' := done + [n];
    assert InRange(g, d');
    forall k | 0 <= k < |d'|
      ensures k < |Pushes(g, roots, d'[..k])|
    {
      assert d'[..k] == done[..k];
    }
  }

  /** A dequeue order of a FIFO walk from `roots`: a fixpoint of `Pushes` that dequeues only what it enqueued. */
  predicate IsWalk(g: Graph, roots: seq<nat>, o: seq<nat>) {
    InRange(g, o) && o == Pushes(g, roots, o) && Enqueued(g, roots, o)
  }

  /** The `j`-th dequeued node is the `j`-th node pushed by the first `j` dequeues. */
  lemma WalkNext(g: Graph, roots: seq<nat>, o: seq<nat>, j: nat)
    requires IsWalk(g, roots, o) && j < |o|
    ensures InRange(g, o[..j]) && j < |Pushes(g, roots, o[..j])| && o[j] == Pushes(g, roots, o[..j])[j]
  {
    PushesPrefix(g, roots, o, j);
  }

  /** Two walks from the same roots agree on every common prefix. */
  lemma {:induction false} WalksAgree(g: Graph, roots: seq<nat>, o1: seq<nat>, o2: seq<nat>, k: nat)
    requires IsWalk(g, roots, o1) && IsWalk(g, roots, o2)
    requires k <= |o1| && k <= |o2|
    ensures o1[..k] == o2[..k]
  {
    if k > 0 {
      var j := k - 1;
      WalksAgree(g, roots, o1, o2, j);
      WalkNext(g, roots, o1, j);
      WalkNext(g, roots, o2, j);
      assert o1[..k] == o1[..j] + [o1[j]];
      assert o2[..k] == o2[..j] + [o2[j]];
    }
  }

  /** A shorter walk is never a prefix of a longer one from the same roots. */
  lemma WalkNotPrefix(g: Graph, roots: seq<nat>, o1: seq<nat>, o2: seq<nat>)
    requires IsWalk(g, roots, o1) && IsWalk(g, roots, o2) && |o1| < |o2|
    ensures o2[..|o1|] != o1
  {
    WalkNext(g, roots, o2, |o1|);
  }

  /**
   * The dequeue order of a walk is determined by the graph and the roots:
   * the fixpoint equation together with `Enqueued` has exactly one solution.
   */
  lemma WalkUnique(g: Graph, roots: seq<nat>, o1: seq<nat>, o2: seq<nat>)
    requires IsWalk(g, roots, o1) && IsWalk(g, roots, o2)
    ensures o1 == o2
  {
    if |o1| < |o2| {
      WalksAgree(g, roots, o1, o2, |o1|);
      WalkNotPrefix(g, roots, o1, o2);
      assert false;
    } else if |o2| < |o1| {
      WalksAgree(g, roots, o1, o2, |o2|);
      WalkNotPrefix(g, roots, o2, o1);
      assert false;
    } else {
      WalksAgree(g, roots, o1, o2, |o1|);
      assert o1 == o1[..|o1|] && o2 == o2[..|o2|];
    }
  }

  /** A reading or a production of a relation name by an operator of the walk. */
  datatype Event = Read(rel: Relation, reader: Operator) | Produce(name: string)

  function EventName(e: Event): string {
    if e.Read? then e.rel.name else e.name
  }

  /** The reads of one operator, in input order. */
  function Reads(op: Operator): (r: seq<Event>)
    ensures |r| == |op.inputs| && forall k :: 0 <= k < |op.inputs| ==> r[k] == Read(op.inputs[k], op)
  {
    seq(|op.inputs|, k requires 0 <= k < |op.inputs| => Read(op.inputs[k], op))
  }

  /** The events of one visited operator: its reads in input order, then its output. */
  function NodeEvents(op: Operator): (r: seq<Event>)
    ensures |r| == |op.inputs| + 1 && r[|op.inputs|] == Produce(op.output.name)
    ensures forall k :: 0 <= k < |op.inputs| ==> r[k] == Read(op.inputs[k], op)
  {
    Reads(op) + [Produce(op.output.name)]
  }

  /** The events of the walk over `done`. */
  function Events(g: Graph, done: seq<nat>): seq<Event>
    requires InRange(g, done)
  {
    if done == [] then []
    else Events(g, done[..|done| - 1]) + NodeEvents(g[done[|done| - 1]].op)
  }

  /** The names some event of `ev` mentions. */
  function Names(ev: seq<Event>): set<string> {
    if ev == [] then {} else Names(ev[..|ev| - 1]) + {EventName(ev[|ev| - 1])}
  }

  /** The reported pair of a read: the relation and the path its reader gives for it. */
  function Entry(e: Event, inputPath: (Operator, Relation) -> string): (Relation, string)
    requires e.Read?
  {
    (e.rel, inputPath(e.reader, e.rel))
  }

  /** A read at position `i` of a name no earlier event mentions. */
  predicate IsFirstRead(ev: seq<Event>, i: nat)
    requires i < |ev|
  {
    ev[i].Read? && ev[i].rel.name !in Names(ev[..i])
  }

  /** The entries of the first reads of `ev`. */
  function FirstReads(ev: seq<Event>, inputPath: (Operator, Relation) -> string): set<(Relation, string)> {
    if ev == [] then {}
    else
      var e := ev[|ev| - 1];
      FirstReads(ev[..|ev| - 1], inputPath)
        + (if e.Read? && e.rel.name !in Names(ev[..|ev| - 1]) then {Entry(e, inputPath)} else {})
  }

  lemma NamesSnoc(ev: seq<Event>, e: Event)
    ensures Names(ev + [e]) == Names(ev) + {EventName(e)}
  {
    assert (ev + [e])[..|ev|] == ev;
  }

  lemma FirstReadsSnoc(ev: seq<Event>, e: Event, inputPath: (Operator, Relation) -> string)
    ensures FirstReads(ev + [e], inputPath)
         == FirstReads(ev, inputPath) + (if e.Read? && e.rel.name !in Names(ev) then {Entry(e, inputPath)} else {})
  {
    assert (ev + [e])[..|ev|] == ev;
  }

  /** A name an event of `ev` mentions stays in the names of every longer prefix. */
  lemma {:induction false} NamesOfPrefix(ev: seq<Event>, i: nat, j: nat)
    requires i < j <= |ev|
    ensures EventName(ev[i]) in Names(ev[..j])
  {
    assert ev[..j][..j - 1] == ev[..j - 1];
    if i < j - 1 {
      NamesOfPrefix(ev, i, j - 1);
    }
  }

  /** Whether a position is a first read does not depend on the events after it. */
  lemma FirstReadPrefix(ev: seq<Event>, n: nat, i: nat)
    requires i < n <= |ev|
    ensures IsFirstRead(ev[..n], i) <==> IsFirstRead(ev, i)
  {
    assert ev[..n][..i] == ev[..i];
  }

  /** Every reported entry comes from a first read. */
  lemma {:induction false} FirstReadsSound(ev: seq<Event>, inputPath: (Operator, Relation) -> string,
                                           p: (Relation, string)) returns (i: nat)
    requires p in FirstReads(ev, inputPath)
    ensures i < |ev| && IsFirstRead(ev, i) && p == Entry(ev[i], inputPath)
  {
    var n := |ev| - 1;
    if p in FirstReads(ev[..n], inputPath) {
      i := FirstReadsSound(ev[..n], inputPath, p);
      FirstReadPrefix(ev, n, i);
    } else {
      assert ev[..n] == ev[..n];
      i := n;
    }
  }

  /** Every first read is reported. */
  lemma {:induction false} FirstReadsComplete(ev: seq<Event>, inputPath: (Operator, Relation) -> string, i: nat)
    requires i < |ev| && IsFirstRead(ev, i)
    ensures Entry(ev[i], inputPath) in FirstReads(ev, inputPath)
  {
    var n := |ev| - 1;
    if i < n {
      FirstReadPrefix(ev, n, i);
      FirstReadsComplete(ev[..n], inputPath, i);
    }
  }

  /** The reported entries are exactly the entries of the first reads. */
  lemma FirstReadsExactly(ev: seq<Event>, inputPath: (Operator, Relation) -> string, p: (Relation, string))
    ensures p in FirstReads(ev, inputPath)
        <==> exists i :: 0 <= i < |ev| && IsFirstRead(ev, i) && p == Entry(ev[i], inputPath)
  {
    if p in FirstReads(ev, inputPath) {
      var i := FirstReadsSound(ev, inputPath, p);
    }
    if exists i :: 0 <= i < |ev| && IsFirstRead(ev, i) && p == Entry(ev[i], inputPath) {
      var i :| 0 <= i < |ev| && IsFirstRead(ev, i) && p == Entry(ev[i], inputPath);
      FirstReadsComplete(ev, inputPath, i);
    }
  }

  /** At most one position is the first read of a name. */
  lemma FirstReadUnique(ev: seq<Event>, i: nat, j: nat)
    requires i < |ev| && j < |ev| && IsFirstRead(ev, i) && IsFirstRead(ev, j)
    requires ev[i].rel.name == ev[j].rel.name
    ensures i == j
  {
    if i < j {
      NamesOfPrefix(ev, i, j);
    } else if j < i {
      NamesOfPrefix(ev, j, i);
    }
  }

  /** Each relation name is reported at most once. */
  lemma ReportedOnce(ev: seq<Event>, inputPath: (Operator, Relation) -> string, p: (Relation, string), q: (Relation, string))
    requires p in FirstReads(ev, inputPath) && q in FirstReads(ev, inputPath)
    requires p.0.name == q.0.name
    ensures p == q
  {
    FirstReadsExactly(ev, inputPath, p);
    FirstReadsExactly(ev, inputPath, q);
    var i :| 0 <= i < |ev| && IsFirstRead(ev, i) && p == Entry(ev[i], inputPath);
    var j :| 0 <= j < |ev| && IsFirstRead(ev, j) && q == Entry(ev[j], inputPath);
    FirstReadUnique(ev, i, j);
  }

  /** Once an operator of the walk has produced a name, no later read of it counts as an input. */
  lemma NoReportAfterProduce(ev: seq<Event>, i: nat, j: nat)
    requires i < j < |ev| && ev[i].Produce? && ev[j].Read? && ev[j].rel.name == ev[i].name
    ensures !IsFirstRead(ev, j)
  {
    NamesOfPrefix(ev, i, j);
  }

  /** A reported relation is read by a visited operator before anything produced its name. */
  lemma {:induction false} ReportedNotProducedBefore(ev: seq<Event>, inputPath: (Operator, Relation) -> string,
                                                     p: (Relation, string)) returns (i: nat)
    requires p in FirstReads(ev, inputPath)
    ensures i < |ev| && ev[i].Read? && p == Entry(ev[i], inputPath)
    ensures forall k :: 0 <= k < i ==> EventName(ev[k]) != p.0.name
  {
    FirstReadsExactly(ev, inputPath, p);
    i :| 0 <= i < |ev| && IsFirstRead(ev, i) && p == Entry(ev[i], inputPath);
    forall k | 0 <= k < i
      ensures EventName(ev[k]) != p.0.name
    {
      NamesOfPrefix(ev, k, i);
    }
  }

  /** Every name of `ev` is mentioned by one of its events. */
  lemma {:induction false} NamesWitness(ev: seq<Event>, name: string) returns (i: nat)
    requires name in Names(ev)
    ensures i < |ev| && EventName(ev[i]) == name
  {
    if EventName(ev[|ev| - 1]) == name {
      i := |ev| - 1;
    } else {
      i := NamesWitness(ev[..|ev| - 1], name);
    }
  }

  /** A name that is read and that no event produces is reported. */
  lemma {:induction false} UnproducedReadInEvents(ev: seq<Event>, inputPath: (Operator, Relation) -> string, i: nat)
    requires i < |ev| && ev[i].Read?
    requires forall j :: 0 <= j < |ev| && ev[j].Produce? ==> ev[j].name != ev[i].rel.name
    ensures exists p :: p in FirstReads(ev, inputPath) && p.0.name == ev[i].rel.name
    decreases i
  {
    if ev[i].rel.name in Names(ev[..i]) {
      var j := NamesWitness(ev[..i], ev[i].rel.name);
      assert ev[..i][j] == ev[j];
      UnproducedReadInEvents(ev, inputPath, j);
    } else {
      FirstReadsComplete(ev, inputPath, i);
      assert Entry(ev[i], inputPath).0.name == ev[i].rel.name;
    }
  }

  /** Every read of a walked operator is an event of the walk. */
  lemma {:induction false} EventsHoldReads(g: Graph, done: seq<nat>, j: nat, k: nat) returns (idx: nat)
    requires InRange(g, done) && j < |done| && k < |g[done[j]].op.inputs|
    ensures idx < |Events(g, done)| && Events(g, done)[idx] == Read(g[done[j]].op.inputs[k], g[done[j]].op)
  {
    var pre := done[..|done| - 1];
    if j == |done| - 1 {
      idx := |Events(g, pre)| + k;
    } else {
      assert pre[j] == done[j];
      idx := EventsHoldReads(g, pre, j, k);
    }
  }

  /** Every production of the walk is the output of a walked operator. */
  lemma {:induction false} EventsProduceOutputs(g: Graph, done: seq<nat>, idx: nat) returns (j: nat)
    requires InRange(g, done) && idx < |Events(g, done)| && Events(g, done)[idx].Produce?
    ensures j < |done| && g[done[j]].op.output.name == Events(g, done)[idx].name
  {
    var pre := done[..|done| - 1];
    var ev0 := Events(g, pre);
    var op := g[done[|done| - 1]].op;
    if idx < |ev0| {
      assert Events(g, done)[idx] == ev0[idx];
      j := EventsProduceOutputs(g, pre, idx);
      assert pre[j] == done[j];
    } else {
      var t := idx - |ev0|;
      assert Events(g, done)[idx] == NodeEvents(op)[t];
      j := |done| - 1;
    }
  }

  /**
   * A relation a walked operator reads and that no walked operator produces
   * is reported. The converse does not hold: see `ProducedLaterStillReported`.
   */
  lemma UnproducedReadReported(g: Graph, order: seq<nat>, inputPath: (Operator, Relation) -> string,
                               j: nat, k: nat)
    requires InRange(g, order) && j < |order| && k < |g[order[j]].op.inputs|
    requires forall m :: 0 <= m < |order| ==> g[order[m]].op.output.name != g[order[j]].op.inputs[k].name
    ensures exists p :: p in FirstReads(Events(g, order), inputPath) && p.0.name == g[order[j]].op.inputs[k].name
  {
    var ev := Events(g, order);
    var idx := EventsHoldReads(g, order, j, k);
    forall i | 0 <= i < |ev| && ev[i].Produce?
      ensures ev[i].name != ev[idx].rel.name
    {
      var m := EventsProduceOutputs(g, order, i);
    }
    UnproducedReadInEvents(ev, inputPath, idx);
  }

  /**
   * A graph whose reader of `R` (node 1, a root) is dequeued before the
   * producer of `R` (node 3, reached through nodes 0 and 2).
   */
  const ReaderBeforeProducer: Graph := [
    Node(Operator([], Relation("A", []), "", Select), [], [2], []),
    Node(Operator([Relation("R", [])], Relation("B", []), "", Select), [], [], []),
    Node(Operator([], Relation("C", []), "", Select), [0], [3], []),
    Node(Operator([], Relation("R", []), "", Select), [2], [], [])
  ]

  lemma ReaderBeforeProducerKids()
    ensures |ReaderBeforeProducer| == 4
    ensures Kids(ReaderBeforeProducer, 0) == [2] && Kids(ReaderBeforeProducer, 1) == []
    ensures Kids(ReaderBeforeProducer, 2) == [3] && Kids(ReaderBeforeProducer, 3) == []
  {
  }

  /** What the walk from roots 0 and 1 has pushed after each dequeue. */
  lemma ReaderBeforeProducerPushes()
    ensures Pushes(ReaderBeforeProducer, [0, 1], []) == [0, 1]
    ensures Pushes(ReaderBeforeProducer, [0, 1], [0]) == [0, 1, 2]
    ensures Pushes(ReaderBeforeProducer, [0, 1], [0, 1]) == [0, 1, 2]
    ensures Pushes(ReaderBeforeProducer, [0, 1], [0, 1, 2]) == [0, 1, 2, 3]
    ensures Pushes(ReaderBeforeProducer, [0, 1], [0, 1, 2, 3]) == [0, 1, 2, 3]
  {
    var g := ReaderBeforeProducer;
    ReaderBeforeProducerKids();
    var roots: seq<nat> := [0, 1];
    var d0: seq<nat> := [];
    var d1: seq<nat> := d0 + [0];
    var d2: seq<nat> := d1 + [1];
    var d3: seq<nat> := d2 + [2];
    PushesStep(g, roots, d0, 0);
    assert Fresh([2], Elems(roots)) == [2];
    PushesStep(g, roots, d1, 1);
    PushesStep(g, roots, d2, 2);
    assert Fresh([3], Elems([0, 1, 2])) == [3];
    PushesStep(g, roots, d3, 3);
  }

  /** The walk over `ReaderBeforeProducer` from roots 0 and 1 dequeues 0, 1, 2, 3. */
  lemma ReaderBeforeProducerWalk()
    ensures IsWalk(ReaderBeforeProducer, [0, 1], [0, 1, 2, 3])
  {
    ReaderBeforeProducerPushes();
    var g := ReaderBeforeProducer;
    var o: seq<nat> := [0, 1, 2, 3];
    assert InRange(g, o);
    forall k | 0 <= k < |o|
      ensures k < |Pushes(g, [0, 1], o[..k])|
    {
      if k == 0 {
        assert o[..k] == [];
      } else if k == 1 {
        assert o[..k] == [0];
      } else if k == 2 {
        assert o[..k] == [0, 1];
      } else {
        assert o[..k] == [0, 1, 2];
      }
    }
  }

  /**
   * The walk reports `R` as an input although an operator it walks produces
   * `R`: the reader comes first in breadth-first order.
   */
  lemma ProducedLaterStillReported(inputPath: (Operator, Relation) -> string)
    ensures IsWalk(ReaderBeforeProducer, [0, 1], [0, 1, 2, 3])
    ensures ReaderBeforeProducer[3].op.output.name == "R"
    ensures (Relation("R", []), inputPath(ReaderBeforeProducer[1].op, Relation("R", [])))
            in FirstReads(Events(ReaderBeforeProducer, [0, 1, 2, 3]), inputPath)
  {
    ReaderBeforeProducerWalk();
    var g := ReaderBeforeProducer;
    var d1: seq<nat> := [0];
    var o: seq<nat> := [0, 1, 2, 3];
    EventsStep(g, [], 0);
    assert Events(g, d1) == [Produce("A")];
    EventsStep(g, d1, 1);
    assert Events(g, d1 + [1]) == [Produce("A"), Read(Relation("R", []), g[1].op), Produce("B")];
    var ev := Events(g, o);
    assert o[..|o| - 1][..2] == d1 + [1];
    assert Events(g, o) == Events(g, o[..|o| - 1]) + NodeEvents(g[3].op);
    assert ev[..2] == [Produce("A"), Read(Relation("R", []), g[1].op)];
    assert ev[..1] == [Produce("A")];
    assert IsFirstRead(ev, 1);
    FirstReadsComplete(ev, inputPath, 1);
  }

  lemma PushesStep(g: Graph, roots: seq<nat>, done: seq<nat>, n: nat)
    requires InRange(g, done) && n < |g|
    ensures InRange(g, done + [n])
    ensures Pushes(g, roots, done + [n]) == Pushes(g, roots, done) + Fresh(Kids(g, n), Elems(Pushes(g, roots, done)))
  {
    assert (done + [n])[..|done|] == done;
  }

  lemma EventsStep(g: Graph, done: seq<nat>, n: nat)
    requires InRange(g, done) && n < |g|
    ensures InRange(g, done + [n])
    ensures Events(g, done + [n]) == Events(g, done) + NodeEvents(g[n].op)
  {
    assert (done + [n])[..|done|] == done;
  }

  /** The walk starts from the roots, in their order. */
  lemma {:induction false} PushesStartWithRoots(g: Graph, roots: seq<nat>, done: seq<nat>)
    requires InRange(g, done)
    ensures |roots| <= |Pushes(g, roots, done)| && Pushes(g, roots, done)[..|roots|] == roots
  {
    if done != [] {
      PushesStartWithRoots(g, roots, done[..|done| - 1]);
    }
  }

  /** Without repeated roots, no node is enqueued, and so none dequeued, twice. */
  lemma {:induction false} PushesNoDup(g: Graph, roots: seq<nat>, done: seq<nat>)
    requires InRange(g, done) && NoDup(roots)
    ensures NoDup(Pushes(g, roots, done))
  {
    if done != [] {
      var before := Pushes(g, roots, done[..|done| - 1]);
      PushesNoDup(g, roots, done[..|done| - 1]);
      var f := Fresh(Kids(g, done[|done| - 1]), Elems(before));
      FreshFacts(Kids(g, done[|done| - 1]), Elems(before));
      forall i, j | 0 <= i < j < |before + f|
        ensures (before + f)[i] != (before + f)[j]
      {
        if j >= |before| && i < |before| {
          assert (before + f)[j] in f;
          assert (before + f)[i] in Elems(before);
        }
      }
    }
  }

  /** Every child of a dequeued node has been enqueued. */
  lemma {:induction false} PushesClosed(g: Graph, roots: seq<nat>, done: seq<nat>, k: nat, c: nat)
    requires InRange(g, done) && k < |done| && c in Kids(g, done[k])
    ensures c in Pushes(g, roots, done)
  {
    var before := Pushes(g, roots, done[..|done| - 1]);
    if k < |done| - 1 {
      assert done[..|done| - 1][k] == done[k];
      PushesClosed(g, roots, done[..|done| - 1], k, c);
    } else if c !in Elems(before) {
      FreshFacts(Kids(g, done[k]), Elems(before));
      assert c in Fresh(Kids(g, done[k]), Elems(before));
    }
    assert before <= Pushes(g, roots, done);
  }

  /**
   * A finished walk is closed: the dequeue order holds every root and every
   * child of every node it holds, so nothing reachable from the roots is missed.
   */
  lemma WalkClosed(g: Graph, roots: seq<nat>, order: seq<nat>, k: nat, c: nat)
    requires InRange(g, order) && order == Pushes(g, roots, order)
    requires k < |order| && c in Kids(g, order[k])
    ensures c in order
    ensures forall r :: r in roots ==> r in order
  {
    PushesClosed(g, roots, order, k, c);
    PushesStartWithRoots(g, roots, order);
    assert forall r :: r in roots ==> r in order[..|roots|];
  }

  /**
   * The reads of one dequeued operator: each read is reported when its name
   * is not yet known, then the operator's output becomes known.
   */
  method VisitRelations(op: Operator, knownRels: set<string>, inputRelsPaths: set<(Relation, string)>,
                        inputPath: (Operator, Relation) -> string, ghost ev: seq<Event>)
    returns (known: set<string>, inputs: set<(Relation, string)>)
    requires knownRels == Names(ev) && inputRelsPaths == FirstReads(ev, inputPath)
    ensures known == Names(ev + NodeEvents(op)) && inputs == FirstReads(ev + NodeEvents(op), inputPath)
  {
    known, inputs := knownRels, inputRelsPaths;
    var relations := op.inputs;
    var k := 0;
    assert ev + Reads(op)[..k] == ev;
    while k < |relations|
      invariant k <= |relations|
      invariant known == Names(ev + Reads(op)[..k])
      invariant inputs == FirstReads(ev + Reads(op)[..k], inputPath)
    {
      ghost var pre := ev + Reads(op)[..k];
      assert ev + Reads(op)[..k + 1] == pre + [Read(relations[k], op)];
      NamesSnoc(pre, Read(relations[k], op));
      FirstReadsSnoc(pre, Read(relations[k], op), inputPath);
      var relName := relations[k].name;
      if relName !in known {
        known := known + {relName};
        inputs := inputs + {(relations[k], inputPath(op, relations[k]))};
      }
      k := k + 1;
    }
    assert Reads(op)[..k] == Reads(op);
    AppendAssoc(ev, Reads(op), [Produce(op.output.name)]);
    NamesSnoc(ev + Reads(op), Produce(op.output.name));
    FirstReadsSnoc(ev + Reads(op), Produce(op.output.name), inputPath);
    known := known + {op.output.name};
  }

  /**
   * The second inner loop of the walk: every child not yet marked is
   * marked and enqueued, in the order of `children`.
   */
  method EnqueueChildren(children: seq<nat>, visited: set<nat>, toVisit: seq<nat>, ghost universe: set<nat>)
    returns (marked: set<nat>, queue: seq<nat>, ghost pushed: seq<nat>)
    requires visited <= universe && forall c :: c in children ==> c in universe
    ensures pushed == Fresh(children, visited) && marked == visited + Elems(pushed)
    ensures queue == toVisit + pushed && marked <= universe
    ensures |universe - marked| + |pushed| == |universe - visited|
  {
    marked, queue, pushed := visited, toVisit, [];
    var j := 0;
    while j < |children|
      invariant j <= |children|
      invariant pushed == Fresh(children[..j], visited) && marked == visited + Elems(pushed)
      invariant queue == toVisit + pushed && marked <= universe
      invariant |universe - marked| + |pushed| == |universe - visited|
    {
      var child := children[j];
      EnqueueStep(children, j, visited, marked, pushed, universe);
      if child !in marked {
        marked := marked + {child};
        queue := queue + [child];
        pushed := pushed + [child];
      }
      j := j + 1;
    }
    assert children[..j] == children;
  }

  /** What one child adds to the marks and the pushes of the enqueueing loop. */
  lemma EnqueueStep(children: seq<nat>, j: nat, visited: set<nat>, marked: set<nat>, pushed: seq<nat>, universe: set<nat>)
    requires j < |children| && children[j] in universe && marked <= universe
    requires pushed == Fresh(children[..j], visited) && marked == visited + Elems(pushed)
    requires |universe - marked| + |pushed| == |universe - visited|
    ensures children[j] in marked ==> pushed == Fresh(children[..j + 1], visited)
    ensures children[j] !in marked ==>
      && pushed + [children[j]] == Fresh(children[..j + 1], visited)
      && marked + {children[j]} == visited + Elems(pushed + [children[j]])
      && |universe - (marked + {children[j]})| + |pushed| + 1 == |universe - visited|
  {
    var child := children[j];
    TakeSnoc(children, j);
    FreshSnoc(children[..j], child, visited);
    if child !in marked {
      ComplementShrinks(universe, marked, child);
      ElemsSnoc(pushed, child);
    }
  }

  /** Children of an in-range node, appended to the history, keep it in range. */
  lemma PushedInRange(g: Graph, hist: seq<nat>, n: nat, pushed: seq<nat>)
    requires ValidGraph(g) && InRange(g, hist) && n < |g|
    requires forall x :: x in pushed ==> x in Kids(g, n)
    ensures InRange(g, hist + pushed)
  {
    assert InRange(g, g[n].loopChildren) && InRange(g, g[n].children);
    forall k | 0 <= k < |pushed|
      ensures pushed[k] < |g|
    {
      assert pushed[k] in Kids(g, n);
    }
  }

  lemma KidsInUniverse(g: Graph, n: nat)
    requires ValidGraph(g) && n < |g|
    ensures forall c :: c in Kids(g, n) ==> c in HandlesBelow(|g|)
  {
    assert InRange(g, g[n].loopChildren) && InRange(g, g[n].children);
  }

  /**
   * The state of the walk in terms of its push history `hist`, of which the
   * first `head` nodes are dequeued: the queue is the rest of the history,
   * the history is what `Pushes` predicts for the dequeued prefix, every
   * pushed node is marked, and the known names and reported pairs are those
   * of the events of the dequeued prefix.
   */
  predicate Walking(g: Graph, roots: seq<nat>, inputPath: (Operator, Relation) -> string,
                    hist: seq<nat>, head: nat, toVisit: seq<nat>, visited: set<nat>,
                    knownRels: set<string>, inputRelsPaths: set<(Relation, string)>)
  {
    && ValidGraph(g) && InRange(g, hist) && head <= |hist| && toVisit == hist[head..]
    && hist == Pushes(g, roots, hist[..head])
    && visited == Elems(hist) && visited <= HandlesBelow(|g|)
    && knownRels == Names(Events(g, hist[..head]))
    && inputRelsPaths == FirstReads(Events(g, hist[..head]), inputPath)
  }

  /** The walk starts with the roots enqueued and marked, and nothing known. */
  lemma WalkStart(g: Graph, roots: seq<nat>, inputPath: (Operator, Relation) -> string)
    requires ValidGraph(g) && InRange(g, roots)
    ensures Walking(g, roots, inputPath, roots, 0, roots, Elems(roots), {}, {})
  {
    assert roots[..0] == [];
    assert roots[0..] == roots;
  }

  /** The front of the queue is the next node of the history, a node of the graph. */
  lemma WalkFront(g: Graph, roots: seq<nat>, inputPath: (Operator, Relation) -> string,
                  hist: seq<nat>, head: nat, toVisit: seq<nat>, visited: set<nat>,
                  knownRels: set<string>, inputRelsPaths: set<(Relation, string)>)
    requires Walking(g, roots, inputPath, hist, head, toVisit, visited, knownRels, inputRelsPaths)
    requires toVisit != []
    ensures head < |hist| && hist[head] == toVisit[0] && toVisit[0] < |g|
    ensures toVisit[1..] == hist[head + 1..]
  {
  }

  /** The push history after one round, and the events of its dequeued prefix. */
  lemma HistoryStep(g: Graph, roots: seq<nat>, hist: seq<nat>, head: nat, pushed: seq<nat>)
    requires ValidGraph(g) && InRange(g, hist) && head < |hist| && hist[head] < |g|
    requires hist == Pushes(g, roots, hist[..head])
    requires pushed == Fresh(Kids(g, hist[head]), Elems(hist))
    ensures InRange(g, hist + pushed) && Elems(pushed) <= HandlesBelow(|g|)
    ensures hist + pushed == Pushes(g, roots, (hist + pushed)[..head + 1])
    ensures Events(g, (hist + pushed)[..head + 1]) == Events(g, hist[..head]) + NodeEvents(g[hist[head]].op)
    ensures (hist + pushed)[head + 1..] == hist[head + 1..] + pushed
    ensures Elems(hist + pushed) == Elems(hist) + Elems(pushed)
  {
    var n := hist[head];
    FreshFacts(Kids(g, n), Elems(hist));
    KidsInUniverse(g, n);
    PushedInRange(g, hist, n, pushed);
    var done := hist[..head];
    TakeSnoc(hist, head);
    TakeOfAppend(hist, pushed, head + 1);
    assert (hist + pushed)[..head + 1] == done + [n];
    PushesStep(g, roots, done, n);
    EventsStep(g, done, n);
    ElemsAppend(hist, pushed);
  }

  /**
   * One round of the walk: dequeuing the front node, visiting its reads and
   * pushing its unmarked children keeps the walk state.
   */
  lemma WalkStep(g: Graph, roots: seq<nat>, inputPath: (Operator, Relation) -> string,
                 hist: seq<nat>, head: nat, toVisit: seq<nat>, visited: set<nat>,
                 knownRels: set<string>, inputRelsPaths: set<(Relation, string)>,
                 toVisit': seq<nat>, visited': set<nat>, knownRels': set<string>,
                 inputRelsPaths': set<(Relation, string)>, pushed: seq<nat>)
    requires Walking(g, roots, inputPath, hist, head, toVisit, visited, knownRels, inputRelsPaths)
    requires head < |hist| && hist[head] < |g|
    requires knownRels' == Names(Events(g, hist[..head]) + NodeEvents(g[hist[head]].op))
    requires inputRelsPaths' == FirstReads(Events(g, hist[..head]) + NodeEvents(g[hist[head]].op), inputPath)
    requires IsLeaf(g[hist[head]]) ==> pushed == [] && toVisit' == hist[head + 1..] && visited' == visited
    requires !IsLeaf(g[hist[head]]) ==>
      && pushed == Fresh(g[hist[head]].loopChildren + g[hist[head]].children, visited)
      && toVisit' == hist[head + 1..] + pushed && visited' == visited + Elems(pushed)
    ensures Walking(g, roots, inputPath, hist + pushed, head + 1, toVisit', visited', knownRels', inputRelsPaths')
  {
    var n := hist[head];
    assert pushed == Fresh(Kids(g, n), Elems(hist));
    HistoryStep(g, roots, hist, head, pushed);
  }

  /** One dequeue keeps `Enqueued`: the dequeued node was in the push history. */
  lemma WalkEnqueued(g: Graph, roots: seq<nat>, hist: seq<nat>, head: nat, pushed: seq<nat>)
    requires InRange(g, hist) && InRange(g, hist + pushed) && head < |hist|
    requires hist == Pushes(g, roots, hist[..head]) && Enqueued(g, roots, hist[..head])
    ensures Enqueued(g, roots, (hist + pushed)[..head + 1])
  {
    assert (hist + pushed)[..head + 1] == hist[..head] + [hist[head]];
    EnqueuedSnoc(g, roots, hist[..head], hist[head]);
  }

  /**
   * Reports the relations the operators reachable from `roots` read before
   * any of them produced or read that name, each with its input path.
   */
  method GetInputRelsAndPaths(g: Graph, roots: seq<nat>, inputPath: (Operator, Relation) -> string)
    returns (inputRelsPaths: set<(Relation, string)>, ghost order: seq<nat>)
    requires ValidGraph(g) && InRange(g, roots)
    ensures InRange(g, order) && order == Pushes(g, roots, order) && Enqueued(g, roots, order)
    ensures inputRelsPaths == FirstReads(Events(g, order), inputPath)
    ensures forall p, q | p in inputRelsPaths && q in inputRelsPaths && p.0.name == q.0.name :: p == q
  {
    var toVisit: seq<nat> := [];
    var visited: set<nat> := {};
    inputRelsPaths := {};
    var knownRels: set<string> := {};
    var r := 0;
    while r < |roots|
      invariant r <= |roots| && toVisit == roots[..r] && visited == Elems(toVisit)
    {
      ElemsSnoc(toVisit, roots[r]);
      TakeSnoc(roots, r);
      toVisit := toVisit + [roots[r]];
      visited := visited + {roots[r]};
      r := r + 1;
    }
    assert roots[..r] == roots;
    WalkStart(g, roots, inputPath);
    ghost var hist := toVisit;
    ghost var head := 0;
    while toVisit != []
      invariant Walking(g, roots, inputPath, hist, head, toVisit, visited, knownRels, inputRelsPaths)
      invariant Enqueued(g, roots, hist[..head])
      decreases |HandlesBelow(|g|) - visited|, |toVisit|
    {
      WalkFront(g, roots, inputPath, hist, head, toVisit, visited, knownRels, inputRelsPaths);
      var curNode := toVisit[0];
      var rest := toVisit[1..];
      var op := g[curNode].op;
      var known', inputs' := VisitRelations(op, knownRels, inputRelsPaths, inputPath, Events(g, hist[..head]));
      var toVisit', visited' := rest, visited;
      ghost var pushed: seq<nat> := [];
      if !IsLeaf(g[curNode]) {
        var children := g[curNode].loopChildren + g[curNode].children;
        KidsInUniverse(g, curNode);
        visited', toVisit', pushed := EnqueueChildren(children, visited, rest, HandlesBelow(|g|));
      }
      WalkStep(g, roots, inputPath, hist, head, toVisit, visited, knownRels, inputRelsPaths,
               toVisit', visited', known', inputs', pushed);
      WalkEnqueued(g, roots, hist, head, pushed);
      toVisit, visited, knownRels, inputRelsPaths := toVisit', visited', known', inputs';
      hist := hist + pushed;
      head := head + 1;
    }
    order := hist;
    assert hist[..head] == hist;
    forall p, q | p in inputRelsPaths && q in inputRelsPaths && p.0.name == q.0.name
      ensures p == q
    {
      ReportedOnce(Events(g, order), inputPath, p, q);
    }
  }
}
