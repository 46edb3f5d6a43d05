/**
 * The catalog and the operator graph the VIFF translator works on: relations
 * with their ordered columns, operand values, the closed family of secure
 * (MPC) operators, and an arena of operator nodes connected by ordinary and
 * loop edges.
 */
module Catalog {

  datatype Option<T> = None | Some(value: T)

  /** A column is identified by its zero-based position in its relation. */
  datatype Column = Column(index: nat)

  /** An arithmetic operand: a column reference or a literal, kept as text. */
  datatype Value = ColumnValue(column: Column) | ConstantValue(text: string)

  /** A named dataset; its identity is its name. */
  datatype Relation = Relation(name: string, columns: seq<Column>)

  /** The operator variants of the secure backend, with their own parameters. */
  datatype OpParams =
    | Select
    | Aggregate(groupBys: seq<Column>, columns: seq<Column>, aggSymbol: string)
    | Join(colLeft: Column, colRight: Column)
    | Multiply(left: Value, right: Value)
    | Divide(left: Value, right: Value)
    | While

  /** An operator reads `inputs` and produces exactly one `output`. */
  datatype Operator = Operator(inputs: seq<Relation>, output: Relation, outputPath: string, params: OpParams)

  /** A node of the graph; the three edge lists hold arena handles. */
  datatype Node = Node(op: Operator, parents: seq<nat>, children: seq<nat>, loopChildren: seq<nat>)

  /** The operator graph as an arena of nodes indexed by handle. */
  type Graph = seq<Node>

  predicate IsWhile(op: Operator) {
    op.params.While?
  }

  /** A node with no children of either kind is a leaf; its output is exported. */
  predicate IsLeaf(n: Node) {
    |n.children| == 0 && |n.loopChildren| == 0
  }

  predicate InRange(g: Graph, s: seq<nat>) {
    forall k :: 0 <= k < |s| ==> s[k] < |g|
  }

  /** Every edge of every node points into the arena. */
  predicate ValidGraph(g: Graph) {
    forall i :: 0 <= i < |g| ==>
      InRange(g, g[i].parents) && InRange(g, g[i].children) && InRange(g, g[i].loopChildren)
  }

  /** The handles below `n`: those of an arena of `n` nodes. */
  function HandlesBelow(n: nat): (r: set<nat>)
    ensures forall i: nat :: i in r <==> i < n
  {
    if n == 0 then {} else HandlesBelow(n - 1) + {n - 1}
  }

  /** The names of the relations the operators of the arena produce. */
  function OutNames(g: Graph): (r: set<string>)
    ensures forall i :: 0 <= i < |g| ==> g[i].op.output.name in r
  {
    set i | 0 <= i < |g| :: g[i].op.output.name
  }

  function Elems<T>(s: seq<T>): set<T> {
    set x | x in s
  }

  lemma ElemsSnoc<T>(s: seq<T>, x: T)
    ensures Elems(s + [x]) == Elems(s) + {x}
  {
    assert forall y :: y in s + [x] <==> y in s || y == x;
  }

  lemma ElemsAppend<T>(a: seq<T>, b: seq<T>)
    ensures Elems(a + b) == Elems(a) + Elems(b)
  {
    assert forall y :: y in a + b <==> y in a || y in b;
  }

  lemma AppendAssoc<T>(a: seq<T>, b: seq<T>, c: seq<T>)
    ensures a + (b + c) == (a + b) + c
  {
  }

  lemma TakeSnoc<T>(s: seq<T>, n: nat)
    requires n < |s|
    ensures s[..n + 1] == s[..n] + [s[n]]
  {
  }

  lemma TakeOfAppend<T>(a: seq<T>, b: seq<T>, n: nat)
    requires n <= |a|
    ensures (a + b)[..n] == a[..n]
  {
  }

  predicate NoDup<T(==)>(s: seq<T>) {
    forall i, j :: 0 <= i < j < |s| ==> s[i] != s[j]
  }

  lemma NoDupSnoc<T>(s: seq<T>, x: T)
    requires NoDup(s) && x !in s
    ensures NoDup(s + [x])
  {
  }

  /** The names of a sequence of relations, in order. */
  function RelNames(rels: seq<Relation>): (r: seq<string>)
    ensures |r| == |rels| && forall k :: 0 <= k < |rels| ==> r[k] == rels[k].name
  {
    seq(|rels|, k requires 0 <= k < |rels| => rels[k].name)
  }

  /** Adding one element of a finite universe that is not yet present shrinks the complement. */
  lemma ComplementShrinks<T>(u: set<T>, s: set<T>, x: T)
    requires x in u && x !in s
    ensures |u - (s + {x})| == |u - s| - 1
  {
    assert (u - (s + {x})) + {x} == u - s;
  }

  lemma {:induction false} SubsetCardinality<T>(a: set<T>, b: set<T>)
    requires a <= b
    ensures |a| <= |b|
  {
    if a != {} {
      var x :| x in a;
      SubsetCardinality(a - {x}, b - {x});
    }
  }

  /** Growing a set never grows its complement within a universe. */
  lemma ComplementMonotone<T>(u: set<T>, s: set<T>, t: set<T>)
    requires s <= t
    ensures |u - t| <= |u - s|
  {
    SubsetCardinality(u - t, u - s);
  }
}
