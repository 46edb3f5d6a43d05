/**
 * The per-operator code fragments of the VIFF backend. Every fragment is a
 * template expansion: a template file of the templates directory and a
 * dictionary of placeholder values. The expansion itself is external, so it
 * is a parameter `expand` of type `Expander`; what the translator decides is
 * which template it asks for and which placeholder values it supplies.
 */
module Emitter {
  import opened Catalog
  import opened Text
  import opened Lambda

  /** Expands the template at a path with a placeholder dictionary. */
  type Expander = (string, map<string, string>) -> string

  type Dict = map<string, string>

  const SelectTemplate := "SelectTemplate.py"
  const AggTemplate := "AggMPCTemplate.py"
  const JoinTemplate := "JoinMPCTemplate.py"
  const MathTemplate := "MathMPCTemplate.py"
  const InputTemplate := "InputTemplate.py"
  const OutputTemplate := "OutputTemplate.py"
  const ImportTemplate := "ImportAndUtilsTemplate.py"
  const CloseTemplate := "CloseProtocolTemplate.py"
  const MainTemplate := "MainTemplate.py"

  /** The aggregation the secure runtime offers for an aggregate symbol: only a sum. */
  function GenerateAggMPCOp(symbol: string): (r: string)
    ensures r == "sum" <==> symbol == "+"
    ensures r == "unknown" <==> symbol != "+"
  {
    if symbol == "+" then "sum" else "unknown"
  }

  /**
   * What each translation reads without checking: the first input relation,
   * the second one for a join, the first group-by and the first aggregated
   * column of an aggregate.
   */
  predicate WellFormed(op: Operator) {
    match op.params
    case Select => |op.inputs| >= 1
    case Aggregate(groupBys, columns, _) => |op.inputs| >= 1 && |groupBys| >= 1 && |columns| >= 1
    case Join(_, _) => |op.inputs| >= 2
    case Multiply(_, _) => |op.inputs| >= 1
    case Divide(_, _) => |op.inputs| >= 1
    case While => true
  }

  /** The placeholders of a selection: output and input relation names. */
  function SelectDict(op: Operator): (d: Dict)
    requires |op.inputs| >= 1
    ensures d.Keys == {"OUT_REL", "IN_REL"}
    ensures d["OUT_REL"] == op.output.name && d["IN_REL"] == op.inputs[0].name
  {
    map["OUT_REL" := op.output.name, "IN_REL" := op.inputs[0].name]
  }

  /**
   * The placeholders of a secure aggregation. The two column placeholders
   * carry the decimal positions of the first group-by and the first
   * aggregated column, which the generated program reads back as numbers.
   */
  function AggDict(op: Operator): (d: Dict)
    requires op.params.Aggregate? && |op.inputs| >= 1
    requires |op.params.groupBys| >= 1 && |op.params.columns| >= 1
    ensures d.Keys == {"OUT_REL", "IN_REL", "GROUP_BY_COL", "AGG_COL", "AGG_OP"}
    ensures d["OUT_REL"] == op.output.name && d["IN_REL"] == op.inputs[0].name
    ensures ParseDecimal(d["GROUP_BY_COL"]) == Some(op.params.groupBys[0].index)
    ensures ParseDecimal(d["AGG_COL"]) == Some(op.params.columns[0].index)
    ensures d["AGG_OP"] == "sum" <==> op.params.aggSymbol == "+"
  {
    DecimalRoundTrip(op.params.groupBys[0].index);
    DecimalRoundTrip(op.params.columns[0].index);
    map["OUT_REL" := op.output.name,
        "IN_REL" := op.inputs[0].name,
        "GROUP_BY_COL" := Decimal(op.params.groupBys[0].index),
        "AGG_COL" := Decimal(op.params.columns[0].index),
        "AGG_OP" := GenerateAggMPCOp(op.params.aggSymbol)]
  }

  /** The placeholders of a secure join: both input names and both key column positions. */
  function JoinDict(op: Operator): (d: Dict)
    requires op.params.Join? && |op.inputs| >= 2
    ensures d.Keys == {"OUT_REL", "LEFT_REL", "RIGHT_REL", "LEFT_COL", "RIGHT_COL"}
    ensures d["OUT_REL"] == op.output.name
    ensures d["LEFT_REL"] == op.inputs[0].name && d["RIGHT_REL"] == op.inputs[1].name
    ensures ParseDecimal(d["LEFT_COL"]) == Some(op.params.colLeft.index)
    ensures ParseDecimal(d["RIGHT_COL"]) == Some(op.params.colRight.index)
  {
    DecimalRoundTrip(op.params.colLeft.index);
    DecimalRoundTrip(op.params.colRight.index);
    map["OUT_REL" := op.output.name,
        "LEFT_REL" := op.inputs[0].name,
        "RIGHT_REL" := op.inputs[1].name,
        "LEFT_COL" := Decimal(op.params.colLeft.index),
        "RIGHT_COL" := Decimal(op.params.colRight.index)]
  }

  /** The placeholders of an arithmetic operator: the names and the lambda text. */
  function MathDict(op: Operator, lambda: string): (d: Dict)
    requires |op.inputs| >= 1
    ensures d.Keys == {"OUT_REL", "IN_REL", "LAMBDA"}
    ensures d["OUT_REL"] == op.output.name && d["IN_REL"] == op.inputs[0].name && d["LAMBDA"] == lambda
  {
    map["OUT_REL" := op.output.name, "IN_REL" := op.inputs[0].name, "LAMBDA" := lambda]
  }

  /**
   * The fragment of one operator, or None for an operator the backend
   * cannot translate: a loop has no secure translation.
   */
  function OperatorCode(op: Operator, dir: string, expand: Expander): Option<string>
    requires WellFormed(op)
  {
    match op.params
    case Select => Some(expand(dir + SelectTemplate, SelectDict(op)))
    case Aggregate(_, _, _) => Some(expand(dir + AggTemplate, AggDict(op)))
    case Join(_, _) => Some(expand(dir + JoinTemplate, JoinDict(op)))
    case Multiply(l, r) =>
      Some(expand(dir + MathTemplate, MathDict(op, LambdaText("*", op.inputs[0].columns, l, r))))
    case Divide(l, r) =>
      Some(expand(dir + MathTemplate, MathDict(op, LambdaText("/", op.inputs[0].columns, l, r))))
    case While => None
  }

  /** Exactly the loop operator has no fragment. */
  lemma OperatorCodeTotal(op: Operator, dir: string, expand: Expander)
    requires WellFormed(op)
    ensures OperatorCode(op, dir, expand).None? <==> IsWhile(op)
  {
  }

  /** The arithmetic operators expand the math template with the lambda over the input's columns. */
  method TranslateMathOp(op: Operator, dir: string, expand: Expander, symbol: string, left: Value, right: Value)
    returns (code: string)
    requires |op.inputs| >= 1
    ensures code == expand(dir + MathTemplate, MathDict(op, LambdaText(symbol, op.inputs[0].columns, left, right)))
  {
    var lambda := GenerateLambda(symbol, op.inputs[0].columns, left, right);
    code := expand(dir + MathTemplate, MathDict(op, lambda));
  }

  /** The dispatch over the operator variants. */
  method TranslateOperator(op: Operator, dir: string, expand: Expander) returns (code: Option<string>)
    requires WellFormed(op)
    ensures code == OperatorCode(op, dir, expand)
  {
    match op.params
    case Select =>
      code := Some(expand(dir + SelectTemplate, SelectDict(op)));
    case Aggregate(_, _, _) =>
      code := Some(expand(dir + AggTemplate, AggDict(op)));
    case Join(_, _) =>
      code := Some(expand(dir + JoinTemplate, JoinDict(op)));
    case Multiply(l, r) =>
      var text := TranslateMathOp(op, dir, expand, "*", l, r);
      code := Some(text);
    case Divide(l, r) =>
      var text := TranslateMathOp(op, dir, expand, "/", l, r);
      code := Some(text);
    case While =>
      code := None;
  }

  /** The ownership flag of an input: whether this party holds the relation. */
  function InputFlag(rel: Relation, owns: Relation -> bool): (flag: string)
    ensures flag == "True" <==> owns(rel)
    ensures flag == "False" <==> !owns(rel)
  {
    if owns(rel) then "True" else "False"
  }

  function InputDict(rel: Relation, path: string, owns: Relation -> bool): (d: Dict)
    ensures d.Keys == {"REL", "INPUT_PATH", "INPUT_FLAG"}
    ensures d["REL"] == rel.name && d["INPUT_PATH"] == path
    ensures d["INPUT_FLAG"] == "True" <==> owns(rel)
  {
    map["REL" := rel.name, "INPUT_PATH" := path, "INPUT_FLAG" := InputFlag(rel, owns)]
  }

  /** The input fragments of `order`, in that order. */
  function InputCode(order: seq<(Relation, string)>, dir: string, owns: Relation -> bool, expand: Expander): string {
    if order == [] then ""
    else
      var p := order[|order| - 1];
      InputCode(order[..|order| - 1], dir, owns, expand) + expand(dir + InputTemplate, InputDict(p.0, p.1, owns))
  }

  lemma InputCodeSnoc(order: seq<(Relation, string)>, p: (Relation, string), dir: string,
                      owns: Relation -> bool, expand: Expander)
    ensures InputCode(order + [p], dir, owns, expand)
         == InputCode(order, dir, owns, expand) + expand(dir + InputTemplate, InputDict(p.0, p.1, owns))
  {
    assert (order + [p])[..|order|] == order;
  }

  function OutputDict(op: Operator): (d: Dict)
    ensures d.Keys == {"REL", "OUTPUT_PATH"}
    ensures d["REL"] == op.output.name && d["OUTPUT_PATH"] == op.outputPath
  {
    map["REL" := op.output.name, "OUTPUT_PATH" := op.outputPath]
  }

  /** The output fragments of the nodes of `order`, in that order. */
  function OutputCode(g: Graph, order: seq<nat>, dir: string, expand: Expander): string
    requires InRange(g, order)
  {
    if order == [] then ""
    else
      OutputCode(g, order[..|order| - 1], dir, expand)
        + expand(dir + OutputTemplate, OutputDict(g[order[|order| - 1]].op))
  }

  lemma OutputCodeSnoc(g: Graph, order: seq<nat>, n: nat, dir: string, expand: Expander)
    requires InRange(g, order) && n < |g|
    ensures InRange(g, order + [n])
    ensures OutputCode(g, order + [n], dir, expand)
         == OutputCode(g, order, dir, expand) + expand(dir + OutputTemplate, OutputDict(g[n].op))
  {
    assert (order + [n])[..|order|] == order;
  }

  /**
   * One input fragment per (relation, path) pair. The pairs form a set
   * whose order the translator does not control, so the order is a ghost
   * result: some enumeration of the set without repetition.
   */
  method TranslateInput(pairs: set<(Relation, string)>, dir: string, owns: Relation -> bool, expand: Expander)
    returns (code: string, ghost order: seq<(Relation, string)>)
    ensures Elems(order) == pairs && NoDup(order)
    ensures code == InputCode(order, dir, owns, expand)
  {
    code := "";
    order := [];
    var remaining := pairs;
    while remaining != {}
      invariant remaining <= pairs && Elems(order) == pairs - remaining && NoDup(order)
      invariant code == InputCode(order, dir, owns, expand)
      decreases |remaining|
    {
      var p :| p in remaining;
      var fragment := expand(dir + InputTemplate, InputDict(p.0, p.1, owns));
      code := code + fragment;
      InputCodeSnoc(order, p, dir, owns, expand);
      ElemsSnoc(order, p);
      NoDupSnoc(order, p);
      assert pairs - (remaining - {p}) == (pairs - remaining) + {p};
      order := order + [p];
      remaining := remaining - {p};
    }
  }

  /** One output fragment per leaf, in some order of the leaf set. */
  method TranslateOutput(g: Graph, leaves: set<nat>, dir: string, expand: Expander)
    returns (code: string, ghost order: seq<nat>)
    requires forall n | n in leaves :: n < |g|
    ensures Elems(order) == leaves && NoDup(order)
    ensures InRange(g, order)
    ensures code == OutputCode(g, order, dir, expand)
  {
    code := "";
    order := [];
    var remaining := leaves;
    while remaining != {}
      invariant remaining <= leaves
      invariant Elems(order) == leaves - remaining
      invariant NoDup(order)
      invariant InRange(g, order)
      invariant code == OutputCode(g, order, dir, expand)
      decreases |remaining|
    {
      var n :| n in remaining;
      assert n < |g|;
      var fragment := expand(dir + OutputTemplate, OutputDict(g[n].op));
      code := code + fragment;
      OutputCodeSnoc(g, order, n, dir, expand);
      ElemsSnoc(order, n);
      NoDupSnoc(order, n);
      assert leaves - (remaining - {n}) == (leaves - remaining) + {n};
      order := order + [n];
      remaining := remaining - {n};
    }
  }

  /** The fixed sections of the generated program. */

  /** The imports and utilities: the import template with no placeholder set. */
  function ImportAndUtils(dir: string, expand: Expander): (r: string)
    ensures r == expand(dir + ImportTemplate, map[])
  {
    expand(dir + ImportTemplate, map[])
  }

  /** The protocol close: the close template with no placeholder set. */
  function CloseProtocol(dir: string, expand: Expander): (r: string)
    ensures r == expand(dir + CloseTemplate, map[])
  {
    expand(dir + CloseTemplate, map[])
  }

  /** The placeholders of the entry section: only where the VIFF configuration lives. */
  function MainDict(configLoc: string): (d: Dict)
    ensures d.Keys == {"VIFF_CONFIG_LOC"} && d["VIFF_CONFIG_LOC"] == configLoc
  {
    map["VIFF_CONFIG_LOC" := configLoc]
  }

  /** The entry section: the main template with the configuration location. */
  function MainSection(dir: string, configLoc: string, expand: Expander): (r: string)
    ensures r == expand(dir + MainTemplate, MainDict(configLoc))
  {
    expand(dir + MainTemplate, MainDict(configLoc))
  }
}
