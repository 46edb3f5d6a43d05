/**
 * The arithmetic expression a Multiply or Divide operator hands to the math
 * template: a Python lambda over the columns of the input relation,
 *   lambda e1, ..., en: [x1, ..., xn]
 * with one element per column. Two quirks of the translator are kept as they
 * are: dividing a column by a constant opens `divide(` and never closes it,
 * and a constant left operand is written after the column (`eR op c`).
 */
module Lambda {
  import opened Catalog
  import opened Text

  /** The positional parameter of a column: `e` and its one-based index. */
  function Param(c: Column): string {
    "e" + Decimal(c.index + 1)
  }

  function Params(cols: seq<Column>): (r: seq<string>)
    ensures |r| == |cols| && forall k :: 0 <= k < |cols| ==> r[k] == Param(cols[k])
  {
    seq(|cols|, k requires 0 <= k < |cols| => Param(cols[k]))
  }

  /** The column index of an operand; -1 marks a constant. */
  function OperandIndex(v: Value): (r: int)
    ensures r >= -1 && (r == -1 <==> v.ConstantValue?)
  {
    if v.ColumnValue? then v.column.index else -1
  }

  /** The literal text of a constant operand; empty for a column. */
  function ConstantText(v: Value): string {
    if v.ConstantValue? then v.text else ""
  }

  /** The element the lambda yields for column `k`. */
  function Element(op: string, cols: seq<Column>, k: nat, left: Value, right: Value): string
    requires k < |cols|
  {
    var ci := cols[k].index;
    var li := OperandIndex(left);
    var ri := OperandIndex(right);
    if ci == li then LeftOperand(op, |cols|, ci) + RightOperand(op, |cols|, right)
    else if ci == ri && li == -1 then ConstantLeft(op, |cols|, ci, ConstantText(left))
    else Untouched(|cols|, ci)
  }

  /** The element of the right operand's column when the left operand is a constant. */
  function ConstantLeft(op: string, width: nat, ci: nat, constant: string): string {
    if width > 1 then "e" + Decimal(ci + 1) + " " + op + " " + constant else "e " + op + " " + constant
  }

  /** The element of a column no operand names: the column itself. */
  function Untouched(width: nat, ci: nat): string {
    if width > 1 then "e" + Decimal(ci + 1) else "e"
  }

  /** The opening of the element of the left operand's column. */
  function LeftOperand(op: string, width: nat, ci: nat): string {
    if width > 1 then
      (if op == "/" then "divide(" + "e" + Decimal(ci + 1) + ", " else "e" + Decimal(ci + 1) + " " + op + " ")
    else "e " + op + " "
  }

  /** What follows in that element: the right operand's column, or the constant text. */
  function RightOperand(op: string, width: nat, right: Value): string {
    if right.ColumnValue? then
      (if width > 1 then
         (if op == "/" then "e" + Decimal(right.column.index + 1) + ")" else "e" + Decimal(right.column.index + 1))
       else "e")
    else right.text
  }

  function Elements(op: string, cols: seq<Column>, left: Value, right: Value): (r: seq<string>)
    ensures |r| == |cols| && forall k :: 0 <= k < |cols| ==> r[k] == Element(op, cols, k, left, right)
  {
    seq(|cols|, k requires 0 <= k < |cols| => Element(op, cols, k, left, right))
  }

  /** The whole lambda text for `op` applied between `left` and `right` over `cols`. */
  function LambdaText(op: string, cols: seq<Column>, left: Value, right: Value): string {
    "lambda " + JoinWith(Params(cols), ", ") + ": [" + JoinWith(Elements(op, cols, left, right), ", ") + "]"
  }

  /** The element of column `i`, in the four cases the translator distinguishes. */
  method RenderColumn(op: string, cols: seq<Column>, i: nat, colIndexLeft: int, colIndexRight: int,
                      leftValue: string, rightValue: string, ghost left: Value, ghost right: Value)
    returns (element: string)
    requires i < |cols|
    requires colIndexLeft == OperandIndex(left) && colIndexRight == OperandIndex(right)
    requires leftValue == ConstantText(left) && rightValue == ConstantText(right)
    ensures element == Element(op, cols, i, left, right)
  {
    var inputName := "e";
    var colIndex := cols[i].index;
    if colIndex == colIndexLeft {
      if |cols| > 1 {
        if op == "/" {
          element := "divide(" + inputName + Decimal(colIndex + 1) + ", ";
        } else {
          element := inputName + Decimal(colIndex + 1) + " " + op + " ";
        }
      } else {
        element := inputName + " " + op + " ";
      }
      assert element == LeftOperand(op, |cols|, colIndex);
      ghost var opening := element;
      if colIndexRight != -1 {
        if |cols| > 1 {
          if op == "/" {
            element := element + (inputName + Decimal(colIndexRight + 1) + ")");
          } else {
            element := element + (inputName + Decimal(colIndexRight + 1));
          }
        } else {
          element := element + inputName;
        }
      } else {
        element := element + rightValue;
      }
      assert element == opening + RightOperand(op, |cols|, right);
      assert element == Element(op, cols, i, left, right);
    } else if colIndex == colIndexRight && colIndexLeft == -1 {
      if |cols| > 1 {
        element := inputName + Decimal(colIndex + 1) + " " + op + " " + leftValue;
      } else {
        element := inputName + " " + op + " " + leftValue;
      }
      assert element == ConstantLeft(op, |cols|, colIndex, leftValue);
      assert element == Element(op, cols, i, left, right);
    } else {
      if |cols| > 1 {
        element := inputName + Decimal(colIndex + 1);
      } else {
        element := inputName;
      }
      assert element == Untouched(|cols|, colIndex);
      assert element == Element(op, cols, i, left, right);
    }
  }

  /** Builds the lambda text column by column, as the translator does. */
  method GenerateLambda(op: string, cols: seq<Column>, left: Value, right: Value) returns (maths: string)
    ensures maths == LambdaText(op, cols, left, right)
  {
    var leftValue := "";
    var rightValue := "";
    var colIndexLeft: int := -1;
    var colIndexRight: int := -1;
    maths := "lambda ";
    var j := 0;
    while j < |cols|
      invariant 0 <= j <= |cols|
      invariant maths == "lambda " + JoinFirst(Params(cols), j, ", ") + (if 0 < j < |cols| then ", " else "")
    {
      JoinStep("lambda ", Params(cols), j, "e" + Decimal(cols[j].index + 1), ", ", maths);
      maths := maths + ("e" + Decimal(cols[j].index + 1));
      if j != |cols| - 1 {
        maths := maths + ", ";
      }
      j := j + 1;
    }
    assert maths == "lambda " + JoinWith(Params(cols), ", ");
    maths := maths + ": [";

    if left.ColumnValue? {
      colIndexLeft := left.column.index;
    } else {
      leftValue := left.text;
    }
    if right.ColumnValue? {
      colIndexRight := right.column.index;
    } else {
      rightValue := right.text;
    }
    var body := RenderElements(op, cols, colIndexLeft, colIndexRight, leftValue, rightValue, left, right);
    maths := maths + body + "]";
  }

  /** The second loop of the lambda: the elements of all columns, separated by `, `. */
  method RenderElements(op: string, cols: seq<Column>, colIndexLeft: int, colIndexRight: int,
                        leftValue: string, rightValue: string, ghost left: Value, ghost right: Value)
    returns (body: string)
    requires colIndexLeft == OperandIndex(left) && colIndexRight == OperandIndex(right)
    requires leftValue == ConstantText(left) && rightValue == ConstantText(right)
    ensures body == JoinWith(Elements(op, cols, left, right), ", ")
  {
    ghost var elements := Elements(op, cols, left, right);
    body := "";
    var i := 0;
    while i < |cols|
      invariant 0 <= i <= |cols|
      invariant body == "" + JoinFirst(elements, i, ", ") + (if 0 < i < |cols| then ", " else "")
    {
      var element := RenderColumn(op, cols, i, colIndexLeft, colIndexRight, leftValue, rightValue, left, right);
      JoinStep("", elements, i, element, ", ", body);
      body := body + element;
      i := i + 1;
      if i < |cols| {
        body := body + ", ";
      }
    }
    assert body == JoinWith(elements, ", ");
  }

  /** How many of `cols` carry position `index`. */
  function Occurrences(cols: seq<Column>, index: int): nat {
    if cols == [] then 0
    else Occurrences(cols[..|cols| - 1], index) + (if cols[|cols| - 1].index == index then 1 else 0)
  }

  /** The one case whose element opens a parenthesis it never closes. */
  predicate DividesByConstant(op: string, cols: seq<Column>, left: Value, right: Value) {
    op == "/" && |cols| > 1 && left.ColumnValue? && right.ConstantValue?
  }

  /** A column that is no operand renders as its parameter, or as `e` in a one-column relation. */
  lemma ElementUntouched(op: string, cols: seq<Column>, k: nat, left: Value, right: Value)
    requires k < |cols|
    requires left.ColumnValue? ==> cols[k].index != left.column.index
    requires right.ColumnValue? ==> cols[k].index != right.column.index
    ensures Element(op, cols, k, left, right) == if |cols| > 1 then Param(cols[k]) else "e"
  {
  }

  /** Between two columns, the left operand's column renders as `eL op eR`, or as `divide(eL, eR)`. */
  lemma ElementBothColumns(op: string, cols: seq<Column>, k: nat, l: Column, r: Column)
    requires k < |cols| && |cols| > 1 && cols[k] == l
    ensures Element(op, cols, k, ColumnValue(l), ColumnValue(r))
         == if op == "/" then "divide(" + Param(l) + ", " + Param(r) + ")"
            else Param(l) + " " + op + " " + Param(r)
  {
  }

  /** Dividing a column by a constant opens `divide(` and leaves it open. */
  lemma ElementDivideByConstant(cols: seq<Column>, k: nat, l: Column, c: string)
    requires k < |cols| && |cols| > 1 && cols[k] == l
    ensures Element("/", cols, k, ColumnValue(l), ConstantValue(c)) == "divide(" + Param(l) + ", " + c
  {
  }

  /**
   * A constant left operand is written after the right operand's column,
   * `eR op c`, and the column that operand names would otherwise be untouched.
   */
  lemma ElementConstantLeft(op: string, cols: seq<Column>, k: nat, c: string, r: Column)
    requires k < |cols| && |cols| > 1 && cols[k] == r
    ensures Element(op, cols, k, ConstantValue(c), ColumnValue(r)) == Param(r) + " " + op + " " + c
  {
  }

  /** Multiplying a column by a constant renders `eL op c`. */
  lemma ElementTimesConstant(op: string, cols: seq<Column>, k: nat, l: Column, c: string)
    requires k < |cols| && |cols| > 1 && cols[k] == l && op != "/"
    ensures Element(op, cols, k, ColumnValue(l), ConstantValue(c)) == Param(l) + " " + op + " " + c
  {
  }

  /** Between two distinct columns, the right operand's column is left as it is. */
  lemma ElementRightColumn(op: string, cols: seq<Column>, k: nat, l: Column, r: Column)
    requires k < |cols| && cols[k] == r && r.index != l.index
    ensures Element(op, cols, k, ColumnValue(l), ColumnValue(r)) == if |cols| > 1 then Param(r) else "e"
  {
  }

  /**
   * In a one-column relation every element writes the column as the bare `e`,
   * with no `divide(`: `e op e`, `e op c`, or `e` alone.
   */
  lemma ElementOneColumn(op: string, c: Column, left: Value, right: Value)
    ensures Element(op, [c], 0, left, right)
         == if left.ColumnValue? && left.column.index == c.index then
              "e " + op + " " + (if right.ColumnValue? then "e" else right.text)
            else if left.ConstantValue? && right.ColumnValue? && right.column.index == c.index then
              "e " + op + " " + left.text
            else "e"
  {
  }

  /** The whole lambda of a one-column relation: its one parameter and its one element. */
  lemma LambdaOneColumn(op: string, c: Column, left: Value, right: Value)
    ensures LambdaText(op, [c], left, right) == "lambda " + Param(c) + ": [" + Element(op, [c], 0, left, right) + "]"
  {
    assert Params([c]) == [Param(c)];
    assert Elements(op, [c], left, right) == [Element(op, [c], 0, left, right)];
  }

  lemma NetParam(c: Column)
    ensures Net(Param(c)) == 0
  {
    NetPlain("e");
    NetDecimal(c.index + 1);
    NetAppend("e", Decimal(c.index + 1));
  }

  /** `a + " " + op + " " + b` is as balanced as `a` and `b` together. */
  lemma NetAround(a: string, op: string, b: string)
    requires op == "*" || op == "/"
    ensures Net(a + " " + op + " " + b) == Net(a) + Net(b)
  {
    NetPlain(" ");
    NetPlain(op);
    NetAppend(a, " ");
    NetAppend(a + " ", op);
    NetAppend(a + " " + op, " ");
    NetAppend(a + " " + op + " ", b);
  }

  lemma NetLeftOperand(op: string, width: nat, ci: nat)
    requires op == "*" || op == "/"
    ensures Net(LeftOperand(op, width, ci)) == if width > 1 && op == "/" then 1 else 0
  {
    NetParam(Column(ci));
    NetPlain("e");
    NetAround(Param(Column(ci)), op, "");
    NetAround("e", op, "");
    NetPlain("divide");
    NetPlain(", ");
    NetParen();
    assert "divide(" == "divide" + "(";
    NetAppend("divide", "(");
    NetAppend("divide(", Param(Column(ci)));
    NetAppend("divide(" + Param(Column(ci)), ", ");
    assert "divide(" + "e" + Decimal(ci + 1) + ", " == "divide(" + Param(Column(ci)) + ", ";
    assert Param(Column(ci)) + " " + op + " " + "" == "e" + Decimal(ci + 1) + " " + op + " ";
    assert "e" + " " + op + " " + "" == "e " + op + " ";
  }

  lemma NetRightOperand(op: string, width: nat, right: Value)
    requires Net(ConstantText(right)) == 0
    ensures Net(RightOperand(op, width, right)) == if right.ColumnValue? && width > 1 && op == "/" then -1 else 0
  {
    if right.ColumnValue? {
      NetParam(right.column);
      NetParen();
      NetAppend(Param(right.column), ")");
      NetPlain("e");
    }
  }

  /** The balance of one element: one open parenthesis exactly in the divide-by-constant case. */
  lemma ElementNet(op: string, cols: seq<Column>, k: nat, left: Value, right: Value)
    requires k < |cols| && (op == "*" || op == "/")
    requires Net(ConstantText(left)) == 0 && Net(ConstantText(right)) == 0
    ensures Net(Element(op, cols, k, left, right))
         == if DividesByConstant(op, cols, left, right) && cols[k].index == left.column.index then 1 else 0
  {
    var ci := cols[k].index;
    if ci == OperandIndex(left) {
      NetLeftOperand(op, |cols|, ci);
      NetRightOperand(op, |cols|, right);
      NetAppend(LeftOperand(op, |cols|, ci), RightOperand(op, |cols|, right));
    } else if ci == OperandIndex(right) && OperandIndex(left) == -1 {
      NetParam(Column(ci));
      NetPlain("e");
      NetAround(Param(Column(ci)), op, ConstantText(left));
      NetAround("e", op, ConstantText(left));
      assert "e" + " " + op + " " + ConstantText(left) == "e " + op + " " + ConstantText(left);
    } else {
      NetParam(Column(ci));
      NetPlain("e");
    }
  }

  lemma OccurrencesStep(cols: seq<Column>, n: nat, index: int)
    requires 0 < n <= |cols|
    ensures Occurrences(cols[..n], index) == Occurrences(cols[..n - 1], index) + (if cols[n - 1].index == index then 1 else 0)
  {
    assert cols[..n][..n - 1] == cols[..n - 1];
  }

  lemma {:induction false} SumNetElements(op: string, cols: seq<Column>, left: Value, right: Value, n: nat)
    requires n <= |cols| && (op == "*" || op == "/")
    requires Net(ConstantText(left)) == 0 && Net(ConstantText(right)) == 0
    ensures SumNet(Elements(op, cols, left, right)[..n])
         == if DividesByConstant(op, cols, left, right) then Occurrences(cols[..n], left.column.index) else 0
  {
    var es := Elements(op, cols, left, right);
    if n == 0 {
      assert es[..0] == [] && cols[..0] == [];
    } else {
      SumNetElements(op, cols, left, right, n - 1);
      SumNetStep(es, n);
      ElementNet(op, cols, n - 1, left, right);
      if DividesByConstant(op, cols, left, right) {
        OccurrencesStep(cols, n, left.column.index);
      }
    }
  }

  /**
   * The lambda is balanced except when it divides a column by a constant:
   * then every element of the dividend column leaves one `divide(` open.
   */
  lemma LambdaParenBalance(op: string, cols: seq<Column>, left: Value, right: Value)
    requires op == "*" || op == "/"
    requires Net(ConstantText(left)) == 0 && Net(ConstantText(right)) == 0
    ensures Net(LambdaText(op, cols, left, right))
         == if DividesByConstant(op, cols, left, right) then Occurrences(cols, left.column.index) else 0
  {
    var ps := Params(cols);
    var es := Elements(op, cols, left, right);
    NetPlain(", ");
    NetPlain("lambda ");
    NetPlain(": [");
    NetPlain("]");
    NetJoin(ps, ", ");
    forall k | 0 <= k < |ps|
      ensures Net(ps[k]) == 0
    {
      NetParam(cols[k]);
    }
    SumNetZero(ps);
    NetJoin(es, ", ");
    SumNetElements(op, cols, left, right, |cols|);
    assert es[..|cols|] == es && cols[..|cols|] == cols;
    NetAppend("lambda ", JoinWith(ps, ", "));
    NetAppend("lambda " + JoinWith(ps, ", "), ": [");
    NetAppend("lambda " + JoinWith(ps, ", ") + ": [", JoinWith(es, ", "));
    NetAppend("lambda " + JoinWith(ps, ", ") + ": [" + JoinWith(es, ", "), "]");
  }

  lemma {:induction false} OccurrencesPositive(cols: seq<Column>, c: Column)
    requires c in cols
    ensures Occurrences(cols, c.index) >= 1
  {
    var last := cols[|cols| - 1];
    if last != c {
      assert cols == cols[..|cols| - 1] + [last];
      OccurrencesPositive(cols[..|cols| - 1], c);
    }
  }

  /** Dividing a column of the relation by a constant yields unbalanced text. */
  lemma DivideByConstantUnbalanced(cols: seq<Column>, l: Column, c: string)
    requires |cols| > 1 && l in cols && Net(c) == 0
    ensures Net(LambdaText("/", cols, ColumnValue(l), ConstantValue(c))) >= 1
  {
    LambdaParenBalance("/", cols, ColumnValue(l), ConstantValue(c));
    OccurrencesPositive(cols, l);
  }

  /** The first parameters, as literals. */
  lemma SmallParams()
    ensures Param(Column(0)) == "e1" && Param(Column(1)) == "e2" && Param(Column(2)) == "e3"
  {
    assert Decimal(1) == "1" && Decimal(2) == "2" && Decimal(3) == "3";
  }

  /** In a one-column relation the element names its column `e`, the parameter keeps its index. */
  lemma ExampleSingleColumn()
    ensures LambdaText("/", [Column(0)], ColumnValue(Column(0)), ColumnValue(Column(0)))
         == "lambda e1: [e / e]"
  {
    var cols := [Column(0)];
    SmallParams();
    assert Params(cols) == ["e1"];
    assert Element("/", cols, 0, ColumnValue(Column(0)), ColumnValue(Column(0))) == "e / e";
    assert Elements("/", cols, ColumnValue(Column(0)), ColumnValue(Column(0))) == ["e / e"];
  }
}
