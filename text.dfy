/**
 * Text helpers of the generated program: decimal rendering of column
 * indices (what a lexical cast of a non-negative integer yields), joining
 * with a separator, and the parenthesis balance of a fragment.
 */
module Text {
  import opened Catalog

  function DigitChar(d: nat): (c: char)
    requires d < 10
    ensures '0' <= c <= '9' && c as int - '0' as int == d
  {
    "0123456789"[d]
  }

  predicate IsDigit(c: char) {
    '0' <= c <= '9'
  }

  /** The decimal text of `n`, most significant digit first, without leading zeros. */
  function Decimal(n: nat): string {
    if n < 10 then [DigitChar(n)] else Decimal(n / 10) + [DigitChar(n % 10)]
  }

  /** The decimal text is a non-empty digit string that starts with 0 only for zero. */
  lemma {:induction false} DecimalDigits(n: nat)
    ensures |Decimal(n)| >= 1 && forall k :: 0 <= k < |Decimal(n)| ==> IsDigit(Decimal(n)[k])
    ensures Decimal(n)[0] == '0' ==> n == 0
  {
    if n >= 10 {
      DecimalDigits(n / 10);
    }
  }

  /** The number a string of digits denotes. */
  function DigitsValue(s: string): nat
    requires forall k :: 0 <= k < |s| ==> IsDigit(s[k])
  {
    if s == [] then 0
    else assert IsDigit(s[|s| - 1]); DigitsValue(s[..|s| - 1]) * 10 + (s[|s| - 1] as int - '0' as int)
  }

  /** Reads back a decimal text; anything that is not a non-empty digit string is rejected. */
  function ParseDecimal(s: string): Option<nat> {
    if s != [] && forall k :: 0 <= k < |s| ==> IsDigit(s[k]) then Some(DigitsValue(s)) else None
  }

  lemma {:induction false} DecimalRoundTrip(n: nat)
    ensures ParseDecimal(Decimal(n)) == Some(n)
  {
    var s := Decimal(n);
    DecimalDigits(n);
    if n >= 10 {
      DecimalRoundTrip(n / 10);
      DecimalDigits(n / 10);
      assert s[..|s| - 1] == Decimal(n / 10);
      assert DigitsValue(s) == (n / 10) * 10 + n % 10;
    } else {
      assert s[..0] == [];
      assert DigitsValue(s) == n;
    }
  }

  /** `xs` joined by `sep`: `sep` occurs once between neighbours, never at the ends. */
  function JoinWith(xs: seq<string>, sep: string): string {
    JoinFirst(xs, |xs|, sep)
  }

  /** The first `n` elements of `xs` joined by `sep`. */
  function JoinFirst(xs: seq<string>, n: nat, sep: string): string
    requires n <= |xs|
  {
    if n == 0 then ""
    else if n == 1 then xs[0]
    else JoinFirst(xs, n - 1, sep) + sep + xs[n - 1]
  }

  function Count(c: char, s: string): nat {
    if s == [] then 0 else Count(c, s[..|s| - 1]) + (if s[|s| - 1] == c then 1 else 0)
  }

  lemma {:induction false} CountAppend(c: char, a: string, b: string)
    ensures Count(c, a + b) == Count(c, a) + Count(c, b)
  {
    if b != [] {
      assert (a + b)[..|a + b| - 1] == a + b[..|b| - 1];
      CountAppend(c, a, b[..|b| - 1]);
    } else {
      assert a + b == a;
    }
  }

  /** Opening minus closing parentheses: zero for a balanced fragment. */
  function Net(s: string): int {
    Count('(', s) - Count(')', s)
  }

  lemma NetAppend(a: string, b: string)
    ensures Net(a + b) == Net(a) + Net(b)
  {
    CountAppend('(', a, b);
    CountAppend(')', a, b);
  }

  /** A fragment without parentheses. */
  predicate Plain(s: string) {
    forall k :: 0 <= k < |s| ==> s[k] != '(' && s[k] != ')'
  }

  lemma {:induction false} NetPlain(s: string)
    requires Plain(s)
    ensures Net(s) == 0
  {
    if s != [] {
      NetPlain(s[..|s| - 1]);
    }
  }

  lemma NetDecimal(n: nat)
    ensures Net(Decimal(n)) == 0
  {
    DecimalDigits(n);
    NetPlain(Decimal(n));
  }

  lemma NetParen()
    ensures Net("(") == 1 && Net(")") == -1
  {
    assert "("[..0] == [] && ")"[..0] == [];
  }

  /** The summed balance of a sequence of fragments. */
  function SumNet(xs: seq<string>): int {
    if xs == [] then 0 else SumNet(xs[..|xs| - 1]) + Net(xs[|xs| - 1])
  }

  /** The balance of a prefix grows by that of its last element. */
  lemma SumNetStep(xs: seq<string>, n: nat)
    requires 0 < n <= |xs|
    ensures SumNet(xs[..n]) == SumNet(xs[..n - 1]) + Net(xs[n - 1])
  {
    assert xs[..n][..n - 1] == xs[..n - 1];
  }

  /** Joining with a balanced separator adds or removes no parenthesis. */
  lemma NetJoin(xs: seq<string>, sep: string)
    requires Net(sep) == 0
    ensures Net(JoinWith(xs, sep)) == SumNet(xs)
  {
    NetJoinFirst(xs, |xs|, sep);
    assert xs[..|xs|] == xs;
  }

  lemma {:induction false} NetJoinFirst(xs: seq<string>, n: nat, sep: string)
    requires n <= |xs| && Net(sep) == 0
    ensures Net(JoinFirst(xs, n, sep)) == SumNet(xs[..n])
  {
    if n == 1 {
      assert xs[..1][..0] == [];
    } else if n > 1 {
      NetJoinFirst(xs, n - 1, sep);
      assert xs[..n][..n - 1] == xs[..n - 1];
      NetAppend(JoinFirst(xs, n - 1, sep), sep);
      NetAppend(JoinFirst(xs, n - 1, sep) + sep, xs[n - 1]);
    }
  }

  lemma {:induction false} SumNetZero(xs: seq<string>)
    requires forall k :: 0 <= k < |xs| ==> Net(xs[k]) == 0
    ensures SumNet(xs) == 0
  {
    if xs != [] {
      SumNetZero(xs[..|xs| - 1]);
    }
  }

  /**
   * One step of a loop that writes the elements of `xs` one after another,
   * each but the last followed by `sep`.
   */
  lemma JoinStep(head: string, xs: seq<string>, i: nat, x: string, sep: string, text: string)
    requires i < |xs| && x == xs[i]
    requires text == head + JoinFirst(xs, i, sep) + (if 0 < i < |xs| then sep else "")
    ensures text + x + (if i + 1 < |xs| then sep else "")
         == head + JoinFirst(xs, i + 1, sep) + (if 0 < i + 1 < |xs| then sep else "")
  {
  }
}
