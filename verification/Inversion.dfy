/** The inversion at an `else` replaces each token on its own. This is De Morgan's law exactly for the
    conditions with one kind of connective. */
module Inversion {
  import opened Conditions
  import opened CondPasses

  /** A variable's value in the shell; `=` compares strings. Tcl's negated operands are outside `test`. */
  function ShellEquality(env: int -> string): Equality {
    (a: Operand, b: Operand) => ShellValue(a, env) == ShellValue(b, env)
  }

  function ShellValue(a: Operand, env: int -> string): string {
    match a
    case Ref(i) => env(i)
    case Text(s) => s
    case Not(_) => ""
  }

  function Count(ts: seq<Token>): nat {
    (|ts| + 1) / 4
  }

  /** In a chain without `!`, comparison k starts at 4k and is followed by connective k. */
  lemma {:induction false} PlainShape(ts: seq<Token>)
    requires Plain(ts)
    ensures |ts| == 4 * Count(ts) - 1 && Count(ts) > 0
    ensures forall k :: 0 <= k < Count(ts) ==> StartsComparison(ts[4 * k..])
    ensures forall k :: 0 <= k < Count(ts) - 1 ==> IsConnective(ts[4 * k + 3])
    decreases |ts|
  {
    assert Unbanged(ts) == ts;
    if |ts| > 3 {
      ChainTail(ts);
      var us := ts[4..];
      PlainShape(us);
      assert Count(ts) == Count(us) + 1;
      forall k | 0 <= k < Count(ts) ensures StartsComparison(ts[4 * k..]) {
        if k > 0 {
          assert StartsComparison(us[4 * (k - 1)..]);
          assert us[4 * (k - 1)..] == ts[4 * k..];
        }
      }
      forall k | 0 <= k < Count(ts) - 1 ensures IsConnective(ts[4 * k + 3]) {
        if k > 0 {
          assert IsConnective(us[4 * (k - 1) + 3]);
        }
      }
    }
  }

  predicate Holds(ts: seq<Token>, k: nat, eq: Equality) {
    4 * k <= |ts| && StartsComparison(ts[4 * k..]) && CompareValue(ts[4 * k..], eq)
  }

  lemma HoldsTail(ts: seq<Token>, eq: Equality)
    requires Plain(ts) && |ts| > 3
    ensures Plain(ts[4..])
    ensures forall k: nat :: Holds(ts[4..], k, eq) <==> Holds(ts, k + 1, eq)
  {
    assert Unbanged(ts) == ts;
    ChainTail(ts);
    forall k: nat ensures Holds(ts[4..], k, eq) <==> Holds(ts, k + 1, eq) {
      if 4 * (k + 1) <= |ts| {
        assert ts[4..][4 * k..] == ts[4 * (k + 1)..];
      }
    }
  }

  /** True comparisons up to an `-o` make a chain true. */
  lemma {:induction false} PrefixDecides(ts: seq<Token>, eq: Equality, i: nat)
    requires Plain(ts) && 4 * i + 3 < |ts| && ts[4 * i + 3].op.Or?
    requires HoldsUpTo(ts, i, eq)
    ensures TestValue(ts, eq, true)
    decreases i
  {
    assert Unbanged(ts) == ts;
    assert ts[0..] == ts && Holds(ts, 0, eq);
    if i > 0 {
      HoldsTail(ts, eq);
      assert ts[4 * i + 3] == ts[4..][4 * (i - 1) + 3];
      assert HoldsUpTo(ts[4..], i - 1, eq);
      PrefixDecides(ts[4..], eq, i - 1);
    }
  }

  /** Comparisons that are all true make a chain true. */
  lemma {:induction false} AllDecide(ts: seq<Token>, eq: Equality)
    requires Plain(ts)
    requires forall k: nat :: k < Count(ts) ==> Holds(ts, k, eq)
    ensures TestValue(ts, eq, true)
    decreases |ts|
  {
    assert Unbanged(ts) == ts;
    assert ts[0..] == ts && Holds(ts, 0, eq);
    if |ts| > 3 {
      HoldsTail(ts, eq);
      assert Count(ts) == Count(ts[4..]) + 1;
      AllDecide(ts[4..], eq);
    }
  }

  /** True comparisons behind an `-o`, connective i + 1, make a chain true. */
  lemma {:induction false} SuffixDecides(ts: seq<Token>, eq: Equality, i: nat, acc: bool)
    requires Plain(ts) && 4 * i + 7 < |ts| && ts[4 * i + 7].op.Or?
    requires HoldsFrom(ts, i, eq)
    ensures TestValue(ts, eq, acc)
    decreases i
  {
    assert Unbanged(ts) == ts;
    HoldsTail(ts, eq);
    var us := ts[4..];
    assert Count(ts) == Count(us) + 1;
    assert Unbanged(us) == us && us[3] == ts[7];
    if i > 0 {
      assert ts[4 * i + 7] == us[4 * (i - 1) + 7];
      SuffixDecides(us, eq, i - 1, ts[3].op.Or? || (acc && CompareValue(ts, eq)));
    } else {
      HoldsTail(us, eq);
      assert Count(us) == Count(us[4..]) + 1;
      AllDecide(us[4..], eq);
    }
  }

  /** Comparisons of pairwise different variables with texts: each can be made true or false on its own. */
  ghost predicate Independent(ts: seq<Token>) {
    && (forall k :: 0 <= k < Count(ts) && 4 * k + 2 < |ts| ==> ts[4 * k].op.Variable? && ts[4 * k + 2].op.Constant?)
    && (forall j, k :: 0 <= j < k < Count(ts) && 4 * k < |ts| ==> ts[4 * j].nameindex != ts[4 * k].nameindex)
  }

  ghost predicate Compares(ts: seq<Token>, v: int) {
    exists k: nat :: 4 * k + 2 < |ts| && ts[4 * k].nameindex == v
  }

  ghost function ComparisonOf(ts: seq<Token>, v: int): (k: nat)
    requires Compares(ts, v)
    ensures 4 * k + 2 < |ts| && ts[4 * k].nameindex == v
  {
    var k: nat :| 4 * k + 2 < |ts| && ts[4 * k].nameindex == v;
    k
  }

  /** The valuation that gives every comparison the truth value that is wanted. */
  ghost function Valuation(ts: seq<Token>, want: nat -> bool): int -> string {
    (v: int) =>
      if Compares(ts, v) then
        var k := ComparisonOf(ts, v);
        if want(k) == ts[4 * k + 1].op.Eq? then ts[4 * k + 2].str else ts[4 * k + 2].str + "x"
      else ""
  }

  lemma ValuationAt(ts: seq<Token>, want: nat -> bool, k: nat)
    requires Plain(ts) && Independent(ts) && k < Count(ts) && 4 * k + 2 < |ts|
    ensures var s := ts[4 * k + 2].str;
            Valuation(ts, want)(ts[4 * k].nameindex) == if want(k) == ts[4 * k + 1].op.Eq? then s else s + "x"
  {
    hide Chain;
    var v := ts[4 * k].nameindex;
    assert Compares(ts, v);
    var j := ComparisonOf(ts, v);
    assert j == k;
  }

  /** A comparison of a variable with a text, under any valuation. */
  lemma HoldsAt(ts: seq<Token>, k: nat, env: int -> string)
    requires Plain(ts) && Independent(ts) && k < Count(ts)
    ensures 4 * k + 2 < |ts|
    ensures Holds(ts, k, ShellEquality(env)) == ((env(ts[4 * k].nameindex) == ts[4 * k + 2].str) == ts[4 * k + 1].op.Eq?)
  {
    hide Chain;
    PlainShape(ts);
    var us := ts[4 * k..];
    assert StartsComparison(us);
    assert us[0] == ts[4 * k] && us[1] == ts[4 * k + 1] && us[2] == ts[4 * k + 2];
  }

  lemma WantedHolds(ts: seq<Token>, want: nat -> bool, k: nat)
    requires Plain(ts) && Independent(ts) && k < Count(ts)
    ensures Holds(ts, k, ShellEquality(Valuation(ts, want))) == want(k)
  {
    hide Chain, Valuation, Holds, ShellEquality;
    HoldsAt(ts, k, Valuation(ts, want));
    ValuationAt(ts, want, k);
    assert |ts[4 * k + 2].str + "x"| != |ts[4 * k + 2].str|;
  }

  /** The comparisons up to i equal to `upTo`, and the others its opposite. */
  ghost function SplitValuation(ts: seq<Token>, i: nat, upTo: bool): int -> string {
    Valuation(ts, (k: nat) => (k <= i) == upTo)
  }

  lemma SplitHolds(ts: seq<Token>, i: nat, upTo: bool, k: nat)
    requires Plain(ts) && Independent(ts) && k < Count(ts)
    ensures var eq := ShellEquality(SplitValuation(ts, i, upTo));
            && Holds(ts, k, eq) == ((k <= i) == upTo)
            && Holds(Flip(ts), k, eq) == !((k <= i) == upTo)
  {
    hide Chain, Valuation;
    WantedHolds(ts, (k: nat) => (k <= i) == upTo, k);
    PlainShape(ts);
    FlipHolds(ts, k, ShellEquality(SplitValuation(ts, i, upTo)));
  }

  lemma FlipHolds(ts: seq<Token>, k: nat, eq: Equality)
    requires 4 * k <= |ts| && StartsComparison(ts[4 * k..])
    ensures Holds(Flip(ts), k, eq) == !Holds(ts, k, eq)
  {
    assert Flip(ts)[4 * k..] == Flip(ts[4 * k..]);
  }

  lemma OnlyTail(ts: seq<Token>, op: Op)
    requires Plain(ts) && |ts| > 3
    ensures Plain(ts[4..]) && (Only(ts, op) <==> ts[3].op == op && Only(ts[4..], op))
  {
    assert Unbanged(ts) == ts;
    ChainTail(ts);
    assert Unbanged(ts[4..]) == ts[4..];
  }

  lemma FirstConnectives(ts: seq<Token>)
    requires Plain(ts) && Free(ts, And1) && !Uniform(ts)
    ensures |ts| > 3 && ts[3].op in {And, Or} && Plain(ts[4..]) && Free(ts[4..], And1)
    ensures |ts| > 7 && ts[7].op == ts[3].op ==> !Uniform(ts[4..])
    ensures |ts| > 7
  {
    assert Unbanged(ts) == ts;
    OnlyTail(ts, And);
    OnlyTail(ts, Or);
    if |ts| > 7 {
      assert ts[4..][3] == ts[7];
      OnlyTail(ts[4..], And);
      OnlyTail(ts[4..], Or);
    }
  }

  /** A chain that is not uniform has two neighbouring connectives of different kinds. */
  lemma {:induction false} FindTurn(ts: seq<Token>) returns (i: nat)
    requires Plain(ts) && Free(ts, And1) && !Uniform(ts)
    ensures 4 * i + 7 < |ts| && ts[4 * i + 3].op != ts[4 * i + 7].op
    ensures ts[4 * i + 3].op in {And, Or} && ts[4 * i + 7].op in {And, Or}
    decreases |ts|
  {
    FirstConnectives(ts);
    hide Chain, Plain, Free, Uniform;
    i := 0;
    if ts[7].op == ts[3].op {
      var j := FindTurn(ts[4..]);
      i := j + 1;
    }
  }

  ghost predicate HoldsUpTo(ts: seq<Token>, i: nat, eq: Equality) {
    forall k: nat :: k <= i ==> Holds(ts, k, eq)
  }

  ghost predicate HoldsFrom(ts: seq<Token>, i: nat, eq: Equality) {
    forall k: nat :: i < k < Count(ts) ==> Holds(ts, k, eq)
  }

  lemma SplitAll(ts: seq<Token>, i: nat, upTo: bool)
    requires Plain(ts) && Independent(ts) && i < Count(ts)
    ensures var eq := ShellEquality(SplitValuation(ts, i, upTo));
            && HoldsUpTo(if upTo then ts else Flip(ts), i, eq)
            && HoldsFrom(if upTo then Flip(ts) else ts, i, eq)
  {
    hide Holds, SplitValuation, ShellEquality, Chain;
    var eq := ShellEquality(SplitValuation(ts, i, upTo));
    forall k: nat | k < Count(ts)
      ensures Holds(ts, k, eq) == ((k <= i) == upTo) && Holds(Flip(ts), k, eq) == !((k <= i) == upTo)
    {
      SplitHolds(ts, i, upTo, k);
    }
  }

  lemma TurnRefutes(ts: seq<Token>, i: nat)
    requires Plain(ts) && Independent(ts)
    requires 4 * i + 7 < |ts|
    requires (ts[4 * i + 3].op.And? && ts[4 * i + 7].op.Or?) || (ts[4 * i + 3].op.Or? && ts[4 * i + 7].op.And?)
    ensures var eq := ShellEquality(SplitValuation(ts, i, ts[4 * i + 3].op.Or?));
            Plain(Flip(ts)) && TestValue(ts, eq, true) && TestValue(Flip(ts), eq, true)
  {
    hide Chain, TestValue, SplitValuation, ShellEquality, HoldsUpTo, HoldsFrom;
    var upTo := ts[4 * i + 3].op.Or?;
    var eq := ShellEquality(SplitValuation(ts, i, upTo));
    FlipPlain(ts);
    SplitAll(ts, i, upTo);
    PrefixDecides(if upTo then ts else Flip(ts), eq, i);
    SuffixDecides(if upTo then Flip(ts) else ts, eq, i, true);
  }

  /** For independent comparisons, the inversion negates the condition under every valuation if and only if the
      condition has one kind of connective. */
  lemma FlipNegatesIffUniform(ts: seq<Token>)
    requires Plain(ts) && Free(ts, And1) && Independent(ts)
    ensures Plain(Flip(ts))
    ensures Uniform(ts) <==>
            forall env: int -> string ::
              TestValue(Flip(ts), ShellEquality(env), true) == !TestValue(ts, ShellEquality(env), true)
  {
    FlipPlain(ts);
    if Uniform(ts) {
      forall env: int -> string
        ensures TestValue(Flip(ts), ShellEquality(env), true) == !TestValue(ts, ShellEquality(env), true)
      {
        FlipNegates(ts, ShellEquality(env));
      }
    } else {
      var i := FindTurn(ts);
      TurnRefutes(ts, i);
      var env := SplitValuation(ts, i, ts[4 * i + 3].op.Or?);
      assert TestValue(Flip(ts), ShellEquality(env), true) == TestValue(ts, ShellEquality(env), true);
    }
  }

  /** The smallest condition that `else` gets wrong: `$1 = "y" -a $2 = "y" -o $3 = "y"` and its inversion both hold
      when only the last variable is y. */
  lemma MixedIsNotNegated(eq: Equality)
    requires !eq(Ref(1), Text("y")) && eq(Ref(3), Text("y"))
    ensures var ts := IsYes(1) + [Token(And, "", 0)] + (IsYes(2) + [Token(Or, "", 0)] + IsYes(3));
            && Plain(ts) && Plain(Flip(ts))
            && TestValue(ts, eq, true) && TestValue(Flip(ts), eq, true)
  {
    hide Flip, Plain, TestValue, Chain;
    var second := IsYes(2) + [Token(Or, "", 0)] + IsYes(3);
    OneHolds(3, eq);
    YesThen(2, Or, IsYes(3), eq, false);
    YesThen(1, And, second, eq, true);
    var ts := IsYes(1) + [Token(And, "", 0)] + second;
    assert Free(ts, Bang);
    PlainOf(ts);
    FlipPlain(ts);
    FlippedHead(ts);
    FirstDecides(Flip(ts), eq);
  }

  lemma OneHolds(i: int, eq: Equality)
    ensures Chain(IsYes(i)) && TestValue(IsYes(i), eq, true) == eq(Ref(i), Text("y"))
  {
    assert Unbanged(IsYes(i)) == IsYes(i);
  }

  lemma PlainOf(ts: seq<Token>)
    requires Chain(ts) && Free(ts, Bang)
    ensures Plain(ts)
  {
  }

  lemma FlippedHead(ts: seq<Token>)
    requires |ts| > 3 && StartsComparison(ts) && Plain(ts) && Plain(Flip(ts)) && ts[3].op.And?
    ensures var us := Flip(ts);
            && StartsComparison(us) && Chain(us) && Unbanged(us) == us && us[3].op.Or?
            && OperandOf(us[0]) == OperandOf(ts[0]) && OperandOf(us[2]) == OperandOf(ts[2])
            && us[1].op.Eq? == ts[1].op.Neq?
  {
  }

  lemma FirstDecides(us: seq<Token>, eq: Equality)
    requires Chain(us) && Unbanged(us) == us && |us| > 3 && us[3].op.Or? && CompareValue(us, eq)
    ensures TestValue(us, eq, true)
  {
  }
}
