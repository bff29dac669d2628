/** Condition chains of scripts/tkparse.h and the two ways they are read: by the `test` command of the
    configuration language, and as the Tcl expression that tkgen.c prints. */
module Conditions {
  datatype Op =
    | Eq | Neq | And | And1 | Or | Bang | LParen | RParen
    | Constant | Variable | True | False | Nuked

  /** One `struct condition` without its link. A string that is NULL in the program is empty here. */
  datatype Token = Token(op: Op, str: string, nameindex: int)

  /** What an operand denotes. `Not` is Tcl's `!`, which binds to the operand and not to the comparison. */
  datatype Operand = Ref(index: int) | Text(str: string) | Not(arg: Operand)

  /** An interpretation of `=`: which two operands are equal. */
  type Equality = (Operand, Operand) -> bool

  const LEFT := Token(LParen, "", 0)
  const RIGHT := Token(RParen, "", 0)
  const GLUE := Token(And, "", 0)
  const NEVER := Token(False, "", 0)

  predicate IsOperand(t: Token) {
    t.op.Variable? || t.op.Constant?
  }

  predicate IsCompare(t: Token) {
    t.op.Eq? || t.op.Neq?
  }

  predicate IsConnective(t: Token) {
    t.op.And? || t.op.And1? || t.op.Or?
  }

  function OperandOf(t: Token): Operand {
    if t.op.Variable? then Ref(t.nameindex) else Text(t.str)
  }

  /** The chain without the `!` that may stand before its first comparison. */
  function Unbanged(ts: seq<Token>): seq<Token> {
    if |ts| > 0 && ts[0].op.Bang? then ts[1..] else ts
  }

  predicate StartsComparison(ts: seq<Token>) {
    |ts| >= 3 && IsOperand(ts[0]) && IsCompare(ts[1]) && IsOperand(ts[2])
  }

  /** Comparisons, each with at most one `!`, separated by connectives. */
  predicate Chain(ts: seq<Token>)
    decreases |ts|
  {
    var us := Unbanged(ts);
    StartsComparison(us) && (|us| == 3 || (IsConnective(us[3]) && Chain(us[4..])))
  }

  predicate Free(ts: seq<Token>, op: Op) {
    forall i :: 0 <= i < |ts| ==> ts[i].op != op
  }

  /** A condition of an `if` as the tokenizer delivers it. */
  predicate Tokenized(ts: seq<Token>) {
    Chain(ts) && Free(ts, And1)
  }

  /** A chain from which remove_bang has taken every `!`. */
  predicate Plain(ts: seq<Token>) {
    Chain(ts) && Free(ts, Bang)
  }

  predicate CompareValue(ts: seq<Token>, eq: Equality)
    requires StartsComparison(ts)
  {
    eq(OperandOf(ts[0]), OperandOf(ts[2])) == ts[1].op.Eq?
  }

  /** The value `test` gives a chain: `!` covers the comparison, and `-a` binds over `-o`.
      `acc` is the value of the conjunction read so far. */
  predicate TestValue(ts: seq<Token>, eq: Equality, acc: bool)
    requires Chain(ts)
    decreases |ts|
  {
    var us := Unbanged(ts);
    var v := acc && CompareValue(us, eq) != ts[0].op.Bang?;
    if |us| == 3 then v
    else if us[3].op.Or? then v || TestValue(us[4..], eq, true)
    else TestValue(us[4..], eq, v)
  }

  // ----- the Tcl expression -----

  datatype OperandParse = NoOperand | SomeOperand(value: Operand, rest: seq<Token>)
  datatype Parse = Stuck | Parsed(value: bool, rest: seq<Token>)

  function TclOperand(ts: seq<Token>): (r: OperandParse)
    ensures r.SomeOperand? ==> |r.rest| < |ts|
  {
    if |ts| > 0 && IsOperand(ts[0]) then SomeOperand(OperandOf(ts[0]), ts[1..])
    else if |ts| > 0 && ts[0].op.Bang? then
      match TclOperand(ts[1..])
      case NoOperand => NoOperand
      case SomeOperand(a, rest) => SomeOperand(Not(a), rest)
    else NoOperand
  }

  function TclComparison(ts: seq<Token>, eq: Equality): (r: Parse)
    ensures r.Parsed? ==> |r.rest| < |ts|
  {
    match TclOperand(ts)
    case NoOperand => Stuck
    case SomeOperand(a, r) =>
      if |r| > 0 && IsCompare(r[0]) then
        match TclOperand(r[1..])
        case NoOperand => Stuck
        case SomeOperand(b, rest) => Parsed(eq(a, b) == r[0].op.Eq?, rest)
      else Stuck
  }

  function TclPrimary(ts: seq<Token>, eq: Equality): (r: Parse)
    ensures r.Parsed? ==> |r.rest| < |ts|
    decreases |ts|, 0
  {
    if |ts| > 0 && ts[0].op.LParen? then
      match TclExpr(ts[1..], eq, true)
      case Stuck => Stuck
      case Parsed(v, rest) => if |rest| > 0 && rest[0].op.RParen? then Parsed(v, rest[1..]) else Stuck
    else TclComparison(ts, eq)
  }

  /** Reads one expression, `&&` binding over `||`, as far as it reaches; `acc` as in TestValue. */
  function TclExpr(ts: seq<Token>, eq: Equality, acc: bool): (r: Parse)
    ensures r.Parsed? ==> |r.rest| < |ts|
    decreases |ts|, 1
  {
    match TclPrimary(ts, eq)
    case Stuck => Stuck
    case Parsed(v, rest) =>
      if |rest| == 0 || !IsConnective(rest[0]) then Parsed(acc && v, rest)
      else if rest[0].op.Or? then
        match TclExpr(rest[1..], eq, true)
        case Stuck => Stuck
        case Parsed(w, r) => Parsed((acc && v) || w, r)
      else TclExpr(rest[1..], eq, acc && v)
  }

  /** The tokens generate_if prints: it has no case for the last three operators. */
  function Visible(ts: seq<Token>): seq<Token> {
    if |ts| == 0 then []
    else (if ts[0].op.Nuked? || ts[0].op.True? || ts[0].op.False? then [] else [ts[0]]) + Visible(ts[1..])
  }

  datatype Truth = Yes | No | Malformed

  /** The value of a statement's guard; a statement without a condition (NULL) is unconditional. */
  function GuardValue(guard: seq<Token>, eq: Equality): Truth {
    if guard == [] then Yes
    else
      match TclExpr(Visible(guard), eq, true)
      case Stuck => Malformed
      case Parsed(v, rest) => if rest != [] then Malformed else if v then Yes else No
  }

  // ----- chains inside the Tcl expression -----

  lemma {:induction false} ChainTail(ts: seq<Token>)
    requires Chain(ts)
    requires |Unbanged(ts)| > 3
    ensures Chain(Unbanged(ts)[4..]) && |Unbanged(ts)[4..]| < |ts|
    ensures forall op :: Free(ts, op) ==> Free(Unbanged(ts)[4..], op)
  {
    var k := if ts[0].op.Bang? then 5 else 4;
    assert Unbanged(ts)[4..] == ts[k..];
  }

  lemma {:induction false} ChainParenFree(ts: seq<Token>)
    requires Chain(ts)
    ensures Free(ts, LParen) && Free(ts, RParen) && Free(ts, True) && Free(ts, False) && Free(ts, Nuked)
    decreases |ts|
  {
    var us := Unbanged(ts);
    if |us| > 3 {
      ChainTail(ts);
      ChainParenFree(us[4..]);
      assert forall i :: 4 <= i < |us| ==> us[i] == us[4..][i - 4];
    }
    assert forall i :: 1 <= i < |ts| ==> ts[i] == (if ts[0].op.Bang? then us[i - 1] else us[i]);
  }

  /** A chain without `!` means the same to Tcl as to `test`. */
  lemma {:induction false} TclReadsPlain(ts: seq<Token>, rest: seq<Token>, eq: Equality, acc: bool)
    requires Plain(ts)
    requires |rest| > 0 ==> !IsConnective(rest[0])
    ensures TclExpr(ts + rest, eq, acc) == Parsed(TestValue(ts, eq, acc), rest)
    decreases |ts|
  {
    assert Unbanged(ts) == ts;
    var all := ts + rest;
    assert TclOperand(all) == SomeOperand(OperandOf(ts[0]), all[1..]);
    assert all[1..][1..] == all[2..] && all[2..][1..] == all[3..];
    assert TclOperand(all[2..]) == SomeOperand(OperandOf(ts[2]), all[3..]);
    assert TclPrimary(all, eq) == Parsed(CompareValue(ts, eq), all[3..]);
    if |ts| == 3 {
      assert all[3..] == rest;
    } else {
      ChainTail(ts);
      assert all[3..][1..] == ts[4..] + rest;
      TclReadsPlain(ts[4..], rest, eq, if ts[3].op.Or? then true else acc && CompareValue(ts, eq));
    }
  }

  // ----- parenthesized groups joined by && -----

  function Group(c: seq<Token>): seq<Token> {
    [LEFT] + c + [RIGHT]
  }

  function Glue(cs: seq<seq<Token>>): seq<Token> {
    if |cs| == 0 then []
    else if |cs| == 1 then Group(cs[0])
    else Group(cs[0]) + [GLUE] + Glue(cs[1..])
  }

  predicate AllPlain(cs: seq<seq<Token>>) {
    forall i :: 0 <= i < |cs| ==> Plain(cs[i])
  }

  predicate AllHold(cs: seq<seq<Token>>, eq: Equality)
    requires AllPlain(cs)
  {
    forall i :: 0 <= i < |cs| ==> TestValue(cs[i], eq, true)
  }

  lemma AllHoldAppend(xs: seq<seq<Token>>, ys: seq<seq<Token>>, eq: Equality)
    requires AllPlain(xs) && AllPlain(ys)
    ensures AllPlain(xs + ys)
    ensures AllHold(xs + ys, eq) == (AllHold(xs, eq) && AllHold(ys, eq))
  {
    hide TestValue, Chain;
    var zs := xs + ys;
    if AllHold(zs, eq) {
      forall i | 0 <= i < |xs| ensures TestValue(xs[i], eq, true) {
        assert zs[i] == xs[i];
      }
      forall i | 0 <= i < |ys| ensures TestValue(ys[i], eq, true) {
        assert zs[|xs| + i] == ys[i];
      }
    }
  }

  lemma {:induction false} TclReadsGroup(c: seq<Token>, rest: seq<Token>, eq: Equality)
    requires Plain(c)
    ensures TclPrimary(Group(c) + rest, eq) == Parsed(TestValue(c, eq, true), rest)
  {
    var all := Group(c) + rest;
    assert all[1..] == c + ([RIGHT] + rest);
    TclReadsPlain(c, [RIGHT] + rest, eq, true);
    assert ([RIGHT] + rest)[1..] == rest;
  }

  /** Groups joined by `&&` read as the conjunction of the groups. */
  lemma {:induction false} TclReadsGlue(cs: seq<seq<Token>>, eq: Equality, acc: bool)
    requires |cs| > 0 && AllPlain(cs)
    ensures TclExpr(Glue(cs), eq, acc) == Parsed(acc && AllHold(cs, eq), [])
    decreases |cs|
  {
    hide TestValue, Chain, TclPrimary;
    if |cs| == 1 {
      assert Glue(cs) == Group(cs[0]) + [];
      TclReadsGroup(cs[0], [], eq);
    } else {
      var tail := Glue(cs[1..]);
      assert Glue(cs) == Group(cs[0]) + ([GLUE] + tail);
      TclReadsGroup(cs[0], [GLUE] + tail, eq);
      assert ([GLUE] + tail)[1..] == tail;
      TclReadsGlue(cs[1..], eq, acc && TestValue(cs[0], eq, true));
      AllHoldAppend([cs[0]], cs[1..], eq);
      assert cs == [cs[0]] + cs[1..];
    }
  }

  lemma {:induction false} GlueAppend(xs: seq<seq<Token>>, ys: seq<seq<Token>>)
    requires |xs| > 0 && |ys| > 0
    ensures Glue(xs + ys) == Glue(xs) + [GLUE] + Glue(ys)
    decreases |xs|
  {
    if |xs| == 1 {
      assert (xs + ys)[1..] == ys;
    } else {
      assert (xs + ys)[1..] == xs[1..] + ys;
      GlueAppend(xs[1..], ys);
    }
  }

  // ----- what is printed -----

  lemma {:induction false} VisibleConcat(a: seq<Token>, b: seq<Token>)
    ensures Visible(a + b) == Visible(a) + Visible(b)
    decreases |a|
  {
    if |a| == 0 {
      assert a + b == b;
    } else {
      assert (a + b)[1..] == a[1..] + b;
      VisibleConcat(a[1..], b);
    }
  }

  lemma {:induction false} VisibleAll(ts: seq<Token>)
    requires Free(ts, Nuked) && Free(ts, True) && Free(ts, False)
    ensures Visible(ts) == ts
    decreases |ts|
  {
    if |ts| > 0 {
      VisibleAll(ts[1..]);
    }
  }

  lemma {:induction false} GlueFree(cs: seq<seq<Token>>)
    requires AllPlain(cs)
    ensures Free(Glue(cs), Nuked) && Free(Glue(cs), True) && Free(Glue(cs), False)
    decreases |cs|
  {
    if |cs| > 0 {
      ChainParenFree(cs[0]);
      GlueFree(cs[1..]);
    }
  }

  lemma {:induction false} VisibleGlue(cs: seq<seq<Token>>)
    requires AllPlain(cs)
    ensures Visible(Glue(cs)) == Glue(cs)
  {
    GlueFree(cs);
    VisibleAll(Glue(cs));
  }
}
