/** The rewriting passes of scripts/tkcond.c as functions on token sequences, and what each pass keeps. */
module CondPasses {
  import opened Conditions

  /** What the passes consult: the target architecture, the names in the variable table, and the
      variables that some statement of the script defines. */
  datatype World = World(arch: string, names: seq<string>, defined: set<int>) {
    predicate IsArch(i: int) {
      0 <= i < |names| && names[i] == "ARCH"
    }

    predicate IsUndefined(i: int) {
      i !in defined
    }

    /** What the parser's names for the letters y, m and n in dependencies, and for no text, stand for. */
    function Literal(a: Operand): Operand {
      match a
      case Ref(i) =>
        if !(0 <= i < |names|) then a
        else if names[i] == "CONSTANT_Y" then Text("y")
        else if names[i] == "CONSTANT_M" then Text("m")
        else if names[i] == "CONSTANT_N" then Text("n")
        else if names[i] == "CONSTANT_E" then Text("")
        else a
      case Text(_) => a
      case Not(arg) => Not(Literal(arg))
    }
  }

  /** How the shell that runs the script compares: ARCH has its value, and a variable that is never defined is empty. To
      the shell the parser's names for letters are such variables, too. */
  ghost predicate Fits(eq: Equality, w: World) {
    && (forall i, s :: w.IsArch(i) ==> eq(Ref(i), Text(s)) == (s == w.arch))
    && (forall i, s :: w.IsUndefined(i) && !w.IsArch(i) ==> eq(Ref(i), Text(s)) == (s == ""))
  }

  // ----- remove_bang -----

  function Opposite(t: Token): Token {
    t.(op := if t.op.Eq? then Neq else Eq)
  }

  function RemoveBang(ts: seq<Token>): (r: seq<Token>)
    ensures |r| <= |ts|
    decreases |ts|
  {
    if |ts| == 0 then []
    else if ts[0].op.Bang? && |ts| >= 3 && IsCompare(ts[2]) then
      [ts[1], Opposite(ts[2])] + RemoveBang(ts[3..])
    else [ts[0]] + RemoveBang(ts[1..])
  }

  /** The rest of a chain after its first comparison, from the connective on. */
  function AfterFirst(ts: seq<Token>): seq<Token>
    requires Chain(ts)
  {
    Unbanged(ts)[3..]
  }

  lemma {:induction false} RemoveBangFirst(ts: seq<Token>)
    requires Chain(ts)
    ensures var us := Unbanged(ts);
            RemoveBang(ts) == [us[0], if ts[0].op.Bang? then Opposite(us[1]) else us[1], us[2]] + RemoveBang(AfterFirst(ts))
  {
    var us := Unbanged(ts);
    if ts[0].op.Bang? {
      assert ts[3..][1..] == us[3..];
      assert RemoveBang(ts[3..]) == [ts[3]] + RemoveBang(ts[3..][1..]);
    } else {
      assert ts[1..][1..] == ts[2..] && ts[2..][1..] == ts[3..];
      assert RemoveBang(ts) == [ts[0]] + RemoveBang(ts[1..]);
      assert RemoveBang(ts[1..]) == [ts[1]] + RemoveBang(ts[2..]);
      assert RemoveBang(ts[2..]) == [ts[2]] + RemoveBang(ts[3..]);
    }
  }

  function BangedValue(ts: seq<Token>, eq: Equality, acc: bool): bool
    requires Chain(ts)
  {
    acc && CompareValue(Unbanged(ts), eq) != ts[0].op.Bang?
  }

  /** A chain of at least two comparisons: after the pass it is its first comparison, the same connective, and
      the pass's result on the rest. */
  lemma {:induction false} RemoveBangStep(ts: seq<Token>)
    requires Chain(ts) && |Unbanged(ts)| > 3
    ensures var us := Unbanged(ts);
            && Chain(us[4..])
            && RemoveBang(ts)
               == [us[0], if ts[0].op.Bang? then Opposite(us[1]) else us[1], us[2], us[3]] + RemoveBang(us[4..])
  {
    RemoveBangFirst(ts);
    ChainTail(ts);
    var rest := AfterFirst(ts);
    assert rest[1..] == Unbanged(ts)[4..];
    assert RemoveBang(rest) == [rest[0]] + RemoveBang(rest[1..]);
  }

  lemma {:induction false} RemoveBangLeavesNone(ts: seq<Token>)
    requires Chain(ts)
    ensures Free(RemoveBang(ts), Bang)
    decreases |ts|
  {
    RemoveBangFirst(ts);
    if |Unbanged(ts)| > 3 {
      RemoveBangStep(ts);
      RemoveBangLeavesNone(Unbanged(ts)[4..]);
    }
  }

  lemma {:induction false} RemoveBangInChain(ts: seq<Token>, eq: Equality, acc: bool)
    requires Chain(ts)
    ensures Chain(RemoveBang(ts))
    ensures TestValue(RemoveBang(ts), eq, acc) == TestValue(ts, eq, acc)
    decreases |ts|
  {
    RemoveBangFirst(ts);
    var us := Unbanged(ts);
    var r := RemoveBang(ts);
    if |us| == 3 {
      assert r[3..] == [];
    } else {
      RemoveBangStep(ts);
      RemoveBangInChain(us[4..], eq, us[3].op.Or? || BangedValue(ts, eq, acc));
      assert r[4..] == RemoveBang(us[4..]);
      hide RemoveBang;
    }
  }

  /** remove_bang bridges the two precedences: no `!` is left, and the value under `test` stays, which
      TclReadsPlain makes the value under Tcl as well. */
  lemma RemoveBangKeepsValue(ts: seq<Token>, eq: Equality, acc: bool)
    requires Chain(ts)
    ensures Plain(RemoveBang(ts))
    ensures TestValue(RemoveBang(ts), eq, acc) == TestValue(ts, eq, acc)
  {
    RemoveBangLeavesNone(ts);
    RemoveBangInChain(ts, eq, acc);
  }

  /** Every connective of the chain is `op`. */
  predicate Only(ts: seq<Token>, op: Op)
    requires Chain(ts)
    decreases |ts|
  {
    var us := Unbanged(ts);
    |us| == 3 || (us[3].op == op && Only(us[4..], op))
  }

  /** One kind of connective at most. */
  predicate Uniform(ts: seq<Token>)
    requires Chain(ts)
  {
    Only(ts, And) || Only(ts, Or)
  }

  lemma {:induction false} RemoveBangKeepsConnectives(ts: seq<Token>, op: Op)
    requires Chain(ts)
    ensures Chain(RemoveBang(ts)) && (Only(RemoveBang(ts), op) <==> Only(ts, op))
    decreases |ts|
  {
    RemoveBangFirst(ts);
    var us := Unbanged(ts);
    var r := RemoveBang(ts);
    if |us| == 3 {
      assert r[3..] == [];
    } else {
      RemoveBangStep(ts);
      RemoveBangKeepsConnectives(us[4..], op);
      assert r[4..] == RemoveBang(us[4..]);
    }
  }

  lemma FreeUnbanged(ts: seq<Token>, op: Op)
    requires !op.Bang?
    ensures Free(ts, op) <==> Free(Unbanged(ts), op)
  {
    if |ts| > 0 && ts[0].op.Bang? {
      assert forall i :: 1 <= i < |ts| ==> ts[i] == ts[1..][i - 1];
    }
  }

  // ----- the inversion at an `else` -----

  function FlipToken(t: Token): Token {
    match t.op
    case And => t.(op := Or)
    case Or => t.(op := And1)
    case Neq => t.(op := Eq)
    case Eq => t.(op := Neq)
    case True => t.(op := False)
    case False => t.(op := True)
    case _ => t
  }

  function Flip(ts: seq<Token>): (r: seq<Token>)
    ensures |r| == |ts|
    ensures forall i :: 0 <= i < |ts| ==> r[i] == FlipToken(ts[i])
  {
    seq(|ts|, i requires 0 <= i < |ts| => FlipToken(ts[i]))
  }

  lemma {:induction false} FlipPlain(ts: seq<Token>)
    requires Plain(ts)
    ensures Plain(Flip(ts))
    decreases |ts|
  {
    assert Unbanged(ts) == ts && Unbanged(Flip(ts)) == Flip(ts);
    if |ts| > 3 {
      ChainTail(ts);
      assert Flip(ts)[4..] == Flip(ts[4..]);
      FlipPlain(ts[4..]);
    }
  }

  /** All-`-a` chains: the accumulated value is a conjunction, and its flip a disjunction. */
  lemma {:induction false} FlipAnds(ts: seq<Token>, eq: Equality)
    requires Plain(ts) && Only(ts, And)
    ensures Plain(Flip(ts)) && TestValue(Flip(ts), eq, true) == !TestValue(ts, eq, true)
    ensures !TestValue(ts, eq, false)
    decreases |ts|
  {
    FlipPlain(ts);
    assert Unbanged(ts) == ts && Unbanged(Flip(ts)) == Flip(ts);
    if |ts| > 3 {
      ChainTail(ts);
      assert Flip(ts)[4..] == Flip(ts[4..]);
      FlipAnds(ts[4..], eq);
    }
  }

  lemma {:induction false} FlipOrs(ts: seq<Token>, eq: Equality)
    requires Plain(ts) && Only(ts, Or)
    ensures Plain(Flip(ts)) && TestValue(Flip(ts), eq, true) == !TestValue(ts, eq, true)
    ensures !TestValue(Flip(ts), eq, false)
    decreases |ts|
  {
    FlipPlain(ts);
    assert Unbanged(ts) == ts && Unbanged(Flip(ts)) == Flip(ts);
    if |ts| > 3 {
      ChainTail(ts);
      assert Flip(ts)[4..] == Flip(ts[4..]);
      FlipOrs(ts[4..], eq);
    }
  }

  /** The inversion is right for chains with one kind of connective. */
  lemma FlipNegates(ts: seq<Token>, eq: Equality)
    requires Plain(ts) && Uniform(ts)
    ensures Plain(Flip(ts)) && TestValue(Flip(ts), eq, true) == !TestValue(ts, eq, true)
  {
    if Only(ts, And) { FlipAnds(ts, eq); } else { FlipOrs(ts, eq); }
  }

  // ----- eliminate_other_arch -----

  /** Whether the comparison at the head of a chain, `$var op "text"`, has a value in every world. */
  predicate HeadIsArch(ts: seq<Token>, w: World)
    requires Chain(ts)
  {
    ts[0].op.Variable? && w.IsArch(ts[0].nameindex) && ts[2].op.Constant?
  }

  /** The one comparison with a never-defined variable that the program decides: `$var = "nonempty"`. */
  predicate HeadIsEmpty(ts: seq<Token>, w: World)
    requires Chain(ts)
  {
    && ts[0].op.Variable? && w.IsUndefined(ts[0].nameindex) && ts[2].op.Constant?
    && ts[1].op.Eq? && ts[2].str != ""
  }

  function Eliminate(ts: seq<Token>, w: World): (r: seq<Token>)
    requires Tokenized(ts)
    ensures |r| <= |ts|
    ensures r == ts || |r| < |ts|
    decreases |ts|
  {
    if HeadIsArch(ts, w) then
      var holds := (ts[2].str == w.arch) == ts[1].op.Eq?;
      if |ts| == 3 then [ts[0].(op := if holds then True else False)]
      else if ts[3].op.Or? then
        if holds then [ts[0].(op := True)] else ChainTail(ts); Eliminate(ts[4..], w)
      else
        if holds then ChainTail(ts); Eliminate(ts[4..], w)
        else if !Free(ts[4..], Or) then ts
        else [ts[0].(op := False)]
    else if HeadIsEmpty(ts, w) then
      if |ts| == 3 || ts[3].op.And? then [ts[0].(op := False)]
      else ChainTail(ts); Eliminate(ts[4..], w)
    else ts
  }

  /** The branch marked with question marks in the program is reached although an `-o` follows. */
  predicate DropsDisjunct(ts: seq<Token>, w: World)
    requires Tokenized(ts)
    decreases |ts|
  {
    if HeadIsArch(ts, w) then
      var holds := (ts[2].str == w.arch) == ts[1].op.Eq?;
      |ts| > 3 && ts[3].op.Or? != holds && (ChainTail(ts); DropsDisjunct(ts[4..], w))
    else
      && HeadIsEmpty(ts, w) && |ts| > 3
      && if ts[3].op.And? then !Free(ts[4..], Or) else ChainTail(ts); DropsDisjunct(ts[4..], w)
  }

  predicate IsConst(ts: seq<Token>) {
    |ts| == 1 && (ts[0].op.True? || ts[0].op.False?)
  }

  /** The chain begins with `$var = "text"` for a variable that is never defined, or with a comparison of the
      architecture, and for that one there is no excuse: a false one with a `-a` behind it and a `-o` further on. */
  predicate Undecided(ts: seq<Token>, w: World)
    requires Chain(ts)
  {
    && ts[0].op.Variable? && ts[2].op.Constant?
    && var i := ts[0].nameindex;
       if 0 <= i < |w.names| && w.names[i] == "ARCH" then
         !(&& ts[1].op.Eq? == (ts[2].str != w.arch)
           && |ts| > 3 && ts[3].op.And? && exists k :: 4 <= k < |ts| && ts[k].op.Or?)
       else i !in w.defined && ts[1].op.Eq? && ts[2].str != ""
  }

  lemma OrBehind(ts: seq<Token>)
    requires |ts| > 4
    ensures !Free(ts[4..], Or) ==> exists k :: 4 <= k < |ts| && ts[k].op.Or?
  {
    if k :| 0 <= k < |ts| - 4 && ts[4..][k].op == Or {
      assert ts[k + 4].op.Or?;
    }
  }

  /** Partial evaluation is thorough: what is left never begins with a comparison that could have been decided. */
  lemma {:induction false} NothingIsUndecided(ts: seq<Token>, w: World)
    requires Tokenized(ts)
    ensures var e := Eliminate(ts, w); IsConst(e) || (Tokenized(e) && !Undecided(e, w))
    decreases |ts|
  {
    if |ts| > 3 && ts[0].op.Variable? {
      ChainTail(ts);
      OrBehind(ts);
      NothingIsUndecided(ts[4..], w);
      hide Chain, Free;
    }
  }

  /** What stands on the condition stack: a decided condition or a chain. */
  predicate IsFrame(ts: seq<Token>) {
    IsConst(ts) || Plain(ts)
  }

  predicate FrameValue(ts: seq<Token>, eq: Equality)
    requires IsConst(ts) || Chain(ts)
  {
    if IsConst(ts) then ts[0].op.True? else TestValue(ts, eq, true)
  }

  lemma {:induction false} FalseConjunct(ts: seq<Token>, eq: Equality)
    requires Chain(ts) && Free(ts, Or)
    ensures !TestValue(ts, eq, false)
    decreases |ts|
  {
    FreeUnbanged(ts, Or);
    if |Unbanged(ts)| > 3 {
      ChainTail(ts);
      FalseConjunct(Unbanged(ts)[4..], eq);
    }
  }

  /** Partial evaluation keeps the value in every interpretation that fits, and yields a decided condition or a chain. */
  lemma {:induction false} EliminateKeepsValue(ts: seq<Token>, w: World, eq: Equality)
    requires Tokenized(ts) && Fits(eq, w)
    requires !DropsDisjunct(ts, w)
    ensures IsConst(Eliminate(ts, w)) || Tokenized(Eliminate(ts, w))
    ensures FrameValue(Eliminate(ts, w), eq) == TestValue(ts, eq, true)
    decreases |ts|
  {
    if HeadIsArch(ts, w) || HeadIsEmpty(ts, w) {
      assert Unbanged(ts) == ts;
      assert CompareValue(ts, eq) == (eq(Ref(ts[0].nameindex), Text(ts[2].str)) == ts[1].op.Eq?);
      if |ts| > 3 {
        ChainTail(ts);
        if Free(ts[4..], Or) {
          FalseConjunct(ts[4..], eq);
        }
        if HeadIsArch(ts, w) && ((ts[2].str == w.arch) == ts[1].op.Eq?) != ts[3].op.Or? {
          EliminateKeepsValue(ts[4..], w, eq);
        } else if !HeadIsArch(ts, w) && ts[3].op.Or? {
          EliminateKeepsValue(ts[4..], w, eq);
        }
      }
    }
  }

  lemma {:induction false} OnlyIsFree(ts: seq<Token>, op: Op, other: Op)
    requires Tokenized(ts) && Only(ts, op) && op in {And, Or} && other in {And, Or} && other != op
    ensures Free(ts, other)
    decreases |ts|
  {
    var us := Unbanged(ts);
    FreeUnbanged(ts, other);
    if |us| > 3 {
      ChainTail(ts);
      OnlyIsFree(us[4..], op, other);
      assert forall i :: 4 <= i < |us| ==> us[i] == us[4..][i - 4];
    }
  }

  lemma {:induction false} EliminateShape(ts: seq<Token>, w: World)
    requires Tokenized(ts)
    ensures IsConst(Eliminate(ts, w)) || Tokenized(Eliminate(ts, w))
    decreases |ts|
  {
    if |ts| > 3 && ts[0].op.Variable? {
      assert Unbanged(ts) == ts;
      ChainTail(ts);
      EliminateShape(ts[4..], w);
    }
  }

  /** A condition with one kind of connective never reaches that branch with an `-o` behind it, and what is left of it
      is decided or a chain of the same kind, without constants. */
  lemma {:induction false} UniformIsSafe(ts: seq<Token>, w: World, op: Op)
    requires Tokenized(ts) && Only(ts, op) && op in {And, Or}
    ensures !DropsDisjunct(ts, w)
    ensures var r := Eliminate(ts, w);
            IsConst(r) || (Tokenized(r) && Only(r, op) && Free(r, True) && Free(r, False))
    decreases |ts|
  {
    ChainParenFree(ts);
    if HeadIsArch(ts, w) || HeadIsEmpty(ts, w) {
      assert Unbanged(ts) == ts;
      if |ts| > 3 {
        ChainTail(ts);
        UniformIsSafe(ts[4..], w, op);
        if op.And? { OnlyIsFree(ts[4..], And, Or); }
      }
    }
  }

  /** A chain from behind its first `-o` on. */
  function BehindOr(ts: seq<Token>): (r: seq<Token>)
    requires Tokenized(ts) && !Free(ts, Or)
    ensures Tokenized(r)
    decreases |ts|
  {
    OrFollows(ts);
    var us := Unbanged(ts);
    if us[3].op.Or? then us[4..] else BehindOr(us[4..])
  }

  lemma OrFollows(ts: seq<Token>)
    requires Tokenized(ts) && !Free(ts, Or)
    ensures var us := Unbanged(ts);
            |us| > 3 && Tokenized(us[4..]) && |us[4..]| < |ts| && (us[3].op.Or? || !Free(us[4..], Or))
  {
    FreeUnbanged(ts, Or);
    var us := Unbanged(ts);
    var i :| 0 <= i < |us| && us[i].op.Or?;
    assert i >= 3;
    ChainTail(ts);
    if i > 3 {
      assert us[4..][i - 4].op.Or?;
    }
  }

  lemma {:induction false} OnlyBehindOr(ts: seq<Token>, eq: Equality)
    requires Tokenized(ts) && !Free(ts, Or)
    ensures TestValue(ts, eq, false) == TestValue(BehindOr(ts), eq, true)
    decreases |ts|
  {
    var us := Unbanged(ts);
    OrFollows(ts);
    if !us[3].op.Or? {
      OnlyBehindOr(us[4..], eq);
    }
  }

  /** The alternatives that the question-mark branch forgets. */
  function Forgotten(ts: seq<Token>, w: World): (r: seq<Token>)
    requires Tokenized(ts) && DropsDisjunct(ts, w)
    ensures Tokenized(r)
    decreases |ts|
  {
    ChainTail(ts);
    if HeadIsEmpty(ts, w) && !HeadIsArch(ts, w) && ts[3].op.And? then BehindOr(ts[4..])
    else Forgotten(ts[4..], w)
  }

  /** When that branch is reached the condition becomes false, although its value is that of the forgotten
      alternatives. */
  lemma {:induction false} EliminateForgets(ts: seq<Token>, w: World, eq: Equality)
    requires Tokenized(ts) && Fits(eq, w) && DropsDisjunct(ts, w)
    ensures IsConst(Eliminate(ts, w)) && !FrameValue(Eliminate(ts, w), eq)
    ensures TestValue(ts, eq, true) == TestValue(Forgotten(ts, w), eq, true)
    decreases |ts|
  {
    assert Unbanged(ts) == ts;
    ChainTail(ts);
    assert CompareValue(ts, eq) == (eq(Ref(ts[0].nameindex), Text(ts[2].str)) == ts[1].op.Eq?);
    if HeadIsEmpty(ts, w) && !HeadIsArch(ts, w) && ts[3].op.And? {
      OnlyBehindOr(ts[4..], eq);
    } else {
      EliminateForgets(ts[4..], w, eq);
    }
  }

  /** Exactly when partial evaluation keeps the value of a condition. */
  lemma EliminateKeepsValueIff(ts: seq<Token>, w: World, eq: Equality)
    requires Tokenized(ts) && Fits(eq, w)
    ensures IsConst(Eliminate(ts, w)) || Tokenized(Eliminate(ts, w))
    ensures FrameValue(Eliminate(ts, w), eq) == TestValue(ts, eq, true)
       <==> !(DropsDisjunct(ts, w) && TestValue(Forgotten(ts, w), eq, true))
  {
    if DropsDisjunct(ts, w) { EliminateForgets(ts, w, eq); } else { EliminateKeepsValue(ts, w, eq); }
  }

  /** `$i = "y"` */
  function IsYes(i: int): seq<Token> {
    [Token(Variable, "", i), Token(Eq, "", 0), Token(Constant, "y", 0)]
  }

  lemma YesThen(i: int, op: Op, rest: seq<Token>, eq: Equality, acc: bool)
    requires Chain(rest) && op in {And, Or}
    ensures var ts := IsYes(i) + [Token(op, "", 0)] + rest;
            && Chain(ts) && ts[4..] == rest && |ts| > 3 && ts[3].op == op
            && TestValue(ts, eq, acc) == var v := acc && eq(Ref(i), Text("y"));
                                         if op.Or? then v || TestValue(rest, eq, true) else TestValue(rest, eq, v)
  {
    var ts := IsYes(i) + [Token(op, "", 0)] + rest;
    assert ts[4..] == rest && Unbanged(ts) == ts;
  }

  lemma UndefinedFirstDrops(second: seq<Token>, w: World, eq: Equality)
    requires Tokenized(second) && |second| > 3 && second[3].op.Or?
    requires w.IsUndefined(1) && !w.IsArch(1)
    ensures var ts := IsYes(1) + [Token(And, "", 0)] + second; Tokenized(ts) && DropsDisjunct(ts, w)
  {
    var ts := IsYes(1) + [Token(And, "", 0)] + second;
    YesThen(1, And, second, eq, true);
    hide Chain;
    assert !Free(ts[4..], Or);
  }

  /** The smallest condition the question-mark branch gets wrong, with variable 1 never defined:
      `$1 = "y" -a $2 = "y" -o $3 = "y"` becomes false although the last comparison may hold. */
  lemma QuestionBranchLosesAlternative(w: World, eq: Equality)
    requires w.IsUndefined(1) && !w.IsArch(1) && Fits(eq, w) && eq(Ref(3), Text("y"))
    ensures var ts := IsYes(1) + [Token(And, "", 0)] + (IsYes(2) + [Token(Or, "", 0)] + IsYes(3));
            && Tokenized(ts) && TestValue(ts, eq, true)
            && IsConst(Eliminate(ts, w)) && !FrameValue(Eliminate(ts, w), eq)
  {
    var third := IsYes(3);
    assert Unbanged(third) == third && Tokenized(third) && TestValue(third, eq, true);
    hide Chain, TestValue, DropsDisjunct;
    var second := IsYes(2) + [Token(Or, "", 0)] + third;
    YesThen(2, Or, third, eq, eq(Ref(1), Text("y")));
    hide Tokenized;
    YesThen(1, And, second, eq, true);
    UndefinedFirstDrops(second, w, eq);
    EliminateForgets(IsYes(1) + [Token(And, "", 0)] + second, w, eq);
  }

  /** Why remove_bang is needed: left in place, a `!` binds to the operand in Tcl and to the comparison in `test`. */
  lemma BangReadsDifferently()
    ensures exists eq: Equality, ts ::
              Chain(ts) && TclExpr(ts, eq, true).Parsed? && TclExpr(ts, eq, true).rest == []
              && TclExpr(ts, eq, true).value != TestValue(ts, eq, true)
  {
    var eq: Equality := (a, b) => false;
    var ts := [Token(Bang, "", 0), Token(Variable, "", 1), Token(Eq, "", 0), Token(Constant, "y", 0)];
    assert Unbanged(ts) == ts[1..] && Chain(ts);
    assert TclOperand(ts[1..]) == SomeOperand(Ref(1), ts[1..][1..]);
    assert ts[1..][1..] == ts[2..] && ts[2..][1..] == ts[3..];
    assert TclOperand(ts) == SomeOperand(Not(Ref(1)), ts[2..]);
    assert TclPrimary(ts, eq) == Parsed(false, []);
    assert TclExpr(ts, eq, true) == Parsed(false, []);
    assert TestValue(ts, eq, true);
  }
}
