/** fix_conditionals of scripts/tkcond.c as a function on statement lists, and its meaning: the flat list with
    guards does what the nested if/else/fi script does. */
module Flattening {
  import opened Conditions
  import opened CondPasses
  import opened Joining
  import opened Statements
  import opened Sequences

  const MAX_DEPTH := 32

  // ----- the transformation -----

  /** What the loop demands of the list: `else` and `fi` have their `if`, and the stack does not overflow. */
  predicate Nested(stmts: seq<Stmt>, depth: nat) {
    if |stmts| == 0 then true else
    var s, rest := stmts[0], stmts[1..];
    match s.kind
    case If => Tokenized(s.cond) && depth < MAX_DEPTH && Nested(rest, depth + 1)
    case Else => depth > 0 && Nested(rest, depth)
    case Fi => depth > 0 && Nested(rest, depth - 1)
    case _ =>
      && (IsDep(s.kind) && s.cond != [] ==> s.cond[0].op.LParen? && depth < MAX_DEPTH)
      && Nested(rest, depth)
  }

  predicate NonEmpty(stack: seq<seq<Token>>) {
    forall i :: 0 <= i < |stack| ==> |stack[i]| > 0
  }

  /** eliminate_other_arch leaves a list alone that starts with a parenthesis. */
  function EliminateOwn(ts: seq<Token>, w: World): (r: seq<Token>)
    requires ts != [] && (ts[0].op.LParen? || Tokenized(ts))
    ensures r != []
  {
    if ts[0].op.LParen? then ts else EliminateNonEmpty(ts, w); Eliminate(ts, w)
  }

  lemma {:induction false} EliminateNonEmpty(ts: seq<Token>, w: World)
    requires Tokenized(ts)
    ensures Eliminate(ts, w) != []
    decreases |ts|
  {
    if |ts| > 3 && ts[0].op.Variable? {
      ChainTail(ts);
      EliminateNonEmpty(ts[4..], w);
    }
  }

  /** The frame an `if` pushes. */
  function FrameFor(cond: seq<Token>, w: World): (r: seq<Token>)
    requires Tokenized(cond)
    ensures r != []
  {
    EliminateNonEmpty(cond, w);
    RemoveBang(Eliminate(cond, w))
  }

  /** The guard of a simple or dependent statement. */
  function GuardFor(s: Stmt, w: World, stack: seq<seq<Token>>): seq<Token>
    requires NonEmpty(stack)
    requires IsDep(s.kind) && s.cond != [] ==> s.cond[0].op.LParen?
  {
    if IsDep(s.kind) && s.cond != [] then JoinStack(stack + [EliminateOwn(s.cond, w)]) else JoinStack(stack)
  }

  predicate Dropped(guard: seq<Token>) {
    guard != [] && guard[0].op.False?
  }

  function FlipTop(stack: seq<seq<Token>>): (r: seq<seq<Token>>)
    requires |stack| > 0
    ensures |r| == |stack|
    ensures NonEmpty(stack) ==> NonEmpty(r)
  {
    stack[..|stack| - 1] + [Flip(stack[|stack| - 1])]
  }

  /** The statement list from the current statement on, under the given condition stack. */
  function FixFrom(stmts: seq<Stmt>, w: World, stack: seq<seq<Token>>): seq<Stmt>
    requires Nested(stmts, |stack|) && NonEmpty(stack)
    decreases |stmts|
  {
    if |stmts| == 0 then [] else
    var s, rest := stmts[0], stmts[1..];
    if s.kind.If? then [s.(cond := [])] + FixFrom(rest, w, stack + [FrameFor(s.cond, w)])
    else if s.kind.Else? then [s] + FixFrom(rest, w, FlipTop(stack))
    else if s.kind.Fi? then [s] + FixFrom(rest, w, stack[..|stack| - 1])
    else if IsGuarded(s.kind) then
      var guard := GuardFor(s, w, stack);
      (if Dropped(guard) then [] else [s.(cond := guard)]) + FixFrom(rest, w, stack)
    else [s] + FixFrom(rest, w, stack)
  }

  function FixConditionals(stmts: seq<Stmt>, arch: string, names: seq<string>): seq<Stmt>
    requires Nested(stmts, 0)
  {
    FixFrom(stmts, World(arch, names, Defined(stmts)), [])
  }

  // ----- the meaning of a flat list -----

  function Bare(s: Stmt): Stmt {
    s.(cond := [])
  }

  /** The statements in effect, whatever their kind: those whose guard holds. What is left of the `if`s themselves are
      marks. */
  function InEffect(stmts: seq<Stmt>, eq: Equality): seq<Stmt> {
    if |stmts| == 0 then []
    else
      (if stmts[0].kind !in {If, Else, Fi} && GuardValue(stmts[0].cond, eq).Yes? then [Bare(stmts[0])] else [])
      + InEffect(stmts[1..], eq)
  }

  predicate Readable(stmts: seq<Stmt>, eq: Equality) {
    forall i :: 0 <= i < |stmts| ==> !GuardValue(stmts[i].cond, eq).Malformed?
  }

  // ----- the meaning of a nested script -----

  datatype Block =
    | End
    | Do(stmt: Stmt, rest: Block)
    | Branch(cond: seq<Token>, thn: Block, alt: Alternative, rest: Block)

  datatype Alternative = NoElse | ElseBlock(body: Block)

  function IfStmt(cond: seq<Token>): Stmt {
    Stmt(If, 0, "", "", cond)
  }

  const ELSE_STMT := Stmt(Else, 0, "", "", [])
  const FI_STMT := Stmt(Fi, 0, "", "", [])

  /** The script as the list of its statements. */
  function Linearize(b: Block): seq<Stmt> {
    match b
    case End => []
    case Do(s, rest) => [s] + Linearize(rest)
    case Branch(cond, thn, alt, rest) =>
      [IfStmt(cond)] + Linearize(thn)
      + (match alt case NoElse => [] case ElseBlock(els) => [ELSE_STMT] + Linearize(els))
      + [FI_STMT] + Linearize(rest)
  }

  /** The condition of a dependent statement is a conjunction of parenthesized chains, or absent. */
  ghost predicate IsDependency(cond: seq<Token>) {
    cond == [] || exists cs :: |cs| > 0 && AllPlain(cs) && cond == Glue(cs)
  }

  /** A statement as the parser delivers it: only dependent statements have a condition of their own. */
  ghost predicate Ready(s: Stmt) {
    && s.kind !in {If, Else, Fi} && IsDependency(s.cond)
    && (s.cond != [] ==> s.kind in {DepBool, DepMbool, DepTristate})
  }

  /** No statement in the block is of the few kinds that flattening passes over; only `mainmenu_name` among them is ever
      in a list. */
  predicate NoStrays(b: Block) {
    match b
    case End => true
    case Do(s, rest) => s.kind !in {MainmenuName, Source, Then, Unknown} && NoStrays(rest)
    case Branch(_, thn, alt, rest) => NoStrays(thn) && (alt.ElseBlock? ==> NoStrays(alt.body)) && NoStrays(rest)
  }

  /** Where the flattening is right: no `if` reaches the question-mark branch with an `-o` behind it, an `if` with an
      `else` has one kind of connective after partial evaluation, and no `mainmenu_name` stands in an `if`. */
  ghost predicate Flattenable(b: Block, w: World) {
    match b
    case End => true
    case Do(s, rest) => Ready(s) && Flattenable(rest, w)
    case Branch(cond, thn, alt, rest) =>
      && Tokenized(cond) && !DropsDisjunct(cond, w)
      && NoStrays(thn) && Flattenable(thn, w) && Flattenable(rest, w)
      && (alt.ElseBlock? ==>
            NoStrays(alt.body) && Flattenable(alt.body, w) && (Chain(Eliminate(cond, w)) ==> Uniform(Eliminate(cond, w))))
  }

  function Max(a: nat, b: nat): nat {
    if a < b then b else a
  }

  /** How many stack slots the block needs. */
  function Height(b: Block): nat {
    match b
    case End => 0
    case Do(s, rest) => Max(if s.cond != [] then 1 else 0, Height(rest))
    case Branch(cond, thn, alt, rest) =>
      Max(1 + Max(Height(thn), if alt.ElseBlock? then Height(alt.body) else 0), Height(rest))
  }

  /** Three readings of comparisons: by the shell in an `if`, in the dependencies of a statement, and by the program
      that is generated from the flat list. */
  datatype Readings = Readings(shell: Equality, own: Equality, tcl: Equality)

  /** The structured interpreter: which statements, whatever their kind, are reached with their own dependency
      satisfied. */
  function Reached(b: Block, w: World, shell: Equality, own: Equality): seq<Stmt>
    requires Flattenable(b, w)
  {
    match b
    case End => []
    case Do(s, rest) =>
      (if GuardValue(s.cond, own).Yes? then [Bare(s)] else []) + Reached(rest, w, shell, own)
    case Branch(cond, thn, alt, rest) =>
      (if TestValue(cond, shell, true) then Reached(thn, w, shell, own)
       else match alt case NoElse => [] case ElseBlock(els) => Reached(els, w, shell, own))
      + Reached(rest, w, shell, own)
  }

  /** What is left of every condition has under the program's reading the value that the shell gives the condition, and
      dependencies read the same. */
  ghost predicate Agreed(b: Block, w: World, r: Readings)
    requires Flattenable(b, w)
  {
    match b
    case End => true
    case Do(s, rest) => GuardValue(s.cond, r.tcl) == GuardValue(s.cond, r.own) && Agreed(rest, w, r)
    case Branch(cond, thn, alt, rest) =>
      && AgreedOn(cond, w, r.shell, r.tcl) && Agreed(thn, w, r) && Agreed(rest, w, r)
      && (alt.ElseBlock? ==> Agreed(alt.body, w, r))
  }

  ghost predicate AgreedOn(cond: seq<Token>, w: World, shell: Equality, tcl: Equality)
    requires Tokenized(cond)
  {
    EliminateShape(cond, w);
    FrameValue(Eliminate(cond, w), tcl) == TestValue(cond, shell, true)
  }

  // ----- the stack as frames -----

  function FrameOf(ts: seq<Token>): (f: Frame)
    requires IsFrame(ts)
    ensures f.Valid() && f.Tokens() == ts
  {
    if IsConst(ts) then Decided(ts[0]) else Single(ts)
  }

  /** The frame that an `if` pushes has the value of what is left of its condition. */
  lemma FrameKeepsValue(cond: seq<Token>, w: World, eq: Equality)
    requires Tokenized(cond)
    ensures IsConst(Eliminate(cond, w)) || Chain(Eliminate(cond, w))
    ensures IsFrame(FrameFor(cond, w))
    ensures FrameOf(FrameFor(cond, w)).Value(eq) == FrameValue(Eliminate(cond, w), eq)
  {
    EliminateShape(cond, w);
    hide Eliminate, TestValue, Chain;
    var e := Eliminate(cond, w);
    if IsConst(e) {
      assert RemoveBang(e) == [e[0]] + RemoveBang(e[1..]);
      assert RemoveBang(e) == e;
    } else {
      RemoveBangKeepsValue(e, eq, true);
    }
  }

  /** An `else` turns the frame of a uniform condition into its negation. */
  lemma ElseNegates(cond: seq<Token>, w: World, eq: Equality)
    requires Tokenized(cond) && (Chain(Eliminate(cond, w)) ==> Uniform(Eliminate(cond, w)))
    ensures IsConst(Eliminate(cond, w)) || Chain(Eliminate(cond, w))
    ensures IsFrame(Flip(FrameFor(cond, w)))
    ensures FrameOf(Flip(FrameFor(cond, w))).Value(eq) == !FrameValue(Eliminate(cond, w), eq)
  {
    EliminateShape(cond, w);
    hide Eliminate, TestValue, Chain, Only;
    var e := Eliminate(cond, w);
    if IsConst(e) {
      FlipConst(e);
    } else {
      RemoveBangKeepsConnectives(e, And);
      RemoveBangKeepsConnectives(e, Or);
      RemoveBangKeepsValue(e, eq, true);
      FlipNegates(FrameFor(cond, w), eq);
    }
  }

  lemma FlipConst(e: seq<Token>)
    requires IsConst(e)
    ensures RemoveBang(e) == e && Flip(e) == [if e[0].op.True? then e[0].(op := False) else e[0].(op := True)]
  {
    assert RemoveBang(e) == [e[0]] + RemoveBang(e[1..]);
  }

  lemma GuardMeans(s: Stmt, w: World, fs: seq<Frame>, eq: Equality)
    requires AllValid(fs) && Ready(s)
    ensures IsDep(s.kind) && s.cond != [] ==> s.cond[0].op.LParen?
    ensures var guard := GuardFor(s, w, FrameTokens(fs));
            var holds := FramesHold(fs, eq) && GuardValue(s.cond, eq).Yes?;
            if Dropped(guard) then !holds else GuardValue(guard, eq) == if holds then Yes else No
  {
    hide TestValue, JoinStack, Chain;
    if s.cond != [] {
      var cs :| |cs| > 0 && AllPlain(cs) && s.cond == Glue(cs);
      var own := Groups(cs);
      assert s.cond[0] == LEFT;
      assert FrameTokens(fs + [own]) == FrameTokens(fs) + [s.cond];
      JoinIsConjunction(fs + [own], eq);
      TclReadsGlue(cs, eq, true);
      VisibleGlue(cs);
      assert GuardValue(s.cond, eq).Yes? == own.Value(eq);
      FramesHoldInit(fs + [own], eq);
      assert (fs + [own])[..|fs|] == fs;
    } else {
      JoinIsConjunction(fs, eq);
    }
  }

  // ----- preservation -----

  lemma {:induction false} InEffectConcat(a: seq<Stmt>, b: seq<Stmt>, eq: Equality)
    ensures InEffect(a + b, eq) == InEffect(a, eq) + InEffect(b, eq)
    decreases |a|
  {
    if |a| == 0 {
      assert a + b == b;
    } else {
      assert (a + b)[1..] == a[1..] + b;
      InEffectConcat(a[1..], b, eq);
    }
  }

  lemma InEffectHead(s: Stmt, tail: seq<Stmt>, eq: Equality)
    requires s.kind in {If, Else, Fi} && s.cond == []
    ensures InEffect([s] + tail, eq) == InEffect(tail, eq)
    ensures Readable([s] + tail, eq) == Readable(tail, eq)
  {
    assert ([s] + tail)[1..] == tail;
    assert InEffect([s] + tail, eq) == [] + InEffect(tail, eq);
    ReadableConcat([s], tail, eq);
  }

  lemma ReadableConcat(a: seq<Stmt>, b: seq<Stmt>, eq: Equality)
    ensures Readable(a + b, eq) <==> Readable(a, eq) && Readable(b, eq)
  {
    if Readable(a + b, eq) {
      assert forall i :: 0 <= i < |a| ==> (a + b)[i] == a[i];
      assert forall i :: 0 <= i < |b| ==> (a + b)[|a| + i] == b[i];
    }
  }

  /** The effect of a list that is processed under the given frames. */
  ghost function Effect(stmts: seq<Stmt>, w: World, eq: Equality, fs: seq<Frame>): seq<Stmt>
    requires AllValid(fs) && Nested(stmts, |fs|)
  {
    InEffect(FixFrom(stmts, w, FrameTokens(fs)), eq)
  }

  ghost predicate Clear(stmts: seq<Stmt>, w: World, eq: Equality, fs: seq<Frame>)
    requires AllValid(fs) && Nested(stmts, |fs|)
  {
    Readable(FixFrom(stmts, w, FrameTokens(fs)), eq)
  }

  lemma PushFrame(fs: seq<Frame>, f: Frame, eq: Equality)
    requires AllValid(fs) && f.Valid()
    ensures AllValid(fs + [f]) && FrameTokens(fs + [f]) == FrameTokens(fs) + [f.Tokens()]
    ensures FramesHold(fs + [f], eq) == (FramesHold(fs, eq) && f.Value(eq))
  {
    FramesHoldInit(fs + [f], eq);
    assert (fs + [f])[..|fs|] == fs;
  }

  lemma FixIf(cond: seq<Token>, tail: seq<Stmt>, w: World, stack: seq<seq<Token>>)
    requires Tokenized(cond) && |stack| < MAX_DEPTH && NonEmpty(stack) && Nested(tail, |stack| + 1)
    ensures Nested([IfStmt(cond)] + tail, |stack|)
    ensures FixFrom([IfStmt(cond)] + tail, w, stack) == [IfStmt([])] + FixFrom(tail, w, stack + [FrameFor(cond, w)])
  {
    hide Chain, GuardFor;
    assert ([IfStmt(cond)] + tail)[1..] == tail;
  }

  lemma FixElse(tail: seq<Stmt>, w: World, stack: seq<seq<Token>>)
    requires NonEmpty(stack) && |stack| > 0 && Nested(tail, |stack|)
    ensures Nested([ELSE_STMT] + tail, |stack|)
    ensures FixFrom([ELSE_STMT] + tail, w, stack) == [ELSE_STMT] + FixFrom(tail, w, FlipTop(stack))
  {
    hide Chain, GuardFor, FlipTop;
    assert ([ELSE_STMT] + tail)[1..] == tail;
  }

  lemma FixFi(tail: seq<Stmt>, w: World, stack: seq<seq<Token>>, f: seq<Token>)
    requires NonEmpty(stack) && f != [] && Nested(tail, |stack|)
    ensures Nested([FI_STMT] + tail, |stack| + 1)
    ensures FixFrom([FI_STMT] + tail, w, stack + [f]) == [FI_STMT] + FixFrom(tail, w, stack)
  {
    hide Chain, GuardFor;
    assert ([FI_STMT] + tail)[1..] == tail;
    assert (stack + [f])[..|stack|] == stack;
  }

  lemma StepIf(cond: seq<Token>, tail: seq<Stmt>, w: World, eq: Equality, fs: seq<Frame>, f: Frame)
    requires Tokenized(cond) && |fs| < MAX_DEPTH && AllValid(fs) && Nested(tail, |fs| + 1)
    requires f.Valid() && f.Tokens() == FrameFor(cond, w)
    ensures Nested([IfStmt(cond)] + tail, |fs|)
    ensures Effect([IfStmt(cond)] + tail, w, eq, fs) == Effect(tail, w, eq, fs + [f])
    ensures Clear([IfStmt(cond)] + tail, w, eq, fs) == Clear(tail, w, eq, fs + [f])
  {
    hide Tokenized, Nested, FixFrom, InEffect, Readable, FrameFor, FramesHold, Chain;
    PushFrame(fs, f, eq);
    FixIf(cond, tail, w, FrameTokens(fs));
    InEffectHead(IfStmt([]), FixFrom(tail, w, FrameTokens(fs + [f])), eq);
  }

  lemma FlipTopFrame(fs: seq<Frame>, f: Frame, g: Frame)
    requires AllValid(fs) && f.Valid() && g.Valid() && g.Tokens() == Flip(f.Tokens())
    ensures AllValid(fs + [f]) && AllValid(fs + [g])
    ensures FlipTop(FrameTokens(fs + [f])) == FrameTokens(fs + [g])
  {
  }

  lemma StepElse(tail: seq<Stmt>, w: World, eq: Equality, fs: seq<Frame>, f: Frame, g: Frame)
    requires AllValid(fs) && f.Valid() && g.Valid() && g.Tokens() == Flip(f.Tokens()) && Nested(tail, |fs| + 1)
    ensures Nested([ELSE_STMT] + tail, |fs| + 1)
    ensures Effect([ELSE_STMT] + tail, w, eq, fs + [f]) == Effect(tail, w, eq, fs + [g])
    ensures Clear([ELSE_STMT] + tail, w, eq, fs + [f]) == Clear(tail, w, eq, fs + [g])
  {
    hide Nested, FixFrom, FlipTop;
    FlipTopFrame(fs, f, g);
    FixElse(tail, w, FrameTokens(fs + [f]));
    InEffectHead(ELSE_STMT, FixFrom(tail, w, FrameTokens(fs + [g])), eq);
  }

  lemma StepFi(tail: seq<Stmt>, w: World, eq: Equality, fs: seq<Frame>, f: Frame)
    requires AllValid(fs) && f.Valid() && Nested(tail, |fs|)
    ensures Nested([FI_STMT] + tail, |fs| + 1)
    ensures Effect([FI_STMT] + tail, w, eq, fs + [f]) == Effect(tail, w, eq, fs)
    ensures Clear([FI_STMT] + tail, w, eq, fs + [f]) == Clear(tail, w, eq, fs)
  {
    hide Nested, FixFrom;
    PushFrame(fs, f, eq);
    FixFi(tail, w, FrameTokens(fs), f.Tokens());
    InEffectHead(FI_STMT, FixFrom(tail, w, FrameTokens(fs)), eq);
  }

  /** A statement that is no `if`, `else` or `fi`: it is in effect if the frames and its own dependency hold. */
  lemma StepDo(s: Stmt, tail: seq<Stmt>, w: World, eq: Equality, fs: seq<Frame>)
    requires AllValid(fs) && Ready(s) && (s.cond != [] ==> |fs| < MAX_DEPTH)
    requires fs == [] || s.kind !in {MainmenuName, Source, Then, Unknown}
    requires Nested(tail, |fs|)
    ensures Nested([s] + tail, |fs|)
    ensures var on := FramesHold(fs, eq) && GuardValue(s.cond, eq).Yes?;
            Effect([s] + tail, w, eq, fs) == (if on then [Bare(s)] else []) + Effect(tail, w, eq, fs)
    ensures Clear(tail, w, eq, fs) ==> Clear([s] + tail, w, eq, fs)
  {
    hide FixFrom, Nested, GuardFor, GuardValue, FramesHold, Chain, InEffect, Readable, Glue;
    GuardBegins(s);
    FixDo(s, tail, w, FrameTokens(fs));
    var outTail := FixFrom(tail, w, FrameTokens(fs));
    if IsGuarded(s.kind) {
      GuardMeans(s, w, fs, eq);
      var guard := GuardFor(s, w, FrameTokens(fs));
      if Dropped(guard) {
        assert [] + InEffect(outTail, eq) == InEffect(outTail, eq);
      } else {
        OneInEffect(s.(cond := guard), outTail, eq);
        assert Bare(s.(cond := guard)) == Bare(s);
      }
    } else {
      Unconditional(s, eq);
      OneInEffect(s, outTail, eq);
    }
  }

  lemma GuardBegins(s: Stmt)
    requires Ready(s)
    ensures s.cond != [] ==> IsDep(s.kind) && s.cond[0].op.LParen?
    ensures !IsGuarded(s.kind) ==> s.kind in {MainmenuName, Source, Then, Unknown} && s.cond == []
  {
    if s.cond != [] {
      var cs :| |cs| > 0 && AllPlain(cs) && s.cond == Glue(cs);
      assert s.cond[0] == LEFT;
    }
  }

  lemma FixDo(s: Stmt, tail: seq<Stmt>, w: World, stack: seq<seq<Token>>)
    requires s.kind !in {If, Else, Fi} && NonEmpty(stack) && Nested(tail, |stack|)
    requires s.cond != [] ==> s.cond[0].op.LParen? && |stack| < MAX_DEPTH
    ensures Nested([s] + tail, |stack|)
    ensures var out, rest := FixFrom([s] + tail, w, stack), FixFrom(tail, w, stack);
            if !IsGuarded(s.kind) then out == [s] + rest
            else if Dropped(GuardFor(s, w, stack)) then out == rest
            else out == [s.(cond := GuardFor(s, w, stack))] + rest
  {
    hide GuardFor, Chain, Dropped;
    assert ([s] + tail)[1..] == tail;
    assert [] + FixFrom(tail, w, stack) == FixFrom(tail, w, stack);
  }

  lemma OneInEffect(s: Stmt, tail: seq<Stmt>, eq: Equality)
    requires s.kind !in {If, Else, Fi} && !GuardValue(s.cond, eq).Malformed?
    ensures InEffect([s] + tail, eq) == (if GuardValue(s.cond, eq).Yes? then [Bare(s)] else []) + InEffect(tail, eq)
    ensures Readable(tail, eq) ==> Readable([s] + tail, eq)
  {
    assert ([s] + tail)[1..] == tail;
  }

  /** Outside of every `if`, a statement without a condition holds. */
  lemma Unconditional(s: Stmt, eq: Equality)
    requires s.cond == []
    ensures GuardValue(s.cond, eq).Yes? && FramesHold([], eq)
  {
  }

  ghost predicate Preserved(b: Block, k: seq<Stmt>, w: World, r: Readings, fs: seq<Frame>)
    requires Flattenable(b, w) && AllValid(fs) && Nested(k, |fs|)
  {
    && Nested(Linearize(b) + k, |fs|)
    && Effect(Linearize(b) + k, w, r.tcl, fs)
       == (if FramesHold(fs, r.tcl) then Reached(b, w, r.shell, r.own) else []) + Effect(k, w, r.tcl, fs)
    && (Clear(k, w, r.tcl, fs) ==> Clear(Linearize(b) + k, w, r.tcl, fs))
  }

  /** What a block contributes does not depend on what stands behind it. */
  lemma {:induction false} BlockPreserved(b: Block, k: seq<Stmt>, w: World, r: Readings, fs: seq<Frame>)
    requires Flattenable(b, w) && Agreed(b, w, r) && AllValid(fs)
    requires |fs| + Height(b) <= MAX_DEPTH && Nested(k, |fs|) && (fs == [] || NoStrays(b))
    ensures Preserved(b, k, w, r, fs)
    decreases b
  {
    hide Effect, Clear, FramesHold, Nested, Chain;
    match b
    case End =>
      assert Linearize(b) + k == k;
    case Do(s, rest) =>
      DoPreserved(b, k, w, r, fs);
    case Branch(cond, thn, NoElse, rest) =>
      IfPreserved(b, k, w, r, fs);
    case Branch(cond, thn, ElseBlock(_), rest) =>
      IfElsePreserved(b, k, w, r, fs);
  }

  lemma {:induction false} DoPreserved(b: Block, k: seq<Stmt>, w: World, r: Readings, fs: seq<Frame>)
    requires Flattenable(b, w) && Agreed(b, w, r) && AllValid(fs)
    requires |fs| + Height(b) <= MAX_DEPTH && Nested(k, |fs|) && (fs == [] || NoStrays(b))
    requires b.Do?
    ensures Preserved(b, k, w, r, fs)
    decreases b, 0
  {
    hide Effect, Clear, FramesHold, Nested, Chain;
    var s, rest := b.stmt, b.rest;
    BlockPreserved(rest, k, w, r, fs);
    StepDo(s, Linearize(rest) + k, w, r.tcl, fs);
    Assoc([s], Linearize(rest), k);
    DoUnfold(b, w, r.shell, r.own);
    var on := GuardValue(s.cond, r.own).Yes?;
    hide Linearize, Reached, GuardValue;
    Assoc(if on then [Bare(s)] else [], Reached(rest, w, r.shell, r.own), Effect(k, w, r.tcl, fs));
  }

  lemma DoUnfold(b: Block, w: World, shell: Equality, own: Equality)
    requires b.Do? && Flattenable(b, w)
    ensures Linearize(b) == [b.stmt] + Linearize(b.rest)
    ensures Reached(b, w, shell, own)
         == (if GuardValue(b.stmt.cond, own).Yes? then [Bare(b.stmt)] else []) + Reached(b.rest, w, shell, own)
  {
    hide GuardValue;
  }

  function BehindThen(b: Block, k: seq<Stmt>): seq<Stmt>
    requires b.Branch?
  {
    var fromFi := [FI_STMT] + (Linearize(b.rest) + k);
    match b.alt
    case NoElse => fromFi
    case ElseBlock(els) => [ELSE_STMT] + (Linearize(els) + fromFi)
  }

  lemma LinearizeBranch(b: Block, k: seq<Stmt>)
    requires b.Branch?
    ensures Linearize(b) + k == [IfStmt(b.cond)] + (Linearize(b.thn) + BehindThen(b, k))
    ensures var fromFi := [FI_STMT] + (Linearize(b.rest) + k);
            BehindThen(b, k) == if b.alt.NoElse? then fromFi else [ELSE_STMT] + (Linearize(b.alt.body) + fromFi)
  {
    var head, t, fi, r := [IfStmt(b.cond)], Linearize(b.thn), [FI_STMT], Linearize(b.rest);
    var els := match b.alt case NoElse => [] case ElseBlock(e) => [ELSE_STMT] + Linearize(e);
    assert Linearize(b) == head + t + els + fi + r;
    hide Linearize;
    Assoc(head + t + els + fi, r, k);
    Assoc(head + t + els, fi, r + k);
    Assoc(head + t, els, fi + (r + k));
    Assoc(head, t, els + (fi + (r + k)));
    if b.alt.ElseBlock? {
      Assoc([ELSE_STMT], Linearize(b.alt.body), fi + (r + k));
    } else {
      assert els + (fi + (r + k)) == fi + (r + k);
    }
  }

  lemma BranchReached(b: Block, w: World, shell: Equality, own: Equality, on: bool, after: seq<Stmt>)
    requires b.Branch? && Flattenable(b, w)
    ensures var v := TestValue(b.cond, shell, true);
            var more := (if on then Reached(b.rest, w, shell, own) else []) + after;
            (if on then Reached(b, w, shell, own) else []) + after
            == (if on && v then Reached(b.thn, w, shell, own) else [])
               + if b.alt.NoElse? then more else (if on && !v then Reached(b.alt.body, w, shell, own) else []) + more
  {
    var v := TestValue(b.cond, shell, true);
    var t := if on && v then Reached(b.thn, w, shell, own) else [];
    var e := if on && !v && b.alt.ElseBlock? then Reached(b.alt.body, w, shell, own) else [];
    var r := if on then Reached(b.rest, w, shell, own) else [];
    ReachedUnfold(b, w, shell, own);
    hide *;
    Choice(on && v, t, e);
    Grouped(t, e, r, after);
  }

  lemma Choice<T>(first: bool, t: seq<T>, e: seq<T>)
    requires if first then e == [] else t == []
    ensures t + e == if first then t else e
  {
  }

  lemma Grouped<T>(t: seq<T>, e: seq<T>, r: seq<T>, after: seq<T>)
    ensures t + e + r + after == t + (e + (r + after)) && (e == [] ==> t + e + r + after == t + (r + after))
  {
  }

  lemma ReachedUnfold(b: Block, w: World, shell: Equality, own: Equality)
    requires b.Branch? && Flattenable(b, w)
    ensures Reached(b, w, shell, own)
         == (if TestValue(b.cond, shell, true) then Reached(b.thn, w, shell, own)
             else if b.alt.ElseBlock? then Reached(b.alt.body, w, shell, own) else [])
            + Reached(b.rest, w, shell, own)
  {
    hide TestValue;
  }

  /** What a branch needs of its parts. */
  lemma BranchNeeds(b: Block, w: World, r: Readings, n: nat)
    requires b.Branch? && Flattenable(b, w) && Agreed(b, w, r) && n + Height(b) <= MAX_DEPTH
    ensures Tokenized(b.cond) && n < MAX_DEPTH && IsFrame(FrameFor(b.cond, w))
    ensures FrameOf(FrameFor(b.cond, w)).Value(r.tcl) == TestValue(b.cond, r.shell, true)
    ensures NoStrays(b.thn) && Flattenable(b.thn, w) && Agreed(b.thn, w, r) && n + 1 + Height(b.thn) <= MAX_DEPTH
    ensures Flattenable(b.rest, w) && Agreed(b.rest, w, r) && n + Height(b.rest) <= MAX_DEPTH
    ensures NoStrays(b) ==> NoStrays(b.rest)
    ensures b.alt.ElseBlock? ==>
              && NoStrays(b.alt.body) && Flattenable(b.alt.body, w) && Agreed(b.alt.body, w, r)
              && n + 1 + Height(b.alt.body) <= MAX_DEPTH
              && IsFrame(Flip(FrameFor(b.cond, w)))
              && FrameOf(Flip(FrameFor(b.cond, w))).Value(r.tcl) == !TestValue(b.cond, r.shell, true)
  {
    hide Chain, TestValue, Eliminate, FrameFor, FrameOf;
    FrameKeepsValue(b.cond, w, r.tcl);
    if b.alt.ElseBlock? { ElseNegates(b.cond, w, r.tcl); }
  }

  lemma PreservedMeans(b: Block, k: seq<Stmt>, w: World, r: Readings, fs: seq<Frame>)
    requires Flattenable(b, w) && AllValid(fs) && Nested(k, |fs|)
    ensures Preserved(b, k, w, r, fs)
       <==> && Nested(Linearize(b) + k, |fs|)
            && Effect(Linearize(b) + k, w, r.tcl, fs)
               == (if FramesHold(fs, r.tcl) then Reached(b, w, r.shell, r.own) else []) + Effect(k, w, r.tcl, fs)
            && (Clear(k, w, r.tcl, fs) ==> Clear(Linearize(b) + k, w, r.tcl, fs))
  {
  }

  lemma {:induction false} IfPreserved(b: Block, k: seq<Stmt>, w: World, r: Readings, fs: seq<Frame>)
    requires Flattenable(b, w) && Agreed(b, w, r) && AllValid(fs)
    requires |fs| + Height(b) <= MAX_DEPTH && Nested(k, |fs|) && (fs == [] || NoStrays(b))
    requires b.Branch? && b.alt.NoElse?
    ensures Preserved(b, k, w, r, fs)
    decreases b, 0
  {
    hide *;
    BranchNeeds(b, w, r, |fs|);
    var f := FrameOf(FrameFor(b.cond, w));
    PushFrame(fs, f, r.tcl);
    BlockPreserved(b.rest, k, w, r, fs);
    PreservedMeans(b.rest, k, w, r, fs);
    var afterFi := Linearize(b.rest) + k;
    StepFi(afterFi, w, r.tcl, fs, f);
    var fromFi := [FI_STMT] + afterFi;
    BlockPreserved(b.thn, fromFi, w, r, fs + [f]);
    PreservedMeans(b.thn, fromFi, w, r, fs + [f]);
    StepIf(b.cond, Linearize(b.thn) + fromFi, w, r.tcl, fs, f);
    LinearizeBranch(b, k);
    BranchReached(b, w, r.shell, r.own, FramesHold(fs, r.tcl), Effect(k, w, r.tcl, fs));
    PreservedMeans(b, k, w, r, fs);
  }

  lemma {:induction false} IfElsePreserved(b: Block, k: seq<Stmt>, w: World, r: Readings, fs: seq<Frame>)
    requires Flattenable(b, w) && Agreed(b, w, r) && AllValid(fs)
    requires |fs| + Height(b) <= MAX_DEPTH && Nested(k, |fs|) && (fs == [] || NoStrays(b))
    requires b.Branch? && b.alt.ElseBlock?
    ensures Preserved(b, k, w, r, fs)
    decreases b, 0
  {
    hide *;
    BranchNeeds(b, w, r, |fs|);
    var f, g := FrameOf(FrameFor(b.cond, w)), FrameOf(Flip(FrameFor(b.cond, w)));
    PushFrame(fs, f, r.tcl);
    PushFrame(fs, g, r.tcl);
    BlockPreserved(b.rest, k, w, r, fs);
    PreservedMeans(b.rest, k, w, r, fs);
    var afterFi := Linearize(b.rest) + k;
    StepFi(afterFi, w, r.tcl, fs, g);
    var fromFi := [FI_STMT] + afterFi;
    BlockPreserved(b.alt.body, fromFi, w, r, fs + [g]);
    PreservedMeans(b.alt.body, fromFi, w, r, fs + [g]);
    var fromEls := Linearize(b.alt.body) + fromFi;
    StepElse(fromEls, w, r.tcl, fs, f, g);
    var fromElse := [ELSE_STMT] + fromEls;
    BlockPreserved(b.thn, fromElse, w, r, fs + [f]);
    PreservedMeans(b.thn, fromElse, w, r, fs + [f]);
    StepIf(b.cond, Linearize(b.thn) + fromElse, w, r.tcl, fs, f);
    LinearizeBranch(b, k);
    BranchReached(b, w, r.shell, r.own, FramesHold(fs, r.tcl), Effect(k, w, r.tcl, fs));
    PreservedMeans(b, k, w, r, fs);
  }

  /** Under any three readings that agree on the script, every guard is readable to the program, and the statements in
      effect are those the structured interpreter reaches, in its order. */
  lemma FlatteningKeepsReadings(b: Block, arch: string, names: seq<string>, r: Readings)
    requires var w := World(arch, names, Defined(Linearize(b)));
             Flattenable(b, w) && Agreed(b, w, r) && Height(b) <= 32
    ensures Nested(Linearize(b), 0)
    ensures var flat := FixConditionals(Linearize(b), arch, names);
            && Readable(flat, r.tcl)
            && InEffect(flat, r.tcl) == Reached(b, World(arch, names, Defined(Linearize(b))), r.shell, r.own)
  {
    var w := World(arch, names, Defined(Linearize(b)));
    BlockPreserved(b, [], w, r, []);
    assert Linearize(b) + [] == Linearize(b);
    assert FrameTokens([]) == [];
    assert InEffect([], r.tcl) == [];
  }

  /** Scripts whose conditions have one kind of connective each. */
  ghost predicate OneKindEach(b: Block) {
    match b
    case End => true
    case Do(s, rest) => Ready(s) && OneKindEach(rest)
    case Branch(cond, thn, alt, rest) =>
      && Tokenized(cond) && Uniform(cond) && NoStrays(thn) && OneKindEach(thn) && OneKindEach(rest)
      && (alt.ElseBlock? ==> NoStrays(alt.body) && OneKindEach(alt.body))
  }

  /** All of them are flattened correctly, with every branch an `else` may invert. */
  lemma {:induction false} OneKindIsFlattenable(b: Block, w: World)
    requires OneKindEach(b)
    ensures Flattenable(b, w)
    decreases b
  {
    match b
    case End =>
    case Do(_, rest) => OneKindIsFlattenable(rest, w);
    case Branch(cond, thn, alt, rest) =>
      OneKindIsFlattenable(thn, w);
      OneKindIsFlattenable(rest, w);
      if alt.ElseBlock? { OneKindIsFlattenable(alt.body, w); }
      var op := if Only(cond, And) then And else Or;
      UniformIsSafe(cond, w, op);
  }

  // ----- dropping -----

  ghost predicate StackOfFrames(stack: seq<seq<Token>>) {
    forall i :: 0 <= i < |stack| ==> IsFrame(stack[i])
  }

  predicate HasFalse(stack: seq<seq<Token>>)
    requires NonEmpty(stack)
  {
    exists i :: 0 <= i < |stack| && stack[i][0].op.False?
  }

  function AsFrames(stack: seq<seq<Token>>): (r: seq<Frame>)
    requires StackOfFrames(stack)
    ensures AllValid(r) && FrameTokens(r) == stack
  {
    seq(|stack|, i requires 0 <= i < |stack| => FrameOf(stack[i]))
  }

  /** A statement is unlinked exactly when some enclosing frame is literally false, and it is none of the few kinds that
      flattening passes over. */
  lemma DroppedIffFalseFrame(s: Stmt, tail: seq<Stmt>, w: World, stack: seq<seq<Token>>)
    requires StackOfFrames(stack) && NonEmpty(stack) && Ready(s) && Nested(tail, |stack|)
    requires s.cond != [] ==> |stack| < MAX_DEPTH
    ensures Nested([s] + tail, |stack|)
    ensures FixFrom([s] + tail, w, stack) == FixFrom(tail, w, stack)
       <==> HasFalse(stack) && s.kind !in {MainmenuName, Source, Then, Unknown}
  {
    hide FixFrom, Nested, GuardFor, Dropped, HasFalse;
    GuardBegins(s);
    FixDo(s, tail, w, stack);
    if IsGuarded(s.kind) { GuardFalseIffFrame(s, w, stack); }
    var rest := FixFrom(tail, w, stack);
    assert forall t: Stmt :: |[t] + rest| != |rest|;
  }

  /** A `mainmenu_name` in an `if` is in effect whatever the condition. */
  lemma NameInIfIsUnguarded(cond: seq<Token>, s: Stmt, w: World, tcl: Equality)
    requires Tokenized(cond) && s.kind == MainmenuName && s.cond == []
    ensures var b := Branch(cond, Do(s, End), NoElse, End);
            Nested(Linearize(b), 0) && InEffect(FixFrom(Linearize(b), w, []), tcl) == [s]
  {
    NameScript(cond, s);
    hide Chain, FrameFor, GuardFor, Linearize, FixFrom, Nested, InEffect;
    var f, tail := FrameFor(cond, w), [FI_STMT] + [];
    NothingLeft(w, tcl);
    FixFi([], w, [], f);
    FixDo(s, tail, w, [] + [f]);
    FixIf(cond, [s] + tail, w, []);
    InEffectHead(IfStmt([]), FixFrom([s] + tail, w, [] + [f]), tcl);
    Unconditional(s, tcl);
    OneInEffect(s, FixFrom(tail, w, [] + [f]), tcl);
    InEffectHead(FI_STMT, [], tcl);
    assert [Bare(s)] + [] == [s];
  }

  lemma NameScript(cond: seq<Token>, s: Stmt)
    ensures Linearize(Branch(cond, Do(s, End), NoElse, End)) == [IfStmt(cond)] + ([s] + ([FI_STMT] + []))
  {
  }

  lemma NothingLeft(w: World, tcl: Equality)
    ensures Nested([], 0) && FixFrom([], w, []) == [] && InEffect([], tcl) == []
  {
  }

  lemma GuardFalseIffFrame(s: Stmt, w: World, stack: seq<seq<Token>>)
    requires StackOfFrames(stack) && NonEmpty(stack) && Ready(s)
    ensures s.cond != [] ==> IsDep(s.kind) && s.cond[0].op.LParen?
    ensures Dropped(GuardFor(s, w, stack)) <==> HasFalse(stack)
  {
    hide JoinStack, Chain, GuardValue, FramesHold;
    var eq: Equality := (a, b) => true;
    var fs := AsFrames(stack);
    if s.cond != [] {
      var cs :| |cs| > 0 && AllPlain(cs) && s.cond == Glue(cs);
      assert s.cond[0] == LEFT;
      fs := fs + [Groups(cs)];
      assert FrameTokens(fs) == stack + [s.cond];
    }
    JoinIsConjunction(fs, eq);
    SomeFalseTokens(fs, eq);
    var gs: seq<seq<Token>> := FrameTokens(fs);
    assert forall i :: 0 <= i < |stack| ==> gs[i] == stack[i];
    assert HasFalse(stack) <==> exists i :: 0 <= i < |gs| && gs[i][0].op.False?;
  }

  lemma {:induction false} GlueFramesHead(fs: seq<seq<Token>>)
    requires NonEmpty(fs)
    ensures GlueFrames(fs) == [] || GlueFrames(fs)[0].op.LParen?
    decreases |fs|
  {
    if |fs| > 0 {
      GlueFramesHead(fs[..|fs| - 1]);
    }
  }

  /** The first statement of a script, outside every `if`, is never dropped. */
  lemma HeadKept(s: Stmt, w: World)
    requires IsDep(s.kind) && s.cond != [] ==> s.cond[0].op.LParen?
    ensures !Dropped(GuardFor(s, w, []))
  {
    var fs := if IsDep(s.kind) && s.cond != [] then [s.cond] else [];
    assert [] + fs == fs;
    GlueFramesHead(fs);
    if GlueFrames(fs) != [] {
      HeadAfterNuke(GlueFrames(fs));
    }
  }
}
