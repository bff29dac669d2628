/** The menus of a flattened script: the generator only ever sees the flat list, and it is a menu tree again. */
module FlatMenus {
  import opened Conditions
  import opened CondPasses
  import opened FixLists
  import opened Flattening
  import opened Joining
  import Menus
  import MenuTables
  import opened Scripts
  import opened Sequences
  import opened Statements

  /** Behind d open menus, the block closes these and every menu that it opens; the branches in it close their own. */
  predicate MenusNest(b: Block, d: nat) {
    match b
    case End => d == 0
    case Do(s, rest) =>
      && !s.kind.If? && !s.kind.Else? && !s.kind.Fi?
      && if s.kind.MainmenuOption? then MenusNest(rest, d + 1)
         else if s.kind.Endmenu? then d > 0 && MenusNest(rest, d - 1)
         else MenusNest(rest, d)
    case Branch(_, thn, alt, rest) =>
      MenusNest(thn, 0) && (alt.ElseBlock? ==> MenusNest(alt.body, 0)) && MenusNest(rest, d)
  }

  function Kinds(stmts: seq<Stmt>): seq<Kind> {
    if |stmts| == 0 then [] else [stmts[0].kind] + Kinds(stmts[1..])
  }

  /** The list closes d open menus and every menu that it opens. */
  predicate Closes(kinds: seq<Kind>, d: nat) {
    if |kinds| == 0 then d == 0
    else if kinds[0] == MainmenuOption then Closes(kinds[1..], d + 1)
    else if kinds[0] == Endmenu then d > 0 && Closes(kinds[1..], d - 1)
    else Closes(kinds[1..], d)
  }

  lemma ClosesFirst(s: Stmt, stmts: seq<Stmt>, d: nat)
    ensures Closes(Kinds([s] + stmts), d)
         == if s.kind == MainmenuOption then Closes(Kinds(stmts), d + 1)
            else if s.kind == Endmenu then d > 0 && Closes(Kinds(stmts), d - 1)
            else Closes(Kinds(stmts), d)
  {
    assert ([s] + stmts)[1..] == stmts;
    assert ([s.kind] + Kinds(stmts))[1..] == Kinds(stmts);
  }

  /** Statements without a guard of their own are kept under this stack. */
  predicate Live(stack: seq<seq<Token>>)
    requires NonEmpty(stack)
  {
    !Dropped(JoinStack(stack))
  }

  lemma DoKept(s: Stmt, tail: seq<Stmt>, w: World, stack: seq<seq<Token>>)
    requires NonEmpty(stack) && Nested([s] + tail, |stack|) && !s.kind.If? && !s.kind.Else? && !s.kind.Fi?
    ensures Nested(tail, |stack|)
    ensures var out, rest := FixFrom([s] + tail, w, stack), FixFrom(tail, w, stack);
            || out == rest || exists t: Stmt :: t.kind == s.kind && out == [t] + rest
    ensures s.kind == MainmenuOption || s.kind == Endmenu ==>
              var out, rest := FixFrom([s] + tail, w, stack), FixFrom(tail, w, stack);
              if Live(stack) then out == [s.(cond := JoinStack(stack))] + rest else out == rest
  {
    assert ([s] + tail)[1..] == tail;
    var rest := FixFrom(tail, w, stack);
    if IsGuarded(s.kind) {
      var guard := GuardFor(s, w, stack);
      assert [] + rest == rest;
      assert s.(cond := guard).kind == s.kind;
    }
  }

  lemma {:induction false} NestedTail(b: Block, tail: seq<Stmt>, d: nat, n: nat)
    requires MenusNest(b, d) && Nested(Linearize(b) + tail, n)
    ensures Nested(tail, n)
    decreases b
  {
    hide Tokenized;
    match b
    case End =>
      assert [] + tail == tail;
    case Do(s, rest) =>
      var more := Linearize(rest) + tail;
      assert Linearize(b) + tail == [s] + more && ([s] + more)[1..] == more;
      NestedTail(rest, tail, if s.kind.MainmenuOption? then d + 1 else if s.kind.Endmenu? then d - 1 else d, n);
    case Branch(cond, thn, alt, rest) =>
      NestedBranch(b, tail, n);
      NestedTail(thn, Second(b, tail), 0, n + 1);
      NestedElse(b, tail, n);
      if alt.ElseBlock? { NestedTail(alt.body, Third(b, tail), 0, n + 1); }
      NestedFi(b, tail, n);
      NestedTail(rest, tail, d, n);
  }

  /** What follows the `if`, its first branch, and its branches. */
  function First(b: Block, tail: seq<Stmt>): seq<Stmt>
    requires b.Branch?
  {
    Linearize(b.thn) + Second(b, tail)
  }

  function Second(b: Block, tail: seq<Stmt>): seq<Stmt>
    requires b.Branch?
  {
    match b.alt
    case NoElse => Third(b, tail)
    case ElseBlock(els) => [ELSE_STMT] + (Linearize(els) + Third(b, tail))
  }

  function Third(b: Block, tail: seq<Stmt>): seq<Stmt>
    requires b.Branch?
  {
    [FI_STMT] + (Linearize(b.rest) + tail)
  }

  function ElsePart(b: Block): seq<Stmt>
    requires b.Branch?
  {
    match b.alt case NoElse => [] case ElseBlock(els) => [ELSE_STMT] + Linearize(els)
  }

  lemma SecondBegins(b: Block, tail: seq<Stmt>)
    requires b.Branch?
    ensures Second(b, tail) == ElsePart(b) + Third(b, tail)
  {
    hide Linearize, Third;
    if b.alt.ElseBlock? {
      Assoc([ELSE_STMT], Linearize(b.alt.body), Third(b, tail));
    } else {
      assert [] + Third(b, tail) == Third(b, tail);
    }
  }

  lemma LinearizeBegins(b: Block)
    requires b.Branch?
    ensures Linearize(b) == [IfStmt(b.cond)] + Linearize(b.thn) + ElsePart(b) + [FI_STMT] + Linearize(b.rest)
  {
  }

  lemma Regroup<T>(a: seq<T>, b: seq<T>, c: seq<T>, d: seq<T>, e: seq<T>, f: seq<T>)
    ensures a + b + c + d + e + f == a + (b + (c + (d + (e + f))))
  {
  }

  lemma LinearizeParts(b: Block, tail: seq<Stmt>)
    requires b.Branch?
    ensures Linearize(b) + tail == [IfStmt(b.cond)] + First(b, tail)
  {
    hide Linearize, ElsePart, Second;
    LinearizeBegins(b);
    SecondBegins(b, tail);
    Regroup([IfStmt(b.cond)], Linearize(b.thn), ElsePart(b), [FI_STMT], Linearize(b.rest), tail);
  }

  lemma NestedBranch(b: Block, tail: seq<Stmt>, n: nat)
    requires b.Branch? && Nested(Linearize(b) + tail, n)
    ensures Tokenized(b.cond) && n < MAX_DEPTH && Nested(First(b, tail), n + 1)
  {
    LinearizeParts(b, tail);
    assert ([IfStmt(b.cond)] + First(b, tail))[1..] == First(b, tail);
  }

  lemma NestedElse(b: Block, tail: seq<Stmt>, n: nat)
    requires b.Branch? && Nested(Second(b, tail), n + 1)
    ensures b.alt.ElseBlock? ==> Nested(Linearize(b.alt.body) + Third(b, tail), n + 1)
    ensures b.alt.NoElse? ==> Nested(Third(b, tail), n + 1)
  {
    if b.alt.ElseBlock? {
      var more := Linearize(b.alt.body) + Third(b, tail);
      assert ([ELSE_STMT] + more)[1..] == more;
    }
  }

  lemma NestedFi(b: Block, tail: seq<Stmt>, n: nat)
    requires b.Branch? && Nested(Third(b, tail), n + 1)
    ensures Nested(Linearize(b.rest) + tail, n)
  {
    var more := Linearize(b.rest) + tail;
    assert ([FI_STMT] + more)[1..] == more;
  }

  /** A block with its menus nested adds to the flat list what closes its open menus, if these were not dropped. */
  lemma {:induction false} BlockCloses(b: Block, tail: seq<Stmt>, w: World, stack: seq<seq<Token>>, d: nat, e: nat)
    requires NonEmpty(stack) && Nested(Linearize(b) + tail, |stack|) && MenusNest(b, d)
    requires Nested(tail, |stack|) && Closes(Kinds(FixFrom(tail, w, stack)), e)
    ensures Closes(Kinds(FixFrom(Linearize(b) + tail, w, stack)), e + if Live(stack) then d else 0)
    decreases b, 1
  {
    hide FixFrom, Nested, Kinds, Closes, Live, JoinStack, Tokenized, FrameFor;
    match b
    case End =>
      assert [] + tail == tail;
    case Do(s, rest) =>
      var more := Linearize(rest) + tail;
      Assoc([s], Linearize(rest), tail);
      hide Linearize;
      DoKept(s, more, w, stack);
      BlockCloses(rest, tail, w, stack,
                  if s.kind.MainmenuOption? then d + 1 else if s.kind.Endmenu? then d - 1 else d, e);
      DoCloses(s, more, w, stack, e + if Live(stack) then d else 0);
    case Branch(_, _, _, _) => BranchCloses(b, tail, w, stack, d, e);
  }

  lemma NestedParts(b: Block, tail: seq<Stmt>, d: nat, n: nat)
    requires b.Branch? && MenusNest(b, d) && Nested(Linearize(b) + tail, n)
    ensures Tokenized(b.cond) && n < MAX_DEPTH && Nested(First(b, tail), n + 1) && Nested(Second(b, tail), n + 1)
    ensures Nested(Third(b, tail), n + 1) && Nested(Linearize(b.rest) + tail, n)
    ensures b.alt.ElseBlock? ==> Nested(Linearize(b.alt.body) + Third(b, tail), n + 1)
  {
    hide Tokenized, Nested;
    NestedBranch(b, tail, n);
    NestedTail(b.thn, Second(b, tail), 0, n + 1);
    NestedElse(b, tail, n);
    if b.alt.ElseBlock? { NestedTail(b.alt.body, Third(b, tail), 0, n + 1); }
    NestedFi(b, tail, n);
  }

  lemma {:induction false} BranchCloses(b: Block, tail: seq<Stmt>, w: World, stack: seq<seq<Token>>, d: nat, e: nat)
    requires b.Branch? && NonEmpty(stack) && Nested(Linearize(b) + tail, |stack|) && MenusNest(b, d)
    requires Nested(tail, |stack|) && Closes(Kinds(FixFrom(tail, w, stack)), e)
    ensures Closes(Kinds(FixFrom(Linearize(b) + tail, w, stack)), e + if Live(stack) then d else 0)
    decreases b, 0
  {
    hide FixFrom, Nested, Kinds, Closes, Live, JoinStack, Tokenized, FrameFor, FlipTop, Linearize, Second, Third;
    NestedParts(b, tail, d, |stack|);
    var f := if Live(stack) then d else 0;
    var inner := stack + [FrameFor(b.cond, w)];
    BlockCloses(b.rest, tail, w, stack, d, e);
    if b.alt.ElseBlock? {
      var other := FlipTop(inner);
      FlippedAbove(stack, FrameFor(b.cond, w));
      FiCloses(b, tail, w, stack, other, e + f);
      BlockCloses(b.alt.body, Third(b, tail), w, other, 0, e + f);
      ElseCloses(b, tail, w, inner, e + f);
    } else {
      FiCloses(b, tail, w, stack, inner, e + f);
      SecondIsThird(b, tail);
    }
    BlockCloses(b.thn, Second(b, tail), w, inner, 0, e + f);
    IfCloses(b, tail, w, stack, e + f);
  }

  lemma SecondIsThird(b: Block, tail: seq<Stmt>)
    requires b.Branch? && b.alt.NoElse?
    ensures Second(b, tail) == Third(b, tail)
  {
  }

  lemma FlippedAbove(stack: seq<seq<Token>>, f: seq<Token>)
    requires NonEmpty(stack) && f != []
    ensures var r := FlipTop(stack + [f]); NonEmpty(r) && |r| == |stack| + 1 && r[..|stack|] == stack
  {
  }

  lemma DoCloses(s: Stmt, tail: seq<Stmt>, w: World, stack: seq<seq<Token>>, e: nat)
    requires NonEmpty(stack) && Nested([s] + tail, |stack|) && !s.kind.If? && !s.kind.Else? && !s.kind.Fi?
    requires Nested(tail, |stack|)
    requires Closes(Kinds(FixFrom(tail, w, stack)),
                    if Live(stack) && s.kind.MainmenuOption? then e + 1
                    else if Live(stack) && s.kind.Endmenu? then if e > 0 then e - 1 else 0
                    else e)
    requires Live(stack) && s.kind.Endmenu? ==> e > 0
    ensures Closes(Kinds(FixFrom([s] + tail, w, stack)), e)
  {
    hide FixFrom, Nested, Kinds, Closes, Live, JoinStack;
    DoKept(s, tail, w, stack);
    var out, rest := FixFrom([s] + tail, w, stack), FixFrom(tail, w, stack);
    if s.kind == MainmenuOption || s.kind == Endmenu {
      if Live(stack) { ClosesFirst(s.(cond := JoinStack(stack)), rest, e); }
    } else if out != rest {
      var t: Stmt :| t.kind == s.kind && out == [t] + rest;
      ClosesFirst(t, rest, e);
    }
  }

  lemma IfCloses(b: Block, tail: seq<Stmt>, w: World, stack: seq<seq<Token>>, e: nat)
    requires b.Branch? && NonEmpty(stack) && Nested(Linearize(b) + tail, |stack|)
    requires Tokenized(b.cond) && |stack| < MAX_DEPTH && Nested(First(b, tail), |stack| + 1)
    requires Closes(Kinds(FixFrom(First(b, tail), w, stack + [FrameFor(b.cond, w)])), e)
    ensures Closes(Kinds(FixFrom(Linearize(b) + tail, w, stack)), e)
  {
    hide FixFrom, Nested, Kinds, Closes, Tokenized, FrameFor, First;
    LinearizeParts(b, tail);
    FixIf(b.cond, First(b, tail), w, stack);
    ClosesFirst(IfStmt([]), FixFrom(First(b, tail), w, stack + [FrameFor(b.cond, w)]), e);
  }

  lemma ElseCloses(b: Block, tail: seq<Stmt>, w: World, stack: seq<seq<Token>>, e: nat)
    requires b.Branch? && b.alt.ElseBlock? && NonEmpty(stack) && |stack| > 0
    requires Nested(Second(b, tail), |stack|) && Nested(Linearize(b.alt.body) + Third(b, tail), |stack|)
    requires Closes(Kinds(FixFrom(Linearize(b.alt.body) + Third(b, tail), w, FlipTop(stack))), e)
    ensures Closes(Kinds(FixFrom(Second(b, tail), w, stack)), e)
  {
    hide FixFrom, Nested, Kinds, Closes, FlipTop, Third;
    var more := Linearize(b.alt.body) + Third(b, tail);
    FixElse(more, w, stack);
    ClosesFirst(ELSE_STMT, FixFrom(more, w, FlipTop(stack)), e);
  }

  lemma FiCloses(b: Block, tail: seq<Stmt>, w: World, stack: seq<seq<Token>>, inner: seq<seq<Token>>, e: nat)
    requires b.Branch? && NonEmpty(stack) && NonEmpty(inner) && |inner| == |stack| + 1 && inner[..|stack|] == stack
    requires Nested(Third(b, tail), |inner|) && Nested(Linearize(b.rest) + tail, |stack|)
    requires Closes(Kinds(FixFrom(Linearize(b.rest) + tail, w, stack)), e)
    ensures Closes(Kinds(FixFrom(Third(b, tail), w, inner)), e)
  {
    hide FixFrom, Nested, Kinds, Closes;
    var more := Linearize(b.rest) + tail;
    assert inner == stack + [inner[|stack|]];
    FixFi(more, w, stack, inner[|stack|]);
    ClosesFirst(FI_STMT, FixFrom(more, w, stack), e);
  }

  lemma {:induction false} BuildCloses(kinds: seq<Kind>, d: nat)
    requires Closes(kinds, d)
    ensures |Menus.Build(kinds)| == d + 1
    decreases |kinds|
  {
    if |kinds| > 0 {
      BuildCloses(kinds[1..], if kinds[0] == MainmenuOption then d + 1 else if kinds[0] == Endmenu then d - 1 else d);
    }
  }

  /** The generator is given a menu tree: a menu's two ends have the same frames around them, so both are dropped or
      both are kept. */
  lemma FlattenedIsForest(b: Block, arch: string, names: seq<string>) returns (f: Menus.Forest)
    requires Nested(Linearize(b), 0) && MenusNest(b, 0)
    ensures Menus.Proper(f) && Menus.Flat(f) == Kinds(FixConditionals(Linearize(b), arch, names))
  {
    var stmts := Linearize(b);
    var w := World(arch, names, Defined(stmts));
    var kinds := Kinds(FixConditionals(stmts, arch, names));
    assert stmts + [] == stmts;
    assert Closes(Kinds(FixFrom([], w, [])), 0);
    BlockCloses(b, [], w, [], 0, 0);
    BuildCloses(kinds, 0);
    Menus.BuildFlat(kinds);
    f := Menus.Build(kinds)[0];
  }

  lemma {:induction false} KindAt(stmts: seq<Stmt>, i: nat)
    requires i < |stmts|
    ensures |Kinds(stmts)| == |stmts| && Kinds(stmts)[i] == stmts[i].kind
    decreases |stmts|
  {
    if |stmts| > 1 { KindAt(stmts[1..], if i > 0 then i - 1 else 0); }
  }

  /** The kinds on the heap, where the pass over the menus begins. */
  lemma PartKinds(p: Part, head: Kconfig?)
    requires p.IsPart(head, null)
    ensures IsScript(head, p.lines) && MenuTables.KindsOf(p.lines) == Kinds(p.stmts)
  {
    PartIsScript(head, p);
    if |p.stmts| > 0 { KindAt(p.stmts, 0); }
    forall i | 0 <= i < |p.stmts| ensures MenuTables.KindsOf(p.lines)[i] == Kinds(p.stmts)[i] {
      KindAt(p.stmts, i);
      assert ReadStmt(p.lines[i], p.chains[i]).kind == p.stmts[i].kind;
    }
  }
}
