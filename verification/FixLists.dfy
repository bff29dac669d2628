/** fix_conditionals of scripts/tkcond.c on the heap: it relinks the statements, moves the conditions of the `if`s
    to its stack, inverts them there, and hangs fresh guards on the other statements. */
module FixLists {
  import opened Conditions
  import opened CondPasses
  import opened Joining
  import opened Statements
  import opened Flattening
  import opened Sequences
  import opened CondLists
  import opened Scripts
  import opened Symbols

  /** The lists on the stack share no nodes. */
  ghost predicate Separate(chains: seq<seq<Condition>>) {
    forall i, j :: 0 <= i < j < |chains| ==> Nodes(chains[i]) !! Nodes(chains[j])
  }

  ghost predicate SeparateFrom(chain: seq<Condition>, chains: seq<seq<Condition>>) {
    forall i {:trigger chains[i]} :: 0 <= i < |chains| ==> Nodes(chain) !! Nodes(chains[i])
  }

  /** One more list on the stack. */
  lemma Pushed(stack: array<Condition?>, frames: seq<seq<Condition>>, top: seq<Condition>)
    requires IsStack(stack, frames) && |frames| < stack.Length
    requires |top| > 0 && IsList(stack[|frames|], top)
    ensures IsStack(stack, frames + [top])
    ensures StackTokens(frames + [top]) == StackTokens(frames) + [TokensOf(top)]
  {
    var fs := frames + [top];
    forall i {:trigger fs[i]} | 0 <= i < |fs| ensures |fs[i]| > 0 && IsList(stack[i], fs[i]) {
      if i < |frames| {
        assert fs[i] == frames[i];
      }
    }
  }

  lemma Popped(stack: array<Condition?>, frames: seq<seq<Condition>>)
    requires IsStack(stack, frames) && |frames| > 0
    ensures IsStack(stack, frames[..|frames| - 1])
    ensures StackTokens(frames[..|frames| - 1]) == StackTokens(frames)[..|frames| - 1]
  {
    var fs := frames[..|frames| - 1];
    forall i {:trigger fs[i]} | 0 <= i < |fs| ensures |fs[i]| > 0 && IsList(stack[i], fs[i]) {
      assert fs[i] == frames[i];
    }
  }

  method PrepareCondition(cond: Condition, ghost chain: seq<Condition>, w: World)
    returns (r: Condition, ghost top: seq<Condition>)
    requires IsList(cond, chain) && Tokenized(TokensOf(chain))
    modifies Nodes(chain)
    ensures IsList(r, top) && Nodes(top) <= Nodes(chain)
    ensures TokensOf(top) == FrameFor(old(TokensOf(chain)), w)
  {
    hide Distinct, Nodes, Eliminate, RemoveBang;
    ghost var mid;
    ghost var ts := TokensOf(chain);
    EliminateNonEmpty(ts, w);
    assert ts[0] == cond.Value();
    NotParen(ts);
    r, mid := EliminateList(cond, chain, w);
    var list: Condition?;
    list, top := RemoveBangList(r, mid);
    assert |TokensOf(top)| == |FrameFor(ts, w)| > 0;
    r := list;
  }

  method StoreTop(stack: array<Condition?>, r: Condition, ghost top: seq<Condition>, depth: nat,
                  ghost frames: seq<seq<Condition>>)
    requires IsStack(stack, frames) && |frames| == depth < stack.Length && IsList(r, top)
    modifies stack
    ensures IsStack(stack, frames) && IsStack(stack, frames + [top])
    ensures StackTokens(frames) == old(StackTokens(frames)) && TokensOf(top) == old(TokensOf(top))
    ensures StackTokens(frames + [top]) == old(StackTokens(frames)) + [old(TokensOf(top))]
  {
    hide Distinct, StackNodes;
    stack[depth] := r;
    forall i {:trigger frames[i]} | 0 <= i < depth
      ensures |frames[i]| > 0 && IsList(stack[i], frames[i]) && TokensOf(frames[i]) == old(TokensOf(frames[i]))
    {
      assert old(IsList(stack[i], frames[i]));
    }
    assert StackTokens(frames) == old(StackTokens(frames));
    Pushed(stack, frames, top);
  }

  /** An `if`: its condition, partially evaluated and rid of its `!`s, goes to the top of the stack. */
  method PushCondition(cfg: Kconfig, ghost chain: seq<Condition>, w: World, stack: array<Condition?>, depth: nat,
                       ghost frames: seq<seq<Condition>>)
    returns (ghost top: seq<Condition>)
    requires IsStack(stack, frames) && |frames| == depth < stack.Length
    requires IsList(cfg.cond, chain) && Tokenized(TokensOf(chain)) && SeparateFrom(chain, frames)
    modifies stack, cfg`cond, Nodes(chain)
    ensures cfg.cond == null && Nodes(top) <= Nodes(chain)
    ensures IsStack(stack, frames + [top])
    ensures StackTokens(frames + [top]) == old(StackTokens(frames)) + [FrameFor(old(TokensOf(chain)), w)]
  {
    hide Distinct, FrameFor, StackNodes;
    var r: Condition;
    r, top := PrepareCondition(cfg.cond, chain, w);
    cfg.cond := null;
    forall i {:trigger frames[i]} | 0 <= i < depth
      ensures |frames[i]| > 0 && IsList(stack[i], frames[i]) && TokensOf(frames[i]) == old(TokensOf(frames[i]))
    {
      assert old(IsList(stack[i], frames[i]));
    }
    assert StackTokens(frames) == old(StackTokens(frames));
    StoreTop(stack, r, top, depth, frames);
  }

  /** An `else`: the top of the stack is inverted in place, and nothing else changes. */
  method InvertTop(stack: array<Condition?>, depth: nat, ghost frames: seq<seq<Condition>>)
    requires IsStack(stack, frames) && |frames| == depth > 0 && Separate(frames)
    modifies Nodes(frames[depth - 1])
    ensures IsStack(stack, frames)
    ensures StackTokens(frames) == FlipTop(old(StackTokens(frames)))
  {
    hide Distinct, Flip, StackNodes;
    ghost var top := frames[depth - 1];
    FlipList(stack[depth - 1], top);
    forall i {:trigger frames[i]} | 0 <= i < depth
      ensures |frames[i]| > 0 && IsList(stack[i], frames[i])
      ensures TokensOf(frames[i]) == if i == depth - 1 then Flip(old(TokensOf(top))) else old(TokensOf(frames[i]))
    {
      assert old(IsList(stack[i], frames[i]));
    }
    assert StackTokens(frames) == FlipTop(old(StackTokens(frames)));
  }

  /** The condition of a dependent statement goes on top of the stack, above `depth`. */
  method StoreOwn(cond: Condition, ghost chain: seq<Condition>, w: World, stack: array<Condition?>, depth: nat,
                  ghost frames: seq<seq<Condition>>)
    returns (ghost top: seq<Condition>)
    requires IsStack(stack, frames) && |frames| == depth < stack.Length
    requires IsList(cond, chain) && SeparateFrom(chain, frames) && cond.op.LParen?
    modifies stack, Nodes(chain)
    ensures IsStack(stack, frames) && StackTokens(frames) == old(StackTokens(frames))
    ensures old(TokensOf(chain)) != [] && old(TokensOf(chain))[0].op.LParen?
    ensures IsStack(stack, frames + [top])
    ensures StackTokens(frames + [top]) == old(StackTokens(frames)) + [EliminateOwn(old(TokensOf(chain)), w)]
  {
    hide Distinct, StackNodes;
    ghost var ts, fs := TokensOf(chain), StackTokens(frames);
    assert ts[0] == cond.Value();
    var own: Condition;
    own, top := EliminateList(cond, chain, w);
    forall i {:trigger frames[i]} | 0 <= i < depth
      ensures |frames[i]| > 0 && IsList(stack[i], frames[i]) && TokensOf(frames[i]) == fs[i]
    {
      assert old(IsList(stack[i], frames[i])) && fs[i] == old(TokensOf(frames[i]));
    }
    assert StackTokens(frames) == fs;
    StoreTop(stack, own, top, depth, frames);
  }

  /** The guard of a simple or dependent statement replaces its own condition. The stack below `depth` stays. */
  method HangGuard(cfg: Kconfig, ghost chain: seq<Condition>, w: World, stack: array<Condition?>, depth: nat,
                   ghost frames: seq<seq<Condition>>)
    returns (ghost guard: seq<Condition>)
    requires IsStack(stack, frames) && |frames| == depth
    requires IsList(cfg.cond, chain) && SeparateFrom(chain, frames)
    requires IsDep(cfg.kind) && cfg.cond != null ==> cfg.cond.op.LParen? && depth < stack.Length
    modifies stack, cfg`cond, Nodes(chain)
    ensures IsStack(stack, frames) && StackTokens(frames) == old(StackTokens(frames))
    ensures IsList(cfg.cond, guard) && fresh(Nodes(guard))
    ensures NonEmpty(old(StackTokens(frames)))
    ensures IsDep(old(ReadStmt(cfg, chain)).kind) && old(TokensOf(chain)) != [] ==> old(TokensOf(chain))[0].op.LParen?
    ensures ReadStmt(cfg, guard)
         == old(ReadStmt(cfg, chain)).(cond := GuardFor(old(ReadStmt(cfg, chain)), w, old(StackTokens(frames))))
  {
    hide Distinct, JoinStack, StackNodes, EliminateOwn;
    ghost var fs := StackTokens(frames);
    var list: Condition?;
    if IsDep(cfg.kind) && cfg.cond != null {
      ghost var top := StoreOwn(cfg.cond, chain, w, stack, depth, frames);
      list, guard := JoinList(stack, depth + 1, frames + [top]);
    } else {
      list, guard := JoinList(stack, depth, frames);
    }
    cfg.cond := list;
    forall i {:trigger frames[i]} | 0 <= i < depth
      ensures |frames[i]| > 0 && IsList(stack[i], frames[i]) && TokensOf(frames[i]) == fs[i]
    {
      assert old(IsList(stack[i], frames[i])) && fs[i] == old(TokensOf(frames[i]));
    }
    assert StackTokens(frames) == fs;
  }

  // ----- the main loop -----

  /** A stretch of the statement list: the statements, the nodes of their conditions, and what both say. */
  datatype Part = Part(lines: seq<Kconfig>, chains: seq<seq<Condition>>, stmts: seq<Stmt>) {
    ghost predicate Matched() {
      |lines| == |chains| == |stmts|
    }

    ghost function Tail(): Part
      requires Matched() && |lines| > 0
    {
      Part(lines[1..], chains[1..], stmts[1..])
    }

    ghost function With(cfg: Kconfig, chain: seq<Condition>, s: Stmt): Part {
      Part(lines + [cfg], chains + [chain], stmts + [s])
    }

    ghost function Zone(): set<object> {
      (set k | k in lines) + (set i, x | 0 <= i < |chains| && x in chains[i] :: x)
    }

    /** The list from `head` up to `tail` is this stretch. */
    ghost predicate IsPart(head: Kconfig?, tail: Kconfig?)
      reads Zone()
    {
      && Matched() && Different(lines)
      && head == (if |lines| == 0 then tail else lines[0])
      && forall k {:trigger lines[k]} {:trigger chains[k]} :: 0 <= k < |lines| ==>
           && lines[k].next == (if k + 1 < |lines| then lines[k + 1] else tail)
           && (assert Nodes(chains[k]) <= Zone(); IsList(lines[k].cond, chains[k]))
           && ReadStmt(lines[k], chains[k]) == stmts[k]
    }
  }

  /** Only an `if` and a dependent statement come with a condition of their own. */
  predicate OwnConditions(ss: seq<Stmt>) {
    forall k :: 0 <= k < |ss| && ss[k].cond != [] ==> ss[k].kind.If? || IsDep(ss[k].kind)
  }

  /** The rest of the list, without its first statement. */
  lemma PartTail(head: Kconfig?, p: Part)
    requires p.IsPart(head, null) && |p.lines| > 0
    ensures head == p.lines[0] && p.Tail().IsPart(head.next, null) && head !in p.Tail().lines
    ensures IsList(head.cond, p.chains[0]) && ReadStmt(head, p.chains[0]) == p.stmts[0]
  {
    hide Distinct;
    var q := p.Tail();
    assert p.lines[0].next == if 1 < |p.lines| then p.lines[1] else null;
    forall k {:trigger q.lines[k]} {:trigger q.chains[k]} | 0 <= k < |q.lines|
      ensures q.lines[k].next == if k + 1 < |q.lines| then q.lines[k + 1] else null
      ensures IsList(q.lines[k].cond, q.chains[k]) && ReadStmt(q.lines[k], q.chains[k]) == q.stmts[k]
    {
      assert q.lines[k] == p.lines[k + 1] && q.chains[k] == p.chains[k + 1];
    }
  }

  /** The next statement joins the kept ones. */
  lemma KeepOne(head: Kconfig?, cfg: Kconfig, p: Part, guard: seq<Condition>)
    requires p.IsPart(head, cfg) && IsList(cfg.cond, guard) && cfg !in p.lines
    ensures p.With(cfg, guard, ReadStmt(cfg, guard)).IsPart(head, cfg.next)
  {
    hide Distinct;
    var q := p.With(cfg, guard, ReadStmt(cfg, guard));
    forall k {:trigger q.lines[k]} {:trigger q.chains[k]} | 0 <= k < |q.lines|
      ensures q.lines[k].next == if k + 1 < |q.lines| then q.lines[k + 1] else cfg.next
      ensures IsList(q.lines[k].cond, q.chains[k]) && ReadStmt(q.lines[k], q.chains[k]) == q.stmts[k]
    {
      if k < |p.lines| {
        assert q.lines[k] == p.lines[k] && q.chains[k] == p.chains[k];
      }
    }
  }

  // ----- who owns which node -----

  lemma StackNodesTail(chains: seq<seq<Condition>>)
    requires |chains| > 0
    ensures StackNodes(chains) == Nodes(chains[0]) + StackNodes(chains[1..])
    ensures Separate(chains) ==> Separate(chains[1..]) && Nodes(chains[0]) !! StackNodes(chains[1..])
  {
    var rest := chains[1..];
    forall x | x in StackNodes(chains) ensures x in Nodes(chains[0]) + StackNodes(rest) {
      var i :| 0 <= i < |chains| && x in chains[i];
      if i > 0 { assert x in rest[i - 1]; }
    }
    forall x | x in StackNodes(rest) ensures x in StackNodes(chains) && (Separate(chains) ==> x !in Nodes(chains[0])) {
      var i :| 0 <= i < |rest| && x in rest[i];
      assert x in chains[i + 1];
      assert x in Nodes(chains[i + 1]);
    }
  }

  lemma StackNodesPush(chains: seq<seq<Condition>>, top: seq<Condition>)
    ensures StackNodes(chains + [top]) == StackNodes(chains) + Nodes(top)
    ensures Separate(chains) && StackNodes(chains) !! Nodes(top) ==> Separate(chains + [top])
  {
    var fs := chains + [top];
    assert fs[|chains|] == top;
    forall x | x in StackNodes(chains) ensures x in StackNodes(fs) {
      var i :| 0 <= i < |chains| && x in chains[i];
      assert x in fs[i];
    }
    if Separate(chains) && StackNodes(chains) !! Nodes(top) {
      forall i, j | 0 <= i < j < |fs| ensures Nodes(fs[i]) !! Nodes(fs[j]) {
        assert fs[i] == chains[i] && Nodes(chains[i]) <= StackNodes(chains);
      }
    }
  }

  lemma StackNodesPop(chains: seq<seq<Condition>>)
    requires |chains| > 0
    ensures StackNodes(chains[..|chains| - 1]) <= StackNodes(chains)
    ensures Separate(chains) ==> Separate(chains[..|chains| - 1])
    ensures Nodes(chains[|chains| - 1]) <= StackNodes(chains)
  {
    var rest := chains[..|chains| - 1];
    forall x | x in StackNodes(rest) ensures x in StackNodes(chains) {
      var i :| 0 <= i < |rest| && x in rest[i];
      assert x in chains[i];
    }
  }

  lemma SeparateAll(chain: seq<Condition>, chains: seq<seq<Condition>>)
    requires Nodes(chain) !! StackNodes(chains)
    ensures SeparateFrom(chain, chains)
  {
    forall i {:trigger chains[i]} | 0 <= i < |chains| ensures Nodes(chain) !! Nodes(chains[i]) {
      assert Nodes(chains[i]) <= StackNodes(chains);
    }
  }

  /** The conditions ahead, the frames on the stack and the finished guards have no node in common. */
  ghost predicate Ownership(ahead: Part, frames: seq<seq<Condition>>, done: Part, pool: set<Condition>) {
    && Separate(ahead.chains) && Separate(frames) && Separate(done.chains)
    && StackNodes(ahead.chains) <= pool && StackNodes(frames) <= pool && StackNodes(ahead.chains) !! StackNodes(frames)
    && StackNodes(done.chains) !! pool
    && (forall k :: k in ahead.lines ==> k !in done.lines)
  }

  lemma ZoneIsNodes(p: Part)
    ensures var lines: set<object>, nodes: set<object> := Lines(p.lines), StackNodes(p.chains);
            p.Zone() == lines + nodes
  {
  }

  /** What the current statement may change lies outside what is ahead of it and behind it. */
  lemma StepApart(cfg: Kconfig, stack: array<Condition?>, ahead: Part, frames: seq<seq<Condition>>, done: Part,
                  pool: set<Condition>)
    requires ahead.Matched() && |ahead.lines| > 0 && cfg == ahead.lines[0] && cfg !in ahead.Tail().lines
    requires Ownership(ahead, frames, done, pool)
    ensures SeparateFrom(ahead.chains[0], frames) && Ownership(ahead.Tail(), frames, done, pool)
    ensures Nodes(ahead.chains[0]) <= pool && Nodes(ahead.chains[0]) !! StackNodes(ahead.Tail().chains) + StackNodes(frames)
    ensures var zone := ahead.Tail().Zone() + done.Zone();
            stack !in zone && cfg !in zone && Nodes(ahead.chains[0]) !! zone
  {
    ZoneIsNodes(ahead.Tail());
    ZoneIsNodes(done);
    StackNodesTail(ahead.chains);
    SeparateAll(ahead.chains[0], frames);
    assert cfg in ahead.lines;
    hide StackNodes, Separate, Part.Zone, SeparateFrom, Nodes;
  }

  lemma StepReady(cfg: Kconfig, stack: array<Condition?>, ahead: Part, frames: seq<seq<Condition>>, done: Part,
                  pool: set<Condition>)
    requires |ahead.lines| > 0 && ahead.IsPart(cfg, null) && Ownership(ahead, frames, done, pool)
    ensures ahead.Matched() && |ahead.chains| > 0 && |ahead.stmts| > 0 && ahead.Tail().IsPart(cfg.next, null)
    ensures IsList(cfg.cond, ahead.chains[0]) && ReadStmt(cfg, ahead.chains[0]) == ahead.stmts[0]
    ensures TokensOf(ahead.chains[0]) == ahead.stmts[0].cond && cfg.kind == ahead.stmts[0].kind
    ensures cfg.cond != null ==> ahead.stmts[0].cond != [] && cfg.cond.op == ahead.stmts[0].cond[0].op
    ensures SeparateFrom(ahead.chains[0], frames) && Ownership(ahead.Tail(), frames, done, pool)
    ensures Nodes(ahead.chains[0]) <= pool && Nodes(ahead.chains[0]) !! StackNodes(ahead.Tail().chains)
    ensures Nodes(ahead.chains[0]) !! StackNodes(frames)
    ensures var zone := ahead.Tail().Zone() + done.Zone();
            stack !in zone && cfg !in zone && Nodes(ahead.chains[0]) !! zone
  {
    hide Ownership;
    PartTail(cfg, ahead);
    StepApart(cfg, stack, ahead, frames, done, pool);
    assert cfg.cond != null ==> cfg.cond.Value() == ahead.stmts[0].cond[0];
  }

  lemma OwnershipPush(ahead: Part, frames: seq<seq<Condition>>, done: Part,
                      pool: set<Condition>, chain: seq<Condition>, top: seq<Condition>)
    requires Ownership(ahead, frames, done, pool) && Nodes(top) <= Nodes(chain) <= pool
    requires Nodes(chain) !! StackNodes(ahead.chains) && Nodes(chain) !! StackNodes(frames)
    ensures Ownership(ahead, frames + [top], done, pool)
  {
    hide Nodes, StackNodes, Separate;
    StackNodesPush(frames, top);
  }

  lemma OwnershipKeep(ahead: Part, frames: seq<seq<Condition>>, done: Part, pool: set<Condition>,
                      cfg: Kconfig, guard: seq<Condition>, s: Stmt)
    requires Ownership(ahead, frames, done, pool) && cfg !in ahead.lines && Nodes(guard) !! pool + StackNodes(done.chains)
    ensures Ownership(ahead, frames, done.With(cfg, guard, s), pool)
  {
    hide Nodes, StackNodes, Separate;
    StackNodesPush(done.chains, guard);
  }

  // ----- the cases of the loop -----

  /** The list around the current statement: what is kept before it and what is untouched behind it. */
  ghost predicate Around(head: Kconfig?, cfg: Kconfig?, next: Kconfig?, done: Part, rest: Part)
    reads done.Zone() + rest.Zone()
  {
    done.IsPart(head, cfg) && rest.IsPart(next, null)
  }

  method IfStep(cfg: Kconfig, w: World, stack: array<Condition?>, depth: nat, ghost frames: seq<seq<Condition>>,
                ghost chain: seq<Condition>, ghost head: Kconfig?, ghost done: Part, ghost rest: Part, ghost zone: set<object>)
    returns (ghost top: seq<Condition>)
    requires Around(head, cfg, cfg.next, done, rest)
    requires done.Zone() + rest.Zone() <= zone && stack !in zone && cfg !in zone && Nodes(chain) !! zone
    requires IsStack(stack, frames) && |frames| == depth < stack.Length
    requires IsList(cfg.cond, chain) && Tokenized(TokensOf(chain)) && SeparateFrom(chain, frames)
    modifies stack, cfg`cond, Nodes(chain)
    ensures Around(head, cfg, cfg.next, done, rest)
    ensures cfg.cond == null && Nodes(top) <= Nodes(chain)
    ensures IsStack(stack, frames + [top])
    ensures StackTokens(frames + [top]) == old(StackTokens(frames)) + [FrameFor(old(TokensOf(chain)), w)]
  {
    hide *;
    top := PushCondition(cfg, chain, w, stack, depth, frames);
    assert forall o :: o in zone ==> unchanged(o);
  }

  method ElseStep(cfg: Kconfig, stack: array<Condition?>, depth: nat, ghost frames: seq<seq<Condition>>,
                  ghost head: Kconfig?, ghost done: Part, ghost rest: Part, ghost zone: set<object>)
    requires Around(head, cfg, cfg.next, done, rest)
    requires IsStack(stack, frames) && |frames| == depth > 0 && Separate(frames)
    requires done.Zone() + rest.Zone() <= zone && Nodes(frames[depth - 1]) !! zone
    modifies Nodes(frames[depth - 1])
    ensures unchanged(cfg) && Around(head, cfg, cfg.next, done, rest)
    ensures IsStack(stack, frames) && StackTokens(frames) == FlipTop(old(StackTokens(frames)))
  {
    ghost var top: set<object> := Nodes(frames[depth - 1]);
    assert cfg !in top;
    hide *;
    InvertTop(stack, depth, frames);
    assert forall o :: o in zone ==> unchanged(o);
  }

  method GuardStep(cfg: Kconfig, w: World, stack: array<Condition?>, depth: nat, ghost frames: seq<seq<Condition>>,
                   ghost chain: seq<Condition>, ghost head: Kconfig?, ghost done: Part, ghost rest: Part, ghost zone: set<object>)
    returns (ghost guard: seq<Condition>)
    requires Around(head, cfg, cfg.next, done, rest)
    requires done.Zone() + rest.Zone() <= zone && stack !in zone && cfg !in zone && Nodes(chain) !! zone
    requires IsStack(stack, frames) && |frames| == depth
    requires IsList(cfg.cond, chain) && SeparateFrom(chain, frames)
    requires IsDep(cfg.kind) && cfg.cond != null ==> cfg.cond.op.LParen? && depth < stack.Length
    modifies stack, cfg`cond, Nodes(chain)
    ensures Around(head, cfg, cfg.next, done, rest)
    ensures IsStack(stack, frames) && StackTokens(frames) == old(StackTokens(frames))
    ensures IsList(cfg.cond, guard) && fresh(Nodes(guard))
    ensures NonEmpty(old(StackTokens(frames)))
    ensures IsDep(old(ReadStmt(cfg, chain)).kind) && old(TokensOf(chain)) != [] ==> old(TokensOf(chain))[0].op.LParen?
    ensures ReadStmt(cfg, guard)
         == old(ReadStmt(cfg, chain)).(cond := GuardFor(old(ReadStmt(cfg, chain)), w, old(StackTokens(frames))))
  {
    hide *;
    guard := HangGuard(cfg, chain, w, stack, depth, frames);
    assert forall o :: o in zone ==> unchanged(o);
  }

  lemma TopReady(ahead: Part, frames: seq<seq<Condition>>, done: Part, pool: set<Condition>)
    requires Ownership(ahead, frames, done, pool) && |frames| > 0
    ensures Nodes(frames[|frames| - 1]) !! ahead.Zone() + done.Zone() && Separate(frames)
  {
    StackNodesPop(frames);
    var top := Nodes(frames[|frames| - 1]);
    assert top <= StackNodes(frames) && top !! StackNodes(ahead.chains) && top !! StackNodes(done.chains);
  }

  /** The statement `cfg` is unlinked. */
  method DropOne(prev: Kconfig, cfg: Kconfig, stack: array<Condition?>, ghost frames: seq<seq<Condition>>,
                 ghost head: Kconfig?, ghost done: Part, ghost rest: Part)
    requires Around(head, cfg, cfg.next, done, rest) && IsStack(stack, frames)
    requires |done.lines| > 0 && prev == done.lines[|done.lines| - 1] && prev !in rest.lines && prev != cfg
    modifies prev`next
    ensures cfg.next == old(cfg.next) && Around(head, cfg.next, cfg.next, done, rest)
    ensures IsStack(stack, frames) && StackTokens(frames) == old(StackTokens(frames))
  {
    hide Distinct;
    ghost var zone, nodes: set<object> := rest.Zone(), StackNodes(frames);
    assert prev !in zone && prev !in nodes;
    prev.next := cfg.next;
    assert rest.IsPart(cfg.next, null) && IsStack(stack, frames) && StackTokens(frames) == old(StackTokens(frames)) by {
      hide Part.IsPart, IsStack, StackTokens, Part.Zone, StackNodes;
    }
    assert done.IsPart(head, cfg.next) by {
      hide IsStack, StackTokens;
      forall k {:trigger done.lines[k]} {:trigger done.chains[k]} | 0 <= k < |done.lines|
        ensures done.lines[k].next == if k + 1 < |done.lines| then done.lines[k + 1] else cfg.next
        ensures IsList(done.lines[k].cond, done.chains[k]) && ReadStmt(done.lines[k], done.chains[k]) == done.stmts[k]
      {
        assert old(IsList(done.lines[k].cond, done.chains[k]));
        assert k < |done.lines| - 1 ==> done.lines[k] != prev;
      }
    }
    hide Part.IsPart, IsStack, StackTokens;
  }

  /** No variable is defined. */
  method ClearDefined(t: VariableTable)
    requires t.Valid()
    modifies t.table
    ensures t.Valid() && t.Names() == old(t.Names()) && t.DefinedSet() == {}
  {
    var i := 1;
    while i <= t.maxVarnum
      invariant 1 <= i <= t.maxVarnum + 1
      invariant t.Valid() && t.Names() == old(t.Names())
      invariant forall k :: k in t.DefinedSet() ==> k >= i
    {
      t.SetDefined(i, false);
      i := i + 1;
    }
    assert t.DefinedSet() == {};
  }

  /** Which variables some statement of the script defines. */
  method MarkVariables(scfg: Kconfig?, ghost all: seq<Kconfig>, t: VariableTable)
    requires IsScript(scfg, all) && t.Valid()
    requires forall k {:trigger all[k]} :: 0 <= k < |all| ==> all[k].nameindex <= t.maxVarnum
    modifies t.table
    ensures t.Valid() && t.Names() == old(t.Names())
    ensures t.DefinedSet() == DefinedLines(all, |all|)
    ensures forall i :: i in t.DefinedSet() <==> i > 0 && GetsValue(all, i)
  {
    ClearDefined(t);
    var cfg := scfg;
    ghost var n := 0;
    while cfg != null
      invariant 0 <= n <= |all| && cfg == if n < |all| then all[n] else null
      invariant t.Valid() && t.Names() == old(t.Names())
      invariant t.DefinedSet() == DefinedLines(all, n)
      decreases |all| - n
    {
      assert all[n].next == Following(all, n);
      assert DefinedLines(all, n + 1) == DefinedLines(all, n)
             + if Defines(all[n].kind) && all[n].nameindex > 0 then {all[n].nameindex} else {};
      if Defines(cfg.kind) {
        if cfg.nameindex > 0 {
          t.SetDefined(cfg.nameindex, true);
        }
      }
      cfg := cfg.next;
      n := n + 1;
    }
    DefinedLinesAre(all);
  }

  /** Some statement with this variable gives it a value: none but those that never have a variable do not. */
  ghost predicate GetsValue(all: seq<Kconfig>, i: int)
    reads Lines(all)
  {
    exists k {:trigger all[k]} ::
      && 0 <= k < |all| && all[k].nameindex == i
      && all[k].kind !in {Unknown, ChoiceHeader, Comment, Else, Endmenu, Fi, Kind.If, MainmenuName, MainmenuOption,
                          Source, Then}
  }

  lemma DefinedLinesAre(all: seq<Kconfig>)
    ensures forall i :: i in DefinedLines(all, |all|) <==> i > 0 && GetsValue(all, i)
  {
  }

  ghost function DefinedLines(all: seq<Kconfig>, n: nat): set<int>
    requires n <= |all|
    reads Lines(all)
  {
    set k {:trigger all[k]} | 0 <= k < n && Defines(all[k].kind) && all[k].nameindex > 0 :: all[k].nameindex
  }

  // ----- what one statement contributes -----

  /** The effect of one statement on the stack. */
  function StackAfter(s: Stmt, w: World, stack: seq<seq<Token>>): seq<seq<Token>>
    requires s.kind.If? ==> Tokenized(s.cond)
    requires s.kind.Else? || s.kind.Fi? ==> |stack| > 0
  {
    if s.kind.If? then stack + [FrameFor(s.cond, w)]
    else if s.kind.Else? then FlipTop(stack)
    else if s.kind.Fi? then stack[..|stack| - 1]
    else stack
  }

  /** What is left of one statement: nothing, or the statement with its guard. */
  function Contribution(s: Stmt, w: World, stack: seq<seq<Token>>): seq<Stmt>
    requires NonEmpty(stack) && (IsDep(s.kind) && s.cond != [] ==> s.cond[0].op.LParen?)
  {
    if s.kind.If? then [Bare(s)]
    else if IsGuarded(s.kind) then
      var guard := GuardFor(s, w, stack);
      if Dropped(guard) then [] else [s.(cond := guard)]
    else [s]
  }

  lemma FixUnfold(ss: seq<Stmt>, w: World, stack: seq<seq<Token>>)
    requires |ss| > 0 && Nested(ss, |stack|) && NonEmpty(stack)
    ensures ss[0].kind.If? ==> Tokenized(ss[0].cond) && |stack| < MAX_DEPTH
    ensures ss[0].kind.Else? || ss[0].kind.Fi? ==> |stack| > 0
    ensures IsDep(ss[0].kind) && ss[0].cond != [] ==> ss[0].cond[0].op.LParen? && |stack| < MAX_DEPTH
    ensures NonEmpty(StackAfter(ss[0], w, stack)) && Nested(ss[1..], |StackAfter(ss[0], w, stack)|)
    ensures FixFrom(ss, w, stack) == Contribution(ss[0], w, stack) + FixFrom(ss[1..], w, StackAfter(ss[0], w, stack))
  {
    hide Chain, GuardFor;
  }

  /** The loop has processed the statements before `rest`. */
  ghost predicate Progress(whole: seq<Stmt>, done: seq<Stmt>, rest: seq<Stmt>, w: World, stack: seq<seq<Token>>) {
    && NonEmpty(stack) && Nested(rest, |stack|) && OwnConditions(rest)
    && whole == done + FixFrom(rest, w, stack)
  }

  lemma ProgressStep(whole: seq<Stmt>, done: seq<Stmt>, rest: seq<Stmt>, w: World, stack: seq<seq<Token>>)
    requires |rest| > 0 && Progress(whole, done, rest, w, stack)
    ensures var s := rest[0];
            && (s.kind.If? ==> Tokenized(s.cond) && |stack| < MAX_DEPTH)
            && (s.kind.Else? || s.kind.Fi? ==> |stack| > 0)
            && (IsDep(s.kind) && s.cond != [] ==> s.cond[0].op.LParen? && |stack| < MAX_DEPTH)
            && (!s.kind.If? && !IsDep(s.kind) ==> s.cond == [])
            && NonEmpty(stack)
            && Progress(whole, done + Contribution(s, w, stack), rest[1..], w, StackAfter(s, w, stack))
  {
    hide FixFrom, Chain, GuardFor, FrameFor, FlipTop;
    FixUnfold(rest, w, stack);
    Assoc(done, Contribution(rest[0], w, stack), FixFrom(rest[1..], w, StackAfter(rest[0], w, stack)));
  }

  /** The loop invariant: `cfg` is the current statement, `prev` the last one kept. */
  ghost predicate Looping(scfg: Kconfig?, cfg: Kconfig?, prev: Kconfig?, stack: array<Condition?>, depth: nat,
                          rest: Part, frames: seq<seq<Condition>>, done: Part, pool: set<Condition>,
                          whole: seq<Stmt>, w: World)
    reads stack, rest.Zone(), StackNodes(frames), done.Zone()
  {
    && rest.IsPart(cfg, null) && done.IsPart(scfg, cfg)
    && prev == (if |done.lines| == 0 then null else done.lines[|done.lines| - 1])
    && (prev == null ==> depth == 0)
    && Ownership(rest, frames, done, pool)
    && stack.Length == MAX_DEPTH && IsStack(stack, frames) && |frames| == depth
    && Progress(whole, done.stmts, rest.stmts, w, StackTokens(frames))
  }

  lemma KeepStatement(scfg: Kconfig?, cfg: Kconfig, stack: array<Condition?>, rest: Part, frames: seq<seq<Condition>>,
                      done: Part, pool: set<Condition>, guard: seq<Condition>, whole: seq<Stmt>, w: World)
    requires Around(scfg, cfg, cfg.next, done, rest)
    requires IsList(cfg.cond, guard) && cfg !in done.lines && cfg !in rest.lines
    requires Ownership(rest, frames, done, pool) && Nodes(guard) !! pool + StackNodes(done.chains)
    requires stack.Length == MAX_DEPTH && IsStack(stack, frames)
    requires Progress(whole, done.stmts + [ReadStmt(cfg, guard)], rest.stmts, w, StackTokens(frames))
    ensures Looping(scfg, cfg.next, cfg, stack, |frames|, rest, frames,
                    done.With(cfg, guard, ReadStmt(cfg, guard)), pool, whole, w)
  {
    hide Distinct, Ownership, Progress, IsStack, StackTokens;
    KeepOne(scfg, cfg, done, guard);
    OwnershipKeep(rest, frames, done, pool, cfg, guard, ReadStmt(cfg, guard));
    hide Part.IsPart;
  }

  /** Everything a step may rely on. */
  lemma Unpack(scfg: Kconfig?, cfg: Kconfig, prev: Kconfig?, stack: array<Condition?>, depth: nat,
               rest: Part, frames: seq<seq<Condition>>, done: Part, pool: set<Condition>, whole: seq<Stmt>, w: World)
    requires Looping(scfg, cfg, prev, stack, depth, rest, frames, done, pool, whole, w)
    ensures rest.Matched() && |rest.lines| > 0 && cfg == rest.lines[0]
    ensures Around(scfg, cfg, cfg.next, done, rest.Tail())
    ensures cfg !in done.lines && cfg !in rest.Tail().lines
    ensures var s, chain, zone := rest.stmts[0], rest.chains[0], done.Zone() + rest.Tail().Zone();
            && stack !in zone && cfg !in zone && Nodes(chain) !! zone
            && IsList(cfg.cond, chain) && ReadStmt(cfg, chain) == s && TokensOf(chain) == s.cond && cfg.kind == s.kind
            && (cfg.cond != null ==> s.cond != [] && cfg.cond.op == s.cond[0].op)
            && SeparateFrom(chain, frames) && Nodes(chain) <= pool
            && Nodes(chain) !! StackNodes(rest.Tail().chains) && Nodes(chain) !! StackNodes(frames)
            && (s.kind.If? ==> Tokenized(s.cond) && depth < MAX_DEPTH)
            && (s.kind.Else? || s.kind.Fi? ==> depth > 0)
            && (IsDep(s.kind) && s.cond != [] ==> s.cond[0].op.LParen? && depth < MAX_DEPTH)
            && (!s.kind.If? && !IsDep(s.kind) ==> s.cond == [])
            && NonEmpty(StackTokens(frames))
            && Progress(whole, done.stmts + Contribution(s, w, StackTokens(frames)), rest.Tail().stmts, w,
                        StackAfter(s, w, StackTokens(frames)))
    ensures Ownership(rest.Tail(), frames, done, pool)
  {
    StepReady(cfg, stack, rest, frames, done, pool);
    hide Progress, Chain, Contribution, StackAfter, Ownership;
    PartTail(cfg, rest);
    assert cfg !in done.lines by { NotDone(rest, frames, done, pool); }
    ProgressStep(whole, done.stmts, rest.stmts, w, StackTokens(frames));
  }

  lemma NotDone(rest: Part, frames: seq<seq<Condition>>, done: Part, pool: set<Condition>)
    requires Ownership(rest, frames, done, pool) && |rest.lines| > 0
    ensures rest.lines[0] !in done.lines
  {
    assert rest.lines[0] in rest.lines;
  }

  method DoIf(scfg: Kconfig, cfg: Kconfig, w: World, ghost prev: Kconfig?, stack: array<Condition?>, depth: nat,
              ghost rest: Part, ghost frames: seq<seq<Condition>>, ghost done: Part, ghost pool: set<Condition>,
              ghost whole: seq<Stmt>)
    returns (ghost top: seq<Condition>, ghost done': Part)
    requires Looping(scfg, cfg, prev, stack, depth, rest, frames, done, pool, whole, w) && cfg.kind.If?
    requires |rest.chains| > 0 && |rest.lines| > 0 && rest.Matched()
    modifies stack, cfg`cond, Nodes(rest.chains[0])
    ensures Looping(scfg, cfg.next, cfg, stack, depth + 1, rest.Tail(), frames + [top], done', pool, whole, w)
    ensures done'.lines == done.lines + [cfg]
  {
    hide Chain, FixFrom, Nested, GuardFor, FlipTop, Dropped;
    Unpack(scfg, cfg, prev, stack, depth, rest, frames, done, pool, whole, w);
    hide Looping, Progress, Ownership, IsStack, StackTokens, FrameFor, Chain, Distinct, Around, Part.IsPart, Part.Zone;
    hide SeparateFrom;
    ghost var fs := StackTokens(frames);
    top := IfStep(cfg, w, stack, depth, frames, rest.chains[0], scfg, done, rest.Tail(), done.Zone() + rest.Tail().Zone());
    EmptyList();
    OwnershipPush(rest.Tail(), frames, done, pool, rest.chains[0], top);
    KeepStatement(scfg, cfg, stack, rest.Tail(), frames + [top], done, pool, [], whole, w);
    done' := done.With(cfg, [], ReadStmt(cfg, []));
  }

  lemma NoCondition(cfg: Kconfig, chain: seq<Condition>, s: Stmt)
    requires IsList(cfg.cond, chain) && ReadStmt(cfg, chain) == s && s.cond == []
    ensures chain == [] && Nodes(chain) == {} && cfg.cond == null
  {
    assert |TokensOf(chain)| == 0;
  }

  lemma ElseContributes(s: Stmt, w: World, stack: seq<seq<Token>>)
    requires s.kind.Else? && NonEmpty(stack) && |stack| > 0
    ensures Contribution(s, w, stack) == [s] && StackAfter(s, w, stack) == FlipTop(stack)
  {
  }

  method DoElse(scfg: Kconfig, cfg: Kconfig, ghost w: World, ghost prev: Kconfig?, stack: array<Condition?>, depth: nat,
                ghost rest: Part, ghost frames: seq<seq<Condition>>, ghost done: Part, ghost pool: set<Condition>,
                ghost whole: seq<Stmt>)
    returns (ghost done': Part)
    requires Looping(scfg, cfg, prev, stack, depth, rest, frames, done, pool, whole, w) && cfg.kind.Else?
    requires 0 < depth == |frames|
    modifies Nodes(frames[depth - 1])
    ensures |rest.lines| > 0 && rest.Matched()
    ensures Looping(scfg, cfg.next, cfg, stack, depth, rest.Tail(), frames, done', pool, whole, w)
    ensures done'.lines == done.lines + [cfg]
  {
    hide Progress, FlipTop, Contribution, StackAfter, Chain, FixFrom, Nested, GuardFor;
    Unpack(scfg, cfg, prev, stack, depth, rest, frames, done, pool, whole, w);
    NoCondition(cfg, rest.chains[0], rest.stmts[0]);
    TopReady(rest.Tail(), frames, done, pool);
    EmptyList();
    ghost var fs, tail := StackTokens(frames), rest.Tail();
    ElseContributes(rest.stmts[0], w, fs);
    assert Progress(whole, done.stmts + [ReadStmt(cfg, [])], tail.stmts, w, FlipTop(fs));
    assert Ownership(tail, frames, done, pool) && stack.Length == MAX_DEPTH;
    hide *;
    ghost var line := ReadStmt(cfg, []);
    ElseStep(cfg, stack, depth, frames, scfg, done, tail, done.Zone() + tail.Zone());
    assert ReadStmt(cfg, []) == line;
    KeepStatement(scfg, cfg, stack, tail, frames, done, pool, [], whole, w);
    done' := done.With(cfg, [], ReadStmt(cfg, []));
  }

  lemma DoFi(scfg: Kconfig, cfg: Kconfig, w: World, prev: Kconfig?, stack: array<Condition?>, depth: nat,
             rest: Part, frames: seq<seq<Condition>>, done: Part, pool: set<Condition>, whole: seq<Stmt>)
    requires Looping(scfg, cfg, prev, stack, depth, rest, frames, done, pool, whole, w) && cfg.kind.Fi?
    ensures 0 < depth == |frames| && |rest.lines| > 0 && rest.Matched()
    ensures Looping(scfg, cfg.next, cfg, stack, depth - 1, rest.Tail(), frames[..depth - 1],
                    done.With(cfg, [], ReadStmt(cfg, [])), pool, whole, w)
  {
    hide FixFrom, Nested, GuardFor, FlipTop, FrameFor;
    Unpack(scfg, cfg, prev, stack, depth, rest, frames, done, pool, whole, w);
    NoCondition(cfg, rest.chains[0], rest.stmts[0]);
    EmptyList();
    Popped(stack, frames);
    StackNodesPop(frames);
    assert Ownership(rest.Tail(), frames[..depth - 1], done, pool);
    hide Looping, Progress, Ownership, IsStack, StackTokens, Chain, Distinct, Around, Part.IsPart;
    KeepStatement(scfg, cfg, stack, rest.Tail(), frames[..depth - 1], done, pool, [], whole, w);
  }

  lemma DoOther(scfg: Kconfig, cfg: Kconfig, w: World, prev: Kconfig?, stack: array<Condition?>, depth: nat,
                rest: Part, frames: seq<seq<Condition>>, done: Part, pool: set<Condition>, whole: seq<Stmt>)
    requires Looping(scfg, cfg, prev, stack, depth, rest, frames, done, pool, whole, w)
    requires !cfg.kind.If? && !cfg.kind.Else? && !cfg.kind.Fi? && !IsGuarded(cfg.kind)
    ensures |rest.lines| > 0 && rest.Matched()
    ensures Looping(scfg, cfg.next, cfg, stack, depth, rest.Tail(), frames,
                    done.With(cfg, [], ReadStmt(cfg, [])), pool, whole, w)
  {
    Unpack(scfg, cfg, prev, stack, depth, rest, frames, done, pool, whole, w);
    NoCondition(cfg, rest.chains[0], rest.stmts[0]);
    EmptyList();
    hide Looping, Progress, Ownership, IsStack, StackTokens, Chain, Distinct, Around, Part.IsPart;
    KeepStatement(scfg, cfg, stack, rest.Tail(), frames, done, pool, [], whole, w);
  }

  /** It is the turn of the simple or dependent statement s, read before its guard is made. */
  ghost predicate Turn(s: Stmt, w: World, fs: seq<seq<Token>>, rest: Part, frames: seq<seq<Condition>>, done: Part,
                       pool: set<Condition>, whole: seq<Stmt>) {
    && IsGuarded(s.kind) && NonEmpty(fs) && (IsDep(s.kind) && s.cond != [] ==> s.cond[0].op.LParen?)
    && Ownership(rest, frames, done, pool)
    && Progress(whole, done.stmts + Contribution(s, w, fs), rest.stmts, w, StackAfter(s, w, fs))
  }

  /** A statement that is not dropped joins the kept ones with its new guard. */
  lemma KeepGuarded(scfg: Kconfig, cfg: Kconfig, w: World, stack: array<Condition?>, rest: Part,
                    frames: seq<seq<Condition>>, done: Part, pool: set<Condition>, whole: seq<Stmt>,
                    s: Stmt, fs: seq<seq<Token>>, guard: seq<Condition>)
    requires Turn(s, w, fs, rest, frames, done, pool, whole) && Around(scfg, cfg, cfg.next, done, rest)
    requires IsList(cfg.cond, guard) && cfg !in done.lines && cfg !in rest.lines
    requires Nodes(guard) !! pool + StackNodes(done.chains)
    requires stack.Length == MAX_DEPTH && IsStack(stack, frames) && StackTokens(frames) == fs
    requires !Dropped(GuardFor(s, w, fs)) && ReadStmt(cfg, guard) == s.(cond := GuardFor(s, w, fs))
    ensures Looping(scfg, cfg.next, cfg, stack, |frames|, rest, frames,
                    done.With(cfg, guard, ReadStmt(cfg, guard)), pool, whole, w)
  {
    assert Contribution(s, w, fs) == [ReadStmt(cfg, guard)] && StackAfter(s, w, fs) == fs;
    assert Ownership(rest, frames, done, pool);
    assert Progress(whole, done.stmts + Contribution(s, w, fs), rest.stmts, w, StackAfter(s, w, fs));
    hide *;
    KeepStatement(scfg, cfg, stack, rest, frames, done, pool, guard, whole, w);
  }

  /** A dropped statement leaves the kept ones as they are. */
  lemma SkipDropped(scfg: Kconfig, next: Kconfig?, prev: Kconfig, w: World, stack: array<Condition?>, rest: Part,
                    frames: seq<seq<Condition>>, done: Part, pool: set<Condition>, whole: seq<Stmt>,
                    s: Stmt, fs: seq<seq<Token>>)
    requires Turn(s, w, fs, rest, frames, done, pool, whole) && Around(scfg, next, next, done, rest)
    requires |done.lines| > 0 && prev == done.lines[|done.lines| - 1]
    requires stack.Length == MAX_DEPTH && IsStack(stack, frames) && StackTokens(frames) == fs
    requires Dropped(GuardFor(s, w, fs))
    ensures Looping(scfg, next, prev, stack, |frames|, rest, frames, done, pool, whole, w)
  {
    assert Contribution(s, w, fs) == [] && StackAfter(s, w, fs) == fs by { hide GuardFor, Progress; }
    assert done.stmts + [] == done.stmts;
    assert Progress(whole, done.stmts, rest.stmts, w, fs) by { hide *; }
    assert done.IsPart(scfg, next) && rest.IsPart(next, null) by { hide Part.IsPart; }
    assert Ownership(rest, frames, done, pool);
    hide *;
    StillLooping(scfg, next, prev, stack, rest, frames, done, pool, whole, w);
  }

  lemma StillLooping(scfg: Kconfig?, next: Kconfig?, prev: Kconfig, stack: array<Condition?>, rest: Part,
              frames: seq<seq<Condition>>, done: Part, pool: set<Condition>, whole: seq<Stmt>, w: World)
    requires rest.IsPart(next, null) && done.IsPart(scfg, next) && Ownership(rest, frames, done, pool)
    requires |done.lines| > 0 && prev == done.lines[|done.lines| - 1]
    requires stack.Length == MAX_DEPTH && IsStack(stack, frames)
    requires Progress(whole, done.stmts, rest.stmts, w, StackTokens(frames))
    ensures Looping(scfg, next, prev, stack, |frames|, rest, frames, done, pool, whole, w)
  {
    hide Progress, IsStack, StackTokens, Ownership, Part.IsPart;
  }

  lemma LastKept(scfg: Kconfig?, cfg: Kconfig, prev: Kconfig?, stack: array<Condition?>, depth: nat,
                 rest: Part, frames: seq<seq<Condition>>, done: Part, pool: set<Condition>, whole: seq<Stmt>, w: World)
    requires Looping(scfg, cfg, prev, stack, depth, rest, frames, done, pool, whole, w)
    requires rest.Matched() && |rest.lines| > 0
    requires IsDep(rest.stmts[0].kind) && rest.stmts[0].cond != [] ==> rest.stmts[0].cond[0].op.LParen?
    requires NonEmpty(StackTokens(frames))
    ensures prev == null ==> !Dropped(GuardFor(rest.stmts[0], w, StackTokens(frames)))
    ensures prev != null ==>
              |done.lines| > 0 && prev == done.lines[|done.lines| - 1] && prev !in rest.Tail().lines && prev != cfg
  {
    if prev == null {
      assert StackTokens(frames) == [];
      HeadKept(rest.stmts[0], w);
    } else {
      assert prev in done.lines && cfg in rest.lines;
    }
  }

  /** What the step of a simple or dependent statement relies on. */
  lemma TakeTurn(scfg: Kconfig, cfg: Kconfig, prev: Kconfig?, stack: array<Condition?>, depth: nat,
                 rest: Part, frames: seq<seq<Condition>>, done: Part, pool: set<Condition>, whole: seq<Stmt>, w: World)
    requires Looping(scfg, cfg, prev, stack, depth, rest, frames, done, pool, whole, w) && IsGuarded(cfg.kind)
    ensures rest.Matched() && |rest.lines| > 0 && stack.Length == MAX_DEPTH && IsStack(stack, frames) && |frames| == depth
    ensures var s, fs, tail, chain := rest.stmts[0], StackTokens(frames), rest.Tail(), rest.chains[0];
            var zone := done.Zone() + tail.Zone();
            && Turn(s, w, fs, tail, frames, done, pool, whole) && Around(scfg, cfg, cfg.next, done, tail)
            && stack !in zone && cfg !in zone && Nodes(chain) !! zone && cfg !in done.lines && cfg !in tail.lines
            && IsList(cfg.cond, chain) && ReadStmt(cfg, chain) == s && SeparateFrom(chain, frames)
            && (IsDep(cfg.kind) && cfg.cond != null ==> cfg.cond.op.LParen? && depth < stack.Length)
            && (prev == null ==> !Dropped(GuardFor(s, w, fs)))
            && (prev != null ==> |done.lines| > 0 && prev == done.lines[|done.lines| - 1] && prev !in tail.lines && prev != cfg)
  {
    Unpack(scfg, cfg, prev, stack, depth, rest, frames, done, pool, whole, w);
    LastKept(scfg, cfg, prev, stack, depth, rest, frames, done, pool, whole, w);
    hide Ownership, Progress, Contribution, StackAfter, GuardFor, IsStack, StackTokens, Part.IsPart, Part.Zone, Around;
  }

  lemma DroppedHead(cfg: Kconfig, guard: seq<Condition>, s: Stmt, w: World, fs: seq<seq<Token>>)
    requires NonEmpty(fs) && (IsDep(s.kind) && s.cond != [] ==> s.cond[0].op.LParen?)
    requires IsList(cfg.cond, guard) && ReadStmt(cfg, guard) == s.(cond := GuardFor(s, w, fs))
    ensures Dropped(GuardFor(s, w, fs)) <==> cfg.cond != null && cfg.cond.op.False?
  {
    assert cfg.cond != null ==> TokensOf(guard)[0] == cfg.cond.Value();
  }

  /** A statement with a false guard is unlinked. */
  method SkipGuarded(scfg: Kconfig, cfg: Kconfig, ghost w: World, prev: Kconfig, stack: array<Condition?>,
                     ghost rest: Part, ghost frames: seq<seq<Condition>>, ghost done: Part, ghost pool: set<Condition>,
                     ghost whole: seq<Stmt>, ghost s: Stmt, ghost fs: seq<seq<Token>>)
    requires Turn(s, w, fs, rest, frames, done, pool, whole) && Around(scfg, cfg, cfg.next, done, rest)
    requires |done.lines| > 0 && prev == done.lines[|done.lines| - 1] && prev !in rest.lines && prev != cfg
    requires stack.Length == MAX_DEPTH && IsStack(stack, frames) && StackTokens(frames) == fs
    requires Dropped(GuardFor(s, w, fs))
    modifies prev`next
    ensures Looping(scfg, cfg.next, prev, stack, |frames|, rest, frames, done, pool, whole, w)
  {
    hide *;
    DropOne(prev, cfg, stack, frames, scfg, done, rest);
    SkipDropped(scfg, cfg.next, prev, w, stack, rest, frames, done, pool, whole, s, fs);
  }

  /** A simple or dependent statement: it is kept with its guard, or unlinked when the guard is a lone false. */
  method DoGuarded(scfg: Kconfig, cfg: Kconfig, w: World, prev: Kconfig?, stack: array<Condition?>, depth: nat,
                   ghost rest: Part, ghost frames: seq<seq<Condition>>, ghost done: Part, ghost pool: set<Condition>,
                   ghost whole: seq<Stmt>)
    returns (good: bool, ghost done': Part)
    requires Looping(scfg, cfg, prev, stack, depth, rest, frames, done, pool, whole, w) && IsGuarded(cfg.kind)
    requires |rest.chains| > 0 && |rest.lines| > 0 && rest.Matched()
    modifies stack, cfg`cond, Nodes(rest.chains[0]), (if prev == null then {} else {prev})`next
    ensures Looping(scfg, cfg.next, if good then cfg else prev, stack, depth, rest.Tail(), frames, done', pool, whole, w)
    ensures done'.lines == if good then done.lines + [cfg] else done.lines
  {
    TakeTurn(scfg, cfg, prev, stack, depth, rest, frames, done, pool, whole, w);
    ghost var s, fs, tail := rest.stmts[0], StackTokens(frames), rest.Tail();
    ghost var taken := pool + StackNodes(done.chains);
    hide *;
    ghost var guard := GuardStep(cfg, w, stack, depth, frames, rest.chains[0], scfg, done, tail,
                                 done.Zone() + tail.Zone());
    good := !(cfg.cond != null && cfg.cond.op.False?);
    DroppedHead(cfg, guard, s, w, fs);
    assert Nodes(guard) !! taken;
    if good {
      KeepGuarded(scfg, cfg, w, stack, tail, frames, done, pool, whole, s, fs, guard);
      done' := done.With(cfg, guard, ReadStmt(cfg, guard));
    } else {
      if prev == null {
        assert false;  // a dropped head would have to be replaced by its successor
      } else {
        SkipGuarded(scfg, cfg, w, prev, stack, tail, frames, done, pool, whole, s, fs);
      }
      done' := done;
    }
  }

  lemma PartIsScript(scfg: Kconfig?, p: Part)
    requires p.IsPart(scfg, null)
    ensures IsScript(scfg, p.lines)
    ensures forall k {:trigger p.lines[k]} :: 0 <= k < |p.lines| ==> ReadStmt(p.lines[k], p.chains[k]) == p.stmts[k]
    ensures DefinedLines(p.lines, |p.lines|) == Defined(p.stmts)
  {
    hide Distinct, Different;
    forall k {:trigger p.lines[k]} | 0 <= k < |p.lines|
      ensures p.lines[k].next == Following(p.lines, k)
      ensures p.lines[k].kind == p.stmts[k].kind && p.lines[k].nameindex == p.stmts[k].nameindex
    {
      assert ReadStmt(p.lines[k], p.chains[k]) == p.stmts[k];
    }
    var d, e := DefinedLines(p.lines, |p.lines|), Defined(p.stmts);
    forall i | i in e ensures i in d {
      var k :| 0 <= k < |p.stmts| && Defines(p.stmts[k].kind) && p.stmts[k].nameindex > 0 && p.stmts[k].nameindex == i;
      assert p.lines[k].nameindex == i;
    }
    forall i | i in d ensures i in e {
      var k :| 0 <= k < |p.lines| && Defines(p.lines[k].kind) && p.lines[k].nameindex > 0 && p.lines[k].nameindex == i;
      assert p.stmts[k].nameindex == i;
    }
  }

  lemma BeginOwnership(p: Part)
    requires Separate(p.chains)
    ensures Ownership(p, [], Part([], [], []), StackNodes(p.chains))
  {
    assert StackNodes([]) == {};
    hide StackNodes, Nodes;
  }

  lemma BeginKept(scfg: Kconfig?)
    ensures Part([], [], []).IsPart(scfg, scfg)
  {
  }

  lemma BeginStack(stack: array<Condition?>)
    ensures IsStack(stack, []) && StackTokens([]) == []
  {
  }

  lemma Begin(scfg: Kconfig, stack: array<Condition?>, p: Part, w: World)
    requires p.IsPart(scfg, null) && Separate(p.chains) && stack.Length == MAX_DEPTH
    requires Nested(p.stmts, 0) && OwnConditions(p.stmts)
    ensures Looping(scfg, scfg, null, stack, 0, p, [], Part([], [], []), StackNodes(p.chains), FixFrom(p.stmts, w, []), w)
  {
    BeginOwnership(p);
    BeginKept(scfg);
    BeginStack(stack);
    hide FixFrom, Nested, OwnConditions, Distinct, Part.IsPart, Ownership, IsStack, StackTokens, StackNodes;
    assert [] + FixFrom(p.stmts, w, []) == FixFrom(p.stmts, w, []);
  }

  lemma Finish(scfg: Kconfig, prev: Kconfig?, stack: array<Condition?>, depth: nat, rest: Part,
               frames: seq<seq<Condition>>, done: Part, pool: set<Condition>, whole: seq<Stmt>, w: World)
    requires Looping(scfg, null, prev, stack, depth, rest, frames, done, pool, whole, w)
    ensures done.IsPart(scfg, null) && done.stmts == whole && Separate(done.chains)
  {
    assert rest.stmts == [];
    assert FixFrom(rest.stmts, w, StackTokens(frames)) == [];
  }

  lemma TableApart(t: VariableTable, p: Part)
    ensures t !in p.Zone() && t.table !in p.Zone()
  {
  }

  /** One statement of the loop. */
  method Step(scfg: Kconfig, cfg: Kconfig, w: World, prev: Kconfig?, stack: array<Condition?>, depth: nat,
              ghost rest: Part, ghost frames: seq<seq<Condition>>, ghost done: Part, ghost pool: set<Condition>,
              ghost whole: seq<Stmt>)
    returns (prev': Kconfig?, depth': nat, ghost frames': seq<seq<Condition>>, ghost done': Part)
    requires Looping(scfg, cfg, prev, stack, depth, rest, frames, done, pool, whole, w)
    requires rest.Matched() && |rest.lines| > 0
    modifies stack, cfg`cond, pool, (if prev == null then {} else {prev})`next
    ensures cfg.next == old(cfg.next)
    ensures Looping(scfg, cfg.next, prev', stack, depth', rest.Tail(), frames', done', pool, whole, w)
    ensures prev' in {prev, cfg}
  {
    Unpack(scfg, cfg, prev, stack, depth, rest, frames, done, pool, whole, w);
    TopInPool(scfg, cfg, prev, stack, depth, rest, frames, done, pool, whole, w);
    hide *;
    prev', depth', frames' := cfg, depth, frames;
    if cfg.kind.If? {
      ghost var top;
      top, done' := DoIf(scfg, cfg, w, prev, stack, depth, rest, frames, done, pool, whole);
      depth' := depth + 1;
      frames' := frames + [top];
    } else if cfg.kind.Else? {
      done' := DoElse(scfg, cfg, w, prev, stack, depth, rest, frames, done, pool, whole);
    } else if cfg.kind.Fi? {
      DoFi(scfg, cfg, w, prev, stack, depth, rest, frames, done, pool, whole);
      depth' := depth - 1;
      frames' := frames[..depth - 1];
      done' := done.With(cfg, [], ReadStmt(cfg, []));
    } else if IsGuarded(cfg.kind) {
      var good;
      good, done' := DoGuarded(scfg, cfg, w, prev, stack, depth, rest, frames, done, pool, whole);
      if !good {
        prev' := prev;
      }
    } else {
      DoOther(scfg, cfg, w, prev, stack, depth, rest, frames, done, pool, whole);
      done' := done.With(cfg, [], ReadStmt(cfg, []));
    }
  }

  lemma TopInPool(scfg: Kconfig?, cfg: Kconfig, prev: Kconfig?, stack: array<Condition?>, depth: nat,
                  rest: Part, frames: seq<seq<Condition>>, done: Part, pool: set<Condition>, whole: seq<Stmt>, w: World)
    requires Looping(scfg, cfg, prev, stack, depth, rest, frames, done, pool, whole, w)
    ensures |frames| == depth && (depth > 0 ==> Nodes(frames[depth - 1]) <= pool)
  {
    if depth > 0 {
      StackNodesPop(frames);
    }
  }

  /** fix_conditionals. The list that begins at `scfg` becomes the flattened script; its first statement is never
      dropped, so the caller's pointer stays the head of the list. `zone` are the objects the list is made of. */
  method FixScript(scfg: Kconfig, arch: string, t: VariableTable, ghost p: Part, ghost zone: set<object>)
    returns (ghost done: Part)
    requires p.IsPart(scfg, null) && Separate(p.chains) && zone == p.Zone()
    requires Nested(p.stmts, 0) && OwnConditions(p.stmts)
    requires t.Valid() && forall k {:trigger p.lines[k]} :: 0 <= k < |p.lines| ==> p.lines[k].nameindex <= t.maxVarnum
    modifies t.table, zone
    ensures done.IsPart(scfg, null) && Separate(done.chains)
    ensures done.stmts == FixConditionals(p.stmts, arch, old(t.Names()))
  {
    PartIsScript(scfg, p);
    TableApart(t, p);
    var w := MarkedWorld(scfg, arch, t, p, zone);
    done := FixLoop(scfg, w, p, zone);
  }

  /** The loop over the statements. */
  method FixLoop(scfg: Kconfig, w: World, ghost p: Part, ghost zone: set<object>) returns (ghost done: Part)
    requires p.IsPart(scfg, null) && Separate(p.chains) && zone == p.Zone()
    requires Nested(p.stmts, 0) && OwnConditions(p.stmts)
    modifies zone
    ensures done.IsPart(scfg, null) && done.stmts == FixFrom(p.stmts, w, []) && Separate(done.chains)
  {
    InZone(p);
    var stack := new Condition?[MAX_DEPTH](_ => null);
    ghost var rest, frames, pool, whole := p, [], StackNodes(p.chains), FixFrom(p.stmts, w, []);
    Begin(scfg, stack, p, w);
    hide *;
    var cfg: Kconfig?, prev: Kconfig?, depth := scfg, null, 0;
    done := Part([], [], []);
    while cfg != null
      invariant Looping(scfg, cfg, prev, stack, depth, rest, frames, done, pool, whole, w)
      invariant prev != null ==> prev in zone
      invariant RestInZone(rest, zone)
      decreases |rest.lines|
    {
      RestNotEmpty(scfg, cfg, prev, stack, depth, rest, frames, done, pool, whole, w, zone);
      prev, depth, frames, done := Step(scfg, cfg, w, prev, stack, depth, rest, frames, done, pool, whole);
      rest := rest.Tail();
      cfg := cfg.next;
    }
    Finish(scfg, prev, stack, depth, rest, frames, done, pool, whole, w);
  }

  ghost predicate RestInZone(rest: Part, zone: set<object>) {
    forall k {:trigger rest.lines[k]} :: 0 <= k < |rest.lines| ==> rest.lines[k] in zone
  }

  lemma InZone(p: Part)
    ensures RestInZone(p, p.Zone())
    ensures var nodes: set<object> := StackNodes(p.chains); nodes <= p.Zone()
  {
  }

  lemma RestNotEmpty(scfg: Kconfig?, cfg: Kconfig, prev: Kconfig?, stack: array<Condition?>, depth: nat,
                     rest: Part, frames: seq<seq<Condition>>, done: Part, pool: set<Condition>, whole: seq<Stmt>,
                     w: World, zone: set<object>)
    requires Looping(scfg, cfg, prev, stack, depth, rest, frames, done, pool, whole, w) && RestInZone(rest, zone)
    ensures rest.Matched() && |rest.lines| > 0 && cfg in zone && RestInZone(rest.Tail(), zone)
    ensures |rest.Tail().lines| < |rest.lines|
  {
    Unpack(scfg, cfg, prev, stack, depth, rest, frames, done, pool, whole, w);
    var q := rest.Tail();
    assert forall k {:trigger q.lines[k]} :: 0 <= k < |q.lines| ==> q.lines[k] == rest.lines[k + 1];
  }

  /** The world in which the conditions are evaluated, after mark_variables. */
  method MarkedWorld(scfg: Kconfig, arch: string, t: VariableTable, ghost p: Part, ghost zone: set<object>)
    returns (w: World)
    requires p.IsPart(scfg, null) && zone == p.Zone() && t !in zone && t.table !in zone
    requires t.Valid() && forall k {:trigger p.lines[k]} :: 0 <= k < |p.lines| ==> p.lines[k].nameindex <= t.maxVarnum
    modifies t.table
    ensures p.IsPart(scfg, null)
    ensures w == World(arch, old(t.Names()), Defined(p.stmts))
  {
    PartIsScript(scfg, p);
    MarkVariables(scfg, p.lines, t);
    assert forall o :: o in zone ==> unchanged(o);
    PartIsScript(scfg, p);
    w := World(arch, t.Names(), t.DefinedSet());
  }
}
