/** The parts of the compiler together: a script with its dependencies, from the parser's statements through the flat
    list to the generated program. */
module WholeScript {
  import opened Conditions
  import opened CondPasses
  import opened DepGuards
  import opened Encoding
  import opened Flattening
  import opened Inversion
  import opened Joining
  import opened Meaning
  import opened Statements
  import opened Symbols
  import opened WriteConfig

  // ----- the variables in conditions -----

  /** Every variable of the tokens is fine. */
  ghost predicate Every(ts: seq<Token>, ok: int -> bool) {
    forall i :: 0 <= i < |ts| && ts[i].op.Variable? ==> ok(ts[i].nameindex)
  }

  lemma EveryPart(ts: seq<Token>, ok: int -> bool, from: nat, to: nat)
    requires from <= to <= |ts| && Every(ts, ok)
    ensures Every(ts[from..to], ok)
  {
  }

  lemma EveryAppend(a: seq<Token>, b: seq<Token>, ok: int -> bool)
    requires Every(a, ok) && Every(b, ok)
    ensures Every(a + b, ok)
  {
  }

  lemma {:induction false} EliminateEvery(ts: seq<Token>, w: World, ok: int -> bool)
    requires Tokenized(ts) && Every(ts, ok)
    ensures Every(Eliminate(ts, w), ok)
    decreases |ts|
  {
    if |ts| > 3 && ts[0].op.Variable? {
      assert Unbanged(ts) == ts;
      ChainTail(ts);
      EveryPart(ts, ok, 4, |ts|);
      assert ts[4..|ts|] == ts[4..];
      EliminateEvery(ts[4..], w, ok);
    }
  }

  lemma {:induction false} RemoveBangEvery(ts: seq<Token>, ok: int -> bool)
    requires Every(ts, ok)
    ensures Every(RemoveBang(ts), ok)
    decreases |ts|
  {
    if |ts| > 0 {
      var k := if ts[0].op.Bang? && |ts| >= 3 && IsCompare(ts[2]) then 3 else 1;
      EveryPart(ts, ok, k, |ts|);
      assert ts[k..|ts|] == ts[k..];
      RemoveBangEvery(ts[k..], ok);
      EveryAppend(if k == 3 then [ts[1], Opposite(ts[2])] else [ts[0]], RemoveBang(ts[k..]), ok);
    }
  }

  lemma FrameEvery(cond: seq<Token>, w: World, ok: int -> bool)
    requires Tokenized(cond) && Every(cond, ok)
    ensures Every(FrameFor(cond, w), ok)
  {
    EliminateEvery(cond, w, ok);
    RemoveBangEvery(Eliminate(cond, w), ok);
  }

  ghost predicate AllEvery(fs: seq<seq<Token>>, ok: int -> bool) {
    forall i :: 0 <= i < |fs| ==> Every(fs[i], ok)
  }

  lemma {:induction false} GlueFramesEvery(fs: seq<seq<Token>>, ok: int -> bool)
    requires NonEmpty(fs) && AllEvery(fs, ok)
    ensures Every(GlueFrames(fs), ok)
    decreases |fs|
  {
    if |fs| > 0 {
      var f := fs[|fs| - 1];
      GlueFramesEvery(fs[..|fs| - 1], ok);
      hide GlueFrames;
      AppendFrameEvery(GlueFrames(fs[..|fs| - 1]), f, ok);
      GlueFramesLast(fs);
    }
  }

  lemma GlueFramesLast(fs: seq<seq<Token>>)
    requires NonEmpty(fs) && |fs| > 0
    ensures GlueFrames(fs) == AppendFrame(GlueFrames(fs[..|fs| - 1]), fs[|fs| - 1])
  {
  }

  lemma AppendFrameEvery(acc: seq<Token>, f: seq<Token>, ok: int -> bool)
    requires |f| > 0 && Every(acc, ok) && Every(f, ok)
    ensures Every(AppendFrame(acc, f), ok)
  {
    EveryAppend([LEFT], f, ok);
    EveryAppend([LEFT] + f, [RIGHT], ok);
    var glue := if acc == [] then [] else [GLUE];
    EveryAppend(acc, glue, ok);
    EveryAppend(acc + glue, if f[0].op.LParen? then f else Group(f), ok);
  }

  lemma {:induction false} ScanEvery(ts: seq<Token>, j: nat, ok: int -> bool)
    requires |ts| >= 6 && Every(ts, ok)
    ensures Every(ScanRepeats(ts, j), ok)
    decreases |ts| - j
  {
    if j < |ts| {
      if ts[j].op.LParen? && j + 5 <= |ts| && Repeats(ts, j) && (ts[5].op.And? || (j + 5 < |ts| && ts[j + 5].op.And?)) {
        assert Every(NukeHead(ts, j), ok);
        ScanEvery(NukeHead(ts, j), j + 1, ok);
      } else if !(ts[j].op.LParen? && j + 5 > |ts|) {
        ScanEvery(ts, j + 1, ok);
      }
    }
  }

  lemma {:induction false} NukeEvery(ts: seq<Token>, ok: int -> bool)
    requires Every(ts, ok)
    ensures Every(NukeAll(ts), ok)
    decreases |ts|
  {
    if |ts| > 0 {
      if |ts| >= 6 && StartsSimpleGroup(ts) { ScanEvery(ts, 6, ok); }
      var t := NukeStep(ts);
      EveryPart(t, ok, 1, |t|);
      assert t[1..|t|] == t[1..];
      NukeEvery(t[1..], ok);
      assert Every([t[0]], ok);
      EveryAppend([t[0]], NukeAll(t[1..]), ok);
    }
  }

  lemma GuardEvery(s: Stmt, w: World, stack: seq<seq<Token>>, ok: int -> bool)
    requires NonEmpty(stack) && AllEvery(stack, ok) && (IsDep(s.kind) && s.cond != [] ==> s.cond[0].op.LParen?)
    requires Every(s.cond, ok)
    ensures Every(GuardFor(s, w, stack), ok)
  {
    hide Every, GlueFrames, NukeAll;
    var fs := if IsDep(s.kind) && s.cond != [] then stack + [s.cond] else stack;
    GlueFramesEvery(fs, ok);
    NukeEvery(GlueFrames(fs), ok);
    assert Every([NEVER], ok) by { NeverEvery(ok); }
  }

  lemma NeverEvery(ok: int -> bool)
    ensures Every([NEVER], ok)
  {
  }

  // ----- what the flat list consists of -----

  /** The statement is one of these, with another condition perhaps. */
  predicate Comes(t: Stmt, stmts: seq<Stmt>) {
    exists i :: 0 <= i < |stmts| && t == stmts[i].(cond := t.cond)
  }

  ghost predicate Fine(t: Stmt, stmts: seq<Stmt>, ok: int -> bool) {
    Comes(t, stmts) && Every(t.cond, ok)
  }

  ghost predicate AllFine(ts: seq<Stmt>, stmts: seq<Stmt>, ok: int -> bool) {
    forall i :: 0 <= i < |ts| ==> Fine(ts[i], stmts, ok)
  }

  lemma FineFirst(t: Stmt, ts: seq<Stmt>, stmts: seq<Stmt>, ok: int -> bool)
    requires |stmts| > 0 && t == stmts[0].(cond := t.cond) && Every(t.cond, ok) && AllFine(ts, stmts[1..], ok)
    ensures AllFine([t] + ts, stmts, ok) && AllFine(ts, stmts, ok)
  {
    forall i | 0 <= i < |ts| ensures Fine(ts[i], stmts, ok) {
      var j :| 0 <= j < |stmts[1..]| && ts[i] == stmts[1..][j].(cond := ts[i].cond);
      assert stmts[j + 1] == stmts[1..][j];
    }
    assert Comes(t, stmts);
  }

  /** Flattening drops statements and changes conditions, and brings no new variable into them. */
  lemma {:induction false} FixEvery(stmts: seq<Stmt>, w: World, stack: seq<seq<Token>>, ok: int -> bool)
    requires Nested(stmts, |stack|) && NonEmpty(stack) && AllEvery(stack, ok)
    requires forall i :: 0 <= i < |stmts| ==> Every(stmts[i].cond, ok)
    ensures AllFine(FixFrom(stmts, w, stack), stmts, ok)
    decreases |stmts|
  {
    hide Every, FrameFor, GuardFor, Chain, FlipTop;
    if |stmts| > 0 {
      var s, rest := stmts[0], stmts[1..];
      if s.kind.If? {
        FrameEvery(s.cond, w, ok);
        NothingEvery(ok);
        FixEvery(rest, w, stack + [FrameFor(s.cond, w)], ok);
        FineFirst(s.(cond := []), FixFrom(rest, w, stack + [FrameFor(s.cond, w)]), stmts, ok);
      } else if s.kind.Else? {
        FlipTopEvery(stack, ok);
        FixEvery(rest, w, FlipTop(stack), ok);
        FineFirst(s, FixFrom(rest, w, FlipTop(stack)), stmts, ok);
      } else if s.kind.Fi? {
        FixEvery(rest, w, stack[..|stack| - 1], ok);
        FineFirst(s, FixFrom(rest, w, stack[..|stack| - 1]), stmts, ok);
      } else if IsGuarded(s.kind) {
        GuardEvery(s, w, stack, ok);
        FixEvery(rest, w, stack, ok);
        FineFirst(s.(cond := GuardFor(s, w, stack)), FixFrom(rest, w, stack), stmts, ok);
        assert [] + FixFrom(rest, w, stack) == FixFrom(rest, w, stack);
      } else {
        FixEvery(rest, w, stack, ok);
        FineFirst(s, FixFrom(rest, w, stack), stmts, ok);
      }
    }
  }

  lemma NothingEvery(ok: int -> bool)
    ensures Every([], ok)
  {
  }

  lemma FlipTopEvery(stack: seq<seq<Token>>, ok: int -> bool)
    requires |stack| > 0 && AllEvery(stack, ok)
    ensures AllEvery(FlipTop(stack), ok)
  {
    assert Every(Flip(stack[|stack| - 1]), ok);
  }

  function InRange(n: nat): int -> bool {
    (v: int) => 1 <= v < n
  }

  /** What the parser delivers: conditions nested `depth` deep, and statements in order. */
  predicate Delivered(stmts: seq<Stmt>, names: seq<string>, depth: nat) {
    Nested(stmts, depth) && forall i :: 0 <= i < |stmts| ==> ParsedStmt(stmts[i], names)
  }

  /** Flattening delivers to the generator what the parser delivered: menus, `if`s and all. */
  lemma FlattenedIsParsed(stmts: seq<Stmt>, arch: string, names: seq<string>)
    requires Delivered(stmts, names, 0)
    ensures forall t :: t in FixConditionals(stmts, arch, names) ==> ParsedStmt(t, names)
  {
    var w, flat, ok := World(arch, names, Defined(stmts)), FixConditionals(stmts, arch, names), InRange(|names|);
    forall i | 0 <= i < |stmts| ensures Every(stmts[i].cond, ok) { assert ParsedStmt(stmts[i], names); }
    FixEvery(stmts, w, [], ok);
    forall t | t in flat ensures ParsedStmt(t, names) {
      var k :| 0 <= k < |flat| && flat[k] == t;
      assert Fine(flat[k], stmts, ok);
      var i :| 0 <= i < |stmts| && t == stmts[i].(cond := t.cond);
      assert ParsedStmt(stmts[i], names);
    }
  }

  /** So the declaring theorems hold of the saving procedure of a flattened script. */
  lemma FlattenedIsDeclared(stmts: seq<Stmt>, arch: string, names: seq<string>, srcs: seq<Source>)
    requires Delivered(stmts, names, 0)
    requires var flat := FixConditionals(stmts, arch, names);
             |srcs| == |flat| && forall i :: 0 <= i < |srcs| ==>
               srcs[i].stmt == flat[i] && forall k :: 0 <= k < |srcs[i].depends| ==> Known(names, srcs[i].depends[k])
    ensures AllParsed(srcs, names)
    ensures var es := EmitAll(srcs, names, {});
            (forall j :: 0 <= j < |es| && es[j].Use? ==> DeclaredBefore(es, j, es[j].item))
            <==> (forall k, x :: 0 <= k < |srcs| && Writes(srcs[k].stmt.kind) && x in TextItems(srcs[k]) ==>
                    exists i :: 0 <= i <= k && Writes(srcs[i].stmt.kind) && x in Needs(srcs[i], names))
  {
    FlattenedIsParsed(stmts, arch, names);
    forall i | 0 <= i < |srcs| ensures WriteConfig.Parsed(srcs[i], names) {
      assert srcs[i].stmt in FixConditionals(stmts, arch, names);
    }
    hide TextItems, Needs, EmitAll, Writes;
    DeclarationBeforeUseIff(srcs, names);
  }

  /** A menu with an `if` and an `else` in it. */
  function MenuScript(): seq<Stmt> {
    [MENU] + ([BoolStmt(1)] + ([IfStmt(IsYes(1))] + ([BoolStmt(2)] + ElsePart())))
  }

  function ElsePart(): seq<Stmt> {
    [ELSE_STMT] + ([BoolStmt(3)] + ([FI_STMT] + ([ENDMENU] + [])))
  }

  const MENU := Stmt(MainmenuOption, 0, "", "", [])
  const ENDMENU := Stmt(Endmenu, 0, "", "", [])

  lemma DeliveredFirst(s: Stmt, rest: seq<Stmt>, names: seq<string>, depth: nat, inner: nat)
    requires Delivered(rest, names, inner) && ParsedStmt(s, names) && (IsDep(s.kind) ==> s.cond == [])
    requires if s.kind.If? then Tokenized(s.cond) && depth < MAX_DEPTH && inner == depth + 1
             else if s.kind.Fi? then depth == inner + 1
             else depth == inner && (s.kind.Else? ==> depth > 0)
    ensures Delivered([s] + rest, names, depth)
  {
  }

  lemma SimpleIsParsed(names: seq<string>)
    requires |names| > 3
    ensures ParsedStmt(MENU, names) && ParsedStmt(ENDMENU, names)
    ensures ParsedStmt(ELSE_STMT, names) && ParsedStmt(FI_STMT, names)
    ensures forall i :: 1 <= i <= 3 ==> ParsedStmt(BoolStmt(i), names)
  {
  }

  lemma IfIsParsed(names: seq<string>)
    requires |names| > 3
    ensures ParsedStmt(IfStmt(IsYes(1)), names) && Tokenized(IsYes(1))
  {
    var cond := IsYes(1);
    assert Unbanged(cond) == cond;
  }

  lemma ElsePartIsDelivered(names: seq<string>)
    requires |names| > 3
    ensures Delivered(ElsePart(), names, 1)
  {
    assert Delivered([], names, 0);
    SimpleIsParsed(names);
    hide Delivered, ParsedStmt;
    DeliveredFirst(ENDMENU, [], names, 0, 0);
    var last := [ENDMENU] + [];
    DeliveredFirst(FI_STMT, last, names, 1, 0);
    DeliveredFirst(BoolStmt(3), [FI_STMT] + last, names, 1, 1);
    DeliveredFirst(ELSE_STMT, [BoolStmt(3)] + ([FI_STMT] + last), names, 1, 1);
  }

  lemma MenuScriptIsDelivered(names: seq<string>)
    requires |names| > 3
    ensures Delivered(MenuScript(), names, 0)
  {
    hide Tokenized, Delivered, ElsePart, IsYes, ParsedStmt;
    SimpleIsParsed(names);
    IfIsParsed(names);
    ElsePartIsDelivered(names);
    var cond, alt := IsYes(1), ElsePart();
    DeliveredFirst(BoolStmt(2), alt, names, 1, 1);
    DeliveredFirst(IfStmt(cond), [BoolStmt(2)] + alt, names, 0, 1);
    var rest := [IfStmt(cond)] + ([BoolStmt(2)] + alt);
    DeliveredFirst(BoolStmt(1), rest, names, 0, 0);
    DeliveredFirst(MENU, [BoolStmt(1)] + rest, names, 0, 0);
  }

  /** So the declaring theorem speaks about scripts with menus and conditions. */
  lemma MenuScriptIsParsed(arch: string, names: seq<string>)
    requires |names| > 3
    ensures Delivered(MenuScript(), names, 0)
    ensures var flat := FixConditionals(MenuScript(), arch, names);
            AllParsed(seq(|flat|, i requires 0 <= i < |flat| => WriteConfig.Source(flat[i], [], [])), names)
  {
    MenuScriptIsDelivered(names);
    FlattenedIsParsed(MenuScript(), arch, names);
  }

  // ----- from dependencies to the generated program -----

  /** A script whose dependencies are still lists of names. */
  datatype Program =
    | Stop
    | Line(stmt: Stmt, depends: seq<string>, rest: Program)
    | Choose(cond: seq<Token>, thn: Program, alt: Otherwise, rest: Program)

  datatype Otherwise = Nothing | Otherwise(body: Program)

  /** The dependencies are names in the table, without quotes. */
  ghost predicate Legible(p: Program, names: seq<string>) {
    match p
    case Stop => true
    case Line(s, deps, rest) =>
      (s.kind in {DepBool, DepMbool, DepTristate} ==> AllKnown(names, deps)) && Legible(rest, names)
    case Choose(_, thn, alt, rest) =>
      Legible(thn, names) && (alt.Otherwise? ==> Legible(alt.body, names)) && Legible(rest, names)
  }

  /** The script with the guards that the parser builds from the dependencies. */
  ghost function Compile(p: Program, names: seq<string>): Block
    requires Interned(names) && Legible(p, names)
  {
    match p
    case Stop => End
    case Line(s, deps, rest) =>
      GuardOf(s, deps, names);
      Do(if IsDep(s.kind) then s.(cond := Glue(Chains(s.kind, Kept(s.kind, deps), names))) else s, Compile(rest, names))
    case Choose(cond, thn, alt, rest) =>
      Branch(cond, Compile(thn, names), if alt.Otherwise? then ElseBlock(Compile(alt.body, names)) else NoElse,
             Compile(rest, names))
  }

  lemma GuardOf(s: Stmt, deps: seq<string>, names: seq<string>)
    requires Interned(names) && (IsDep(s.kind) ==> AllKnown(names, deps))
    ensures IsDep(s.kind) ==> AllKnown(names, Kept(s.kind, deps))
  {
    if IsDep(s.kind) { KeptKnown(s.kind, deps, names); }
  }

  /** What the script says: run the branches that the shell takes, and take every statement whose dependencies have
      values that its kind allows. */
  ghost function Executed(p: Program, names: seq<string>, shell: Equality, own: Equality): seq<Stmt>
    requires Interned(names) && Legible(p, names) && Choosable(p)
  {
    match p
    case Stop => []
    case Line(s, deps, rest) =>
      (if s.kind in {DepBool, DepMbool, DepTristate} ==> Satisfied(s.kind, deps, names, own) then [Bare(s)] else [])
      + Executed(rest, names, shell, own)
    case Choose(cond, thn, alt, rest) =>
      (if TestValue(cond, shell, true) then Executed(thn, names, shell, own)
       else match alt case Nothing => [] case Otherwise(body) => Executed(body, names, shell, own))
      + Executed(rest, names, shell, own)
  }

  ghost predicate Choosable(p: Program) {
    match p
    case Stop => true
    case Line(_, _, rest) => Choosable(rest)
    case Choose(cond, thn, alt, rest) =>
      Tokenized(cond) && Choosable(thn) && (alt.Otherwise? ==> Choosable(alt.body)) && Choosable(rest)
  }

  lemma {:induction false} CompiledReaches(p: Program, names: seq<string>, w: World, shell: Equality, own: Equality)
    requires Interned(names) && Legible(p, names) && Choosable(p) && Flattenable(Compile(p, names), w)
    ensures Reached(Compile(p, names), w, shell, own) == Executed(p, names, shell, own)
    decreases p
  {
    hide GuardValue, TestValue, Satisfied, Chains, Kept, Glue, Interned, AllKnown, DropsDisjunct, Tokenized, Eliminate;
    match p
    case Stop =>
    case Line(s, deps, rest) =>
      CompiledReaches(rest, names, w, shell, own);
      if IsDep(s.kind) { GuardMeansDependencies(s.kind, deps, names, own); } else { Unconditional(s, own); }
    case Choose(cond, thn, alt, rest) =>
      CompiledReaches(thn, names, w, shell, own);
      CompiledReaches(rest, names, w, shell, own);
      if alt.Otherwise? { CompiledReaches(alt.body, names, w, shell, own); }
  }

  /** The compiler as a whole: when the generated program reads the surviving comparisons as the shell does, the
      statements in effect there are exactly those that the script reaches with their dependencies satisfied, in its
      order. */
  lemma CompilerPreservesMeaning(p: Program, arch: string, names: seq<string>, shell: Equality, tcl: Equality)
    requires Interned(names) && Legible(p, names) && Choosable(p)
    requires var b := Compile(p, names);
             var w := World(arch, names, Defined(Linearize(b)));
             && Flattenable(b, w) && Alike(b, w, shell, tcl) && Flattening.Height(b) <= 32 && Fits(shell, w)
    ensures Nested(Linearize(Compile(p, names)), 0)
    ensures var b := Compile(p, names);
            var w := World(arch, names, Defined(Linearize(b)));
            var flat := FixConditionals(Linearize(b), arch, names);
            Readable(flat, tcl) && InEffect(flat, tcl) == Executed(p, names, shell, Literally(shell, w))
  {
    var b := Compile(p, names);
    var w := World(arch, names, Defined(Linearize(b)));
    FlatteningPreservesMeaning(b, arch, names, shell, tcl);
    CompiledReaches(p, names, w, shell, Literally(shell, w));
  }

  /** And so it is for the program as it is printed, whatever the values, as long as none of them clash and the
      architecture is not asked for at run time. */
  lemma PrintedProgramRunsScript(p: Program, arch: string, names: seq<string>, env: int -> string, number: Numbers)
    requires Interned(names) && Legible(p, names) && Choosable(p)
    requires var b := Compile(p, names);
             var w := World(arch, names, Defined(Linearize(b)));
             && Flattenable(b, w) && Flattening.Height(b) <= 32
             && Counts(number) && Fits(ShellEquality(env), w) && ClearScript(b, w, env, number)
    ensures Nested(Linearize(Compile(p, names)), 0)
    ensures var b := Compile(p, names);
            var w := World(arch, names, Defined(Linearize(b)));
            var flat := FixConditionals(Linearize(b), arch, names);
            InEffect(flat, ProgramEquality(w, env, number))
            == Executed(p, names, ShellEquality(env), Literally(ShellEquality(env), w))
  {
    var b := Compile(p, names);
    var w := World(arch, names, Defined(Linearize(b)));
    ClearIsAlike(b, w, env, number);
    CompilerPreservesMeaning(p, arch, names, ShellEquality(env), ProgramEquality(w, env, number));
  }

  /** A letter in a dependency means that letter: y and nothing always let the statement in, n never does, and m does
      unless it is a dep_bool. */
  lemma LettersMeanThemselves(kind: Kind, w: World, shell: Equality, i: nat)
    requires i < |w.names| && forall s, t :: shell(Text(s), Text(t)) == (s == t)
    ensures w.names[i] in {"CONSTANT_Y", "CONSTANT_E"} ==> Allows(kind, i, Literally(shell, w))
    ensures w.names[i] == "CONSTANT_N" ==> !Allows(kind, i, Literally(shell, w))
    ensures w.names[i] == "CONSTANT_M" ==> (Allows(kind, i, Literally(shell, w)) <==> kind != DepBool)
  {
    forall v: string ensures Literally(shell, w)(Ref(i), Text(v)) == shell(w.Literal(Ref(i)), Text(v)) {
      assert w.Literal(Text(v)) == Text(v);
    }
  }
}
