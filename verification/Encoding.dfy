/** The generated program's own comparisons: the letters y, n and m and the empty text are printed as numbers, numbers
    compare as numbers, and the architecture is never set (scripts/tkgen.c, scripts/header.tk). */
module Encoding {
  import opened Conditions
  import opened CondPasses
  import opened Flattening
  import opened Inversion
  import opened Meaning
  import opened Statements
  import opened Wrappers

  /** Which texts Tcl takes for numbers. */
  type Numbers = string -> Option<real>

  /** What stands for a value in the generated program. */
  function Code(v: string): string {
    if v == "n" then "0" else if v == "y" then "1" else if v == "m" then "2" else if v == "" then "4" else v
  }

  ghost predicate Counts(number: Numbers) {
    number("0") == Some(0.0) && number("1") == Some(1.0) && number("2") == Some(2.0) && number("4") == Some(4.0)
  }

  /** Tcl's `==`: as numbers if both texts are numbers, and else as texts. */
  function TclSame(u: string, v: string, number: Numbers): bool {
    if number(u).Some? && number(v).Some? then number(u) == number(v) else u == v
  }

  // ----- when two values are confused -----

  const LETTERS := {"y", "n", "m", ""}

  /** The number for which the program takes a value. */
  function TakenFor(v: string, number: Numbers): Option<real> {
    if v == "n" then Some(0.0) else if v == "y" then Some(1.0) else if v == "m" then Some(2.0)
    else if v == "" then Some(4.0) else number(v)
  }

  /** Different values that the program takes for the same number. */
  predicate Clash(u: string, v: string, number: Numbers) {
    u != v && TakenFor(u, number).Some? && TakenFor(u, number) == TakenFor(v, number)
  }

  lemma CodeIsTaken(v: string, number: Numbers)
    requires Counts(number)
    ensures number(Code(v)) == TakenFor(v, number)
    ensures v in LETTERS ==> TakenFor(v, number).Some?
    ensures v !in LETTERS ==> Code(v) == v
  {
  }

  /** The program compares two values as the shell does, as texts, if and only if they do not clash. */
  lemma ComparesRightIff(u: string, v: string, number: Numbers)
    requires Counts(number)
    ensures TclSame(Code(u), Code(v), number) == (u == v) <==> !Clash(u, v, number)
  {
    CodeIsTaken(u, number);
    CodeIsTaken(v, number);
    hide Code, TakenFor;
  }

  /** A letter or the empty text clashes with no other of them, and with another text exactly if that is its number. */
  lemma LetterClashesIff(u: string, v: string, number: Numbers)
    requires u in LETTERS
    ensures Clash(u, v, number) <==> v !in LETTERS && number(v) == TakenFor(u, number)
  {
  }

  // ----- the program's values -----

  /** What an operand stands for in the program: the names of letters are set to them, the architecture to nothing. */
  function Seen(a: Operand, w: World, env: int -> string): string {
    if a.Ref? && w.IsArch(a.index) then "" else ShellValue(w.Literal(a), env)
  }

  function ProgramEquality(w: World, env: int -> string, number: Numbers): Equality {
    (a: Operand, b: Operand) => TclSame(Code(Seen(a, w, env)), Code(Seen(b, w, env)), number)
  }

  /** The variable is not an architecture that the program does not know. */
  predicate Knows(t: Token, w: World) {
    t.op.Variable? && w.IsArch(t.nameindex) ==> w.arch == ""
  }

  predicate NoLetter(t: Token, w: World) {
    t.op.Variable? ==> w.Literal(Ref(t.nameindex)) == Ref(t.nameindex)
  }

  /** Nothing that is left of a condition compares the architecture or the name of a letter, and no values clash. */
  ghost predicate ClearCondition(ts: seq<Token>, w: World, env: int -> string, number: Numbers) {
    forall i :: ComparesAt(ts, i) ==>
      && Knows(ts[i], w) && Knows(ts[i + 2], w) && NoLetter(ts[i], w) && NoLetter(ts[i + 2], w)
      && !Clash(ShellValue(OperandOf(ts[i]), env), ShellValue(OperandOf(ts[i + 2]), env), number)
  }

  /** No dependency is on the architecture, and no values clash. */
  ghost predicate ClearDependency(ts: seq<Token>, w: World, env: int -> string, number: Numbers) {
    forall i :: ComparesAt(ts, i) ==>
      && Knows(ts[i], w) && Knows(ts[i + 2], w)
      && !Clash(ShellValue(w.Literal(OperandOf(ts[i])), env), ShellValue(w.Literal(OperandOf(ts[i + 2])), env), number)
  }

  ghost predicate ClearScript(b: Block, w: World, env: int -> string, number: Numbers) {
    match b
    case End => true
    case Do(s, rest) => ClearDependency(s.cond, w, env, number) && ClearScript(rest, w, env, number)
    case Branch(cond, thn, alt, rest) =>
      && Tokenized(cond) && ClearCondition(Eliminate(cond, w), w, env, number)
      && ClearScript(thn, w, env, number) && ClearScript(rest, w, env, number)
      && (alt.ElseBlock? ==> ClearScript(alt.body, w, env, number))
  }

  lemma SeenIsLiteral(t: Token, w: World, env: int -> string)
    requires IsOperand(t) && Knows(t, w) && Fits(ShellEquality(env), w)
    ensures Seen(OperandOf(t), w, env) == ShellValue(w.Literal(OperandOf(t)), env)
  {
    if t.op.Variable? && w.IsArch(t.nameindex) {
      var eq, i := ShellEquality(env), t.nameindex;
      assert eq(Ref(i), Text("")) == (env(i) == "");
    }
  }

  lemma ClearConditionReadsSame(ts: seq<Token>, w: World, env: int -> string, number: Numbers)
    requires Counts(number) && Fits(ShellEquality(env), w) && ClearCondition(ts, w, env, number)
    ensures SameOn(ts, ProgramEquality(w, env, number), ShellEquality(env))
  {
    hide Fits, Clash, TclSame, Code;
    forall i | ComparesAt(ts, i)
      ensures var a, b := OperandOf(ts[i]), OperandOf(ts[i + 2]);
              ProgramEquality(w, env, number)(a, b) == ShellEquality(env)(a, b)
    {
      SeenIsLiteral(ts[i], w, env);
      SeenIsLiteral(ts[i + 2], w, env);
      ComparesRightIff(ShellValue(OperandOf(ts[i]), env), ShellValue(OperandOf(ts[i + 2]), env), number);
    }
  }

  lemma ClearDependencyReadsSame(ts: seq<Token>, w: World, env: int -> string, number: Numbers)
    requires Counts(number) && Fits(ShellEquality(env), w) && ClearDependency(ts, w, env, number)
    ensures SameOn(ts, ProgramEquality(w, env, number), Literally(ShellEquality(env), w))
  {
    hide Fits, Clash, TclSame, Code;
    forall i | ComparesAt(ts, i)
      ensures var a, b := OperandOf(ts[i]), OperandOf(ts[i + 2]);
              ProgramEquality(w, env, number)(a, b) == Literally(ShellEquality(env), w)(a, b)
    {
      SeenIsLiteral(ts[i], w, env);
      SeenIsLiteral(ts[i + 2], w, env);
      ComparesRightIff(Seen(OperandOf(ts[i]), w, env), Seen(OperandOf(ts[i + 2]), w, env), number);
    }
  }

  lemma {:induction false} ClearIsAlike(b: Block, w: World, env: int -> string, number: Numbers)
    requires Counts(number) && Fits(ShellEquality(env), w) && ClearScript(b, w, env, number)
    ensures Alike(b, w, ShellEquality(env), ProgramEquality(w, env, number))
    decreases b
  {
    hide Counts, Fits, SameOn, ClearCondition, ClearDependency, Eliminate, Chain;
    match b
    case End =>
    case Do(s, rest) =>
      ClearIsAlike(rest, w, env, number);
      ClearDependencyReadsSame(s.cond, w, env, number);
    case Branch(cond, thn, alt, rest) =>
      ClearConditionReadsSame(Eliminate(cond, w), w, env, number);
      ClearIsAlike(thn, w, env, number);
      ClearIsAlike(rest, w, env, number);
      if alt.ElseBlock? { ClearIsAlike(alt.body, w, env, number); }
  }

  /** The generated program as it is printed: when no values clash and the architecture is not asked for at run time,
      the statements in effect are those that the shell reaches with these values. */
  lemma PrintedProgramPreservesMeaning(b: Block, arch: string, names: seq<string>, env: int -> string, number: Numbers)
    requires var w := World(arch, names, Defined(Linearize(b)));
             && Counts(number) && Fits(ShellEquality(env), w) && ClearScript(b, w, env, number)
             && Flattenable(b, w) && Height(b) <= 32
    ensures Nested(Linearize(b), 0)
    ensures var flat := FixConditionals(Linearize(b), arch, names);
            var w := World(arch, names, Defined(Linearize(b)));
            var shell, tcl := ShellEquality(env), ProgramEquality(w, env, number);
            Readable(flat, tcl) && InEffect(flat, tcl) == Reached(b, w, shell, Literally(shell, w))
  {
    var w := World(arch, names, Defined(Linearize(b)));
    ClearIsAlike(b, w, env, number);
    FlatteningPreservesMeaning(b, arch, names, ShellEquality(env), ProgramEquality(w, env, number));
  }

  // ----- two scripts on which it does not -----

  /** `$i = "s"` */
  function Equals(i: int, s: string): seq<Token> {
    [Token(Variable, "", i), Token(Eq, "", 0), Token(Constant, s, 0)]
  }

  function BoolStmt(i: int): Stmt {
    Stmt(Bool, i, "", "", [])
  }

  /** The definition of variable 3 in a condition, behind that of variable 1. */
  function Guarded(cond: seq<Token>): Block {
    Do(BoolStmt(1), Branch(cond, Do(BoolStmt(3), End), NoElse, End))
  }

  lemma GuardedDefines(cond: seq<Token>)
    ensures Defined(Linearize(Guarded(cond))) == {1, 3} && Height(Guarded(cond)) == 1
  {
    var inner := Do(BoolStmt(3), End);
    assert Linearize(inner) == [BoolStmt(3)];
    assert Linearize(Branch(cond, inner, NoElse, End)) == [IfStmt(cond), BoolStmt(3), FI_STMT];
    var ss := Linearize(Guarded(cond));
    assert ss == [BoolStmt(1), IfStmt(cond), BoolStmt(3), FI_STMT];
    assert ss[0].nameindex == 1 && ss[2].nameindex == 3;
    assert Height(inner) == 0 && Height(Branch(cond, inner, NoElse, End)) == 1;
  }

  /** A condition that partial evaluation leaves alone. */
  predicate Survives(cond: seq<Token>, w: World) {
    Tokenized(cond) && !DropsDisjunct(cond, w) && Eliminate(cond, w) == cond
  }

  lemma GuardedReaches(cond: seq<Token>, w: World, eq: Equality, own: Equality)
    requires Survives(cond, w) && w.defined == {1, 3}
    ensures Flattenable(Guarded(cond), w)
    ensures Reached(Guarded(cond), w, eq, own)
            == if TestValue(cond, eq, true) then [BoolStmt(1), BoolStmt(3)] else [BoolStmt(1)]
    ensures Agreed(Guarded(cond), w, Readings(eq, own, eq))
  {
    hide Eliminate, TestValue, DropsDisjunct;
    var inner := Do(BoolStmt(3), End);
    var rest := Branch(cond, inner, NoElse, End);
    var r := Readings(eq, own, eq);
    SurvivorAgrees(cond, w, eq);
    assert Flattenable(End, w) && Agreed(End, w, r);
    assert Flattenable(inner, w) && Flattenable(rest, w);
    assert Agreed(inner, w, r) && Agreed(rest, w, r);
    assert Reached(inner, w, eq, own) == [BoolStmt(3)] + [];
    assert Reached(rest, w, eq, own) == (if TestValue(cond, eq, true) then [BoolStmt(3)] else []) + [];
  }

  lemma SurvivorAgrees(cond: seq<Token>, w: World, eq: Equality)
    requires Survives(cond, w)
    ensures AgreedOn(cond, w, eq, eq)
  {
    EliminateShape(cond, w);
    assert |cond| >= 3;
  }

  /** What the generated program makes of such a script. */
  lemma GuardedInEffect(cond: seq<Token>, arch: string, names: seq<string>, tcl: Equality)
    requires Survives(cond, World(arch, names, {1, 3}))
    ensures Defined(Linearize(Guarded(cond))) == {1, 3} && Nested(Linearize(Guarded(cond)), 0)
    ensures InEffect(FixConditionals(Linearize(Guarded(cond)), arch, names), tcl)
            == if TestValue(cond, tcl, true) then [BoolStmt(1), BoolStmt(3)] else [BoolStmt(1)]
  {
    GuardedDefines(cond);
    GuardedReaches(cond, World(arch, names, {1, 3}), tcl, tcl);
    FlatteningKeepsReadings(Guarded(cond), arch, names, Readings(tcl, tcl, tcl));
  }

  const SCRIPT_NAMES := ["", "X", "ARCH", "Y"]

  /** `$X = "y" -a $ARCH = "arch"` */
  function ArchCondition(arch: string): seq<Token> {
    IsYes(1) + [GLUE] + Equals(2, arch)
  }

  lemma ArchConditionSurvives(arch: string, w: World, eq: Equality)
    requires w.names == SCRIPT_NAMES && w.defined == {1, 3}
    ensures Survives(ArchCondition(arch), w)
    ensures TestValue(ArchCondition(arch), eq, true) == (eq(Ref(1), Text("y")) && eq(Ref(2), Text(arch)))
  {
    var last := Equals(2, arch);
    assert Unbanged(last) == last && Chain(last);
    YesThen(1, And, last, eq, true);
  }

  lemma ArchIsNotSeen(w: World, env: int -> string, number: Numbers)
    requires Counts(number) && Fits(ShellEquality(env), w) && w.names == SCRIPT_NAMES
    requires w.arch != "" && env(1) == "y" && !Clash(w.arch, "", number)
    ensures ShellEquality(env)(Ref(1), Text("y")) && ShellEquality(env)(Ref(2), Text(w.arch))
    ensures !ProgramEquality(w, env, number)(Ref(2), Text(w.arch))
  {
    assert w.IsArch(2);
    assert ShellValue(Ref(1), env) == ShellValue(Text("y"), env);
    assert Seen(Ref(2), w, env) == "" && Seen(Text(w.arch), w, env) == w.arch;
    ComparesRightIff("", w.arch, number);
    hide TclSame, Code;
  }

  /** The smallest script whose meaning is lost to the missing architecture: it survives behind another comparison, and
      the statement that the shell reaches is never in effect. */
  lemma SurvivingArchIsLost(arch: string, env: int -> string, number: Numbers)
    requires var w := World(arch, SCRIPT_NAMES, {1, 3}); Counts(number) && Fits(ShellEquality(env), w)
    requires arch != "" && env(1) == "y" && !Clash(arch, "", number)
    ensures var b, w := Guarded(ArchCondition(arch)), World(arch, SCRIPT_NAMES, {1, 3});
            var shell, tcl := ShellEquality(env), ProgramEquality(w, env, number);
            && Defined(Linearize(b)) == w.defined && Flattenable(b, w) && Nested(Linearize(b), 0)
            && Reached(b, w, shell, Literally(shell, w)) == [BoolStmt(1), BoolStmt(3)]
            && InEffect(FixConditionals(Linearize(b), arch, SCRIPT_NAMES), tcl) == [BoolStmt(1)]
  {
    var w, cond := World(arch, SCRIPT_NAMES, {1, 3}), ArchCondition(arch);
    var shell, tcl := ShellEquality(env), ProgramEquality(w, env, number);
    ArchIsNotSeen(w, env, number);
    ArchConditionSurvives(arch, w, shell);
    ArchConditionSurvives(arch, w, tcl);
    GuardedReaches(cond, w, shell, Literally(shell, w));
    GuardedInEffect(cond, arch, SCRIPT_NAMES, tcl);
  }

  lemma EqualsSurvives(v: string, w: World, eq: Equality)
    requires w.defined == {1, 3} && !w.IsArch(1)
    ensures Survives(Equals(1, v), w) && TestValue(Equals(1, v), eq, true) == eq(Ref(1), Text(v))
  {
    assert Unbanged(Equals(1, v)) == Equals(1, v);
  }

  lemma DigitIsNoLetter(letter: string, digit: string)
    requires (letter, digit) in {("y", "1"), ("n", "0"), ("m", "2"), ("", "4")}
    ensures letter != digit && Code(letter) == digit && Code(digit) == digit
  {
    assert "1"[0] != "y"[0] && "0"[0] != "n"[0] && "2"[0] != "m"[0];
    assert digit != "" && digit[0] in {'0', '1', '2', '4'};
  }

  lemma DigitIsTaken(letter: string, digit: string, w: World, env: int -> string, number: Numbers)
    requires (letter, digit) in {("y", "1"), ("n", "0"), ("m", "2"), ("", "4")}
    requires Counts(number) && w.names == SCRIPT_NAMES && env(1) == digit
    ensures !ShellEquality(env)(Ref(1), Text(letter)) && ProgramEquality(w, env, number)(Ref(1), Text(letter))
  {
    DigitIsNoLetter(letter, digit);
    assert ShellValue(Ref(1), env) == digit && ShellValue(Text(letter), env) == letter;
    assert Seen(Ref(1), w, env) == digit && Seen(Text(letter), w, env) == letter;
    hide Code;
  }

  /** The smallest scripts whose meaning is lost to the encoding: a variable with the number of a letter, or that of no
      text, for its value is taken for the letter, and the statement that the shell does not reach is in effect. */
  lemma NumberIsTakenForLetter(letter: string, digit: string, arch: string, env: int -> string, number: Numbers)
    requires var w := World(arch, SCRIPT_NAMES, {1, 3}); Counts(number) && Fits(ShellEquality(env), w)
    requires (letter, digit) in {("y", "1"), ("n", "0"), ("m", "2"), ("", "4")} && env(1) == digit
    ensures var b, w := Guarded(Equals(1, letter)), World(arch, SCRIPT_NAMES, {1, 3});
            var shell, tcl := ShellEquality(env), ProgramEquality(w, env, number);
            && Defined(Linearize(b)) == w.defined && Flattenable(b, w) && Nested(Linearize(b), 0)
            && Reached(b, w, shell, Literally(shell, w)) == [BoolStmt(1)]
            && InEffect(FixConditionals(Linearize(b), arch, SCRIPT_NAMES), tcl) == [BoolStmt(1), BoolStmt(3)]
  {
    var w, cond := World(arch, SCRIPT_NAMES, {1, 3}), Equals(1, letter);
    var shell, tcl := ShellEquality(env), ProgramEquality(w, env, number);
    EqualsSurvives(letter, w, shell);
    EqualsSurvives(letter, w, tcl);
    DigitIsTaken(letter, digit, w, env, number);
    GuardedReaches(cond, w, shell, Literally(shell, w));
    GuardedInEffect(cond, arch, SCRIPT_NAMES, tcl);
  }
}
