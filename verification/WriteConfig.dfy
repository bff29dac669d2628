/** The procedure that saves a configuration (scripts/tkgen.c): what it declares and what it reads. */
module WriteConfig {
  import opened Conditions
  import opened Sequences
  import opened Statements
  import opened Symbols
  import opened TclText

  /** A Tcl variable: a configuration variable, or the number of a choice. */
  datatype Item = Name(name: string) | Choice(number: int)

  /** The parts of the generated procedure that matter for its variables. */
  datatype Event = Global(item: Item) | Use(item: Item) | Open | Close

  /** A statement, its dependencies, and the labels of the choice items that follow it. */
  datatype Source = Source(stmt: Stmt, depends: seq<string>, labels: seq<string>)

  /** The statements that have a line in the procedure. */
  predicate Writes(k: Kind) {
    k in {Bool, ChoiceHeader, Comment, DefineBool, DefineHex, DefineInt, DefineString, DefineTristate,
          DepBool, DepTristate, DepMbool, Hex, Kind.Int, String, Tristate}
  }

  predicate CopiesValue(k: Kind) {
    k == DefineTristate || k == DefineBool
  }

  /** A statement as the parser delivers it: every variable is in the table. Statements without a variable of their own,
      such as those for menus and conditions, have index 0, and choices have numbers below it. */
  predicate ParsedStmt(s: Stmt, names: seq<string>) {
    && s.nameindex < |names|
    && (s.kind == ChoiceHeader ==> s.nameindex <= 0)
    && (Writes(s.kind) && s.kind != ChoiceHeader && s.kind != Comment ==> s.nameindex >= 1)
    && (CopiesValue(s.kind) ==> Known(names, s.value))
    && InTable(s.cond, names)
  }

  predicate InTable(ts: seq<Token>, names: seq<string>) {
    forall i :: 0 <= i < |ts| && ts[i].op.Variable? ==> 1 <= ts[i].nameindex < |names|
  }

  predicate Parsed(src: Source, names: seq<string>) {
    ParsedStmt(src.stmt, names) && forall i :: 0 <= i < |src.depends| ==> Known(names, src.depends[i])
  }

  predicate AllParsed(srcs: seq<Source>, names: seq<string>) {
    forall i :: 0 <= i < |srcs| ==> Parsed(srcs[i], names)
  }

  // ----- the events -----

  function CondItems(cond: seq<Token>, names: seq<string>): seq<Item> {
    if |cond| == 0 then []
    else
      (if cond[0].op.Variable? && 1 <= cond[0].nameindex < |names| then [Name(names[cond[0].nameindex])] else [])
      + CondItems(cond[1..], names)
  }

  function Own(s: Stmt, names: seq<string>): Item {
    Name(if 1 <= s.nameindex < |names| then names[s.nameindex] else "")
  }

  function DependItems(depends: seq<string>): (r: seq<Item>)
    ensures |r| == |depends|
  {
    seq(|depends|, i requires 0 <= i < |depends| => Name(depends[i]))
  }

  /** What a statement wants declared for itself. */
  function OwnItems(s: Stmt, names: seq<string>): seq<Item> {
    if s.kind == Comment then []
    else
      (if s.nameindex > 0 then [Own(s, names)] else [])
      + (if CopiesValue(s.kind) then [Name(s.value)]
         else if s.nameindex <= 0 && s.kind == ChoiceHeader then [Choice(-s.nameindex)]
         else [])
  }

  /** What a statement wants declared, in order. */
  function Needs(src: Source, names: seq<string>): seq<Item> {
    OwnItems(src.stmt, names) + CondItems(src.stmt.cond, names) + DependItems(src.depends)
  }

  function UseAll(items: seq<Item>): (r: seq<Event>)
    ensures |r| == |items|
  {
    seq(|items|, i requires 0 <= i < |items| => Use(items[i]))
  }

  // ----- texts that are printed as they are -----

  /** The variables that the procedure sets itself. */
  const OWN_VARIABLES := {"file1", "file2", "cfg", "autocfg", "notmod", "notset"}

  const CHOICE_PREFIX := "tmpvar_"

  /** What a name in a text stands for. */
  function ItemOf(name: string): Item {
    if CHOICE_PREFIX <= name && IsNumber(name[|CHOICE_PREFIX|..]) then Choice(TclText.Number(name[|CHOICE_PREFIX|..]))
    else Name(name)
  }

  function ItemsOf(names: seq<string>): seq<Item> {
    if |names| == 0 then []
    else (if names[0] in OWN_VARIABLES then [] else [ItemOf(names[0])]) + ItemsOf(names[1..])
  }

  /** The printed name of a choice is what stands for it. */
  lemma ChoiceIsRead(number: nat, name: string)
    ensures ItemOf(name) == Choice(number) <==> name == "tmpvar_" + Digits(number)
  {
    DigitsIsNumber(number);
    if name == CHOICE_PREFIX + Digits(number) {
      assert name[|CHOICE_PREFIX|..] == Digits(number);
    }
    if CHOICE_PREFIX <= name && IsNumber(name[|CHOICE_PREFIX|..]) {
      NumberIsDigits(name[|CHOICE_PREFIX|..]);
      assert name == CHOICE_PREFIX + name[|CHOICE_PREFIX|..];
    }
  }

  /** A constant in a condition is printed as a number if it is a letter or empty, and else between quotes. */
  function ConstantItems(t: Token): seq<Item> {
    if t.op.Constant? && t.str !in {"n", "y", "m", ""} then ItemsOf(Reads(t.str)) else []
  }

  function LabelItems(labels: seq<string>): seq<Item> {
    if |labels| == 0 then [] else ItemsOf(Reads(labels[0])) + LabelItems(labels[1..])
  }

  /** What the constants of a condition read. */
  function CondTexts(cond: seq<Token>): seq<Item> {
    if |cond| == 0 then [] else ConstantItems(cond[0]) + CondTexts(cond[1..])
  }

  /** What the texts behind the condition read. */
  function BodyTexts(src: Source): seq<Item> {
    var s := src.stmt;
    match s.kind
    case DefineHex | DefineInt => ItemsOf(BareReads(s.value))
    case DefineString => ItemsOf(Reads(s.value))
    case Comment => ItemsOf(Reads(s.prompt))
    case ChoiceHeader => LabelItems(src.labels)
    case _ => []
  }

  /** What the texts of a line read, without any declaration for it. */
  function TextItems(src: Source): seq<Item> {
    CondTexts(src.stmt.cond) + BodyTexts(src)
  }

  // ----- the line -----

  function CondReads(cond: seq<Token>, names: seq<string>): seq<Item> {
    if |cond| == 0 then []
    else
      (if cond[0].op.Variable? && 1 <= cond[0].nameindex < |names| then [Name(names[cond[0].nameindex])]
       else ConstantItems(cond[0]))
      + CondReads(cond[1..], names)
  }

  /** One test for each item of a choice. */
  function ChoiceReads(number: int, labels: seq<string>): seq<Item> {
    if |labels| == 0 then [] else [Choice(number)] + ItemsOf(Reads(labels[0])) + ChoiceReads(number, labels[1..])
  }

  /** The variables that the line reads behind its condition. */
  function BodyReads(src: Source, names: seq<string>): seq<Item> {
    var s := src.stmt;
    match s.kind
    case Bool | Tristate | Hex | Int | String => [Own(s, names)]
    case ChoiceHeader => ChoiceReads(-s.nameindex, src.labels)
    case DefineBool | DefineTristate => if s.cond == [] then [Own(s, names)] else [Name(s.value)]
    case DepBool | DepMbool | DepTristate => [Own(s, names)] + DependItems(src.depends)
    case DefineHex | DefineInt => ItemsOf(BareReads(s.value))
    case DefineString => ItemsOf(Reads(s.value))
    case Comment => ItemsOf(Reads(s.prompt))
    case _ => []
  }

  function LineOf(src: Source, names: seq<string>): seq<Event> {
    if src.stmt.cond == [] then UseAll(BodyReads(src, names))
    else UseAll(CondReads(src.stmt.cond, names)) + [Open] + UseAll(BodyReads(src, names)) + [Close]
  }

  /** The declarations that are still missing; a choice is declared whenever it comes up. */
  function Declare(items: seq<Item>, written: set<string>): seq<Event> {
    if |items| == 0 then []
    else if items[0].Choice? then [Global(items[0])] + Declare(items[1..], written)
    else if items[0].name in written then Declare(items[1..], written)
    else [Global(items[0])] + Declare(items[1..], written + {items[0].name})
  }

  function NamesOf(items: seq<Item>): set<string> {
    set i | 0 <= i < |items| && items[i].Name? :: items[i].name
  }

  function Emit(src: Source, names: seq<string>, written: set<string>): seq<Event> {
    Declare(Needs(src, names), written) + LineOf(src, names)
  }

  function EmitAll(srcs: seq<Source>, names: seq<string>, written: set<string>): seq<Event> {
    if |srcs| == 0 then []
    else if !Writes(srcs[0].stmt.kind) then EmitAll(srcs[1..], names, written)
    else Emit(srcs[0], names, written) + EmitAll(srcs[1..], names, written + NamesOf(Needs(srcs[0], names)))
  }

  // ----- where declarations stand -----

  /** What is declared and how many conditions are open; wrong once a `global` line stands inside a condition, where it
      may not be run, or declares a configuration variable again. */
  datatype Scope = Wrong | Scope(declared: set<Item>, depth: nat)

  function Take(scope: Scope, e: Event): Scope {
    match scope
    case Wrong => Wrong
    case Scope(declared, depth) =>
      match e
      case Global(item) =>
        if depth > 0 || (item.Name? && item in declared) then Wrong else Scope(declared + {item}, depth)
      case Use(_) => scope
      case Open => Scope(declared, depth + 1)
      case Close => if depth == 0 then Wrong else Scope(declared, depth - 1)
  }

  function TakeAll(scope: Scope, es: seq<Event>): Scope
    decreases |es|
  {
    if |es| == 0 then scope else TakeAll(Take(scope, es[0]), es[1..])
  }

  lemma {:induction false} TakeAppend(scope: Scope, a: seq<Event>, b: seq<Event>)
    ensures TakeAll(scope, a + b) == TakeAll(TakeAll(scope, a), b)
    decreases |a|
  {
    if |a| == 0 {
      assert a + b == b;
    } else {
      assert (a + b)[1..] == a[1..] + b;
      TakeAppend(Take(scope, a[0]), a[1..], b);
    }
  }

  /** The names are those that are declared. */
  ghost predicate Matches(written: set<string>, declared: set<Item>) {
    forall n :: n in written <==> Name(n) in declared
  }

  function SetOf(items: seq<Item>): set<Item> {
    set i | i in items
  }

  lemma {:induction false} DeclareTakes(items: seq<Item>, written: set<string>, declared: set<Item>)
    requires Matches(written, declared)
    ensures TakeAll(Scope(declared, 0), Declare(items, written)) == Scope(declared + SetOf(items), 0)
    ensures Matches(written + NamesOf(items), declared + SetOf(items))
    decreases |items|
  {
    if |items| == 0 {
      assert declared + SetOf(items) == declared;
    } else {
      var x, rest := items[0], items[1..];
      assert items == [x] + rest;
      assert SetOf(items) == {x} + SetOf(rest);
      NamesOfFirst(x, rest);
      var now := if x.Choice? then written else written + {x.name};
      DeclareTakes(rest, now, declared + {x});
      assert declared + {x} + SetOf(rest) == declared + SetOf(items);
      assert now + NamesOf(rest) == written + NamesOf(items);
      var es := Declare(rest, now);
      if x.Choice? || x.name !in written {
        assert Declare(items, written) == [Global(x)] + es && ([Global(x)] + es)[1..] == es;
      } else {
        assert now == written && declared + {x} == declared;
      }
    }
  }

  lemma NamesOfFirst(x: Item, rest: seq<Item>)
    ensures NamesOf([x] + rest) == (if x.Name? then {x.name} else {}) + NamesOf(rest)
  {
    var all := [x] + rest;
    assert all[0] == x;
    assert forall i :: 0 <= i < |rest| ==> all[i + 1] == rest[i];
  }

  lemma {:induction false} UsesTake(items: seq<Item>, declared: set<Item>, depth: nat)
    ensures TakeAll(Scope(declared, depth), UseAll(items)) == Scope(declared, depth)
    decreases |items|
  {
    if |items| > 0 {
      assert UseAll(items)[1..] == UseAll(items[1..]);
      UsesTake(items[1..], declared, depth);
    }
  }

  lemma TakeOne(scope: Scope, e: Event)
    ensures TakeAll(scope, [e]) == Take(scope, e)
  {
    assert [e][1..] == [];
  }

  lemma LineTakes(src: Source, names: seq<string>, declared: set<Item>)
    ensures TakeAll(Scope(declared, 0), LineOf(src, names)) == Scope(declared, 0)
  {
    hide TakeAll, UseAll, BodyReads, CondReads;
    var body := BodyReads(src, names);
    if src.stmt.cond == [] {
      UsesTake(body, declared, 0);
    } else {
      var cond, start := CondReads(src.stmt.cond, names), Scope(declared, 0);
      UsesTake(cond, declared, 0);
      UsesTake(body, declared, 1);
      TakeAppend(start, UseAll(cond), [Open]);
      TakeAppend(start, UseAll(cond) + [Open], UseAll(body));
      TakeAppend(start, UseAll(cond) + [Open] + UseAll(body), [Close]);
      TakeOne(start, Open);
      TakeOne(Scope(declared, 1), Close);
    }
  }

  lemma EmitTakes(src: Source, names: seq<string>, written: set<string>, declared: set<Item>)
    requires Matches(written, declared)
    ensures TakeAll(Scope(declared, 0), Emit(src, names, written)) == Scope(declared + SetOf(Needs(src, names)), 0)
    ensures Matches(written + NamesOf(Needs(src, names)), declared + SetOf(Needs(src, names)))
  {
    hide TakeAll, Needs, LineOf, Declare, Matches;
    DeclareTakes(Needs(src, names), written, declared);
    LineTakes(src, names, declared + SetOf(Needs(src, names)));
    TakeAppend(Scope(declared, 0), Declare(Needs(src, names), written), LineOf(src, names));
  }

  lemma {:induction false} EmitAllTakes(srcs: seq<Source>, names: seq<string>, written: set<string>,
                                            declared: set<Item>)
    requires Matches(written, declared)
    ensures var r := TakeAll(Scope(declared, 0), EmitAll(srcs, names, written)); r.Scope? && r.depth == 0
    decreases |srcs|
  {
    if |srcs| > 0 {
      hide Emit, Needs, Matches, NamesOf, Take;
      var src, rest := srcs[0], srcs[1..];
      if Writes(src.stmt.kind) {
        EmitTakes(src, names, written, declared);
        var items := Needs(src, names);
        EmitAllTakes(rest, names, written + NamesOf(items), declared + SetOf(items));
        TakeAppend(Scope(declared, 0), Emit(src, names, written), EmitAll(rest, names, written + NamesOf(items)));
      } else {
        EmitAllTakes(rest, names, written, declared);
      }
    }
  }

  /** How many conditions are open behind these events. */
  function Depth(es: seq<Event>): int {
    if |es| == 0 then 0
    else
      var e := es[|es| - 1];
      Depth(es[..|es| - 1]) + (if e.Open? then 1 else if e.Close? then -1 else 0)
  }

  predicate DeclaredBefore(es: seq<Event>, j: nat, item: Item) {
    exists i :: 0 <= i < j && i < |es| && es[i] == Global(item)
  }

  lemma {:induction false} TakenPrefix(es: seq<Event>, n: nat)
    requires n <= |es| && TakeAll(Scope({}, 0), es).Scope?
    ensures var r := TakeAll(Scope({}, 0), es[..n]);
            && r.Scope? && r.depth == Depth(es[..n])
            && forall x :: x in r.declared <==> DeclaredBefore(es, n, x)
    ensures n < |es| ==> Take(TakeAll(Scope({}, 0), es[..n]), es[n]).Scope?
    decreases n
  {
    var start := Scope({}, 0);
    assert es == es[..n] + es[n..];
    TakeAppend(start, es[..n], es[n..]);
    if TakeAll(start, es[..n]).Wrong? { WrongStays(es[n..]); }
    if n < |es| && Take(TakeAll(start, es[..n]), es[n]).Wrong? { WrongStays(es[n..][1..]); }
    if n > 0 {
      TakenPrefix(es, n - 1);
      assert es[..n] == es[..n - 1] + [es[n - 1]];
      TakeAppend(start, es[..n - 1], [es[n - 1]]);
      TakeOne(TakeAll(start, es[..n - 1]), es[n - 1]);
      assert es[..n][..n - 1] == es[..n - 1];
    }
  }

  lemma {:induction false} WrongStays(es: seq<Event>)
    ensures TakeAll(Wrong, es) == Wrong
    decreases |es|
  {
    if |es| > 0 { WrongStays(es[1..]); }
  }

  /** Every declaration stands outside of all conditions, and no configuration variable is declared twice. */
  lemma DeclaredOnceOutside(srcs: seq<Source>, names: seq<string>, j: nat)
    requires j < |EmitAll(srcs, names, {})|
    ensures var es := EmitAll(srcs, names, {});
            && (es[j].Global? ==> Depth(es[..j]) == 0)
            && (es[j].Global? && es[j].item.Name? ==> !DeclaredBefore(es, j, es[j].item))
  {
    EmitAllTakes(srcs, names, {}, {});
    TakenPrefix(EmitAll(srcs, names, {}), j);
  }

  // ----- what is declared before it is read -----

  /** Whatever is read is among these items or was declared further up. */
  predicate AllRead(es: seq<Event>, declared: set<Item>)
    decreases |es|
  {
    |es| > 0 ==>
      && (es[0].Use? ==> es[0].item in declared)
      && AllRead(es[1..], if es[0].Global? then declared + {es[0].item} else declared)
  }

  function Globals(es: seq<Event>): set<Item> {
    set i | 0 <= i < |es| && es[i].Global? :: es[i].item
  }

  lemma GlobalsAppend(a: seq<Event>, b: seq<Event>)
    ensures Globals(a + b) == Globals(a) + Globals(b)
  {
    assert forall i :: 0 <= i < |a| ==> (a + b)[i] == a[i];
    assert forall i :: 0 <= i < |b| ==> (a + b)[|a| + i] == b[i];
  }

  lemma GlobalsOfOne(e: Event)
    ensures Globals([e]) == if e.Global? then {e.item} else {}
  {
    assert [e][0] == e;
  }

  lemma {:induction false} AllReadAppend(a: seq<Event>, b: seq<Event>, declared: set<Item>)
    ensures AllRead(a + b, declared) <==> AllRead(a, declared) && AllRead(b, declared + Globals(a))
    decreases |a|
  {
    if |a| == 0 {
      assert a + b == b && declared + Globals(a) == declared;
    } else {
      assert (a + b)[1..] == a[1..] + b && a == [a[0]] + a[1..];
      GlobalsAppend([a[0]], a[1..]);
      GlobalsOfOne(a[0]);
      var now := if a[0].Global? then declared + {a[0].item} else declared;
      AllReadAppend(a[1..], b, now);
      assert declared + Globals(a) == now + Globals(a[1..]);
    }
  }

  /** What was declared further up or is free to be read. */
  lemma {:induction false} AllReadIff(es: seq<Event>, n: nat, declared: set<Item>, free: set<Item>)
    requires n <= |es| && forall x :: x in declared <==> x in free || DeclaredBefore(es, n, x)
    ensures AllRead(es[n..], declared)
       <==> forall j :: n <= j < |es| && es[j].Use? ==> es[j].item in free || DeclaredBefore(es, j, es[j].item)
    decreases |es| - n
  {
    if n < |es| {
      assert es[n..][1..] == es[n + 1..];
      var now := if es[n].Global? then declared + {es[n].item} else declared;
      forall x ensures x in now <==> x in free || DeclaredBefore(es, n + 1, x) {
        if i :| 0 <= i < n && i < |es| && es[i] == Global(x) { assert DeclaredBefore(es, n, x); }
      }
      AllReadIff(es, n + 1, now, free);
    }
  }

  /** The names are declared. */
  ghost predicate Covers(declared: set<Item>, written: set<string>) {
    forall n :: n in written ==> Name(n) in declared
  }

  lemma {:induction false} DeclareReads(items: seq<Item>, written: set<string>, declared: set<Item>)
    requires Covers(declared, written)
    ensures AllRead(Declare(items, written), declared)
    ensures declared + Globals(Declare(items, written)) == declared + SetOf(items)
    ensures Covers(declared + SetOf(items), written + NamesOf(items))
    decreases |items|
  {
    if |items| > 0 {
      var x, rest := items[0], items[1..];
      assert items == [x] + rest;
      assert SetOf(items) == {x} + SetOf(rest);
      NamesOfFirst(x, rest);
      var now := if x.Choice? then written else written + {x.name};
      DeclareReads(rest, now, declared + {x});
      assert now + NamesOf(rest) == written + NamesOf(items);
      assert declared + {x} + SetOf(rest) == declared + SetOf(items);
      var es := Declare(rest, now);
      if x.Choice? || x.name !in written {
        GlobalsAppend([Global(x)], es);
        GlobalsOfOne(Global(x));
        assert ([Global(x)] + es)[1..] == es;
      } else {
        assert now == written && declared + {x} == declared;
      }
    } else {
      assert declared + SetOf(items) == declared && written + NamesOf(items) == written;
    }
  }

  lemma {:induction false} UsesRead(items: seq<Item>, declared: set<Item>)
    ensures AllRead(UseAll(items), declared) <==> SetOf(items) <= declared
    decreases |items|
  {
    if |items| > 0 {
      assert UseAll(items)[1..] == UseAll(items[1..]);
      UsesRead(items[1..], declared);
      assert items == [items[0]] + items[1..];
      assert SetOf(items) == {items[0]} + SetOf(items[1..]);
    }
  }

  lemma UsesDeclareNothing(items: seq<Item>)
    ensures Globals(UseAll(items)) == {}
  {
  }

  lemma LineReads(src: Source, names: seq<string>, declared: set<Item>)
    ensures Globals(LineOf(src, names)) == {}
    ensures AllRead(LineOf(src, names), declared)
       <==> SetOf(BodyReads(src, names)) <= declared
            && (src.stmt.cond != [] ==> SetOf(CondReads(src.stmt.cond, names)) <= declared)
  {
    hide UseAll, BodyReads, CondReads, SetOf, AllRead, Globals;
    var body := BodyReads(src, names);
    UsesRead(body, declared);
    UsesDeclareNothing(body);
    if src.stmt.cond != [] {
      var cond := CondReads(src.stmt.cond, names);
      UsesRead(cond, declared);
      UsesDeclareNothing(cond);
      NothingRead(Open, declared);
      NothingRead(Close, declared);
      JoinReads(UseAll(cond), [Open], declared);
      JoinReads(UseAll(cond) + [Open], UseAll(body), declared);
      JoinReads(UseAll(cond) + [Open] + UseAll(body), [Close], declared);
    }
  }

  lemma JoinReads(a: seq<Event>, b: seq<Event>, declared: set<Item>)
    requires Globals(a) == {} && Globals(b) == {}
    ensures AllRead(a + b, declared) <==> AllRead(a, declared) && AllRead(b, declared)
    ensures Globals(a + b) == {}
  {
    AllReadAppend(a, b, declared);
    GlobalsAppend(a, b);
    assert declared + {} == declared;
  }

  lemma NothingRead(e: Event, declared: set<Item>)
    requires e.Open? || e.Close?
    ensures AllRead([e], declared) && Globals([e]) == {}
  {
    GlobalsOfOne(e);
    assert [e][1..] == [];
  }

  // ----- which reads are declared -----

  lemma {:induction false} CondReadsAre(cond: seq<Token>, names: seq<string>)
    ensures SetOf(CondReads(cond, names)) == SetOf(CondItems(cond, names)) + SetOf(CondTexts(cond))
    decreases |cond|
  {
    if |cond| > 0 {
      CondReadsAre(cond[1..], names);
      var t, rest := cond[0], cond[1..];
      var v := if t.op.Variable? && 1 <= t.nameindex < |names| then [Name(names[t.nameindex])] else [];
      hide ConstantItems;
      SetOfAppend(if v != [] then v else ConstantItems(t), CondReads(rest, names));
      SetOfAppend(v, CondItems(rest, names));
      SetOfAppend(ConstantItems(t), CondTexts(rest));
      assert t.op.Variable? ==> ConstantItems(t) == [] by { VariableIsNoConstant(t); }
    }
  }

  lemma VariableIsNoConstant(t: Token)
    ensures t.op.Variable? ==> ConstantItems(t) == []
  {
  }

  lemma SetOfAppend(a: seq<Item>, b: seq<Item>)
    ensures SetOf(a + b) == SetOf(a) + SetOf(b)
  {
  }

  lemma {:induction false} ChoiceReadsAre(number: int, labels: seq<string>)
    ensures SetOf(ChoiceReads(number, labels))
         == (if labels == [] then {} else {Choice(number)}) + SetOf(LabelItems(labels))
    decreases |labels|
  {
    if |labels| > 0 {
      hide ItemsOf, Reads;
      ChoiceReadsAre(number, labels[1..]);
      var first := ItemsOf(Reads(labels[0]));
      SetOfAppend([Choice(number)] + first, ChoiceReads(number, labels[1..]));
      SetOfAppend([Choice(number)], first);
      SetOfAppend(first, LabelItems(labels[1..]));
    }
  }

  /** A line reads what its texts read, and otherwise only what was declared for it. */
  lemma LineReadsAre(src: Source, names: seq<string>)
    requires Parsed(src, names) && Writes(src.stmt.kind)
    ensures var read := SetOf(BodyReads(src, names)) + SetOf(CondReads(src.stmt.cond, names));
            SetOf(TextItems(src)) <= read <= SetOf(Needs(src, names)) + SetOf(TextItems(src))
  {
    hide CondItems, CondReads, CondTexts, ItemsOf, LabelItems, ChoiceReads, Reads, BareReads;
    var s := src.stmt;
    CondReadsAre(s.cond, names);
    ChoiceReadsAre(-s.nameindex, src.labels);
    SetOfAppend(CondTexts(s.cond), BodyTexts(src));
    SetOfAppend(OwnItems(s, names) + CondItems(s.cond, names), DependItems(src.depends));
    SetOfAppend(OwnItems(s, names), CondItems(s.cond, names));
    if s.kind == ChoiceHeader {
      assert Choice(-s.nameindex) in OwnItems(s, names);
    } else {
      forall x | x in BodyReads(src, names) ensures x in Needs(src, names) || x in BodyTexts(src) {
      }
    }
  }

  lemma EmitReads(src: Source, names: seq<string>, written: set<string>, declared: set<Item>)
    requires Parsed(src, names) && Writes(src.stmt.kind) && Covers(declared, written)
    ensures AllRead(Emit(src, names, written), declared)
       <==> SetOf(TextItems(src)) <= declared + SetOf(Needs(src, names))
    ensures declared + Globals(Emit(src, names, written)) == declared + SetOf(Needs(src, names))
    ensures Covers(declared + SetOf(Needs(src, names)), written + NamesOf(Needs(src, names)))
  {
    hide Needs, TextItems, LineOf, Declare, Covers, Parsed, BodyReads, CondReads, AllRead, Globals, SetOf;
    var needs := Needs(src, names);
    DeclareReads(needs, written, declared);
    AllReadAppend(Declare(needs, written), LineOf(src, names), declared);
    GlobalsAppend(Declare(needs, written), LineOf(src, names));
    LineReads(src, names, declared + SetOf(needs));
    LineReadsAre(src, names);
    if src.stmt.cond == [] { NoCondReads(names); }
  }

  lemma NoCondReads(names: seq<string>)
    ensures SetOf(CondReads([], names)) == {}
  {
  }

  /** Some line up to k declares the item, or it was declared before. */
  ghost predicate DeclaredUpTo(srcs: seq<Source>, names: seq<string>, k: int, x: Item) {
    exists i :: 0 <= i <= k && i < |srcs| && Writes(srcs[i].stmt.kind) && x in Needs(srcs[i], names)
  }

  /** What the texts of a line read is among these items, or some line up to this one declares it. */
  ghost predicate TextsDeclared(srcs: seq<Source>, names: seq<string>, declared: set<Item>) {
    forall k, x :: 0 <= k < |srcs| && Writes(srcs[k].stmt.kind) && x in TextItems(srcs[k]) ==>
      x in declared || DeclaredUpTo(srcs, names, k, x)
  }

  /** What is declared behind the first line. */
  ghost function AfterFirst(srcs: seq<Source>, names: seq<string>, declared: set<Item>): set<Item>
    requires |srcs| > 0
  {
    if Writes(srcs[0].stmt.kind) then declared + SetOf(Needs(srcs[0], names)) else declared
  }

  lemma DeclaredUpToStep(srcs: seq<Source>, names: seq<string>, declared: set<Item>, k: int, x: Item)
    requires 0 <= k < |srcs|
    ensures x in declared || DeclaredUpTo(srcs, names, k, x)
       <==> x in AfterFirst(srcs, names, declared) || (k > 0 && DeclaredUpTo(srcs[1..], names, k - 1, x))
  {
    hide Needs, Writes;
    if i :| 0 <= i <= k && i < |srcs| && Writes(srcs[i].stmt.kind) && x in Needs(srcs[i], names) {
      if i > 0 { assert srcs[1..][i - 1] == srcs[i]; }
    }
    if i :| 0 <= i <= k - 1 && i < |srcs[1..]| && Writes(srcs[1..][i].stmt.kind) && x in Needs(srcs[1..][i], names) {
      assert srcs[1..][i] == srcs[i + 1];
    }
  }

  lemma TextsDeclaredStep(srcs: seq<Source>, names: seq<string>, declared: set<Item>)
    requires |srcs| > 0
    ensures TextsDeclared(srcs, names, declared)
       <==> (Writes(srcs[0].stmt.kind) ==> SetOf(TextItems(srcs[0])) <= AfterFirst(srcs, names, declared))
            && TextsDeclared(srcs[1..], names, AfterFirst(srcs, names, declared))
  {
    hide AfterFirst, Writes, TextItems, DeclaredUpTo;
    var now, rest := AfterFirst(srcs, names, declared), srcs[1..];
    if TextsDeclared(srcs, names, declared) {
      forall x | Writes(srcs[0].stmt.kind) && x in TextItems(srcs[0]) ensures x in now {
        DeclaredUpToStep(srcs, names, declared, 0, x);
      }
      forall k, x | 0 <= k < |rest| && Writes(rest[k].stmt.kind) && x in TextItems(rest[k])
        ensures x in now || DeclaredUpTo(rest, names, k, x)
      {
        assert srcs[k + 1] == rest[k];
        DeclaredUpToStep(srcs, names, declared, k + 1, x);
      }
    }
    if (Writes(srcs[0].stmt.kind) ==> SetOf(TextItems(srcs[0])) <= now) && TextsDeclared(rest, names, now) {
      forall k, x | 0 <= k < |srcs| && Writes(srcs[k].stmt.kind) && x in TextItems(srcs[k])
        ensures x in declared || DeclaredUpTo(srcs, names, k, x)
      {
        DeclaredUpToStep(srcs, names, declared, k, x);
        if k > 0 { assert rest[k - 1] == srcs[k]; } else { assert x in SetOf(TextItems(srcs[0])); }
      }
    }
  }

  lemma {:induction false} EmitAllReads(srcs: seq<Source>, names: seq<string>, written: set<string>,
                                            declared: set<Item>)
    requires AllParsed(srcs, names) && Covers(declared, written)
    ensures AllRead(EmitAll(srcs, names, written), declared) <==> TextsDeclared(srcs, names, declared)
    decreases |srcs|
  {
    hide Emit, Needs, Parsed, Covers, NamesOf, TextItems, Globals, SetOf, TextsDeclared, Writes;
    if |srcs| == 0 {
      NoTexts(names, declared);
    } else {
      var src, rest := srcs[0], srcs[1..];
      assert Parsed(src, names) && AllParsed(rest, names);
      TextsDeclaredStep(srcs, names, declared);
      if Writes(src.stmt.kind) {
        var items := Needs(src, names);
        EmitReads(src, names, written, declared);
        EmitAllReads(rest, names, written + NamesOf(items), declared + SetOf(items));
        AllReadAppend(Emit(src, names, written), EmitAll(rest, names, written + NamesOf(items)), declared);
      } else {
        EmitAllReads(rest, names, written, declared);
      }
    }
  }

  lemma NoTexts(names: seq<string>, declared: set<Item>)
    ensures TextsDeclared([], names, declared)
  {
  }

  /** Exactly when whatever the procedure reads was declared further up: when every variable read from a text (a value,
      a comment, a label, a constant) is one that the same line or a line further up declares for itself. */
  lemma DeclarationBeforeUseIff(srcs: seq<Source>, names: seq<string>)
    requires AllParsed(srcs, names)
    ensures var es := EmitAll(srcs, names, {});
            (forall j :: 0 <= j < |es| && es[j].Use? ==> DeclaredBefore(es, j, es[j].item))
            <==> (forall k, x :: 0 <= k < |srcs| && Writes(srcs[k].stmt.kind) && x in TextItems(srcs[k]) ==>
                    exists i :: 0 <= i <= k && Writes(srcs[i].stmt.kind) && x in Needs(srcs[i], names))
  {
    hide TextItems, Needs, EmitAll, AllRead, Writes;
    var es := EmitAll(srcs, names, {});
    EmitAllReads(srcs, names, {}, {});
    AllReadIff(es, 0, {}, {});
    assert es[0..] == es;
    if TextsDeclared(srcs, names, {}) {
      forall k, x | 0 <= k < |srcs| && Writes(srcs[k].stmt.kind) && x in TextItems(srcs[k])
        ensures exists i :: 0 <= i <= k && Writes(srcs[i].stmt.kind) && x in Needs(srcs[i], names)
      {
        assert DeclaredUpTo(srcs, names, k, x);
      }
    }
  }

  /** In any case what the procedure reads on its own account, and no text reads, was declared further up. */
  lemma DeclarationBeforeUse(srcs: seq<Source>, names: seq<string>, j: nat)
    requires AllParsed(srcs, names) && j < |EmitAll(srcs, names, {})|
    ensures var es := EmitAll(srcs, names, {});
            es[j].Use? ==> DeclaredBefore(es, j, es[j].item)
                           || exists k :: 0 <= k < |srcs| && es[j].item in TextItems(srcs[k])
  {
    hide TextItems, Needs, EmitAll, Parsed, Writes;
    var es := EmitAll(srcs, names, {});
    var free := set k, x | 0 <= k < |srcs| && x in TextItems(srcs[k]) :: x;
    EmitAllReads(srcs, names, {}, free);
    AllReadIff(es, 0, free, free);
    assert es[0..] == es;
  }

  /** The family on which a text's read is not: `define_int X $Y` in front of the question about Y. */
  lemma ValueIsReadUndeclared(x: string, y: string)
    requires x != y && IsWord(y) && y !in OWN_VARIABLES && ItemOf(y) == Name(y)
    ensures var names, srcs := ["", x, y], [Assignment(y), QUESTION];
            var es := EmitAll(srcs, names, {});
            && Interned(names) && AllParsed(srcs, names)
            && es == [Global(Name(x)), Use(Name(y)), Global(Name(y)), Use(Name(y))]
            && !DeclaredBefore(es, 1, Name(y))
  {
    var names := ["", x, y];
    var a := Assignment(y);
    AssignmentReads(y);
    hide TextItems, IsWord, ItemOf, Assignment;
    AssignmentEmits(x, y);
    QuestionEmits(x, y);
    assert [a, QUESTION][1..] == [QUESTION] && [QUESTION][1..] == [];
    assert {} + {x} == {x};
    hide Emit;
    assert EmitAll([QUESTION], names, {x}) == Emit(QUESTION, names, {x}) + [];
  }

  /** `define_int X $Y` */
  function Assignment(y: string): Source {
    Source.Source(Stmt(DefineInt, 1, "", "$" + y, []), [], [])
  }

  /** `int '' Y 0` */
  const QUESTION := Source.Source(Stmt(Kind.Int, 2, "", "0", []), [], [])

  lemma AssignmentReads(y: string)
    requires IsWord(y) && y !in OWN_VARIABLES && ItemOf(y) == Name(y)
    ensures ItemsOf(BareReads("$" + y)) == [Name(y)]
  {
    NamedIsRead(y, "");
    NothingIsRead();
    assert "$" + y + "" == "$" + y && [y][1..] == [];
  }

  lemma AssignmentEmits(x: string, y: string)
    requires ItemsOf(BareReads("$" + y)) == [Name(y)]
    ensures var names, a := ["", x, y], Assignment(y);
            && Parsed(a, names) && Emit(a, names, {}) == [Global(Name(x)), Use(Name(y))]
            && NamesOf(Needs(a, names)) == {x}
  {
    hide ItemsOf, BareReads;
    var names, a := ["", x, y], Assignment(y);
    assert Needs(a, names) == [Name(x)];
    NamesOfOne(Name(x));
    DeclareNew(x, {});
    assert LineOf(a, names) == [Use(Name(y))];
  }

  lemma QuestionEmits(x: string, y: string)
    requires x != y
    ensures var names := ["", x, y];
            Parsed(QUESTION, names) && Emit(QUESTION, names, {x}) == [Global(Name(y)), Use(Name(y))]
  {
    var names := ["", x, y];
    assert Needs(QUESTION, names) == [Name(y)];
    DeclareNew(y, {x});
    assert LineOf(QUESTION, names) == [Use(Name(y))];
  }

  lemma DeclareNew(n: string, written: set<string>)
    requires n !in written
    ensures Declare([Name(n)], written) == [Global(Name(n))]
  {
    assert [Name(n)][1..] == [];
  }

  // ----- the generator -----

  /** The names whose flag is set. */
  ghost function WrittenNames(table: VariableTable): set<string>
    requires table.Valid()
    reads table, table.table
  {
    set i | i in table.GlobalSet() :: table.Names()[i]
  }

  /** `if (!vartable[i].global_written)` and what follows. */
  method DeclareOne(table: VariableTable, i: nat) returns (es: seq<Event>)
    requires table.Valid() && 1 <= i <= table.maxVarnum
    modifies table.table
    ensures table.Valid() && table.Names() == old(table.Names())
    ensures es == Declare([Name(table.Names()[i])], old(WrittenNames(table)))
    ensures WrittenNames(table) == old(WrittenNames(table)) + {table.Names()[i]}
  {
    ghost var names, written := table.Names(), WrittenNames(table);
    assert [Name(names[i])][1..] == [];
    if !table.table[i].globalWritten {
      assert names[i] !in written by { assert forall k :: k in table.GlobalSet() ==> names[k] != names[i]; }
      es := [Global(Name(table.table[i].name))];
      table.SetGlobal(i);
    } else {
      assert i in table.GlobalSet();
      es := [];
    }
  }

  lemma {:induction false} DeclareAppend(a: seq<Item>, b: seq<Item>, written: set<string>)
    ensures Declare(a + b, written) == Declare(a, written) + Declare(b, written + NamesOf(a))
    ensures NamesOf(a + b) == NamesOf(a) + NamesOf(b)
    decreases |a|
  {
    if |a| == 0 {
      assert a + b == b && written + NamesOf(a) == written;
    } else {
      var x, rest := a[0], a[1..];
      assert a == [x] + rest && a + b == [x] + (rest + b);
      NamesOfFirst(x, rest);
      NamesOfFirst(x, rest + b);
      var now := if x.Choice? then written else written + {x.name};
      DeclareAppend(rest, b, now);
      assert x.Name? && x.name in written ==> now == written;
      assert written + NamesOf(a) == now + NamesOf(rest);
      var es, fs := Declare(rest, now), Declare(b, now + NamesOf(rest));
      Assoc([Global(x)], es, fs);
    }
  }

  /** These items are declared, on top of what was written before. */
  ghost predicate Declared(table: VariableTable, names: seq<string>, before: set<string>, items: seq<Item>, es: seq<Event>)
    reads table, table.table
  {
    && table.Valid() && table.Names() == names
    && es == Declare(items, before) && WrittenNames(table) == before + NamesOf(items)
  }

  method DeclareNext(table: VariableTable, i: nat, es: seq<Event>, ghost names: seq<string>, ghost before: set<string>,
                     ghost items: seq<Item>)
    returns (es': seq<Event>)
    requires Declared(table, names, before, items, es) && 1 <= i <= table.maxVarnum
    modifies table.table
    ensures i < |names| && Declared(table, names, before, items + [Name(names[i])], es')
  {
    var more := DeclareOne(table, i);
    hide Declare, NamesOf;
    DeclareAppend(items, [Name(names[i])], before);
    NamesOfOne(Name(names[i]));
    es' := es + more;
  }

  lemma NamesOfOne(x: Item)
    ensures NamesOf([x]) == if x.Name? then {x.name} else {}
  {
    assert [x] == [x] + [];
    NamesOfFirst(x, []);
  }

  /** The same for a name that is in the table. */
  method DeclareName(table: VariableTable, name: string, es: seq<Event>, ghost names: seq<string>, ghost before: set<string>,
                     ghost items: seq<Item>)
    returns (es': seq<Event>)
    requires Declared(table, names, before, items, es) && Known(names, name)
    modifies table, table.table
    ensures table.table == old(table.table)
    ensures Declared(table, names, before, items + [Name(name)], es')
  {
    var i := table.GetVarnum(name);
    assert table.Names() == names && names[i] == name && unchanged(table) && unchanged(table.table);
    es' := DeclareNext(table, i, es, names, before, items);
  }

  /** The condition chain. */
  method DeclareCond(table: VariableTable, cond: seq<Token>, es: seq<Event>, ghost names: seq<string>,
                     ghost before: set<string>, ghost items: seq<Item>)
    returns (es': seq<Event>)
    requires Declared(table, names, before, items, es)
    requires forall k :: 0 <= k < |cond| && cond[k].op.Variable? ==> 1 <= cond[k].nameindex < |names|
    modifies table.table
    ensures Declared(table, names, before, items + CondItems(cond, names), es')
  {
    hide Declared;
    es' := es;
    assert items + [] == items && cond[..0] == [];
    for k := 0 to |cond|
      invariant Declared(table, names, before, items + CondItems(cond[..k], names), es')
    {
      assert cond[..k + 1] == cond[..k] + [cond[k]];
      CondStep(cond[..k], cond[k], names);
      ghost var now := items + CondItems(cond[..k], names);
      if cond[k].op.Variable? {
        TableSize(table, names, before, now, es');
        es' := DeclareNext(table, cond[k].nameindex, es', names, before, now);
        Assoc(items, CondItems(cond[..k], names), [Name(names[cond[k].nameindex])]);
      } else {
        assert CondItems(cond[..k], names) + [] == CondItems(cond[..k], names);
      }
    }
    assert cond[..|cond|] == cond;
  }

  lemma TableSize(table: VariableTable, names: seq<string>, before: set<string>, items: seq<Item>, es: seq<Event>)
    requires Declared(table, names, before, items, es)
    ensures |names| == table.maxVarnum + 1 && table.Valid()
  {
  }

  lemma {:induction false} CondStep(cond: seq<Token>, t: Token, names: seq<string>)
    ensures CondItems(cond + [t], names)
            == CondItems(cond, names)
               + (if t.op.Variable? && 1 <= t.nameindex < |names| then [Name(names[t.nameindex])] else [])
    decreases |cond|
  {
    if |cond| == 0 {
      assert cond + [t] == [t] && [t][1..] == [];
    } else {
      assert (cond + [t])[1..] == cond[1..] + [t];
      CondStep(cond[1..], t, names);
    }
  }

  /** The dependency chain. */
  method DeclareDepends(table: VariableTable, depends: seq<string>, es: seq<Event>, ghost names: seq<string>,
                        ghost before: set<string>, ghost items: seq<Item>)
    returns (es': seq<Event>)
    requires Declared(table, names, before, items, es) && forall k :: 0 <= k < |depends| ==> Known(names, depends[k])
    modifies table, table.table
    ensures table.table == old(table.table)
    ensures Declared(table, names, before, items + DependItems(depends), es')
  {
    hide Declared, Known;
    es' := es;
    assert items + DependItems(depends[..0]) == items;
    for k := 0 to |depends|
      invariant table.table == old(table.table)
      invariant Declared(table, names, before, items + DependItems(depends[..k]), es')
    {
      ghost var now := items + DependItems(depends[..k]);
      es' := DeclareName(table, depends[k], es', names, before, now);
      assert now + [Name(depends[k])] == items + DependItems(depends[..k + 1]);
    }
    assert depends[..|depends|] == depends;
  }

  lemma NothingDeclared(table: VariableTable)
    requires table.Valid()
    ensures Declared(table, table.Names(), WrittenNames(table), [], [])
  {
  }

  lemma ChoiceDeclared(table: VariableTable, number: int, es: seq<Event>, names: seq<string>, before: set<string>,
                       items: seq<Item>)
    requires Declared(table, names, before, items, es)
    ensures Declared(table, names, before, items + [Choice(number)], es + [Global(Choice(number))])
  {
    DeclareAppend(items, [Choice(number)], before);
    NamesOfOne(Choice(number));
    assert [Choice(number)][1..] == [];
  }

  /** The declarations a statement wants for itself. */
  method DeclareOwn(table: VariableTable, s: Stmt, ghost names: seq<string>) returns (es: seq<Event>)
    requires table.Valid() && table.Names() == names && Parsed(Source.Source(s, [], []), names)
    modifies table, table.table
    ensures table.table == old(table.table)
    ensures Declared(table, names, old(WrittenNames(table)), OwnItems(s, names), es)
  {
    hide Declared, CondItems, DependItems, Known;
    ghost var before := WrittenNames(table);
    es := [];
    NothingDeclared(table);
    if s.kind != Comment {
      ghost var items: seq<Item> := [];
      if s.nameindex > 0 {
        TableSize(table, names, before, items, es);
        es := DeclareNext(table, s.nameindex, es, names, before, items);
        items := items + [Own(s, names)];
      }
      if CopiesValue(s.kind) {
        es := DeclareName(table, s.value, es, names, before, items);
        assert items + [Name(s.value)] == OwnItems(s, names);
      } else if s.nameindex <= 0 && s.kind == ChoiceHeader {
        ChoiceDeclared(table, -s.nameindex, es, names, before, items);
        es := es + [Global(Choice(-s.nameindex))];
        assert items + [Choice(-s.nameindex)] == OwnItems(s, names);
      } else {
        assert items == OwnItems(s, names);
      }
    }
  }

  /** generate_writeconfig */
  method Generate(src: Source, table: VariableTable) returns (es: seq<Event>)
    requires table.Valid() && Parsed(src, table.Names())
    modifies table, table.table
    ensures table.table == old(table.table) && table.Valid() && table.Names() == old(table.Names())
    ensures es == Emit(src, table.Names(), old(WrittenNames(table)))
    ensures WrittenNames(table) == old(WrittenNames(table)) + NamesOf(Needs(src, table.Names()))
  {
    hide Declare, NamesOf, CondItems, DependItems, OwnItems, LineOf, Known;
    var names := table.Names();
    ghost var before, s := WrittenNames(table), src.stmt;
    es := DeclareOwn(table, src.stmt, names);
    es := DeclareCond(table, src.stmt.cond, es, names, before, OwnItems(s, names));
    es := DeclareDepends(table, src.depends, es, names, before, OwnItems(s, names) + CondItems(s.cond, names));
    es := es + LineOf(src, names);
  }

  /** The procedure for a whole script. */
  method Dump(srcs: seq<Source>, table: VariableTable) returns (es: seq<Event>)
    requires table.Valid() && AllParsed(srcs, table.Names())
    modifies table, table.table
    ensures table.Valid() && table.Names() == old(table.Names())
    ensures es == EmitAll(srcs, table.Names(), {})
  {
    hide Emit, Needs, Parsed, NamesOf;
    ghost var names := table.Names();
    table.ClearGlobals();
    assert WrittenNames(table) == {};
    es := [];
    assert srcs[0..] == srcs && [] + EmitAll(srcs, names, {}) == EmitAll(srcs, names, {});
    for k := 0 to |srcs|
      invariant table.table == old(table.table) && table.Valid() && table.Names() == names
      invariant es + EmitAll(srcs[k..], names, WrittenNames(table)) == EmitAll(srcs, names, {})
    {
      assert srcs[k..][0] == srcs[k] && srcs[k..][1..] == srcs[k + 1..];
      if Writes(srcs[k].stmt.kind) {
        ghost var before := WrittenNames(table);
        var more := Generate(srcs[k], table);
        Assoc(es, more, EmitAll(srcs[k + 1..], names, before + NamesOf(Needs(srcs[k], names))));
        es := es + more;
      }
    }
    assert srcs[|srcs|..] == [] && es + [] == es;
  }
}
