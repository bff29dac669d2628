/** What the procedure that saves a configuration declares and reads, statement by statement. */
module Saving {
  import opened Conditions
  import opened Statements
  import opened Symbols
  import opened WriteConfig

  /** The condition compares the variable. */
  predicate InCondition(cond: seq<Token>, names: seq<string>, x: Item) {
    exists i :: && 0 <= i < |cond| && cond[i].op.Variable? && 1 <= cond[i].nameindex < |names|
                && x == Name(names[cond[i].nameindex])
  }

  predicate IsOwn(s: Stmt, names: seq<string>, x: Item) {
    1 <= s.nameindex < |names| && x == Name(names[s.nameindex])
  }

  predicate IsDependency(depends: seq<string>, x: Item) {
    x.Name? && x.name in depends
  }

  /** The statement wants the variable declared: its own, or the number of its choice; the one whose value it takes;
      those in its condition and its dependencies. A comment has none of its own. */
  predicate Declares(src: Source, names: seq<string>, x: Item) {
    var s := src.stmt;
    match s.kind
    case Bool | Tristate | Hex | Int | String | DepBool | DepMbool | DepTristate
       | DefineHex | DefineInt | DefineString =>
      IsOwn(s, names, x) || InCondition(s.cond, names, x) || IsDependency(src.depends, x)
    case DefineBool | DefineTristate =>
      IsOwn(s, names, x) || x == Name(s.value) || InCondition(s.cond, names, x) || IsDependency(src.depends, x)
    case ChoiceHeader =>
      x == Choice(-s.nameindex) || InCondition(s.cond, names, x) || IsDependency(src.depends, x)
    case Comment => InCondition(s.cond, names, x) || IsDependency(src.depends, x)
    case _ => false
  }

  /** The line of the statement reads the variable: a question its answer, and with dependencies those as well; a
      definition its own variable, or the one whose value it takes if it stands in a condition; a choice its number; and
      any of them what its condition and its texts read. */
  predicate Saves(src: Source, names: seq<string>, x: Item) {
    var s := src.stmt;
    match s.kind
    case Bool | Tristate | Hex | Int | String => IsOwn(s, names, x) || Consults(src, names, x)
    case DepBool | DepMbool | DepTristate =>
      IsOwn(s, names, x) || IsDependency(src.depends, x) || Consults(src, names, x)
    case DefineBool | DefineTristate =>
      (if s.cond == [] then IsOwn(s, names, x) else x == Name(s.value)) || Consults(src, names, x)
    case ChoiceHeader => (src.labels != [] && x == Choice(-s.nameindex)) || Consults(src, names, x)
    case DefineHex | DefineInt | DefineString | Comment => Consults(src, names, x)
    case _ => false
  }

  predicate Consults(src: Source, names: seq<string>, x: Item) {
    InCondition(src.stmt.cond, names, x) || x in TextItems(src)
  }

  lemma {:induction false} CondItemsAre(cond: seq<Token>, names: seq<string>, x: Item)
    ensures x in CondItems(cond, names) <==> InCondition(cond, names, x)
    decreases |cond|
  {
    if |cond| > 0 {
      CondItemsAre(cond[1..], names, x);
      if InCondition(cond[1..], names, x) {
        var i :| && 0 <= i < |cond[1..]| && cond[1..][i].op.Variable? && 1 <= cond[1..][i].nameindex < |names|
                 && x == Name(names[cond[1..][i].nameindex]);
        assert cond[i + 1] == cond[1..][i];
      }
      if InCondition(cond, names, x) {
        var i :| && 0 <= i < |cond| && cond[i].op.Variable? && 1 <= cond[i].nameindex < |names|
                 && x == Name(names[cond[i].nameindex]);
        if i > 0 { assert cond[1..][i - 1] == cond[i]; }
      }
    }
  }

  lemma DependItemsAre(depends: seq<string>, x: Item)
    ensures x in DependItems(depends) <==> IsDependency(depends, x)
  {
    if IsDependency(depends, x) {
      var i :| 0 <= i < |depends| && depends[i] == x.name;
      assert DependItems(depends)[i] == x;
    }
  }

  lemma NeedsAre(src: Source, names: seq<string>, x: Item)
    requires WriteConfig.Parsed(src, names)
    ensures Writes(src.stmt.kind) && x in Needs(src, names) <==> Declares(src, names, x)
  {
    CondItemsAre(src.stmt.cond, names, x);
    DependItemsAre(src.depends, x);
    hide CondItems, DependItems, InCondition, IsDependency;
  }

  lemma ReadsAre(src: Source, names: seq<string>, x: Item)
    requires WriteConfig.Parsed(src, names)
    ensures Writes(src.stmt.kind) && (x in BodyReads(src, names) || x in CondReads(src.stmt.cond, names))
       <==> Saves(src, names, x)
  {
    var s := src.stmt;
    CondItemsAre(s.cond, names, x);
    CondReadsAre(s.cond, names);
    DependItemsAre(src.depends, x);
    ChoiceReadsAre(-s.nameindex, src.labels);
    hide CondItems, CondReads, CondTexts, DependItems, InCondition, IsDependency, ItemsOf, LabelItems, ChoiceReads;
    assert x in CondReads(s.cond, names) <==> x in SetOf(CondReads(s.cond, names));
    if s.kind == ChoiceHeader {
      assert x in ChoiceReads(-s.nameindex, src.labels) <==> x in SetOf(ChoiceReads(-s.nameindex, src.labels));
      assert x in LabelItems(src.labels) <==> x in SetOf(LabelItems(src.labels));
    }
  }

  lemma UsesAre(items: seq<Item>, e: Event)
    ensures e in UseAll(items) <==> e.Use? && e.item in items
  {
    if e.Use? && e.item in items {
      var i :| 0 <= i < |items| && items[i] == e.item;
      assert UseAll(items)[i] == e;
    }
  }

  lemma {:induction false} DeclareIs(items: seq<Item>, written: set<string>, e: Event)
    ensures e in Declare(items, written)
       <==> e.Global? && e.item in items && (e.item.Name? ==> e.item.name !in written)
    decreases |items|
  {
    if |items| > 0 {
      var x := items[0];
      DeclareIs(items[1..], if x.Choice? || x.name in written then written else written + {x.name}, e);
      assert items == [x] + items[1..];
    }
  }

  lemma LineIs(src: Source, names: seq<string>, x: Item)
    ensures Global(x) !in LineOf(src, names)
    ensures Use(x) in LineOf(src, names)
       <==> x in BodyReads(src, names) || (src.stmt.cond != [] && x in CondReads(src.stmt.cond, names))
  {
    UsesAre(BodyReads(src, names), Global(x));
    UsesAre(BodyReads(src, names), Use(x));
    UsesAre(CondReads(src.stmt.cond, names), Global(x));
    UsesAre(CondReads(src.stmt.cond, names), Use(x));
    hide BodyReads, CondReads, UseAll;
  }

  lemma EmitIs(src: Source, names: seq<string>, written: set<string>, x: Item)
    requires WriteConfig.Parsed(src, names) && Writes(src.stmt.kind)
    ensures Global(x) in Emit(src, names, written) <==> Declares(src, names, x) && (x.Name? ==> x.name !in written)
    ensures Use(x) in Emit(src, names, written) <==> Saves(src, names, x)
  {
    NeedsAre(src, names, x);
    ReadsAre(src, names, x);
    LineIs(src, names, x);
    DeclareIs(Needs(src, names), written, Global(x));
    DeclareIs(Needs(src, names), written, Use(x));
    if src.stmt.cond == [] { assert CondReads(src.stmt.cond, names) == []; }
    hide Declares, Saves, Needs, LineOf, BodyReads, CondReads, Declare, WriteConfig.Parsed, Writes;
  }

  lemma SilentIs(src: Source, names: seq<string>, x: Item)
    requires !Writes(src.stmt.kind)
    ensures !Declares(src, names, x) && !Saves(src, names, x)
  {
  }

  ghost predicate SomeDeclares(srcs: seq<Source>, names: seq<string>, x: Item) {
    exists k :: 0 <= k < |srcs| && Declares(srcs[k], names, x)
  }

  ghost predicate SomeSaves(srcs: seq<Source>, names: seq<string>, x: Item) {
    exists k :: 0 <= k < |srcs| && Saves(srcs[k], names, x)
  }

  lemma SomeOfFirst(src: Source, rest: seq<Source>, names: seq<string>, x: Item)
    ensures SomeDeclares([src] + rest, names, x) <==> Declares(src, names, x) || SomeDeclares(rest, names, x)
    ensures SomeSaves([src] + rest, names, x) <==> Saves(src, names, x) || SomeSaves(rest, names, x)
  {
    hide Declares, Saves;
    var srcs := [src] + rest;
    assert srcs[0] == src && forall i :: 0 <= i < |rest| ==> srcs[i + 1] == rest[i];
    if k :| 0 <= k < |srcs| && Declares(srcs[k], names, x) {
      if k > 0 { assert rest[k - 1] == srcs[k]; }
    }
    if k :| 0 <= k < |srcs| && Saves(srcs[k], names, x) {
      if k > 0 { assert rest[k - 1] == srcs[k]; }
    }
  }

  lemma {:induction false} EmitAllIs(srcs: seq<Source>, names: seq<string>, written: set<string>, x: Item)
    requires AllParsed(srcs, names)
    ensures Global(x) in EmitAll(srcs, names, written)
       <==> SomeDeclares(srcs, names, x) && (x.Name? ==> x.name !in written)
    ensures Use(x) in EmitAll(srcs, names, written) <==> SomeSaves(srcs, names, x)
    decreases |srcs|
  {
    hide Emit, Needs, WriteConfig.Parsed, Declares, Saves, Writes;
    if |srcs| > 0 {
      var src, rest := srcs[0], srcs[1..];
      assert srcs == [src] + rest;
      assert AllParsed(rest, names);
      SomeOfFirst(src, rest, names, x);
      hide SomeDeclares, SomeSaves;
      if Writes(src.stmt.kind) {
        EmitIs(src, names, written, x);
        NeedsAre(src, names, x);
        EmitAllIs(rest, names, written + NamesOf(Needs(src, names)), x);
        assert x.Name? ==> (x.name in NamesOf(Needs(src, names)) <==> x in Needs(src, names));
      } else {
        SilentIs(src, names, x);
        EmitAllIs(rest, names, written, x);
      }
    }
  }

  /** The procedure declares exactly what some statement wants declared, and reads exactly what the line of some
      statement reads. */
  lemma ExactlyThese(srcs: seq<Source>, names: seq<string>, x: Item)
    requires AllParsed(srcs, names)
    ensures var es := EmitAll(srcs, names, {});
            && (Global(x) in es <==> exists k :: 0 <= k < |srcs| && Declares(srcs[k], names, x))
            && (Use(x) in es <==> exists k :: 0 <= k < |srcs| && Saves(srcs[k], names, x))
  {
    EmitAllIs(srcs, names, {}, x);
    hide Declares, Saves, EmitAll;
  }
}
