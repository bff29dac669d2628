/** The guard of a dependent statement (scripts/tkparse.c): a text is printed for every dependency, tokenized, and
    joined to the others. */
module DepGuards {
  import opened CondLists
  import opened Conditions
  import opened Flattening
  import opened Sequences
  import opened Statements
  import opened Symbols
  import opened Tokenizer

  /** The values of a dependency that let the statement in. */
  function Values(kind: Kind): seq<string> {
    if kind == DepBool then ["y", ""] else ["y", "m", ""]
  }

  /** One comparison as it is printed. */
  function Printed(name: string, value: string): string {
    " \"$" + name + "\" = \"" + value + "\""
  }

  /** The text for one dependency. */
  function FakeIf(kind: Kind, name: string): string {
    if kind == DepBool then "[" + (Printed(name, "y") + (" -o" + Printed(name, ""))) + " ]" + "; then"
    else "[" + (Printed(name, "y") + (" -o" + (Printed(name, "m") + (" -o" + Printed(name, ""))))) + " ]" + "; then"
  }

  /** `name` compared with each value, and `-o` between. */
  function Compared(name: string, values: seq<string>): seq<Lexeme> {
    if |values| == 0 then []
    else
      [Word("$" + name), Sign(Eq), Word(values[0])] + (if |values| == 1 then [] else [Sign(Or)]) + Compared(name, values[1..])
  }

  lemma Pieces(sp: string, q: string, d: string, n: string, e: string, v: string)
    ensures sp + (q + (d + n) + q) + (e + (sp + (q + v + q))) == (sp + q + d) + n + (q + e + sp + q) + v + q
  {
  }

  lemma ShowComparison(name: string, value: string)
    ensures Show([Word("$" + name), Sign(Eq), Word(value)]) == Printed(name, value)
  {
    hide Show;
    var a, b, c := Word("$" + name), Sign(Eq), Word(value);
    assert [c] == [c] + [] && [b, c] == [b] + [c] && [a, b, c] == [a] + [b, c];
    ShowFirst(a, [b, c]);
    ShowFirst(b, [c]);
    ShowFirst(c, []);
    assert Show([c]) == " " + ("\"" + value + "\"") by { ShowNone(); }
    assert " " + "=" == " =";
    Pieces(" ", "\"", "$", name, " =", value);
    Literals();
  }

  lemma ShowNone()
    ensures Show([]) == "" && forall s: string {:trigger s + Show([])} :: s + Show([]) == s
  {
  }

  lemma Literals()
    ensures " " + "\"" + "$" == " \"$" && "\"" + " =" + " " + "\"" == "\" = \""
  {
  }

  lemma ShowFirst(l: Lexeme, ls: seq<Lexeme>)
    ensures Show([l] + ls) == " " + ShowOne(l) + Show(ls)
  {
    assert ([l] + ls)[1..] == ls;
  }

  lemma ShowCompared(name: string, values: seq<string>)
    requires |values| > 0
    ensures Show(Compared(name, values))
            == if |values| == 1 then Printed(name, values[0])
               else Printed(name, values[0]) + (" -o" + Show(Compared(name, values[1..])))
  {
    hide Show, ShowOne;
    var three, rest := [Word("$" + name), Sign(Eq), Word(values[0])], Compared(name, values[1..]);
    ShowComparison(name, values[0]);
    if |values| == 1 {
      assert Compared(name, values) == three;
    } else {
      Assoc(three, [Sign(Or)], rest);
      ShowAppend(three, [Sign(Or)] + rest);
      ShowFirst(Sign(Or), rest);
      OrShown();
    }
  }

  lemma OrShown()
    ensures " " + ShowOne(Sign(Or)) == " -o"
  {
  }

  lemma FakeIfShows(kind: Kind, name: string)
    ensures FakeIf(kind, name) == "[" + Show(Compared(name, Values(kind))) + " ]" + "; then"
  {
    hide Show, Compared, Printed;
    ShowCompared(name, ["y", "m", ""]);
    ShowCompared(name, ["m", ""]);
    ShowCompared(name, ["y", ""]);
    ShowCompared(name, [""]);
    assert ["y", "m", ""][1..] == ["m", ""] && ["m", ""][1..] == [""] && ["y", ""][1..] == [""];
  }

  // ----- the tokens of one dependency -----

  /** The index of a variable that is in the table. */
  ghost function IndexOf(names: seq<string>, name: string): (i: nat)
    requires Interned(names) && Known(names, name)
    ensures Intern(names, name) == (names, i) && 1 <= i < |names| && names[i] == name
  {
    Intern(names, name).1
  }

  /** Variable v equal to one of the values. */
  function DepChain(v: int, values: seq<string>): seq<Token> {
    if |values| == 0 then []
    else
      [Token(Op.Variable, "", v), Token(Eq, "", 0), Token(Op.Constant, values[0], 0)]
      + (if |values| == 1 then [] else [Token(Or, "", 0)]) + DepChain(v, values[1..])
  }

  lemma {:induction false} TokensAppend(a: seq<Lexeme>, b: seq<Lexeme>, names: seq<string>)
    requires Interned(names)
    ensures var (ta, now) := TokensOfAll(a, names);
            var (tb, later) := TokensOfAll(b, now);
            TokensOfAll(a + b, names) == (ta + tb, later)
    decreases |b|
  {
    var (ta, now) := TokensOfAll(a, names);
    if |b| == 0 {
      assert a + b == a && ta + [] == ta;
    } else {
      var before, l := b[..|b| - 1], b[|b| - 1];
      TokensAppend(a, before, names);
      assert a + b == (a + before) + [l] && b == before + [l];
      AppendOne(a + before, l, names);
      AppendOne(before, l, now);
      Assoc(ta, TokensOfAll(before, now).0, [TokenOf(l, TokensOfAll(before, now).1).0]);
    }
  }

  lemma TokensOfOne(l: Lexeme, names: seq<string>)
    requires Interned(names)
    ensures TokensOfAll([l], names) == ([TokenOf(l, names).0], TokenOf(l, names).1)
  {
    AppendOne([], l, names);
    assert [] + [l] == [l] && [] + [TokenOf(l, names).0] == [TokenOf(l, names).0];
  }

  lemma TokensOfThree(name: string, value: string, names: seq<string>)
    requires Interned(names) && Known(names, name) && (|value| > 0 ==> value[0] != '$')
    ensures TokensOfAll([Word("$" + name), Sign(Eq), Word(value)], names)
            == ([Token(Op.Variable, "", IndexOf(names, name)), Token(Eq, "", 0), Token(Op.Constant, value, 0)], names)
  {
    var a, b, c := Word("$" + name), Sign(Eq), Word(value);
    assert ("$" + name)[1..] == name;
    var v := IndexOf(names, name);
    var ta, tb, tc := Token(Op.Variable, "", v), Token(Eq, "", 0), Token(Op.Constant, value, 0);
    assert TokenOf(a, names) == (ta, names) && TokenOf(b, names) == (tb, names) && TokenOf(c, names) == (tc, names);
    hide TokensOfAll, TokenOf;
    TokensOfOne(a, names);
    AppendOne([a], b, names);
    AppendOne([a, b], c, names);
    assert [a] + [b] == [a, b] && [a, b] + [c] == [a, b, c] && [ta] + [tb] == [ta, tb] && [ta, tb] + [tc] == [ta, tb, tc];
  }

  lemma {:induction false} TokensOfCompared(name: string, values: seq<string>, names: seq<string>)
    requires Interned(names) && Known(names, name)
    requires forall i :: 0 <= i < |values| ==> |values[i]| > 0 ==> values[i][0] != '$'
    ensures TokensOfAll(Compared(name, values), names) == (DepChain(IndexOf(names, name), values), names)
    decreases |values|
  {
    if |values| > 0 {
      hide TokensOfAll, Intern, IndexOf, Known, Interned;
      var three, or := [Word("$" + name), Sign(Eq), Word(values[0])], if |values| == 1 then [] else [Sign(Or)];
      TokensOfThree(name, values[0], names);
      TokensOfCompared(name, values[1..], names);
      TokensOfOne(Sign(Or), names);
      if |values| == 1 { TokensOfNone(names); }
      TokensAppend(three, or, names);
      TokensAppend(three + or, Compared(name, values[1..]), names);
    } else {
      TokensOfNone(names);
    }
  }

  lemma TokensOfNone(names: seq<string>)
    requires Interned(names)
    ensures TokensOfAll([], names) == ([], names)
  {
  }

  /** Some value of the list is the variable's. */
  predicate Among(v: int, values: seq<string>, eq: Equality) {
    exists i :: 0 <= i < |values| && eq(Ref(v), Text(values[i]))
  }

  lemma {:induction false} DepChainPlain(v: int, values: seq<string>)
    requires |values| > 0
    ensures Plain(DepChain(v, values)) && Tokenized(DepChain(v, values))
  {
    DepChainChain(v, values);
    DepChainFree(v, values, Bang);
    DepChainFree(v, values, And1);
  }

  lemma {:induction false} DepChainChain(v: int, values: seq<string>)
    requires |values| > 0
    ensures Chain(DepChain(v, values))
    decreases |values|
  {
    var ts := DepChain(v, values);
    assert Unbanged(ts) == ts;
    if |values| > 1 {
      DepChainChain(v, values[1..]);
      assert ts[4..] == DepChain(v, values[1..]);
    }
  }

  lemma {:induction false} DepChainFree(v: int, values: seq<string>, op: Op)
    requires op == Bang || op == And1
    ensures Free(DepChain(v, values), op)
    decreases |values|
  {
    if |values| > 0 { DepChainFree(v, values[1..], op); }
  }

  lemma {:induction false} DepChainMeans(v: int, values: seq<string>, eq: Equality)
    requires |values| > 0
    ensures Plain(DepChain(v, values)) && Tokenized(DepChain(v, values))
    ensures TestValue(DepChain(v, values), eq, true) <==> Among(v, values, eq)
    decreases |values|
  {
    var ts := DepChain(v, values);
    DepChainPlain(v, values);
    assert Unbanged(ts) == ts;
    if |values| > 1 {
      assert ts[4..] == DepChain(v, values[1..]) && ts[3].op.Or?;
      DepChainMeans(v, values[1..], eq);
      AmongFirst(v, values, eq);
    }
  }

  lemma AmongFirst(v: int, values: seq<string>, eq: Equality)
    requires |values| > 0
    ensures Among(v, values, eq) <==> eq(Ref(v), Text(values[0])) || Among(v, values[1..], eq)
  {
    assert forall i :: 0 < i < |values| ==> values[i] == values[1..][i - 1];
  }

  // ----- the guard -----

  /** The dependencies that count: for dep_tristate a literal m is no restriction. */
  function Kept(kind: Kind, deps: seq<string>): seq<string> {
    if |deps| == 0 then []
    else (if kind == DepTristate && deps[0] == "CONSTANT_M" then [] else [deps[0]]) + Kept(kind, deps[1..])
  }

  lemma {:induction false} KeptMembers(kind: Kind, deps: seq<string>, d: string)
    ensures d in Kept(kind, deps) <==> d in deps && !(kind == DepTristate && d == "CONSTANT_M")
    decreases |deps|
  {
    if |deps| > 0 {
      KeptMembers(kind, deps[1..], d);
      assert deps == [deps[0]] + deps[1..];
    }
  }

  predicate AllKnown(names: seq<string>, deps: seq<string>) {
    forall i :: 0 <= i < |deps| ==> Known(names, deps[i]) && '"' !in deps[i]
  }

  ghost function Chains(kind: Kind, deps: seq<string>, names: seq<string>): (r: seq<seq<Token>>)
    requires Interned(names) && AllKnown(names, deps)
    ensures |r| == |deps|
  {
    seq(|deps|, i requires 0 <= i < |deps| => DepChain(IndexOf(names, deps[i]), Values(kind)))
  }

  /** A dependency lets the statement in when it is y or empty, and also when it is m unless the statement is a
      dep_bool. */
  predicate Allows(kind: Kind, v: int, eq: Equality) {
    eq(Ref(v), Text("y")) || eq(Ref(v), Text("")) || (kind != DepBool && eq(Ref(v), Text("m")))
  }

  lemma AmongIsAllowed(kind: Kind, v: int, eq: Equality)
    ensures Among(v, Values(kind), eq) <==> Allows(kind, v, eq)
  {
    var values := Values(kind);
    if eq(Ref(v), Text("y")) { assert values[0] == "y"; }
    if eq(Ref(v), Text("")) { assert values[|values| - 1] == ""; }
    if kind != DepBool && eq(Ref(v), Text("m")) { assert values[1] == "m"; }
  }

  /** Every dependency that counts lets the statement in. */
  ghost predicate Satisfied(kind: Kind, deps: seq<string>, names: seq<string>, eq: Equality)
    requires Interned(names) && AllKnown(names, deps)
  {
    forall i :: 0 <= i < |deps| && !(kind == DepTristate && deps[i] == "CONSTANT_M") ==>
      Allows(kind, IndexOf(names, deps[i]), eq)
  }

  lemma KeptKnown(kind: Kind, deps: seq<string>, names: seq<string>)
    requires AllKnown(names, deps)
    ensures AllKnown(names, Kept(kind, deps))
  {
    var kept := Kept(kind, deps);
    forall i | 0 <= i < |kept| ensures Known(names, kept[i]) && '"' !in kept[i] {
      KeptMembers(kind, deps, kept[i]);
    }
  }

  lemma SatisfiedKept(kind: Kind, deps: seq<string>, names: seq<string>, eq: Equality)
    requires Interned(names) && AllKnown(names, deps) && AllKnown(names, Kept(kind, deps))
    ensures Satisfied(kind, deps, names, eq)
            <==> forall i :: 0 <= i < |Kept(kind, deps)| ==> Allows(kind, IndexOf(names, Kept(kind, deps)[i]), eq)
  {
    hide Allows, IndexOf, Known, Interned;
    var kept := Kept(kind, deps);
    if Satisfied(kind, deps, names, eq) {
      forall i | 0 <= i < |kept| ensures Allows(kind, IndexOf(names, kept[i]), eq) {
        KeptMembers(kind, deps, kept[i]);
      }
    }
    if forall i :: 0 <= i < |kept| ==> Allows(kind, IndexOf(names, kept[i]), eq) {
      forall i | 0 <= i < |deps| && !(kind == DepTristate && deps[i] == "CONSTANT_M")
        ensures Allows(kind, IndexOf(names, deps[i]), eq)
      {
        KeptMembers(kind, deps, deps[i]);
      }
    }
  }

  /** The chain that is printed for a dependency asks whether the dependency lets the statement in. */
  lemma DepChainAllows(kind: Kind, v: int, eq: Equality)
    ensures Plain(DepChain(v, Values(kind)))
    ensures TestValue(DepChain(v, Values(kind)), eq, true)
       <==> eq(Ref(v), Text("y")) || eq(Ref(v), Text("")) || (kind != DepBool && eq(Ref(v), Text("m")))
  {
    DepChainMeans(v, Values(kind), eq);
    AmongIsAllowed(kind, v, eq);
  }

  /** The guard of a dependent statement has the form that flattening expects, is never malformed, and holds exactly
      when each dependency, a literal m of a dep_tristate apart, is y or empty or, except for a dep_bool, m. */
  lemma GuardMeansDependencies(kind: Kind, deps: seq<string>, names: seq<string>, eq: Equality)
    requires Interned(names) && AllKnown(names, deps)
    ensures AllKnown(names, Kept(kind, deps))
    ensures var guard := Glue(Chains(kind, Kept(kind, deps), names));
            && IsDependency(guard) && !GuardValue(guard, eq).Malformed?
            && (GuardValue(guard, eq).Yes?
                <==> forall i :: 0 <= i < |deps| && !(kind == DepTristate && deps[i] == "CONSTANT_M") ==>
                       var v := Ref(IndexOf(names, deps[i]));
                       eq(v, Text("y")) || eq(v, Text("")) || (kind != DepBool && eq(v, Text("m"))))
    ensures GuardValue(Glue(Chains(kind, Kept(kind, deps), names)), eq)
         == if Satisfied(kind, deps, names, eq) then Yes else No
  {
    KeptKnown(kind, deps, names);
    var kept := Kept(kind, deps);
    var cs := Chains(kind, kept, names);
    forall i | 0 <= i < |cs|
      ensures Plain(cs[i]) && (TestValue(cs[i], eq, true) <==> Allows(kind, IndexOf(names, kept[i]), eq))
    {
      DepChainAllows(kind, IndexOf(names, kept[i]), eq);
    }
    SatisfiedKept(kind, deps, names, eq);
    GlueMeans(cs, eq);
    SatisfiedMeans(kind, deps, names, eq);
    hide DepChain, TestValue, Plain, Allows, Satisfied, Kept, Known;
    assert AllHold(cs, eq) == Satisfied(kind, deps, names, eq);
  }

  lemma SatisfiedMeans(kind: Kind, deps: seq<string>, names: seq<string>, eq: Equality)
    requires Interned(names) && AllKnown(names, deps)
    ensures Satisfied(kind, deps, names, eq)
       <==> forall i :: 0 <= i < |deps| && !(kind == DepTristate && deps[i] == "CONSTANT_M") ==>
              var v := Ref(IndexOf(names, deps[i]));
              eq(v, Text("y")) || eq(v, Text("")) || (kind != DepBool && eq(v, Text("m")))
  {
  }

  lemma GlueMeans(cs: seq<seq<Token>>, eq: Equality)
    requires AllPlain(cs)
    ensures IsDependency(Glue(cs)) && GuardValue(Glue(cs), eq) == if AllHold(cs, eq) then Yes else No
  {
    if |cs| > 0 {
      VisibleGlue(cs);
      TclReadsGlue(cs, eq, true);
      assert Glue(cs) != [];
    }
  }

  /** The printed text of a dependency is accepted, and its tokens are those of the chain. */
  lemma FakeIfIsRead(kind: Kind, name: string, names: seq<string>)
    requires Interned(names) && Known(names, name) && '"' !in name
    ensures IsTokenized(FakeIf(kind, name), names, DepChain(IndexOf(names, name), Values(kind)), names)
    ensures Plain(DepChain(IndexOf(names, name), Values(kind)))
    ensures forall eq: Equality ::
              var v := Ref(IndexOf(names, name));
              TestValue(DepChain(IndexOf(names, name), Values(kind)), eq, true)
              <==> eq(v, Text("y")) || eq(v, Text("")) || (kind != DepBool && eq(v, Text("m")))
  {
    FakeIfIsTokenized(kind, name, names);
    DepChainPlain(IndexOf(names, name), Values(kind));
    forall eq: Equality
      ensures var v := Ref(IndexOf(names, name));
              TestValue(DepChain(IndexOf(names, name), Values(kind)), eq, true)
              <==> eq(v, Text("y")) || eq(v, Text("")) || (kind != DepBool && eq(v, Text("m")))
    {
      DepChainAllows(kind, IndexOf(names, name), eq);
    }
  }

  lemma FakeIfIsTokenized(kind: Kind, name: string, names: seq<string>)
    requires Interned(names) && Known(names, name) && '"' !in name
    ensures IsTokenized(FakeIf(kind, name), names, DepChain(IndexOf(names, name), Values(kind)), names)
  {
    hide FakeIf, Interned, Known, IndexOf, IsTokenized, Show, Values, Compared, DepChain, Plain, Tokenized, Writable;
    var values := Values(kind);
    ValuesAreClean(kind);
    FakeIfShows(kind, name);
    TokensOfCompared(name, values, names);
    DepChainPlain(IndexOf(names, name), values);
    WritableCompared(name, values);
    ShownChainIsRead(Compared(name, values), names, "; then");
  }

  lemma ValuesAreClean(kind: Kind)
    ensures var values := Values(kind);
            |values| > 0 && forall i :: 0 <= i < |values| ==> '"' !in values[i] && (|values[i]| > 0 ==> values[i][0] != '$')
  {
  }

  lemma {:induction false} WritableCompared(name: string, values: seq<string>)
    requires '"' !in name && forall i :: 0 <= i < |values| ==> '"' !in values[i]
    ensures forall i :: 0 <= i < |Compared(name, values)| ==> Writable(Compared(name, values)[i])
    decreases |values|
  {
    if |values| > 0 { WritableCompared(name, values[1..]); }
  }

  // ----- the list -----

  /** Two chains of nodes, the first linked to the second, are one list. */
  lemma Linked(head: Condition, nodes: seq<Condition>, others: seq<Condition>)
    requires |nodes| > 0 && head == nodes[0] && Distinct(nodes + others)
    requires forall k {:trigger nodes[k]} :: 0 <= k < |nodes| - 1 ==> nodes[k].next == nodes[k + 1]
    requires nodes[|nodes| - 1].next == if |others| == 0 then null else others[0]
    requires forall k {:trigger others[k]} :: 0 <= k < |others| ==> others[k].next == Successor(others, k)
    ensures IsList(head, nodes + others) && TokensOf(nodes + others) == TokensOf(nodes) + TokensOf(others)
  {
    hide Distinct;
    var all := nodes + others;
    forall k {:trigger all[k]} | 0 <= k < |all| ensures all[k].next == Successor(all, k) {
      if k >= |nodes| { assert all[k] == others[k - |nodes|]; } else { assert all[k] == nodes[k]; }
    }
  }

  lemma TokensAre(nodes: seq<Condition>, ts: seq<Token>)
    requires |ts| == |nodes| && forall k {:trigger nodes[k]} :: 0 <= k < |nodes| ==> nodes[k].Value() == ts[k]
    ensures TokensOf(nodes) == ts
  {
  }

  /** Hangs a list behind another. */
  method Hang(list: Condition, last: Condition, ghost nodes: seq<Condition>, more: Condition?, ghost others: seq<Condition>)
    requires IsList(list, nodes) && |nodes| > 0 && last == nodes[|nodes| - 1]
    requires IsList(more, others) && Nodes(nodes) !! Nodes(others)
    modifies last`next
    ensures IsList(list, nodes + others)
    ensures TokensOf(nodes + others) == old(TokensOf(nodes)) + old(TokensOf(others))
  {
    DistinctJoin(nodes, others);
    LastIsDifferent(nodes);
    ghost var ts, us := TokensOf(nodes), TokensOf(others);
    hide Distinct, TokensOf;
    assert last in Nodes(nodes);
    assert forall k {:trigger others[k]} :: 0 <= k < |others| ==> others[k] in Nodes(others);
    assert forall k {:trigger nodes[k]} :: 0 <= k < |nodes| - 1 ==> nodes[k].next == Successor(nodes, k);
    assert forall k {:trigger others[k]} :: 0 <= k < |others| ==> others[k].next == Successor(others, k);
    last.next := more;
    Linked(list, nodes, others);
    TokensAre(nodes, ts);
    TokensAre(others, us);
  }

  lemma LastIsDifferent(nodes: seq<Condition>)
    requires Distinct(nodes) && |nodes| > 0
    ensures forall k {:trigger nodes[k]} :: 0 <= k < |nodes| - 1 ==> nodes[k] != nodes[|nodes| - 1]
  {
  }

  /** Hangs a list behind another and walks to its end. */
  method Attach(list: Condition, last: Condition, ghost nodes: seq<Condition>, more: Condition?, ghost others: seq<Condition>)
    returns (last': Condition, ghost nodes': seq<Condition>)
    requires IsList(list, nodes) && |nodes| > 0 && last == nodes[|nodes| - 1]
    requires IsList(more, others) && Nodes(nodes) !! Nodes(others)
    modifies Nodes(nodes)
    ensures nodes' == nodes + others && IsList(list, nodes') && last' == nodes'[|nodes'| - 1]
    ensures Nodes(nodes') == Nodes(nodes) + Nodes(others)
    ensures TokensOf(nodes') == old(TokensOf(nodes)) + old(TokensOf(others))
  {
    assert last in Nodes(nodes);
    Hang(list, last, nodes, more, others);
    hide Distinct;
    nodes' := nodes + others;
    last' := last;
    ghost var i := |nodes| - 1;
    while last'.next != null
      invariant |nodes| - 1 <= i < |nodes'| && last' == nodes'[i]
      decreases |nodes'| - i
    {
      assert nodes'[i].next == Successor(nodes', i);
      last', i := last'.next, i + 1;
    }
    assert nodes'[i].next == Successor(nodes', i);
  }

  lemma DistinctJoin(a: seq<Condition>, b: seq<Condition>)
    requires Distinct(a) && Distinct(b) && Nodes(a) !! Nodes(b)
    ensures Distinct(a + b)
  {
    forall i, j | 0 <= i < j < |a + b| ensures (a + b)[i] != (a + b)[j] {
      if i < |a| <= j { assert a[i] in Nodes(a) && b[j - |a|] in Nodes(b); }
    }
  }

  /** The tokens of one printed text; the list built so far is not touched. */
  method TokenizeBeside(kind: Kind, name: string, table: VariableTable, ghost list: Condition?, ghost nodes: seq<Condition>)
    returns (more: Condition?, ghost others: seq<Condition>)
    requires table.Valid() && Known(table.Names(), name) && '"' !in name && IsList(list, nodes)
    modifies table, table.table
    ensures table.Valid() && table.Names() == old(table.Names()) && (table.table == old(table.table) || fresh(table.table))
    ensures IsList(list, nodes) && TokensOf(nodes) == old(TokensOf(nodes))
    ensures IsList(more, others) && fresh(Nodes(others))
    ensures TokensOf(others) == DepChain(IndexOf(old(table.Names()), name), Values(kind))
  {
    hide Distinct, DepChain, Values, FakeIf;
    ghost var ts := TokensOf(nodes);
    FakeIfIsRead(kind, name, table.Names());
    var ok: bool;
    ok, more, others := TokenizeIf(FakeIf(kind, name), table);
    forall k | 0 <= k < |nodes| ensures nodes[k].next == Successor(nodes, k) && nodes[k].Value() == ts[k] {
      assert old(nodes[k].next) == Successor(nodes, k) && old(nodes[k].Value()) == ts[k];
    }
  }

  ghost function Begun(ts: seq<Token>): seq<Token> {
    (if |ts| == 0 then [] else ts + [GLUE]) + [LEFT]
  }

  /** `&&` if this is not the first dependency, and the parenthesis. */
  method OpenGroup(list: Condition?, last: Condition?, ghost nodes: seq<Condition>, ghost table: VariableTable)
    returns (list': Condition, last': Condition, ghost nodes': seq<Condition>)
    requires table.Valid() && IsList(list, nodes) && last == if |nodes| == 0 then null else nodes[|nodes| - 1]
    modifies Nodes(nodes)
    ensures table.Valid() && table.Names() == old(table.Names()) && table.table == old(table.table)
    ensures IsList(list', nodes') && |nodes'| > 0 && last' == nodes'[|nodes'| - 1]
    ensures forall n :: n in Nodes(nodes') ==> n in Nodes(nodes) || fresh(n)
    ensures TokensOf(nodes') == Begun(old(TokensOf(nodes)))
  {
    hide Distinct;
    var l, e := list, last;
    ghost var ns := nodes;
    if l != null {
      l, e, ns := AppendKeeping(l, e, ns, GLUE, table);
    }
    list', last', nodes' := AppendKeeping(l, e, ns, LEFT, table);
  }

  /** The tokens of the text. */
  method FillGroup(kind: Kind, name: string, list: Condition, last: Condition, ghost nodes: seq<Condition>,
                   table: VariableTable)
    returns (last': Condition, ghost nodes': seq<Condition>)
    requires table.Valid() && Known(table.Names(), name) && '"' !in name
    requires IsList(list, nodes) && |nodes| > 0 && last == nodes[|nodes| - 1]
    modifies Nodes(nodes), table, table.table
    ensures table.Valid() && table.Names() == old(table.Names()) && (table.table == old(table.table) || fresh(table.table))
    ensures IsList(list, nodes') && |nodes'| > 0 && last' == nodes'[|nodes'| - 1]
    ensures forall n :: n in Nodes(nodes') ==> n in Nodes(nodes) || fresh(n)
    ensures TokensOf(nodes') == old(TokensOf(nodes)) + DepChain(IndexOf(old(table.Names()), name), Values(kind))
  {
    hide Distinct, DepChain, Values, Known, IndexOf, Interned;
    var more, others := TokenizeBeside(kind, name, table, list, nodes);
    last', nodes' := Attach(list, last, nodes, more, others);
  }

  /** The guard, one group longer. */
  ghost function Longer(ts: seq<Token>, chain: seq<Token>): seq<Token> {
    Begun(ts) + chain + [RIGHT]
  }

  /** One dependency. */
  method AddGroup(kind: Kind, name: string, list: Condition?, last: Condition?, ghost nodes: seq<Condition>,
                  table: VariableTable)
    returns (list': Condition, last': Condition, ghost nodes': seq<Condition>)
    requires table.Valid() && Known(table.Names(), name) && '"' !in name
    requires IsList(list, nodes) && last == if |nodes| == 0 then null else nodes[|nodes| - 1]
    modifies Nodes(nodes), table, table.table
    ensures table.Valid() && table.Names() == old(table.Names()) && (table.table == old(table.table) || fresh(table.table))
    ensures IsList(list', nodes') && |nodes'| > 0 && last' == nodes'[|nodes'| - 1]
    ensures forall n :: n in Nodes(nodes') ==> n in Nodes(nodes) || fresh(n)
    ensures TokensOf(nodes')
            == Longer(old(TokensOf(nodes)), DepChain(IndexOf(old(table.Names()), name), Values(kind)))
  {
    hide Distinct, IsList, Nodes, TokensOf, DepChain, Values, Known, IndexOf, Interned;
    list', last', nodes' := OpenGroup(list, last, nodes, table);
    last', nodes' := FillGroup(kind, name, list', last', nodes', table);
    list', last', nodes' := AppendKeeping(list', last', nodes', RIGHT, table);
  }

  lemma {:induction false} GlueLonger(cs: seq<seq<Token>>, c: seq<Token>)
    ensures Glue(cs + [c]) == Longer(Glue(cs), c)
  {
    if |cs| == 0 {
      assert cs + [c] == [c];
    } else {
      assert |Glue(cs)| > 0;
      GlueAppend(cs, [c]);
      Assoc(Glue(cs) + [GLUE], [LEFT], c);
      Assoc(Glue(cs) + [GLUE], [LEFT] + c, [RIGHT]);
    }
  }

  function KeptOne(kind: Kind, d: string): seq<string> {
    if kind == DepTristate && d == "CONSTANT_M" then [] else [d]
  }

  lemma KeptFirst(kind: Kind, d: string, rest: seq<string>)
    ensures Kept(kind, [d] + rest) == KeptOne(kind, d) + Kept(kind, rest)
  {
    assert ([d] + rest)[1..] == rest;
  }

  lemma {:induction false} KeptStep(kind: Kind, deps: seq<string>, d: string)
    ensures Kept(kind, deps + [d]) == Kept(kind, deps) + KeptOne(kind, d)
    decreases |deps|
  {
    if |deps| == 0 {
      assert deps + [d] == [d] + [];
      KeptFirst(kind, d, []);
      assert KeptOne(kind, d) + [] == [] + KeptOne(kind, d);
    } else {
      hide Kept, KeptOne;
      var x, rest := deps[0], deps[1..];
      assert deps == [x] + rest;
      Assoc([x], rest, [d]);
      KeptFirst(kind, x, rest);
      KeptFirst(kind, x, rest + [d]);
      KeptStep(kind, rest, d);
      Assoc(KeptOne(kind, x), Kept(kind, rest), KeptOne(kind, d));
    }
  }

  lemma ChainsStep(kind: Kind, deps: seq<string>, d: string, names: seq<string>)
    requires Interned(names) && AllKnown(names, deps + [d])
    ensures AllKnown(names, deps) && Known(names, d)
    ensures Chains(kind, deps + [d], names) == Chains(kind, deps, names) + [DepChain(IndexOf(names, d), Values(kind))]
  {
    hide DepChain, Values, IndexOf, Known;
    assert forall i :: 0 <= i < |deps| ==> (deps + [d])[i] == deps[i];
    assert (deps + [d])[|deps|] == d;
  }

  /** The condition of a dep_bool, dep_mbool or dep_tristate statement, whose dependencies are in the table already. */
  method BuildGuard(kind: Kind, deps: seq<string>, table: VariableTable)
    returns (cond: Condition?, ghost nodes: seq<Condition>)
    requires IsDep(kind) && table.Valid() && AllKnown(table.Names(), deps)
    modifies table, table.table
    ensures table.Valid() && table.Names() == old(table.Names()) && AllKnown(table.Names(), Kept(kind, deps))
    ensures IsList(cond, nodes) && fresh(Nodes(nodes))
    ensures TokensOf(nodes) == Glue(Chains(kind, Kept(kind, deps), table.Names()))
    ensures forall eq: Equality ::
              GuardValue(TokensOf(nodes), eq) == if Satisfied(kind, deps, table.Names(), eq) then Yes else No
  {
    cond, nodes := GlueGroups(kind, deps, table);
    hide Satisfied, GuardValue, Glue, Chains, Kept, Known, AllKnown, Interned;
    GuardSatisfied(kind, deps, table.Names());
  }

  /** The loop over the dependencies. */
  method GlueGroups(kind: Kind, deps: seq<string>, table: VariableTable)
    returns (cond: Condition?, ghost nodes: seq<Condition>)
    requires IsDep(kind) && table.Valid() && AllKnown(table.Names(), deps)
    modifies table, table.table
    ensures table.Valid() && table.Names() == old(table.Names()) && AllKnown(table.Names(), Kept(kind, deps))
    ensures IsList(cond, nodes) && fresh(Nodes(nodes))
    ensures TokensOf(nodes) == Glue(Chains(kind, Kept(kind, deps), table.Names()))
  {
    hide DepChain, Values, IndexOf, Known, Distinct, Interned, AllKnown, Chains, Longer, Glue, Kept;
    hide IsList, Nodes, TokensOf, VariableTable.Names;
    cond, nodes := null, [];
    var last: Condition? := null;
    ghost var names := table.Names();
    EmptyList();
    NothingKept(kind, names);
    for i := 0 to |deps|
      invariant table.Valid() && table.Names() == names && (table.table == old(table.table) || fresh(table.table))
      invariant IsList(cond, nodes) && fresh(Nodes(nodes)) && last == if |nodes| == 0 then null else nodes[|nodes| - 1]
      invariant AllKnown(names, Kept(kind, deps[..i]))
      invariant TokensOf(nodes) == Glue(Chains(kind, Kept(kind, deps[..i]), names))
    {
      TakeDrop(deps, i);
      GuardStep(kind, deps, i, names);
      if !(kind == DepTristate && deps[i] == "CONSTANT_M") {
        cond, last, nodes := AddGroup(kind, deps[i], cond, last, nodes, table);
      }
    }
    assert deps[..|deps|] == deps;
  }

  lemma GuardSatisfied(kind: Kind, deps: seq<string>, names: seq<string>)
    requires Interned(names) && AllKnown(names, deps)
    ensures AllKnown(names, Kept(kind, deps))
    ensures forall eq: Equality :: GuardValue(Glue(Chains(kind, Kept(kind, deps), names)), eq)
                                   == if Satisfied(kind, deps, names, eq) then Yes else No
  {
    KeptKnown(kind, deps, names);
    forall eq: Equality ensures GuardValue(Glue(Chains(kind, Kept(kind, deps), names)), eq)
                                == if Satisfied(kind, deps, names, eq) then Yes else No {
      GuardMeansDependencies(kind, deps, names, eq);
    }
  }

  lemma NothingKept(kind: Kind, names: seq<string>)
    requires Interned(names)
    ensures AllKnown(names, Kept(kind, [])) && Glue(Chains(kind, Kept(kind, []), names)) == []
  {
  }

  lemma GuardStep(kind: Kind, deps: seq<string>, i: nat, names: seq<string>)
    requires Interned(names) && AllKnown(names, deps) && i < |deps| && AllKnown(names, Kept(kind, deps[..i]))
    ensures Known(names, deps[i]) && '"' !in deps[i] && AllKnown(names, Kept(kind, deps[..i + 1]))
    ensures var before := Glue(Chains(kind, Kept(kind, deps[..i]), names));
            Glue(Chains(kind, Kept(kind, deps[..i + 1]), names))
            == if kind == DepTristate && deps[i] == "CONSTANT_M" then before
               else Longer(before, DepChain(IndexOf(names, deps[i]), Values(kind)))
  {
    var d, kept := deps[i], Kept(kind, deps[..i]);
    assert deps[..i + 1] == deps[..i] + [d];
    KeptStep(kind, deps[..i], d);
    if kind == DepTristate && d == "CONSTANT_M" {
      assert kept + [] == kept;
    } else {
      assert AllKnown(names, kept + [d]);
      hide DepChain, Values, IndexOf, Known, Kept, AllKnown, Chains;
      ChainsStep(kind, kept, d, names);
      GlueLonger(Chains(kind, kept, names), DepChain(IndexOf(names, d), Values(kind)));
    }
  }
}
