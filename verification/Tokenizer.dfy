/** The tokenizer of `if` conditions (scripts/tkparse.c): one loop that reads, checks what may follow what, and interns,
    against a lexer followed by a check. */
module Tokenizer {
  import opened Conditions
  import opened CondLists
  import opened Sequences
  import opened Symbols

  datatype Lexeme = Sign(op: Op) | Word(text: string)

  datatype Lexed = Lexed(ls: seq<Lexeme>) | NotLexed

  predicate IsBlank(c: char) {
    c == ' ' || c == '\t'
  }

  // ----- the lexer -----

  function SkipBlanks(s: string): (r: string)
    ensures |r| <= |s| && (|r| > 0 ==> !IsBlank(r[0]))
  {
    if |s| > 0 && IsBlank(s[0]) then SkipBlanks(s[1..]) else s
  }

  datatype SignRead = NoSign | SignOf(op: Op, width: nat)

  function SignAt(s: string): (r: SignRead)
    ensures r.SignOf? ==> 1 <= r.width <= |s| && r.op in {And, Or, Neq, Eq, Bang}
  {
    if |s| >= 2 && s[0] == '-' && s[1] == 'a' then SignOf(And, 2)
    else if |s| >= 2 && s[0] == '-' && s[1] == 'o' then SignOf(Or, 2)
    else if |s| >= 2 && s[0] == '!' && s[1] == '=' then SignOf(Neq, 2)
    else if |s| >= 1 && s[0] == '=' then SignOf(Eq, 1)
    else if |s| >= 1 && s[0] == '!' then SignOf(Bang, 1)
    else NoSign
  }

  /** How far the closing quote is; the length of the text if there is none. */
  function QuoteEnd(s: string): (n: nat)
    ensures n <= |s| && (n < |s| ==> s[n] == '"') && forall i :: 0 <= i < n ==> s[i] != '"'
  {
    if |s| == 0 || s[0] == '"' then 0 else 1 + QuoteEnd(s[1..])
  }

  function Before(l: Lexeme, r: Lexed): Lexed {
    match r
    case Lexed(ls) => Lexed([l] + ls)
    case NotLexed => NotLexed
  }

  /** The lexemes up to the closing bracket. */
  function Lex(s: string): Lexed
    decreases |s|, 1
  {
    LexHere(SkipBlanks(s))
  }

  function LexHere(t: string): Lexed
    decreases |t|, 0
  {
    if |t| == 0 then NotLexed
    else if t[0] == ']' then Lexed([])
    else
      match SignAt(t)
      case SignOf(op, width) => Before(Sign(op), Lex(t[width..]))
      case NoSign =>
        if t[0] != '"' then NotLexed else
        var n := QuoteEnd(t[1..]);
        if n == |t| - 1 then NotLexed else Before(Word(t[1..1 + n]), Lex(t[n + 2..]))
  }

  function LexIf(s: string): Lexed {
    var t := SkipBlanks(s);
    if |t| == 0 || t[0] != '[' then NotLexed else Lex(t[1..])
  }

  // ----- what may follow what -----

  function OpOf(l: Lexeme): Op {
    match l
    case Sign(op) => op
    case Word(text) => if |text| > 0 && text[0] == '$' then Op.Variable else Op.Constant
  }

  predicate IsWordOp(op: Op) {
    op.Variable? || op.Constant?
  }

  datatype Previous = Nothing | Previous(op: Op)

  predicate MayFollow(prev: Previous, op: Op) {
    match op
    case And | Or | Neq | Eq => prev.Previous? && IsWordOp(prev.op)
    case Bang => prev.Nothing? || prev.op in {And, Or, Bang}
    case _ => prev.Nothing? || !IsWordOp(prev.op)
  }

  predicate Ordered(prev: Previous, ls: seq<Lexeme>)
    decreases |ls|
  {
    |ls| == 0 || (MayFollow(prev, OpOf(ls[0])) && Ordered(Previous(OpOf(ls[0])), ls[1..]))
  }

  function LastOp(prev: Previous, ls: seq<Lexeme>): Previous {
    if |ls| == 0 then prev else Previous(OpOf(ls[|ls| - 1]))
  }

  lemma {:induction false} OrderedAppend(prev: Previous, a: seq<Lexeme>, b: seq<Lexeme>)
    ensures Ordered(prev, a + b) <==> Ordered(prev, a) && Ordered(LastOp(prev, a), b)
    decreases |a|
  {
    if |a| == 0 {
      assert a + b == b;
    } else {
      assert (a + b)[1..] == a[1..] + b;
      OrderedAppend(Previous(OpOf(a[0])), a[1..], b);
    }
  }

  // ----- tokens -----

  /** The token of a lexeme, and the variable table after it. */
  ghost function TokenOf(l: Lexeme, names: seq<string>): (r: (Token, seq<string>))
    requires Interned(names)
    ensures Interned(r.1) && names <= r.1 && r.0.op == OpOf(l)
  {
    match l
    case Sign(op) => (Token(op, "", 0), names)
    case Word(text) =>
      if |text| > 0 && text[0] == '$' then
        var (now, index) := Intern(names, text[1..]);
        (Token(Op.Variable, "", index), now)
      else (Token(Op.Constant, text, 0), names)
  }

  ghost function TokensOfAll(ls: seq<Lexeme>, names: seq<string>): (r: (seq<Token>, seq<string>))
    requires Interned(names)
    ensures Interned(r.1) && |r.0| == |ls|
    decreases |ls|
  {
    if |ls| == 0 then ([], names) else
    var (before, now) := TokensOfAll(ls[..|ls| - 1], names);
    var (t, later) := TokenOf(ls[|ls| - 1], now);
    (before + [t], later)
  }

  /** The whole tokenizer; a syntax error ends the program. */
  predicate Accepts(s: string) {
    LexIf(s).Lexed? && Ordered(Nothing, LexIf(s).ls)
  }

  // ----- the loop -----

  lemma AppendOne(ls: seq<Lexeme>, l: Lexeme, names: seq<string>)
    requires Interned(names)
    ensures var (before, now) := TokensOfAll(ls, names);
            var (t, later) := TokenOf(l, now);
            TokensOfAll(ls + [l], names) == (before + [t], later)
  {
    assert (ls + [l])[..|ls|] == ls;
  }

  function Prepend(done: seq<Lexeme>, r: Lexed): Lexed {
    match r
    case Lexed(ls) => Lexed(done + ls)
    case NotLexed => NotLexed
  }

  lemma PrependBefore(done: seq<Lexeme>, l: Lexeme, r: Lexed)
    ensures Prepend(done, Before(l, r)) == Prepend(done + [l], r)
  {
    if r.Lexed? { Assoc(done, [l], r.ls); }
  }

  /** Once a lexeme is out of place, nothing that follows repairs it. */
  lemma OutOfPlace(done: seq<Lexeme>, l: Lexeme, r: Lexed)
    requires !MayFollow(LastOp(Nothing, done), OpOf(l))
    ensures Prepend(done + [l], r).Lexed? ==> !Ordered(Nothing, Prepend(done + [l], r).ls)
  {
    if r.Lexed? {
      Assoc(done, [l], r.ls);
      OrderedAppend(Nothing, done, [l] + r.ls);
    }
  }

  method SkipBlanksAt(s: string, start: nat) returns (p: nat)
    requires start <= |s|
    ensures start <= p <= |s| && SkipBlanks(s[start..]) == s[p..] && (p < |s| ==> !IsBlank(s[p]))
  {
    p := start;
    while p < |s| && IsBlank(s[p])
      invariant start <= p <= |s| && SkipBlanks(s[start..]) == SkipBlanks(s[p..])
    {
      assert s[p..][1..] == s[p + 1..];
      p := p + 1;
    }
  }

  method WordAt(s: string, start: nat) returns (n: nat)
    requires start <= |s|
    ensures n == QuoteEnd(s[start..])
  {
    n := 0;
    while start + n < |s| && s[start + n] != '"'
      invariant start + n <= |s| && QuoteEnd(s[start..]) == n + QuoteEnd(s[start + n..])
    {
      assert s[start + n..][1..] == s[start + n + 1..];
      n := n + 1;
    }
  }

  method SignHere(s: string, p: nat) returns (r: SignRead)
    requires p < |s|
    ensures r == SignAt(s[p..])
  {
    if s[p] == '-' && p + 1 < |s| && s[p + 1] == 'a' { return SignOf(And, 2); }
    if s[p] == '-' && p + 1 < |s| && s[p + 1] == 'o' { return SignOf(Or, 2); }
    if s[p] == '!' && p + 1 < |s| && s[p + 1] == '=' { return SignOf(Neq, 2); }
    if s[p] == '=' { return SignOf(Eq, 1); }
    if s[p] == '!' { return SignOf(Bang, 1); }
    return NoSign;
  }

  lemma DropDrop(s: string, p: nat, k: nat)
    requires p + k <= |s|
    ensures s[p..][k..] == s[p + k..]
  {
  }

  /** One lexeme of the text at p, where no blank stands. */
  method NextLexeme(s: string, p: nat) returns (l: Lexeme, q: nat, ok: bool)
    requires p < |s| && s[p] != ']'
    ensures ok ==> p < q <= |s| && LexHere(s[p..]) == Before(l, Lex(s[q..]))
    ensures !ok ==> LexHere(s[p..]).NotLexed?
  {
    hide Lex, SignAt, QuoteEnd;
    l, q, ok := Sign(Eq), p, true;
    var sign := SignHere(s, p);
    match sign {
      case SignOf(op, width) =>
        l, q := Sign(op), p + width;
        DropDrop(s, p, width);
      case NoSign =>
        if s[p] != '"' { return l, q, false; }
        var n := WordAt(s, p + 1);
        DropDrop(s, p, 1);
        if p + 1 + n == |s| { return l, q, false; }
        l, q := Word(s[p + 1..p + 1 + n]), p + 2 + n;
        DropDrop(s, p, n + 2);
        assert s[p..][1..1 + n] == s[p + 1..p + 1 + n];
    }
  }

  /** get_varnum does not touch the list. */
  method Number(text: string, table: VariableTable, ghost list: Condition?, ghost nodes: seq<Condition>)
    returns (index: nat)
    requires table.Valid() && IsList(list, nodes)
    modifies table, table.table
    ensures table.Valid() && (table.table == old(table.table) || fresh(table.table))
    ensures (table.Names(), index) == Intern(old(table.Names()), text)
    ensures IsList(list, nodes) && TokensOf(nodes) == old(TokensOf(nodes))
  {
    ghost var ts := TokensOf(nodes);
    hide Distinct;
    index := table.GetVarnum(text);
    forall k | 0 <= k < |nodes| ensures nodes[k].next == Successor(nodes, k) && nodes[k].Value() == ts[k] {
      assert old(nodes[k].next) == Successor(nodes, k) && old(nodes[k].Value()) == ts[k];
    }
  }

  /** The node for a lexeme, at the end of the list. */
  method AppendLexeme(l: Lexeme, list: Condition?, last: Condition?, ghost nodes: seq<Condition>, table: VariableTable)
    returns (list': Condition, last': Condition, ghost nodes': seq<Condition>)
    requires table.Valid() && IsList(list, nodes) && last == if |nodes| == 0 then null else nodes[|nodes| - 1]
    modifies Nodes(nodes), table, table.table
    ensures table.Valid() && (table.table == old(table.table) || fresh(table.table))
    ensures IsList(list', nodes') && last' == nodes'[|nodes'| - 1] && |nodes'| == |nodes| + 1
    ensures Nodes(nodes') == Nodes(nodes) + {last'} && fresh(last')
    ensures var (t, names) := TokenOf(l, old(table.Names()));
            TokensOf(nodes') == old(TokensOf(nodes)) + [t] && table.Names() == names
  {
    hide Interned, Intern;
    var t: Token;
    match l {
      case Sign(op) =>
        t := Token(op, "", 0);
      case Word(text) =>
        if |text| > 0 && text[0] == '$' {
          var index := Number(text[1..], table, list, nodes);
          t := Token(Op.Variable, "", index);
        } else {
          t := Token(Op.Constant, text, 0);
        }
    }
    list', last', nodes' := AppendKeeping(list, last, nodes, t, table);
  }

  /** Nor does a new node touch the table. */
  method AppendKeeping(list: Condition?, last: Condition?, ghost nodes: seq<Condition>, t: Token, ghost table: VariableTable)
    returns (list': Condition, last': Condition, ghost nodes': seq<Condition>)
    requires table.Valid() && IsList(list, nodes) && last == if |nodes| == 0 then null else nodes[|nodes| - 1]
    modifies Nodes(nodes)
    ensures table.Valid() && table.Names() == old(table.Names()) && table.table == old(table.table)
    ensures IsList(list', nodes') && last' == nodes'[|nodes'| - 1] && |nodes'| == |nodes| + 1
    ensures Nodes(nodes') == Nodes(nodes) + {last'} && fresh(last')
    ensures TokensOf(nodes') == old(TokensOf(nodes)) + [t]
  {
    hide Distinct;
    list', last', nodes' := Append(list, last, nodes, t);
    assert unchanged(table) && unchanged(table.table);
  }

  /** tokenize_if has read these lexemes and stands at p. */
  predicate Reading(s: string, start: nat, done: seq<Lexeme>, p: nat) {
    start <= p <= |s| && Lex(s[start..]) == Prepend(done, Lex(s[p..])) && Ordered(Nothing, done)
  }

  lemma ReadStep(s: string, start: nat, done: seq<Lexeme>, p: nat, p': nat, l: Lexeme, q: nat)
    requires Reading(s, start, done, p) && p <= p' <= |s| && SkipBlanks(s[p..]) == s[p'..]
    requires p' < q <= |s| && LexHere(s[p'..]) == Before(l, Lex(s[q..]))
    ensures MayFollow(LastOp(Nothing, done), OpOf(l)) ==> Reading(s, start, done + [l], q)
    ensures !MayFollow(LastOp(Nothing, done), OpOf(l)) ==>
              !(Lex(s[start..]).Lexed? && Ordered(Nothing, Lex(s[start..]).ls))
  {
    hide LexHere, MayFollow, OpOf, SkipBlanks;
    var r := Lex(s[q..]);
    PrependBefore(done, l, r);
    hide Lex;
    if MayFollow(LastOp(Nothing, done), OpOf(l)) {
      OrderedAppend(Nothing, done, [l]);
      assert Ordered(LastOp(Nothing, done), [l]);
    } else {
      OutOfPlace(done, l, r);
    }
  }

  lemma ReadEnd(s: string, start: nat, done: seq<Lexeme>, p: nat, p': nat)
    requires Reading(s, start, done, p) && p <= p' <= |s| && SkipBlanks(s[p..]) == s[p'..]
    ensures p' == |s| ==> Lex(s[start..]) == NotLexed
    ensures p' < |s| && s[p'] == ']' ==> Lex(s[start..]) == Lexed(done) && Ordered(Nothing, done)
    ensures p' < |s| && s[p'] != ']' && LexHere(s[p'..]).NotLexed? ==> Lex(s[start..]).NotLexed?
  {
    assert Lex(s[p..]) == LexHere(s[p'..]);
    assert done + [] == done;
  }

  /** What the method must deliver for a text. */
  ghost predicate IsTokenized(s: string, names: seq<string>, ts: seq<Token>, now: seq<string>)
    requires Interned(names)
  {
    Accepts(s) && (ts, now) == TokensOfAll(LexIf(s).ls, names)
  }

  datatype Next = Bracket | Bad | Got(l: Lexeme, q: nat)

  /** The next lexeme, blanks skipped. */
  method ReadNext(s: string, p: nat, ghost start: nat, ghost done: seq<Lexeme>) returns (next: Next)
    requires Reading(s, start, done, p)
    ensures next.Bracket? ==> Lex(s[start..]) == Lexed(done) && Ordered(Nothing, done)
    ensures next.Bad? ==> Lex(s[start..]).NotLexed?
    ensures next.Got? && MayFollow(LastOp(Nothing, done), OpOf(next.l)) ==>
              p < next.q <= |s| && Reading(s, start, done + [next.l], next.q)
    ensures next.Got? && !MayFollow(LastOp(Nothing, done), OpOf(next.l)) ==>
              !(Lex(s[start..]).Lexed? && Ordered(Nothing, Lex(s[start..]).ls))
  {
    hide Lex, LexHere, SkipBlanks, Ordered, MayFollow, OpOf;
    var p' := SkipBlanksAt(s, p);
    ReadEnd(s, start, done, p, p');
    if p' == |s| { return Bad; }
    if s[p'] == ']' { return Bracket; }
    var l, q, read := NextLexeme(s, p');
    if !read { return Bad; }
    ReadStep(s, start, done, p, p', l, q);
    return Got(l, q);
  }

  /** The list and the table are those of the lexemes read so far. */
  ghost predicate Built(list: Condition?, last: Condition?, nodes: seq<Condition>, table: VariableTable, done: seq<Lexeme>,
                        names: seq<string>)
    requires Interned(names)
    reads Nodes(nodes), table, table.table
  {
    && table.Valid() && IsList(list, nodes) && |nodes| == |done|
    && last == (if |nodes| == 0 then null else nodes[|nodes| - 1])
    && (TokensOf(nodes), table.Names()) == TokensOfAll(done, names)
    && LastOp(Nothing, done) == LastOfList(nodes)
  }

  ghost function LastOfList(nodes: seq<Condition>): Previous
    reads Nodes(nodes)
  {
    if |nodes| == 0 then Nothing else Previous(nodes[|nodes| - 1].op)
  }

  method Build(l: Lexeme, list: Condition?, last: Condition?, ghost nodes: seq<Condition>, table: VariableTable,
               ghost done: seq<Lexeme>, ghost names: seq<string>)
    returns (list': Condition, last': Condition, ghost nodes': seq<Condition>)
    requires Interned(names) && Built(list, last, nodes, table, done, names)
    modifies Nodes(nodes), table, table.table
    ensures Built(list', last', nodes', table, done + [l], names)
    ensures Nodes(nodes') == Nodes(nodes) + {last'} && fresh(last')
    ensures table.table == old(table.table) || fresh(table.table)
  {
    hide Interned, TokensOfAll, TokenOf, OpOf, Distinct;
    AppendOne(done, l, names);
    list', last', nodes' := AppendLexeme(l, list, last, nodes, table);
    TokenKind(l, old(table.Names()));
    assert TokensOf(nodes')[|nodes|] == last'.Value();
  }

  lemma TokenKind(l: Lexeme, names: seq<string>)
    requires Interned(names)
    ensures TokenOf(l, names).0.op == OpOf(l)
  {
  }

  /** tokenize_if: it accepts a text exactly when that splits into lexemes in order, and then the list holds the
      token of each lexeme, with its variables interned from left to right. */
  method TokenizeIf(s: string, table: VariableTable)
    returns (ok: bool, list: Condition?, ghost nodes: seq<Condition>)
    requires table.Valid()
    modifies table, table.table
    ensures table.Valid() && (table.table == old(table.table) || fresh(table.table))
    ensures ok <==> Accepts(s)
    ensures ok ==> && IsList(list, nodes) && fresh(Nodes(nodes))
                   && IsTokenized(s, old(table.Names()), TokensOf(nodes), table.Names())
  {
    hide Lex, LexHere, SkipBlanks, Ordered, MayFollow, OpOf, Distinct, Interned, TokensOfAll, TokenOf, Reading;
    ok, list, nodes := false, null, [];
    var start := SkipBlanksAt(s, 0);
    assert s[0..] == s;
    if start == |s| || s[start] != '[' { return; }
    DropDrop(s, start, 1);
    start := start + 1;
    var p := start;
    var last: Condition? := null;
    ghost var done, names := [], table.Names();
    StartReading(s, start, names);
    NothingBuilt(table);
    while true
      invariant Reading(s, start, done, p) && p <= |s|
      invariant Built(list, last, nodes, table, done, names) && fresh(Nodes(nodes))
      invariant table.table == old(table.table) || fresh(table.table)
      decreases |s| - p
    {
      var next := ReadNext(s, p, start, done);
      match next {
        case Bracket => return true, list, nodes;
        case Bad => return;
        case Got(l, q) =>
          if !MayFollow(if last == null then Nothing else Previous(last.op), OpOf(l)) { return; }
          list, last, nodes := Build(l, list, last, nodes, table, done, names);
          done, p := done + [l], q;
      }
    }
  }

  lemma NothingBuilt(table: VariableTable)
    requires table.Valid()
    ensures Built(null, null, [], table, [], table.Names()) && Nodes([]) == {}
  {
  }

  lemma StartReading(s: string, start: nat, names: seq<string>)
    requires start <= |s| && Interned(names)
    ensures Reading(s, start, [], start)
  {
    var r := Lex(s[start..]);
    if r.Lexed? { assert [] + r.ls == r.ls; }
  }

  // ----- printing and reading back -----

  function ShowOne(l: Lexeme): string {
    match l
    case Sign(op) =>
      (match op
       case And => "-a"
       case Or => "-o"
       case Neq => "!="
       case Eq => "="
       case _ => "!")
    case Word(text) => "\"" + text + "\""
  }

  function Show(ls: seq<Lexeme>): string {
    if |ls| == 0 then "" else " " + ShowOne(ls[0]) + Show(ls[1..])
  }

  /** A lexeme that can be written down. */
  predicate Writable(l: Lexeme) {
    match l
    case Sign(op) => op in {And, Or, Neq, Eq, Bang}
    case Word(text) => '"' !in text
  }

  lemma ReadSign(op: Op, rest: string)
    requires Writable(Sign(op)) && (op.Bang? && |rest| > 0 ==> rest[0] != '=')
    ensures LexHere(ShowOne(Sign(op)) + rest) == Before(Sign(op), Lex(rest))
  {
    var t := ShowOne(Sign(op)) + rest;
    SignAtHead(op, rest);
    hide SignAt, Lex, ShowOne;
    assert t[|ShowOne(Sign(op))|..] == rest;
  }

  lemma SignAtHead(op: Op, rest: string)
    requires Writable(Sign(op)) && (op.Bang? && |rest| > 0 ==> rest[0] != '=')
    ensures var t := ShowOne(Sign(op)) + rest;
            |t| > 0 && t[0] != ']' && SignAt(t) == SignOf(op, |ShowOne(Sign(op))|)
  {
  }

  lemma ReadWord(text: string, rest: string)
    requires '"' !in text
    ensures LexHere(ShowOne(Word(text)) + rest) == Before(Word(text), Lex(rest))
  {
    hide Lex, QuoteEnd;
    var t := ShowOne(Word(text)) + rest;
    assert t[1..] == text + "\"" + rest;
    WordEnds(text, rest);
    assert t[1..1 + |text|] == text && t[|text| + 2..] == rest;
  }

  /** Nothing but blanks and tabs, and not even those. */
  predicate IsGap(s: string) {
    forall i :: 0 <= i < |s| ==> s[i] == ' ' || s[i] == '\t'
  }

  lemma {:induction false} SkipGap(gap: string, t: string)
    requires IsGap(gap) && |t| > 0 && t[0] != ' ' && t[0] != '\t'
    ensures SkipBlanks(gap + t) == t
    decreases |gap|
  {
    if |gap| == 0 {
      assert gap + t == t;
    } else {
      assert (gap + t)[1..] == gap[1..] + t;
      SkipGap(gap[1..], t);
    }
  }

  lemma ShownStart(l: Lexeme)
    requires Writable(l)
    ensures |ShowOne(l)| > 0 && ShowOne(l)[0] in {'-', '!', '=', '"'}
  {
  }

  lemma ReadOne(gap: string, l: Lexeme, rest: string)
    requires IsGap(gap) && Writable(l) && (l == Sign(Bang) && |rest| > 0 ==> rest[0] != '=')
    ensures Lex(gap + ShowOne(l) + rest) == Before(l, Lex(rest))
  {
    hide LexHere, SkipBlanks, ShowOne, IsBlank, IsGap;
    ShownStart(l);
    Assoc(gap, ShowOne(l), rest);
    SkipGap(gap, ShowOne(l) + rest);
    match l
    case Sign(op) => ReadSign(op, rest);
    case Word(text) => ReadWord(text, rest);
  }

  lemma {:induction false} ShowAppend(a: seq<Lexeme>, b: seq<Lexeme>)
    ensures Show(a + b) == Show(a) + Show(b)
    decreases |a|
  {
    if |a| == 0 {
      assert a + b == b;
    } else {
      assert (a + b)[1..] == a[1..] + b;
      ShowAppend(a[1..], b);
      Assoc(" " + ShowOne(a[0]), Show(a[1..]), Show(b));
    }
  }

  lemma {:induction false} WordEnds(text: string, rest: string)
    requires '"' !in text
    ensures QuoteEnd(text + "\"" + rest) == |text|
    decreases |text|
  {
    var s := text + "\"" + rest;
    if |text| > 0 {
      assert s[1..] == text[1..] + "\"" + rest;
      WordEnds(text[1..], rest);
    }
  }

  /** The lexemes with these gaps before them and before the bracket. */
  function Spaced(ls: seq<Lexeme>, gaps: seq<string>): string
    requires |gaps| == |ls| + 1
  {
    if |ls| == 0 then gaps[0] + "]" else gaps[0] + ShowOne(ls[0]) + Spaced(ls[1..], gaps[1..])
  }

  predicate AllGaps(gaps: seq<string>) {
    forall i :: 0 <= i < |gaps| ==> IsGap(gaps[i])
  }

  /** A `=` stands behind a `!`. */
  predicate Collides(ls: seq<Lexeme>, i: nat)
    requires i < |ls|
  {
    i > 0 && ls[i - 1] == Sign(Bang) && ls[i] == Sign(Eq)
  }

  /** No `!` runs into a `=`. */
  predicate Apart(ls: seq<Lexeme>, gaps: seq<string>)
    requires |gaps| == |ls| + 1
  {
    forall i :: 0 <= i < |ls| && Collides(ls, i) ==> gaps[i] != ""
  }

  lemma SpacedStart(ls: seq<Lexeme>, gaps: seq<string>, tail: string)
    requires |gaps| == |ls| + 1 && IsGap(gaps[0])
    requires |ls| > 0 ==> Writable(ls[0]) && (ls[0] == Sign(Eq) ==> gaps[0] != "")
    ensures var s := Spaced(ls, gaps) + tail; |s| > 0 && s[0] != '='
  {
    var s := Spaced(ls, gaps) + tail;
    if gaps[0] != "" {
      assert s[0] == gaps[0][0];
    } else if |ls| > 0 {
      assert s[0] == ShowOne(ls[0])[0];
    }
  }

  /** Whatever can be written down is read back, with any gaps in between and whatever follows the bracket. */
  lemma {:induction false} LexReadsSpaced(ls: seq<Lexeme>, gaps: seq<string>, tail: string)
    requires |gaps| == |ls| + 1 && AllGaps(gaps) && Apart(ls, gaps)
    requires forall i :: 0 <= i < |ls| ==> Writable(ls[i])
    ensures Lex(Spaced(ls, gaps) + tail) == Lexed(ls)
    decreases |ls|
  {
    if |ls| == 0 {
      SkipGap(gaps[0], "]" + tail);
      assert Spaced(ls, gaps) + tail == gaps[0] + ("]" + tail);
    } else {
      hide Lex, ShowOne, Writable, IsGap;
      var rest := Spaced(ls[1..], gaps[1..]) + tail;
      Assoc(gaps[0] + ShowOne(ls[0]), Spaced(ls[1..], gaps[1..]), tail);
      if ls[0] == Sign(Bang) { SpacedStart(ls[1..], gaps[1..], tail); }
      ReadOne(gaps[0], ls[0], rest);
      LexReadsSpaced(ls[1..], gaps[1..], tail);
    }
  }

  // ----- and nothing else is read -----

  /** The text is these lexemes with these gaps, the bracket, and the tail. */
  predicate WrittenAs(s: string, ls: seq<Lexeme>, gaps: seq<string>, tail: string) {
    && |gaps| == |ls| + 1 && AllGaps(gaps) && Apart(ls, gaps) && (forall i :: 0 <= i < |ls| ==> Writable(ls[i]))
    && s == Spaced(ls, gaps) + tail
  }

  lemma {:induction false} SkippedIsGap(s: string) returns (gap: string)
    ensures IsGap(gap) && s == gap + SkipBlanks(s)
    decreases |s|
  {
    gap := "";
    if |s| > 0 && IsBlank(s[0]) {
      var more := SkippedIsGap(s[1..]);
      gap := [s[0]] + more;
      assert s == [s[0]] + s[1..];
    } else {
      assert s == "" + SkipBlanks(s);
    }
  }

  /** What the lexer takes for a lexeme at the head of a text that has one there. */
  lemma HereIsWritten(t: string, ls: seq<Lexeme>) returns (rest: string)
    requires |t| > 0 && t[0] != ']' && LexHere(t) == Lexed(ls)
    ensures |ls| > 0 && |rest| < |t| && Lex(rest) == Lexed(ls[1..])
    ensures Writable(ls[0]) && t == ShowOne(ls[0]) + rest
    ensures ls[0] == Sign(Bang) && |rest| > 0 ==> rest[0] != '='
  {
    hide Lex;
    match SignAt(t)
    case SignOf(op, width) =>
      rest := t[width..];
      SignIsWritten(t, op, width);
    case NoSign =>
      var n := QuoteEnd(t[1..]);
      rest := t[n + 2..];
      WordIsWritten(t, n);
  }

  lemma SignIsWritten(t: string, op: Op, width: nat)
    requires SignAt(t) == SignOf(op, width)
    ensures Writable(Sign(op)) && t == ShowOne(Sign(op)) + t[width..] && (op.Bang? && |t| > 1 ==> t[1] != '=')
  {
    assert t == t[..width] + t[width..];
    if width == 2 { assert t[..2] == [t[0], t[1]]; } else { assert t[..1] == [t[0]]; }
  }

  lemma WordIsWritten(t: string, n: nat)
    requires |t| > 1 && t[0] == '"' && n == QuoteEnd(t[1..]) && n < |t| - 1
    ensures Writable(Word(t[1..1 + n])) && t == ShowOne(Word(t[1..1 + n])) + t[n + 2..]
  {
    var text := t[1..1 + n];
    assert forall i :: 0 <= i < n ==> text[i] == t[1..][i];
    hide QuoteEnd;
    assert t[n + 1] == t[1..][n];
    assert t == "\"" + text + "\"" + t[n + 2..];
  }

  lemma {:induction false} LexedWasWritten(s: string, ls: seq<Lexeme>) returns (gaps: seq<string>, tail: string)
    requires Lex(s) == Lexed(ls)
    ensures WrittenAs(s, ls, gaps, tail)
    decreases |s|
  {
    hide ShowOne, Writable, IsGap;
    var gap := SkippedIsGap(s);
    var t := SkipBlanks(s);
    if t[0] == ']' {
      gaps, tail := [gap], t[1..];
      assert t == "]" + tail;
      Assoc(gap, "]", tail);
    } else {
      var rest := HereIsWritten(t, ls);
      var more;
      hide Lex;
      more, tail := LexedWasWritten(rest, ls[1..]);
      gaps := [gap] + more;
      WrittenFirst(s, gap, ls, more, rest, tail);
    }
  }

  lemma BeginsWithEquals(s: string, ls: seq<Lexeme>, gaps: seq<string>, tail: string)
    requires WrittenAs(s, ls, gaps, tail) && |ls| > 0 && ls[0] == Sign(Eq) && gaps[0] == ""
    ensures |s| > 0 && s[0] == '='
  {
    assert Spaced(ls, gaps) == "" + "=" + Spaced(ls[1..], gaps[1..]);
  }

  lemma WrittenFirst(s: string, gap: string, ls: seq<Lexeme>, more: seq<string>, rest: string, tail: string)
    requires IsGap(gap) && |ls| > 0 && Writable(ls[0]) && s == gap + (ShowOne(ls[0]) + rest)
    requires WrittenAs(rest, ls[1..], more, tail) && (ls[0] == Sign(Bang) && |rest| > 0 ==> rest[0] != '=')
    ensures WrittenAs(s, ls, [gap] + more, tail)
  {
    hide Writable, IsGap;
    var gaps := [gap] + more;
    assert gaps[1..] == more;
    Assoc(gap, ShowOne(ls[0]), rest);
    Assoc(gap + ShowOne(ls[0]), Spaced(ls[1..], more), tail);
    if |ls| > 1 && ls[1] == Sign(Eq) && more[0] == "" { BeginsWithEquals(rest, ls[1..], more, tail); }
    forall i | 0 <= i < |ls| && Collides(ls, i) ensures gaps[i] != "" {
      if i > 1 { assert Collides(ls[1..], i - 1); }
    }
  }

  /** The condition in its brackets is written with these lexemes. */
  ghost predicate IsWritten(s: string, ls: seq<Lexeme>) {
    exists gap, body, gaps, tail :: IsGap(gap) && WrittenAs(body, ls, gaps, tail) && s == gap + "[" + body
  }

  lemma OpenedGap(gap: string, body: string)
    requires IsGap(gap)
    ensures LexIf(gap + "[" + body) == Lex(body)
  {
    hide Lex;
    var t := "[" + body;
    assert gap + "[" + body == gap + t && t[1..] == body;
    SkipGap(gap, t);
  }

  /** A text is read as these lexemes if and only if it is written with them: any gaps in between, anything behind the
      bracket. */
  lemma LexIfIsWritten(s: string, ls: seq<Lexeme>)
    ensures LexIf(s) == Lexed(ls) <==> IsWritten(s, ls)
  {
    hide Lex, Spaced, Writable, IsGap, SkipBlanks, AllGaps, Apart;
    if gap, body, gaps, tail :| IsGap(gap) && WrittenAs(body, ls, gaps, tail) && s == gap + "[" + body {
      OpenedGap(gap, body);
      LexReadsSpaced(ls, gaps, tail);
    }
    if LexIf(s) == Lexed(ls) {
      var gap := SkippedIsGap(s);
      var body := SkipBlanks(s)[1..];
      assert SkipBlanks(s) == "[" + body;
      Assoc(gap, "[", body);
      var gaps, tail := LexedWasWritten(body, ls);
    }
  }

  /** A `-a`, `-o`, `=` or `!=` stands behind a word, a `!` at the beginning or behind a `-a`, a `-o` or a `!`, and a
      word at the beginning or behind no word. */
  predicate InPlace(ls: seq<Lexeme>, i: nat)
    requires i < |ls|
  {
    if ls[i].Word? then i == 0 || ls[i - 1].Sign?
    else if ls[i] == Sign(Bang) then i == 0 || ls[i - 1] in {Sign(And), Sign(Or), Sign(Bang)}
    else i > 0 && ls[i - 1].Word?
  }

  /** That is all that the program asks of their order. */
  lemma {:induction false} OrderedIff(ls: seq<Lexeme>)
    requires forall i :: 0 <= i < |ls| ==> Writable(ls[i])
    ensures Ordered(Nothing, ls) <==> forall i :: 0 <= i < |ls| ==> InPlace(ls, i)
    decreases |ls|
  {
    if |ls| > 0 {
      var n := |ls| - 1;
      assert ls == ls[..n] + [ls[n]];
      OrderedIff(ls[..n]);
      OrderedAppend(Nothing, ls[..n], [ls[n]]);
      LastInPlace(ls);
      assert forall i :: 0 <= i < n ==> (InPlace(ls, i) <==> InPlace(ls[..n], i));
    }
  }

  lemma LastInPlace(ls: seq<Lexeme>)
    requires |ls| > 0 && Writable(ls[|ls| - 1]) && (|ls| > 1 ==> Writable(ls[|ls| - 2]))
    ensures Ordered(LastOp(Nothing, ls[..|ls| - 1]), [ls[|ls| - 1]]) <==> InPlace(ls, |ls| - 1)
  {
  }

  /** A chain of comparisons, each with at most one `!`, has its lexemes in order. */
  lemma {:induction false} ChainIsOrdered(prev: Previous, ls: seq<Lexeme>, ts: seq<Token>)
    requires |ls| == |ts| && (forall i {:trigger ts[i]} :: 0 <= i < |ts| ==> ts[i].op == OpOf(ls[i]))
    requires Tokenized(ts) && (prev.Nothing? || prev.op in {And, Or})
    ensures Ordered(prev, ls)
    decreases |ls|
  {
    var k := if ts[0].op.Bang? then 1 else 0;
    var us := Unbanged(ts);
    assert us == ts[k..] && us[0] == ts[k] && us[1] == ts[k + 1] && us[2] == ts[k + 2];
    var head := ls[..k + 3];
    assert ls == head + ls[k + 3..];
    OrderedAppend(prev, head, ls[k + 3..]);
    assert Ordered(prev, head) by { HeadIsOrdered(prev, head, k); }
    if |us| > 3 {
      assert us[3] == ts[k + 3] && us[4..] == ts[k + 4..];
      ChainTail(ts);
      ChainIsOrdered(Previous(ts[k + 3].op), ls[k + 4..], ts[k + 4..]);
      assert ls[k + 3..][1..] == ls[k + 4..];
    }
  }

  lemma HeadIsOrdered(prev: Previous, head: seq<Lexeme>, k: nat)
    requires k <= 1 && |head| == k + 3 && (prev.Nothing? || prev.op in {And, Or})
    requires k == 1 ==> OpOf(head[0]).Bang?
    requires IsWordOp(OpOf(head[k])) && OpOf(head[k + 1]) in {Eq, Neq} && IsWordOp(OpOf(head[k + 2]))
    ensures Ordered(prev, head)
  {
    var a, b, c := head[k], head[k + 1], head[k + 2];
    assert head[k..] == [a, b, c] && [a, b, c][1..] == [b, c] && [b, c][1..] == [c] && [c][1..] == [];
    assert Ordered(Previous(OpOf(b)), [c]) && Ordered(Previous(OpOf(a)), [b, c]);
    if k == 1 { assert head[1..] == [a, b, c]; }
  }

  /** A condition is accepted if and only if it is written with lexemes in their places. */
  lemma AcceptsIff(s: string)
    ensures Accepts(s) <==> exists ls :: IsWritten(s, ls) && forall i :: 0 <= i < |ls| ==> InPlace(ls, i)
  {
    hide LexIf, Ordered, InPlace;
    if Accepts(s) {
      var ls := LexIf(s).ls;
      LexIfIsWritten(s, ls);
      WrittenIsWritable(s, ls);
      OrderedIff(ls);
    }
    if ls :| IsWritten(s, ls) && forall i :: 0 <= i < |ls| ==> InPlace(ls, i) {
      LexIfIsWritten(s, ls);
      WrittenIsWritable(s, ls);
      OrderedIff(ls);
    }
  }

  lemma WrittenIsWritable(s: string, ls: seq<Lexeme>)
    requires IsWritten(s, ls)
    ensures forall i :: 0 <= i < |ls| ==> Writable(ls[i])
  {
    hide Writable, Spaced, AllGaps, Apart, IsGap;
  }

  lemma OrderedIsApart(ls: seq<Lexeme>, gaps: seq<string>)
    requires |gaps| == |ls| + 1 && Ordered(Nothing, ls) && (forall i :: 0 <= i < |ls| ==> Writable(ls[i]))
    ensures Apart(ls, gaps)
  {
    OrderedIff(ls);
    forall i | 0 <= i < |ls| ensures !Collides(ls, i) { PlacedApart(ls, i); }
  }

  lemma SpacedIsWritten(gap: string, ls: seq<Lexeme>, gaps: seq<string>, tail: string)
    requires IsGap(gap) && |gaps| == |ls| + 1 && AllGaps(gaps) && Apart(ls, gaps)
    requires forall i :: 0 <= i < |ls| ==> Writable(ls[i])
    ensures IsWritten(gap + "[" + Spaced(ls, gaps) + tail, ls)
  {
    hide Writable, Spaced, AllGaps, Apart, IsGap;
    var body := Spaced(ls, gaps) + tail;
    Assoc(gap + "[", Spaced(ls, gaps), tail);
    assert WrittenAs(body, ls, gaps, tail);
  }

  lemma PlacedApart(ls: seq<Lexeme>, i: nat)
    requires i < |ls| && InPlace(ls, i)
    ensures !Collides(ls, i)
  {
  }

  /** Round trip: lexemes of a chain, written down with any gaps, are accepted and read back as they were. */
  lemma WrittenChainIsRead(gap: string, ls: seq<Lexeme>, gaps: seq<string>, names: seq<string>, tail: string)
    requires IsGap(gap) && |gaps| == |ls| + 1 && AllGaps(gaps)
    requires Interned(names) && (forall i :: 0 <= i < |ls| ==> Writable(ls[i])) && Tokenized(TokensOfAll(ls, names).0)
    ensures IsTokenized(gap + "[" + Spaced(ls, gaps) + tail, names, TokensOfAll(ls, names).0, TokensOfAll(ls, names).1)
  {
    hide Tokenized, TokensOfAll, OpOf, LexIf, Spaced, Ordered, Interned, Writable, IsGap, Apart;
    OpsOfAll(ls, names);
    ChainIsOrdered(Nothing, ls, TokensOfAll(ls, names).0);
    OrderedIsApart(ls, gaps);
    SpacedIsWritten(gap, ls, gaps, tail);
    LexIfIsWritten(gap + "[" + Spaced(ls, gaps) + tail, ls);
  }

  /** One blank everywhere. */
  function Blanks(n: nat): (gaps: seq<string>)
    ensures |gaps| == n && AllGaps(gaps)
  {
    seq(n, _ => " ")
  }

  lemma {:induction false} ShownIsSpaced(ls: seq<Lexeme>)
    ensures Show(ls) + " ]" == Spaced(ls, Blanks(|ls| + 1))
    decreases |ls|
  {
    if |ls| > 0 {
      ShownIsSpaced(ls[1..]);
      assert Blanks(|ls| + 1)[1..] == Blanks(|ls|);
      Assoc(" " + ShowOne(ls[0]), Show(ls[1..]), " ]");
    }
  }

  lemma ShownChainIsRead(ls: seq<Lexeme>, names: seq<string>, tail: string)
    requires Interned(names) && (forall i :: 0 <= i < |ls| ==> Writable(ls[i])) && Tokenized(TokensOfAll(ls, names).0)
    ensures IsTokenized("[" + Show(ls) + " ]" + tail, names, TokensOfAll(ls, names).0, TokensOfAll(ls, names).1)
  {
    hide Tokenized, TokensOfAll, IsTokenized, Spaced, Show, Interned, Writable;
    var gaps := Blanks(|ls| + 1);
    ShownIsSpaced(ls);
    assert "" + "[" == "[";
    Assoc("[", Show(ls), " ]");
    WrittenChainIsRead("", ls, gaps, names, tail);
  }

  lemma {:induction false} OpsOfAll(ls: seq<Lexeme>, names: seq<string>)
    requires Interned(names)
    ensures var ts := TokensOfAll(ls, names).0; forall i {:trigger ts[i]} :: 0 <= i < |ls| ==> ts[i].op == OpOf(ls[i])
    decreases |ls|
  {
    if |ls| > 0 {
      var before, last := ls[..|ls| - 1], ls[|ls| - 1];
      OpsOfAll(before, names);
      assert ls == before + [last];
      AppendOne(before, last, names);
      TokenKind(last, TokensOfAll(before, names).1);
      OpsAppend(before, TokensOfAll(before, names).0, last, TokenOf(last, TokensOfAll(before, names).1).0);
    }
  }

  lemma OpsAppend(ls: seq<Lexeme>, ts: seq<Token>, l: Lexeme, t: Token)
    requires |ls| == |ts| && (forall i {:trigger ts[i]} :: 0 <= i < |ts| ==> ts[i].op == OpOf(ls[i])) && t.op == OpOf(l)
    ensures forall i {:trigger (ts + [t])[i]} :: 0 <= i <= |ls| ==> (ts + [t])[i].op == OpOf((ls + [l])[i])
  {
  }
}
