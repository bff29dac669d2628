/** The linked lists of scripts/tkcond.c, rewritten in place. Each method is proved against the function on token
    sequences that states what it computes. */
module CondLists {
  import opened Conditions
  import opened CondPasses
  import opened Joining
  import opened Flattening
  import opened Sequences

  class Condition {
    var next: Condition?
    var op: Op
    var str: string
    var nameindex: int

    constructor (op: Op, str: string, nameindex: int)
      ensures next == null && Value() == Token(op, str, nameindex)
    {
      next := null;
      this.op, this.str, this.nameindex := op, str, nameindex;
    }

    function Value(): Token
      reads this
    {
      Token(op, str, nameindex)
    }
  }

  ghost function Nodes(nodes: seq<Condition>): set<Condition> {
    set n | n in nodes
  }

  /** `head` is the list of exactly these nodes, no node twice. */
  ghost predicate IsList(head: Condition?, nodes: seq<Condition>)
    reads Nodes(nodes)
  {
    && head == (if |nodes| == 0 then null else nodes[0])
    && (forall i {:trigger nodes[i].next} :: 0 <= i < |nodes| ==> nodes[i].next == Successor(nodes, i))
    && Distinct(nodes)
  }

  ghost function Successor(nodes: seq<Condition>, i: nat): Condition? {
    if i + 1 < |nodes| then nodes[i + 1] else null
  }

  ghost predicate Distinct(nodes: seq<Condition>) {
    forall i, j :: 0 <= i < j < |nodes| ==> nodes[i] != nodes[j]
  }

  ghost function TokensOf(nodes: seq<Condition>): (r: seq<Token>)
    reads Nodes(nodes)
    ensures |r| == |nodes| && forall i :: 0 <= i < |nodes| ==> r[i] == nodes[i].Value()
  {
    seq(|nodes|, i requires 0 <= i < |nodes| reads Nodes(nodes) => nodes[i].Value())
  }

  lemma EmptyList()
    ensures IsList(null, []) && TokensOf([]) == [] && Nodes([]) == {}
  {
  }

  lemma WithoutOne(nodes: seq<Condition>, i: nat)
    requires i < |nodes|
    ensures Nodes(nodes[..i] + nodes[i + 1..]) <= Nodes(nodes)
  {
  }

  lemma TakeDrop<T>(s: seq<T>, i: nat)
    requires i < |s|
    ensures s[..i + 1] == s[..i] + [s[i]] && s[i..][1..] == s[i + 1..] && s[i..][0] == s[i]
  {
  }

  // ----- remove_bang -----

  predicate BangAt(ts: seq<Token>, i: nat) {
    i + 2 < |ts| && ts[i].op.Bang? && IsCompare(ts[i + 2])
  }

  /** The list after its `!` at i is gone. */
  function WithoutBang(ts: seq<Token>, i: nat): seq<Token>
    requires BangAt(ts, i)
  {
    ts[..i] + [ts[i + 1], Opposite(ts[i + 2])] + ts[i + 3..]
  }

  /** The pass has come to position i of the current list. */
  predicate BangsGoneUpTo(whole: seq<Token>, ts: seq<Token>, i: nat)
    requires i <= |ts|
  {
    whole == ts[..i] + RemoveBang(ts[i..])
  }

  lemma BangStays(whole: seq<Token>, ts: seq<Token>, i: nat)
    requires i < |ts| && BangsGoneUpTo(whole, ts, i) && !BangAt(ts, i)
    ensures BangsGoneUpTo(whole, ts, i + 1)
  {
    TakeDrop(ts, i);
    var us := ts[i..];
    assert |us| >= 3 ==> us[2] == ts[i + 2];
    assert RemoveBang(us) == [ts[i]] + RemoveBang(ts[i + 1..]);
    Assoc(ts[..i], [ts[i]], RemoveBang(ts[i + 1..]));
  }

  lemma BangGoes(whole: seq<Token>, ts: seq<Token>, i: nat)
    requires i < |ts| && BangsGoneUpTo(whole, ts, i) && BangAt(ts, i)
    ensures BangsGoneUpTo(whole, WithoutBang(ts, i), i + 2)
  {
    var us, vs := ts[i..], WithoutBang(ts, i);
    var two := [ts[i + 1], Opposite(ts[i + 2])];
    assert us[1] == ts[i + 1] && us[2] == ts[i + 2] && us[3..] == ts[i + 3..];
    assert vs[..i + 2] == ts[..i] + two && vs[i + 2..] == ts[i + 3..];
    Assoc(ts[..i], two, RemoveBang(ts[i + 3..]));
  }

  lemma WithoutBangAt(ts: seq<Token>, i: nat, vs: seq<Token>)
    requires BangAt(ts, i) && |vs| == |ts| - 1
    requires forall k {:trigger vs[k]} :: 0 <= k < |vs| && k != i + 1 ==> vs[k] == ts[if k < i then k else k + 1]
    requires vs[i + 1] == Opposite(ts[i + 2])
    ensures vs == WithoutBang(ts, i)
  {
    var ws := WithoutBang(ts, i);
    forall k | 0 <= k < |vs| ensures vs[k] == ws[k] {
      if k > i + 1 {
        assert ws[k] == ts[i + 3..][k - i - 2];
      }
    }
  }

  lemma UnlinkDistinct(nodes: seq<Condition>, i: nat)
    requires Distinct(nodes) && i < |nodes|
    ensures Distinct(nodes[..i] + nodes[i + 1..])
    ensures nodes[i] !in nodes[..i] + nodes[i + 1..]
  {
  }

  /** Takes node i out of the list. */
  method Unlink(condition: Condition, ghost nodes: seq<Condition>, ghost i: nat, prev: Condition?, conda: Condition)
    returns (r: Condition?, ghost rest: seq<Condition>)
    requires IsList(condition, nodes) && i < |nodes| && conda == nodes[i]
    requires prev == if i == 0 then null else nodes[i - 1]
    modifies Nodes(nodes)
    ensures rest == nodes[..i] + nodes[i + 1..] && IsList(r, rest)
    ensures forall k :: 0 <= k < |rest| ==> rest[k].Value() == old(rest[k].Value())
  {
    r := condition;
    conda.op := Nuked;
    if prev != null {
      prev.next := conda.next;
    } else {
      r := conda.next;
    }
    rest := nodes[..i] + nodes[i + 1..];
    UnlinkDistinct(nodes, i);
    forall k | 0 <= k < |rest| ensures rest[k].next == Successor(rest, k) {
      if k < i {
        assert rest[k] == nodes[k];
      } else {
        assert rest[k] == nodes[k + 1];
        assert old(nodes[k + 1].next) == Successor(nodes, k + 1);
      }
    }
  }

  /** Takes node i, a `!`, out of the list and inverts the comparison behind it. */
  method DropBang(condition: Condition, ghost nodes: seq<Condition>, ghost i: nat, prev: Condition?,
                  conda: Condition, condb: Condition)
    returns (r: Condition?, ghost rest: seq<Condition>)
    requires IsList(condition, nodes) && BangAt(TokensOf(nodes), i) && conda == nodes[i] && condb == nodes[i + 2]
    requires prev == if i == 0 then null else nodes[i - 1]
    modifies Nodes(nodes)
    ensures IsList(r, rest) && rest == nodes[..i] + nodes[i + 1..]
    ensures TokensOf(rest) == old(WithoutBang(TokensOf(nodes), i))
  {
    ghost var ts := TokensOf(nodes);
    condb.op := if condb.op.Eq? then Neq else Eq;
    label flipped:
    r, rest := Unlink(condition, nodes, i, prev, conda);
    forall k | 0 <= k < |rest| && k != i + 1 ensures rest[k].Value() == ts[if k < i then k else k + 1] {
      assert rest[k] == if k < i then nodes[k] else nodes[k + 1];
      assert rest[k].Value() == old@flipped(rest[k].Value());
    }
    assert rest[i + 1] == nodes[i + 2];
    WithoutBangAt(ts, i, TokensOf(rest));
  }

  method RemoveBangList(condition: Condition?, ghost nodes: seq<Condition>)
    returns (r: Condition?, ghost rest: seq<Condition>)
    requires IsList(condition, nodes)
    modifies Nodes(nodes)
    ensures IsList(r, rest) && Nodes(rest) <= Nodes(nodes)
    ensures TokensOf(rest) == RemoveBang(old(TokensOf(nodes)))
  {
    hide RemoveBang, Distinct, WithoutBang, BangsGoneUpTo, Nodes, Opposite;
    r, rest := condition, nodes;
    var conda, prev: Condition? := r, null;
    ghost var i := 0;
    ghost var whole := RemoveBang(TokensOf(nodes));
    RemoveBangBegins(nodes);
    while conda != null
      invariant IsList(r, rest) && 0 <= i <= |rest| && Nodes(rest) <= Nodes(nodes)
      invariant conda == if i < |rest| then rest[i] else null
      invariant prev == if i > 0 then rest[i - 1] else null
      invariant BangsGoneUpTo(whole, TokensOf(rest), i)
      decreases |rest| - i
    {
      ghost var ts := TokensOf(rest);
      assert conda.next == Successor(rest, i);
      assert i + 1 < |rest| ==> conda.next.next == Successor(rest, i + 1);
      if conda.op.Bang? && conda.next != null && conda.next.next != null && IsCompare(conda.next.next.Value()) {
        BangGoes(whole, ts, i);
        WithoutOne(rest, i);
        var condb := conda.next.next;
        r, rest := DropBang(r, rest, i, prev, conda, condb);
        conda := condb;
        i := i + 1;
        assert conda == rest[i];
      } else {
        BangStays(whole, ts, i);
      }
      assert conda.next == Successor(rest, i);
      i := i + 1;
      prev := conda;
      conda := conda.next;
    }
    RemoveBangEnds(whole, TokensOf(rest));
  }

  lemma RemoveBangBegins(nodes: seq<Condition>)
    ensures BangsGoneUpTo(RemoveBang(TokensOf(nodes)), TokensOf(nodes), 0)
  {
    assert TokensOf(nodes)[0..] == TokensOf(nodes);
  }

  lemma RemoveBangEnds(whole: seq<Token>, ts: seq<Token>)
    requires BangsGoneUpTo(whole, ts, |ts|)
    ensures ts == whole
  {
    assert ts[|ts|..] == [];
  }

  // ----- the inversion at an `else` -----

  method FlipList(head: Condition?, ghost nodes: seq<Condition>)
    requires IsList(head, nodes)
    modifies Nodes(nodes)
    ensures IsList(head, nodes) && TokensOf(nodes) == Flip(old(TokensOf(nodes)))
  {
    var cond := head;
    ghost var i := 0;
    while cond != null
      invariant IsList(head, nodes) && 0 <= i <= |nodes|
      invariant cond == if i < |nodes| then nodes[i] else null
      invariant forall k {:trigger nodes[k]} :: 0 <= k < i ==> nodes[k].Value() == FlipToken(old(nodes[k].Value()))
      invariant forall k {:trigger nodes[k]} :: i <= k < |nodes| ==> nodes[k].Value() == old(nodes[k].Value())
      decreases |nodes| - i
    {
      assert cond.next == Successor(nodes, i);
      match cond.op {
        case And => cond.op := Or;
        case Or => cond.op := And1;
        case Neq => cond.op := Eq;
        case Eq => cond.op := Neq;
        case True => cond.op := False;
        case False => cond.op := True;
        case _ =>
      }
      cond := cond.next;
      i := i + 1;
    }
  }

  // ----- eliminate_other_arch -----

  /** Whether an `-o` stands outside parentheses; the conditions of an `if` have none. */
  method HasOr(head: Condition?, ghost nodes: seq<Condition>) returns (found: bool)
    requires IsList(head, nodes)
    requires Free(TokensOf(nodes), LParen) && Free(TokensOf(nodes), RParen)
    ensures found == !Free(TokensOf(nodes), Or)
  {
    var cond := head;
    var lPar := 0;
    ghost var i := 0;
    ghost var ts := TokensOf(nodes);
    while cond != null
      invariant 0 <= i <= |nodes| && lPar == 0
      invariant cond == if i < |nodes| then nodes[i] else null
      invariant forall k :: 0 <= k < i ==> ts[k].op != Or
      decreases |nodes| - i
    {
      assert cond.next == Successor(nodes, i) && ts[i] == cond.Value();
      if cond.op.LParen? {
        lPar := lPar + 1;
      } else if cond.op.RParen? {
        lPar := lPar - 1;
      } else if cond.op.Or? && lPar == 0 {
        return true;
      } else if lPar < 0 {
        assert false;  // the program reports a programming error here
      }
      cond := cond.next;
      i := i + 1;
    }
    return false;
  }

  /** The list shrinks to its first node, which now says what the condition amounts to. */
  method Decide(head: Condition, ghost nodes: seq<Condition>, verdict: bool) returns (r: Condition, ghost rest: seq<Condition>)
    requires IsList(head, nodes)
    modifies Nodes(nodes)
    ensures r == head && rest == [head] && IsList(r, rest) && Nodes(rest) <= Nodes(nodes)
    ensures TokensOf(rest) == [old(head.Value()).(op := if verdict then True else False)]
  {
    head.op := if verdict then True else False;
    head.next := null;
    r, rest := head, [head];
  }

  /** The list without its first comparison and the connective behind it. */
  method Behind(d: Condition, ghost nodes: seq<Condition>) returns (r: Condition, ghost rest: seq<Condition>)
    requires |nodes| > 4 && IsList(nodes[0], nodes) && d == nodes[3]
    modifies Nodes(nodes)
    ensures rest == nodes[4..] && IsList(r, rest) && Nodes(rest) <= Nodes(nodes)
    ensures TokensOf(rest) == old(TokensOf(nodes))[4..]
  {
    assert d.next == Successor(nodes, 3);
    r := d.next;
    d.next := null;
    rest := nodes[4..];
    forall k | 0 <= k < |rest| ensures rest[k].next == Successor(rest, k) && rest[k].op == old(rest[k].op) {
      assert rest[k] == nodes[k + 4] && old(nodes[k + 4].next) == Successor(nodes, k + 4);
    }
  }

  lemma FirstFour(nodes: seq<Condition>, ts: seq<Token>)
    requires |nodes| > 0 && IsList(nodes[0], nodes) && ts == TokensOf(nodes) && Tokenized(ts) && !ts[0].op.Bang?
    ensures |nodes| >= 3 && nodes[0].next == nodes[1] && nodes[1].next == nodes[2]
    ensures nodes[2].next == if |nodes| > 3 then nodes[3] else null
    ensures StartsComparison(ts)
    ensures |nodes| > 3 ==> |nodes| > 4 && ts[3].op in {And, Or} && Tokenized(ts[4..])
    ensures |nodes| > 3 ==> Free(ts[4..], LParen) && Free(ts[4..], RParen)
  {
    assert nodes[0].next == Successor(nodes, 0);
    assert nodes[1].next == Successor(nodes, 1);
    assert nodes[2].next == Successor(nodes, 2);
    if |nodes| > 3 {
      ChainTail(ts);
      ChainParenFree(ts[4..]);
    }
  }

  /** The list from node 4 on. */
  lemma ListTail(nodes: seq<Condition>)
    requires |nodes| > 4 && IsList(nodes[0], nodes)
    ensures IsList(nodes[4], nodes[4..]) && nodes[3].next == nodes[4]
    ensures TokensOf(nodes[4..]) == TokensOf(nodes)[4..]
  {
    assert nodes[3].next == Successor(nodes, 3);
    forall k | 0 <= k < |nodes| - 4 ensures nodes[4..][k].next == Successor(nodes[4..], k) {
      assert nodes[k + 4].next == Successor(nodes, k + 4);
    }
  }

  lemma EliminateUnfold(ts: seq<Token>, w: World)
    requires Tokenized(ts) && ts[0].op.Variable?
    ensures var arch := w.IsArch(ts[0].nameindex) && ts[2].op.Constant?;
            var other := (ts[2].str == w.arch) != ts[1].op.Eq?;
            var empty := w.IsUndefined(ts[0].nameindex) && ts[2].op.Constant? && ts[1].op.Eq? && ts[2].str != "";
            if |ts| == 3 then
              Eliminate(ts, w) == if arch then [ts[0].(op := if other then False else True)]
                                  else if empty then [ts[0].(op := False)] else ts
            else
              Tokenized(ts[4..]) &&
              Eliminate(ts, w) == if arch && other == ts[3].op.Or? then Eliminate(ts[4..], w)
                                  else if arch then
                                    if ts[3].op.Or? then [ts[0].(op := True)]
                                    else if !Free(ts[4..], Or) then ts else [ts[0].(op := False)]
                                  else if empty then
                                    if ts[3].op.And? then [ts[0].(op := False)] else Eliminate(ts[4..], w)
                                  else ts
  {
    if |ts| > 3 { ChainTail(ts); }
  }

  method EliminateList(list: Condition, ghost nodes: seq<Condition>, w: World)
    returns (r: Condition, ghost rest: seq<Condition>)
    requires IsList(list, nodes)
    requires list.op.LParen? || Tokenized(TokensOf(nodes))
    modifies Nodes(nodes)
    ensures IsList(r, rest) && Nodes(rest) <= Nodes(nodes)
    ensures TokensOf(rest) == EliminateOwn(old(TokensOf(nodes)), w)
    decreases |nodes|, 1
  {
    ghost var ts := TokensOf(nodes);
    r, rest := list, nodes;
    if list.op.Variable? {
      FirstFour(nodes, ts);
      EliminateUnfold(ts, w);
      var b := list.next;
      var c := b.next;
      var d := c.next;
      assert ts[0] == list.Value() && ts[1] == b.Value() && ts[2] == c.Value();
      assert d == (if |nodes| > 3 then nodes[3] else null) && (d != null ==> ts[3] == d.Value());
      hide IsList, TokensOf, Distinct, Nodes, Chain, Eliminate, Free;
      if w.IsArch(list.nameindex) && c.op.Constant? {
        var other := (b.op.Eq? && c.str != w.arch) || (b.op.Neq? && c.str == w.arch);
        if d == null {
          r, rest := Decide(list, nodes, !other);
        } else if d.op.Or? {
          if other {
            r, rest := EliminateBehind(d, nodes, w);
          } else {
            r, rest := Decide(list, nodes, true);
          }
        } else {
          if other {
            ListTail(nodes);
            var complex := HasOr(d.next, nodes[4..]);
            if !complex {
              r, rest := Decide(list, nodes, false);
            }
          } else {
            r, rest := EliminateBehind(d, nodes, w);
          }
        }
      } else if w.IsUndefined(list.nameindex) && c.op.Constant? && b.op.Eq? && c.str != "" {
        if d == null || d.op.And? {
          r, rest := Decide(list, nodes, false);
        } else {
          r, rest := EliminateBehind(d, nodes, w);
        }
      }
    }
  }

  /** What is left of the list without its first comparison. */
  method EliminateBehind(d: Condition, ghost nodes: seq<Condition>, w: World)
    returns (r: Condition, ghost rest: seq<Condition>)
    requires |nodes| > 4 && IsList(nodes[0], nodes) && d == nodes[3] && Tokenized(TokensOf(nodes)[4..])
    modifies Nodes(nodes)
    ensures IsList(r, rest) && Nodes(rest) <= Nodes(nodes)
    ensures TokensOf(rest) == Eliminate(old(TokensOf(nodes))[4..], w)
    decreases |nodes|, 0
  {
    ghost var ts := TokensOf(nodes)[4..];
    NotParen(ts);
    r, rest := Behind(d, nodes);
    hide IsList, TokensOf, Distinct, Nodes, Chain, Eliminate, Free;
    r, rest := EliminateList(r, rest, w);
  }

  lemma NotParen(ts: seq<Token>)
    requires Tokenized(ts)
    ensures !ts[0].op.LParen?
  {
  }

  // ----- join_condition_stack: the copy -----

  method Append(list: Condition?, last: Condition?, ghost nodes: seq<Condition>, t: Token)
    returns (list': Condition, last': Condition, ghost nodes': seq<Condition>)
    requires IsList(list, nodes) && last == if |nodes| == 0 then null else nodes[|nodes| - 1]
    modifies Nodes(nodes)
    ensures fresh(last') && nodes' == nodes + [last'] && IsList(list', nodes') && Nodes(nodes') == Nodes(nodes) + {last'}
    ensures TokensOf(nodes') == old(TokensOf(nodes)) + [t]
  {
    last' := new Condition(t.op, t.str, t.nameindex);
    if last == null {
      list' := last';
    } else {
      last.next := last';
      list' := list;
    }
    nodes' := nodes + [last'];
    forall k | 0 <= k < |nodes'| ensures nodes'[k].next == Successor(nodes', k) {
      if k < |nodes| - 1 {
        assert nodes[k].next == Successor(nodes, k);
      }
    }
  }

  /** No node of the chain belongs to the set. */
  ghost predicate Apart(chain: seq<Condition>, other: set<Condition>) {
    forall k {:trigger chain[k]} :: 0 <= k < |chain| ==> chain[k] !in other
  }

  method CopyList(cond: Condition?, ghost chain: seq<Condition>, list: Condition?, last: Condition?,
                  ghost nodes: seq<Condition>)
    returns (list': Condition?, last': Condition?, ghost nodes': seq<Condition>)
    requires IsList(cond, chain) && IsList(list, nodes) && Apart(chain, Nodes(nodes))
    requires last == if |nodes| == 0 then null else nodes[|nodes| - 1]
    modifies Nodes(nodes)
    ensures IsList(list', nodes') && (forall n :: n in Nodes(nodes') ==> n in Nodes(nodes) || fresh(n))
    ensures last' == if |nodes'| == 0 then null else nodes'[|nodes'| - 1]
    ensures TokensOf(nodes') == old(TokensOf(nodes)) + old(TokensOf(chain))
  {
    hide Distinct, Nodes, TokensOf;
    list', last', nodes' := list, last, nodes;
    var c := cond;
    ghost var i := 0;
    ghost var ts, us := TokensOf(nodes), TokensOf(chain);
    assert us[..0] == [] && ts + [] == ts;
    while c != null
      invariant 0 <= i <= |chain| && c == if i < |chain| then chain[i] else null
      invariant IsList(list', nodes') && (forall n :: n in Nodes(nodes') ==> n in Nodes(nodes) || fresh(n))
      invariant last' == if |nodes'| == 0 then null else nodes'[|nodes'| - 1]
      invariant TokensOf(nodes') == ts + us[..i]
      decreases |chain| - i
    {
      assert old(chain[i].next) == Successor(chain, i) && us[i] == old(chain[i].Value());
      assert c.next == Successor(chain, i) && c.Value() == us[i];
      var next := c.next;
      TakeDrop(us, i);
      Assoc(ts, us[..i], [us[i]]);
      ghost var sofar := ts + us[..i + 1];
      list', last', nodes' := Append(list', last', nodes', c.Value());
      assert TokensOf(nodes') == sofar;
      c := next;
      i := i + 1;
    }
    assert us[..i] == us;
  }

  ghost function StackNodes(chains: seq<seq<Condition>>): set<Condition> {
    set i, n | 0 <= i < |chains| && n in chains[i] :: n
  }

  /** The stack holds exactly these lists, none of them empty. */
  ghost predicate IsStack(stack: array<Condition?>, chains: seq<seq<Condition>>)
    reads stack, StackNodes(chains)
  {
    && |chains| <= stack.Length
    && forall i {:trigger chains[i]} :: 0 <= i < |chains| ==> |chains[i]| > 0 && IsList(stack[i], chains[i])
  }

  ghost function StackTokens(chains: seq<seq<Condition>>): (r: seq<seq<Token>>)
    reads StackNodes(chains)
    ensures |r| == |chains| && forall i :: 0 <= i < |chains| ==> r[i] == TokensOf(chains[i])
  {
    seq(|chains|, i requires 0 <= i < |chains| reads StackNodes(chains) =>
      assert Nodes(chains[i]) <= StackNodes(chains); TokensOf(chains[i]))
  }

  /** The `&&` and the parenthesis that may precede a frame. */
  method OpenFrame(list: Condition?, last: Condition?, ghost nodes: seq<Condition>, addParen: bool)
    returns (list': Condition?, last': Condition?, ghost nodes': seq<Condition>)
    requires IsList(list, nodes) && last == if |nodes| == 0 then null else nodes[|nodes| - 1]
    modifies Nodes(nodes)
    ensures IsList(list', nodes') && (forall n :: n in Nodes(nodes') ==> n in Nodes(nodes) || fresh(n))
    ensures last' == if |nodes'| == 0 then null else nodes'[|nodes'| - 1]
    ensures TokensOf(nodes') == Opening(old(TokensOf(nodes)), addParen)
  {
    hide Distinct, Nodes;
    list', last', nodes' := list, last, nodes;
    if list' != null {
      list', last', nodes' := Append(list', last', nodes', GLUE);
    }
    if addParen {
      list', last', nodes' := Append(list', last', nodes', LEFT);
    }
  }

  /** Appends one frame to the list, parenthesized and joined by `&&` as needed. */
  method AppendFrameList(cond: Condition, ghost chain: seq<Condition>, list: Condition?, last: Condition?,
                         ghost nodes: seq<Condition>)
    returns (list': Condition?, last': Condition?, ghost nodes': seq<Condition>)
    requires IsList(cond, chain) && IsList(list, nodes) && Apart(chain, Nodes(nodes))
    requires last == if |nodes| == 0 then null else nodes[|nodes| - 1]
    modifies Nodes(nodes)
    ensures IsList(list', nodes') && (forall n :: n in Nodes(nodes') ==> n in Nodes(nodes) || fresh(n))
    ensures last' == if |nodes'| == 0 then null else nodes'[|nodes'| - 1]
    ensures TokensOf(nodes') == AppendFrame(old(TokensOf(nodes)), old(TokensOf(chain)))
  {
    hide Distinct, Nodes;
    list', last', nodes' := list, last, nodes;
    ghost var ts, us := TokensOf(nodes), TokensOf(chain);
    assert us[0] == cond.Value();
    if !cond.op.True? {
      var addParen := !cond.op.LParen?;
      list', last', nodes' := OpenFrame(list', last', nodes', addParen);
      ghost var begun := TokensOf(nodes');
      forall k | 0 <= k < |chain| ensures chain[k].next == Successor(chain, k) {
        assert old(chain[k].next) == Successor(chain, k);
      }
      assert TokensOf(chain) == us;
      list', last', nodes' := CopyList(cond, chain, list', last', nodes');
      if addParen {
        list', last', nodes' := Append(list', last', nodes', RIGHT);
      }
      FrameTokensAdded(ts, us, begun);
    }
  }

  function Opening(ts: seq<Token>, addParen: bool): seq<Token> {
    ts + (if ts == [] then [] else [GLUE]) + (if addParen then [LEFT] else [])
  }

  lemma FrameTokensAdded(ts: seq<Token>, us: seq<Token>, begun: seq<Token>)
    requires |us| > 0 && !us[0].op.True? && begun == Opening(ts, !us[0].op.LParen?)
    ensures AppendFrame(ts, us) == begun + us + if us[0].op.LParen? then [] else [RIGHT]
  {
    var pre := ts + if ts == [] then [] else [GLUE];
    assert us[0].op.LParen? ==> pre + [] == pre && begun + us + [] == begun + us;
    assert pre + [LEFT] + us + [RIGHT] == pre + Group(us);
  }

  // ----- join_condition_stack: the duplicates -----

  lemma LinksFrom(head: Condition?, nodes: seq<Condition>, i: nat)
    requires IsList(head, nodes) && i < |nodes|
    ensures nodes[i].next == Successor(nodes, i)
  {
  }

  /** One node is nuked; the list keeps its links. */
  method NukeNode(n: Condition, ghost head: Condition?, ghost nodes: seq<Condition>, ghost m: nat)
    requires IsList(head, nodes) && m < |nodes| && n == nodes[m]
    modifies n`op
    ensures IsList(head, nodes) && TokensOf(nodes) == NukeAt(old(TokensOf(nodes)), m)
  {
    assert forall k {:trigger nodes[k]} :: 0 <= k < |nodes| ==> (nodes[k] == n <==> k == m);
    hide Distinct;
    n.op := Nuked;
  }

  function NukeAt(ts: seq<Token>, m: nat): (r: seq<Token>)
    requires m < |ts|
    ensures |r| == |ts|
  {
    ts[m := Nuke(ts[m])]
  }

  function NukeFive(ts: seq<Token>, i: nat): (r: seq<Token>)
    requires i + 4 < |ts|
    ensures |r| == |ts|
  {
    NukeAt(NukeAt(NukeAt(NukeAt(NukeAt(ts, i), i + 1), i + 2), i + 3), i + 4)
  }

  /** The five nodes of a group. */
  method NukeFirst(head: Condition?, ghost nodes: seq<Condition>, ghost i: nat,
                   a: Condition, b: Condition, c: Condition, d: Condition, e: Condition)
    requires IsList(head, nodes) && i + 4 < |nodes|
    requires a == nodes[i] && b == nodes[i + 1] && c == nodes[i + 2] && d == nodes[i + 3] && e == nodes[i + 4]
    modifies Nodes(nodes)
    ensures IsList(head, nodes) && TokensOf(nodes) == NukeFive(old(TokensOf(nodes)), i)
  {
    assert a in Nodes(nodes) && b in Nodes(nodes) && c in Nodes(nodes) && d in Nodes(nodes) && e in Nodes(nodes);
    hide IsList, TokensOf, Nodes, NukeAt;
    NukeNode(a, head, nodes, i);
    NukeNode(b, head, nodes, i + 1);
    NukeNode(c, head, nodes, i + 2);
    NukeNode(d, head, nodes, i + 3);
    NukeNode(e, head, nodes, i + 4);
  }

  /** The groups at nodes i and j are the same: the first one goes, with one `&&`. */
  method NukeGroup(head: Condition?, ghost nodes: seq<Condition>, ghost i: nat, ghost j: nat,
                   a: Condition, b: Condition, c: Condition, d: Condition, e: Condition, f: Condition, f2: Condition?)
    requires IsList(head, nodes) && i + 5 < |nodes| && i + 5 < j
    requires a == nodes[i] && b == nodes[i + 1] && c == nodes[i + 2] && d == nodes[i + 3] && e == nodes[i + 4]
    requires f == nodes[i + 5]
    requires !f.op.And? ==> j + 5 < |nodes| && f2 == nodes[j + 5]
    modifies Nodes(nodes)
    ensures IsList(head, nodes)
    ensures var ts := old(TokensOf(nodes));
            TokensOf(nodes) == ts[..i] + NukeHead(ts[i..], j - i)
  {
    ghost var ts := TokensOf(nodes);
    ghost var k := if f.op.And? then i + 5 else j + 5;
    assert ts[i + 5] == f.Value() && f in Nodes(nodes) && (!f.op.And? ==> f2 in Nodes(nodes));
    hide IsList, TokensOf, Nodes, NukeAt, NukeFive, NukeHead;
    NukeFirst(head, nodes, i, a, b, c, d, e);
    assert f.op == ts[i + 5].op by { Untouched(ts, i); assert TokensOf(nodes)[i + 5] == f.Value(); }
    if f.op.And? {
      NukeNode(f, head, nodes, k);
    } else {
      NukeNode(f2, head, nodes, k);
    }
    NukedInTurn(ts, i, j, k);
  }

  lemma Untouched(ts: seq<Token>, i: nat)
    requires i + 5 < |ts|
    ensures NukeFive(ts, i)[i + 5] == ts[i + 5]
  {
  }

  lemma NukedInTurn(ts: seq<Token>, i: nat, j: nat, k: nat)
    requires i + 5 < |ts| && i + 5 < j && k == (if ts[i + 5].op.And? then i + 5 else j + 5) && k < |ts|
    ensures NukeAt(NukeFive(ts, i), k) == ts[..i] + NukeHead(ts[i..], j - i)
  {
    NukedAt(ts, i, j, k, NukeAt(NukeFive(ts, i), k));
  }

  lemma NukedAt(ts: seq<Token>, i: nat, j: nat, k: nat, us: seq<Token>)
    requires i + 5 < |ts| && i + 5 < j && |us| == |ts|
    requires k == if ts[i + 5].op.And? then i + 5 else j + 5
    requires k < |ts|
    requires forall m {:trigger us[m]} :: 0 <= m < |ts| ==>
               us[m] == if i <= m < i + 5 || m == k then Nuke(ts[m]) else ts[m]
    ensures us == ts[..i] + NukeHead(ts[i..], j - i)
  {
    var vs := NukeHead(ts[i..], j - i);
    forall m | 0 <= m < |ts| ensures us[m] == (ts[..i] + vs)[m] {
      if i <= m {
        assert ts[i..][m - i] == ts[m];
      }
    }
  }

  /** The state of the inner loop: the scan has come to node j. */
  ghost predicate Scanned(ts: seq<Token>, us: seq<Token>, i: nat, j: nat)
    requires i + 6 <= j && i + 6 <= |ts| && |us| == |ts|
  {
    us[..i] == ts[..i] && ScanRepeats(ts[i..], 6) == ScanRepeats(us[i..], j - i)
  }

  lemma ScanBegins(ts: seq<Token>, i: nat)
    requires i + 6 <= |ts|
    ensures Scanned(ts, ts, i, i + 6)
  {
  }

  lemma ScanMoves(ts: seq<Token>, us: seq<Token>, i: nat, j: nat)
    requires i + 6 <= |ts| && |us| == |ts| && i + 6 <= j < |us| && Scanned(ts, us, i, j)
    requires us[j].op.LParen? ==> j + 5 <= |us|
    requires us[j].op.LParen? ==>
               !(Repeats(us[i..], j - i) && (us[i + 5].op.And? || (j + 5 < |us| && us[j + 5].op.And?)))
    ensures Scanned(ts, us, i, j + 1)
  {
    var vs := us[i..];
    assert vs[j - i] == us[j] && vs[5] == us[i + 5];
    assert j + 5 < |us| ==> vs[j - i + 5] == us[j + 5];
  }

  lemma ScanNukes(ts: seq<Token>, us: seq<Token>, i: nat, j: nat)
    requires i + 6 <= |ts| && |us| == |ts| && i + 6 <= j && j + 5 <= |us| && Scanned(ts, us, i, j)
    requires us[j].op.LParen? && Repeats(us[i..], j - i)
    requires us[i + 5].op.And? || (j + 5 < |us| && us[j + 5].op.And?)
    ensures Scanned(ts, us[..i] + NukeHead(us[i..], j - i), i, j + 1)
  {
    var vs := us[i..];
    assert vs[j - i] == us[j] && vs[5] == us[i + 5];
    assert j + 5 < |us| ==> vs[j - i + 5] == us[j + 5];
    var ws := us[..i] + NukeHead(vs, j - i);
    assert ws[..i] == us[..i] && ws[i..] == NukeHead(vs, j - i);
  }

  lemma ScanEnds(ts: seq<Token>, us: seq<Token>, i: nat, j: nat)
    requires i + 6 <= |ts| && |us| == |ts| && i + 6 <= j <= |us| && Scanned(ts, us, i, j)
    requires j < |us| ==> us[j].op.LParen? && j + 5 > |us|
    ensures us == ts[..i] + ScanRepeats(ts[i..], 6)
  {
    assert j < |us| ==> us[i..][j - i] == us[j];
    assert us == us[..i] + us[i..];
  }

  lemma RepeatsAt(us: seq<Token>, i: nat, j: nat)
    requires i + 6 <= j && j + 5 <= |us|
    ensures Repeats(us[i..], j - i) <==>
      && us[j + 1].op.Variable? && us[j + 1].nameindex == us[i + 1].nameindex
      && us[j + 2].op == us[i + 2].op
      && us[j + 3].op.Constant? && us[j + 3].str == us[i + 3].str
      && us[j + 4].op.RParen?
  {
    var vs := us[i..];
    assert vs[1] == us[i + 1] && vs[2] == us[i + 2] && vs[3] == us[i + 3];
    assert vs[j - i + 1] == us[j + 1] && vs[j - i + 2] == us[j + 2] && vs[j - i + 3] == us[j + 3] && vs[j - i + 4] == us[j + 4];
  }

  lemma LinksOfFive(head: Condition?, nodes: seq<Condition>, j: nat)
    requires IsList(head, nodes) && j < |nodes|
    ensures nodes[j].next == Successor(nodes, j)
    ensures j + 1 < |nodes| ==> nodes[j + 1].next == Successor(nodes, j + 1)
    ensures j + 2 < |nodes| ==> nodes[j + 2].next == Successor(nodes, j + 2)
    ensures j + 3 < |nodes| ==> nodes[j + 3].next == Successor(nodes, j + 3)
    ensures j + 4 < |nodes| ==> nodes[j + 4].next == Successor(nodes, j + 4)
  {
  }

  /** The inner loop: looks behind node i + 5 for a repetition of the group at node i. */
  method ScanList(head: Condition?, ghost nodes: seq<Condition>, ghost i: nat,
                  a: Condition, b: Condition, c: Condition, d: Condition, e: Condition, f: Condition)
    requires IsList(head, nodes) && i + 5 < |nodes|
    requires a == nodes[i] && b == nodes[i + 1] && c == nodes[i + 2] && d == nodes[i + 3] && e == nodes[i + 4]
    requires f == nodes[i + 5]
    modifies Nodes(nodes)
    ensures IsList(head, nodes)
    ensures TokensOf(nodes) == old(TokensOf(nodes)[..i] + ScanRepeats(TokensOf(nodes)[i..], 6))
  {
    hide Distinct, Nodes, Scanned, Repeats, NukeHead, ScanRepeats;
    ghost var ts := TokensOf(nodes);
    ghost var j := i + 6;
    ScanBegins(ts, i);
    LinksFrom(head, nodes, i + 5);
    var cond2 := f.next;
    while cond2 != null
      invariant IsList(head, nodes) && i + 6 <= j <= |nodes|
      invariant cond2 == if j < |nodes| then nodes[j] else null
      invariant Scanned(ts, TokensOf(nodes), i, j)
      decreases |nodes| - j
    {
      ghost var us := TokensOf(nodes);
      LinksOfFive(head, nodes, j);
      if cond2.op.LParen? {
        var b2 := cond2.next; if b2 == null { break; }
        var c2 := b2.next; if c2 == null { break; }
        var d2 := c2.next; if d2 == null { break; }
        var e2 := d2.next; if e2 == null { break; }
        var f2 := e2.next;
        RepeatsAt(us, i, j);
        if b2.op.Variable? && b2.nameindex == b.nameindex && c2.op == c.op
           && d2.op.Constant? && d2.str == d.str && e2.op.RParen?
           && (f.op.And? || (f2 != null && f2.op.And?)) {
          ScanNukes(ts, us, i, j);
          NukeGroup(head, nodes, i, j, a, b, c, d, e, f, f2);
        } else {
          ScanMoves(ts, us, i, j);
        }
      } else {
        ScanMoves(ts, us, i, j);
      }
      LinksFrom(head, nodes, j);
      cond2 := cond2.next;
      j := j + 1;
    }
    ScanEnds(ts, TokensOf(nodes), i, j);
  }

  predicate NukedUpTo(whole: seq<Token>, ts: seq<Token>, i: nat)
    requires i <= |ts|
  {
    whole == ts[..i] + NukeAll(ts[i..])
  }

  lemma NukeMoves(whole: seq<Token>, ts: seq<Token>, us: seq<Token>, i: nat)
    requires i < |ts| && NukedUpTo(whole, ts, i) && us == ts[..i] + NukeStep(ts[i..])
    ensures NukedUpTo(whole, us, i + 1)
  {
    var t := NukeStep(ts[i..]);
    assert us[..i + 1] == ts[..i] + [t[0]] && us[i + 1..] == t[1..];
    assert NukeAll(ts[i..]) == [t[0]] + NukeAll(t[1..]);
    hide NukeAll, NukeStep;
    Assoc(ts[..i], [t[0]], NukeAll(t[1..]));
  }

  lemma {:induction false} NukeShort(ts: seq<Token>)
    requires |ts| < 6
    ensures NukeAll(ts) == ts
    decreases |ts|
  {
    if |ts| > 0 {
      NukeShort(ts[1..]);
    }
  }

  lemma NukeEnds(whole: seq<Token>, ts: seq<Token>, i: nat)
    requires i <= |ts| < i + 6 && NukedUpTo(whole, ts, i)
    ensures ts == whole
  {
    NukeShort(ts[i..]);
    assert ts == ts[..i] + ts[i..];
  }

  lemma SimpleGroupAt(ts: seq<Token>, i: nat)
    requires i + 6 <= |ts|
    ensures StartsSimpleGroup(ts[i..]) <==>
      && ts[i].op.LParen? && ts[i + 1].op.Variable? && IsCompare(ts[i + 2])
      && ts[i + 3].op.Constant? && ts[i + 4].op.RParen?
  {
  }

  lemma NotSimple(ts: seq<Token>, i: nat)
    requires i < |ts|
    requires !ts[i].op.LParen? || (i + 6 <= |ts| && !StartsSimpleGroup(ts[i..]))
    ensures ts == ts[..i] + NukeStep(ts[i..])
  {
    assert ts[i..][0] == ts[i];
    assert NukeStep(ts[i..]) == ts[i..];
  }

  lemma IsSimple(ts: seq<Token>, i: nat)
    requires i + 6 <= |ts| && StartsSimpleGroup(ts[i..])
    ensures NukeStep(ts[i..]) == ScanRepeats(ts[i..], 6)
  {
  }

  lemma NukeBegins(ts: seq<Token>)
    ensures NukedUpTo(NukeAll(ts), ts, 0)
  {
    assert ts[0..] == ts;
  }

  /** If a group in parentheses begins at node i, the rest of the list is scanned for it. */
  method TryGroup(head: Condition?, ghost nodes: seq<Condition>, ghost i: nat,
                  a: Condition, b: Condition, c: Condition, d: Condition, e: Condition, f: Condition)
    requires IsList(head, nodes) && i + 5 < |nodes|
    requires a == nodes[i] && b == nodes[i + 1] && c == nodes[i + 2] && d == nodes[i + 3] && e == nodes[i + 4]
    requires f == nodes[i + 5] && a.op.LParen?
    modifies Nodes(nodes)
    ensures IsList(head, nodes)
    ensures TokensOf(nodes) == old(TokensOf(nodes))[..i] + NukeStep(old(TokensOf(nodes))[i..])
  {
    hide Distinct, Nodes, NukeStep, ScanRepeats, StartsSimpleGroup;
    ghost var ts := TokensOf(nodes);
    SimpleGroupAt(ts, i);
    if b.op.Variable? && (c.op.Eq? || c.op.Neq?) && d.op.Constant? && e.op.RParen? {
      IsSimple(ts, i);
      ScanList(head, nodes, i, a, b, c, d, e, f);
    } else {
      NotSimple(ts, i);
    }
  }

  /** The outer loop. */
  method NukeList(head: Condition?, ghost nodes: seq<Condition>)
    requires IsList(head, nodes)
    modifies Nodes(nodes)
    ensures IsList(head, nodes)
    ensures TokensOf(nodes) == NukeAll(old(TokensOf(nodes)))
  {
    ghost var whole := NukeAll(TokensOf(nodes));
    NukeBegins(TokensOf(nodes));
    hide Distinct, Nodes, NukedUpTo, NukeAll, NukeStep, ScanRepeats, StartsSimpleGroup;
    var cond1 := head;
    ghost var i := 0;
    while cond1 != null
      invariant IsList(head, nodes) && 0 <= i <= |nodes|
      invariant cond1 == if i < |nodes| then nodes[i] else null
      invariant NukedUpTo(whole, TokensOf(nodes), i)
      decreases |nodes| - i
    {
      ghost var ts := TokensOf(nodes);
      LinksOfFive(head, nodes, i);
      if cond1.op.LParen? {
        var b := cond1.next; if b == null { break; }
        var c := b.next; if c == null { break; }
        var d := c.next; if d == null { break; }
        var e := d.next; if e == null { break; }
        var f := e.next; if f == null { break; }
        TryGroup(head, nodes, i, cond1, b, c, d, e, f);
      } else {
        NotSimple(ts, i);
      }
      NukeMoves(whole, ts, TokensOf(nodes), i);
      LinksFrom(head, nodes, i);
      cond1 := cond1.next;
      i := i + 1;
    }
    NukeEnds(whole, TokensOf(nodes), i);
  }

  // ----- join_condition_stack -----

  lemma StackHead(stack: array<Condition?>, chains: seq<seq<Condition>>, i: nat)
    requires IsStack(stack, chains) && i < |chains|
    ensures stack[i] != null && IsList(stack[i], chains[i]) && |chains[i]| > 0
    ensures StackTokens(chains)[i] == TokensOf(chains[i]) && TokensOf(chains[i])[0] == stack[i].Value()
  {
    assert chains[i][0] == stack[i];
  }

  method GlueList(stack: array<Condition?>, depth: nat, ghost chains: seq<seq<Condition>>)
    returns (list: Condition?, ghost nodes: seq<Condition>)
    requires IsStack(stack, chains) && |chains| == depth
    ensures IsList(list, nodes) && fresh(Nodes(nodes))
    ensures TokensOf(nodes) == GlueFrames(old(StackTokens(chains)))
  {
    list, nodes := null, [];
    var last: Condition? := null;
    ghost var fs: seq<seq<Token>> := StackTokens(chains);
    assert IsList(null, []) && Nodes([]) == {};
    hide Distinct, Nodes, StackNodes, AppendFrame;
    for i := 0 to depth
      invariant IsList(list, nodes) && fresh(Nodes(nodes))
      invariant last == if |nodes| == 0 then null else nodes[|nodes| - 1]
      invariant TokensOf(nodes) == GlueFrames(fs[..i])
    {
      ghost var chain := chains[i];
      assert old(IsList(stack[i], chain)) && |chain| > 0 && fs[i] == old(TokensOf(chain));
      forall k | 0 <= k < |chain| ensures chain[k].next == Successor(chain, k) {
        assert old(chain[k].next) == Successor(chain, k);
      }
      assert TokensOf(chain) == fs[i];
      assert fs[..i + 1][..i] == fs[..i];
      list, last, nodes := AppendFrameList(stack[i], chain, list, last, nodes);
    }
    assert fs[..depth] == fs;
  }

  /** The guard for a statement, made of fresh nodes; the frames on the stack stay as they are. */
  method JoinList(stack: array<Condition?>, depth: nat, ghost chains: seq<seq<Condition>>)
    returns (list: Condition?, ghost nodes: seq<Condition>)
    requires IsStack(stack, chains) && |chains| == depth
    ensures IsList(list, nodes) && fresh(Nodes(nodes))
    ensures NonEmpty(old(StackTokens(chains))) && TokensOf(nodes) == JoinStack(old(StackTokens(chains)))
  {
    hide NukeAll, GlueFrames;
    ghost var fs: seq<seq<Token>> := StackTokens(chains);
    var never := false;
    for i := 0 to depth
      invariant forall k :: 0 <= k < i ==> |fs[k]| > 0
      invariant never == exists k :: 0 <= k < i && fs[k][0].op.False?
    {
      StackHead(stack, chains, i);
      if stack[i].op.False? {
        assert fs[i][0].op.False?;
        never := true;
      }
    }
    if never {
      var last: Condition?;
      list, last, nodes := Append(null, null, [], NEVER);
      assert TokensOf(nodes) == [NEVER];
    } else {
      forall i | 0 <= i < depth ensures StackTokens(chains)[i] == fs[i] {
        ghost var chain := chains[i];
        assert fs[i] == old(TokensOf(chain));
        assert forall k :: 0 <= k < |chain| ==> TokensOf(chain)[k] == fs[i][k];
      }
      assert StackTokens(chains) == fs;
      list, nodes := GlueList(stack, depth, chains);
      NukeList(list, nodes);
    }
  }
}
