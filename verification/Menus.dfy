/** The menus of a script (scripts/tkgen.c): numbered in one pass with a stack, read back later from the numbers of
    the parents alone. */
module Menus {
  import opened Sequences
  import opened Statements
  import opened Wrappers

  /** The statements of a script with their menus as a tree. */
  datatype Forest =
    | Empty
    | Entry(kind: Kind, rest: Forest)
    | Menu(body: Forest, rest: Forest)

  /** The statements that may stand in menus only. */
  predicate InMenu(k: Kind) {
    k in {Bool, ChoiceHeader, ChoiceItem, Comment, DepBool, DepTristate, DepMbool, Hex, Kind.Int, String, Tristate}
  }

  /** The statements that may stand anywhere and carry the number of their menu. */
  predicate Anywhere(k: Kind) {
    k in {DefineBool, DefineHex, DefineInt, DefineString, DefineTristate, Unset}
  }

  predicate Numbered(k: Kind) {
    InMenu(k) || Anywhere(k) || k == MainmenuOption
  }

  predicate Proper(f: Forest) {
    match f
    case Empty => true
    case Entry(k, rest) => k != MainmenuOption && k != Endmenu && Proper(rest)
    case Menu(body, rest) => Proper(body) && Proper(rest)
  }

  function Flat(f: Forest): seq<Kind> {
    match f
    case Empty => []
    case Entry(k, rest) => [k] + Flat(rest)
    case Menu(body, rest) => [MainmenuOption] + Flat(body) + [Endmenu] + Flat(rest)
  }

  function Size(f: Forest): nat {
    match f
    case Empty => 0
    case Entry(_, rest) => 1 + Size(rest)
    case Menu(body, rest) => 2 + Size(body) + Size(rest)
  }

  function Count(f: Forest): nat {
    match f
    case Empty => 0
    case Entry(_, rest) => Count(rest)
    case Menu(body, rest) => 1 + Count(body) + Count(rest)
  }

  function Height(f: Forest): nat {
    match f
    case Empty => 0
    case Entry(_, rest) => Height(rest)
    case Menu(body, rest) => if Height(body) >= Height(rest) then Height(body) + 1 else Height(rest)
  }

  // ----- what the numbers should be -----

  /** A menu's two ends and the number of the menu it stands in; 0 is the top level. */
  datatype Mark = Mark(first: nat, last: nat, parent: nat)

  datatype Line = Line(kind: Kind, number: nat)

  /** The tables are right for the forest, which starts at position p in menu `parent`, with m the next number: menus
      are numbered in preorder, and every statement has the number of the menu it stands in. */
  predicate Recorded(ls: seq<Line>, ms: seq<Mark>, f: Forest, p: nat, parent: nat, m: nat) {
    match f
    case Empty => p <= |ls| && 1 <= m <= |ms| + 1
    case Entry(k, rest) =>
      p < |ls| && ls[p] == Line(k, if Numbered(k) then parent else 0) && Recorded(ls, ms, rest, p + 1, parent, m)
    case Menu(body, rest) =>
      var end := p + 1 + Size(body);
      && end < |ls| && ls[p] == Line(MainmenuOption, parent) && ls[end] == Line(Endmenu, 0)
      && 1 <= m <= |ms| && ms[m - 1] == Mark(p, end, parent)
      && Recorded(ls, ms, body, p + 1, m, m + 1)
      && Recorded(ls, ms, rest, end + 1, parent, m + 1 + Count(body))
  }

  predicate Agree<T(==)>(a: seq<T>, b: seq<T>, from: int, to: int) {
    to <= |b| && forall q :: 0 <= from <= q < to && q < |a| ==> a[q] == b[q]
  }

  lemma {:induction false} RecordedBounds(ls: seq<Line>, ms: seq<Mark>, f: Forest, p: nat, parent: nat, m: nat)
    requires Recorded(ls, ms, f, p, parent, m)
    ensures p + Size(f) <= |ls| && 1 <= m && m - 1 + Count(f) <= |ms|
    decreases f
  {
    match f
    case Empty =>
    case Entry(_, rest) => RecordedBounds(ls, ms, rest, p + 1, parent, m);
    case Menu(body, rest) => RecordedBounds(ls, ms, rest, p + 2 + Size(body), parent, m + 1 + Count(body));
  }

  lemma {:induction false} RecordedFrame(ls: seq<Line>, ms: seq<Mark>, ls': seq<Line>, ms': seq<Mark>, f: Forest, p: nat,
                                         parent: nat, m: nat)
    requires Recorded(ls, ms, f, p, parent, m)
    requires Agree(ls, ls', p, p + Size(f)) && Agree(ms, ms', m - 1, m - 1 + Count(f))
    ensures Recorded(ls', ms', f, p, parent, m)
    decreases f
  {
    RecordedBounds(ls, ms, f, p, parent, m);
    match f
    case Empty =>
    case Entry(_, rest) => RecordedFrame(ls, ms, ls', ms', rest, p + 1, parent, m);
    case Menu(body, rest) =>
      RecordedFrame(ls, ms, ls', ms', body, p + 1, m, m + 1);
      RecordedFrame(ls, ms, ls', ms', rest, p + 2 + Size(body), parent, m + 1 + Count(body));
  }

  // ----- the numbering pass -----

  const MAX_DEPTH := 64
  const MAX_MENUS := 100

  datatype Error = TooDeep | TooMany | Unmatched | NotInMenu

  /** The numbers of the menus that are open, the menus so far, and the statements so far. */
  datatype State = State(stack: seq<nat>, menus: seq<Mark>, lines: seq<Line>)

  datatype Outcome = Marked(state: State) | Rejected(error: Error)

  const START := State([0], [], [])

  predicate Sound(s: State) {
    |s.stack| > 0 && s.stack[0] == 0 && forall j :: 0 < j < |s.stack| ==> 1 <= s.stack[j] <= |s.menus|
  }

  function Top(s: State): nat
    requires Sound(s)
  {
    s.stack[|s.stack| - 1]
  }

  function Step(s: State, k: Kind): (r: Outcome)
    requires Sound(s)
    ensures r.Marked? ==> Sound(r.state)
  {
    var p := |s.lines|;
    if k == MainmenuOption then
      if |s.stack| >= MAX_DEPTH then Rejected(TooDeep)
      else if |s.menus| + 1 >= MAX_MENUS then Rejected(TooMany)
      else Marked(State(s.stack + [|s.menus| + 1], s.menus + [Mark(p, p, Top(s))], s.lines + [Line(k, Top(s))]))
    else if k == Endmenu then
      if |s.stack| == 1 then Rejected(Unmatched)
      else
        Marked(State(s.stack[..|s.stack| - 1], s.menus[Top(s) - 1 := s.menus[Top(s) - 1].(last := p)],
                     s.lines + [Line(k, 0)]))
    else if InMenu(k) && |s.stack| == 1 then Rejected(NotInMenu)
    else Marked(State(s.stack, s.menus, s.lines + [Line(k, if Numbered(k) then Top(s) else 0)]))
  }

  function Run(s: State, kinds: seq<Kind>): (r: Outcome)
    requires Sound(s)
    ensures r.Marked? ==> Sound(r.state)
    decreases |kinds|
  {
    if |kinds| == 0 then Marked(s) else
    match Step(s, kinds[0])
    case Marked(t) => Run(t, kinds[1..])
    case Rejected(e) => Rejected(e)
  }

  function Continue(o: Outcome, kinds: seq<Kind>): (r: Outcome)
    requires o.Marked? ==> Sound(o.state)
    ensures r.Marked? ==> Sound(r.state)
  {
    match o
    case Marked(s) => Run(s, kinds)
    case Rejected(_) => o
  }

  lemma RunCons(s: State, k: Kind, kinds: seq<Kind>)
    requires Sound(s)
    ensures Run(s, [k] + kinds) == Continue(Step(s, k), kinds)
  {
    assert ([k] + kinds)[1..] == kinds;
  }

  lemma RunHead(s: State, kinds: seq<Kind>, i: nat)
    requires Sound(s) && i < |kinds|
    ensures var o := Step(s, kinds[i]); Run(s, kinds[i..]) == if o.Marked? then Run(o.state, kinds[i + 1..]) else o
  {
    assert kinds[i..][1..] == kinds[i + 1..];
  }

  lemma RunEnd(s: State, kinds: seq<Kind>)
    requires Sound(s)
    ensures Run(s, kinds[|kinds|..]) == Marked(s)
  {
  }

  lemma {:induction false} RunAppend(o: Outcome, a: seq<Kind>, b: seq<Kind>)
    requires o.Marked? ==> Sound(o.state)
    ensures Continue(o, a + b) == Continue(Continue(o, a), b)
    decreases |a|
  {
    if |a| == 0 {
      assert a + b == b;
    } else if o.Marked? {
      ConsAppend(a, b);
      assert a == [a[0]] + a[1..];
      RunCons(o.state, a[0], a[1..] + b);
      RunCons(o.state, a[0], a[1..]);
      RunAppend(Step(o.state, a[0]), a[1..], b);
    }
  }

  /** The limits of the program, for a forest that starts below `depth` menus after `total` others. */
  predicate Fits(f: Forest, depth: nat, total: nat) {
    match f
    case Empty => true
    case Entry(k, rest) => !(InMenu(k) && depth == 0) && Fits(rest, depth, total)
    case Menu(body, rest) =>
      depth + 1 < MAX_DEPTH && total + 1 < MAX_MENUS && Fits(body, depth + 1, total + 1)
      && Fits(rest, depth, total + 1 + Count(body))
  }

  /** What the statements of a forest add to the state: nothing that was there changes, and the tables are right. */
  predicate Adds(s: State, f: Forest, t: State)
    requires Sound(s)
  {
    && t.stack == s.stack
    && s.lines <= t.lines && |t.lines| == |s.lines| + Size(f)
    && s.menus <= t.menus && |t.menus| == |s.menus| + Count(f)
    && Recorded(t.lines, t.menus, f, |s.lines|, Top(s), |s.menus| + 1)
  }

  lemma AddsEntry(s: State, k: Kind, rest: Forest, t: State)
    requires Sound(s) && Proper(Entry(k, rest)) && Step(s, k).Marked? && Adds(Step(s, k).state, rest, t)
    ensures Adds(s, Entry(k, rest), t)
  {
    assert Step(s, k).state.lines[|s.lines|] == t.lines[|s.lines|];
  }

  lemma CloseMenu(s: State, body: Forest, u: State)
    requires Sound(s) && Sound(u) && Step(s, MainmenuOption).Marked? && Adds(Step(s, MainmenuOption).state, body, u)
    ensures Step(u, Endmenu).Marked?
    ensures var v := Step(u, Endmenu).state; Sound(v) && Adds(s, Menu(body, Empty), v)
  {
    var t, v := Step(s, MainmenuOption).state, Step(u, Endmenu).state;
    assert v.stack == s.stack;
    assert t.lines[|s.lines|] == u.lines[|s.lines|] && t.menus[|s.menus|] == u.menus[|s.menus|];
    RecordedFrame(u.lines, u.menus, v.lines, v.menus, body, |t.lines|, Top(t), |t.menus| + 1);
  }

  lemma AddsMenu(s: State, body: Forest, rest: Forest, v: State, w: State)
    requires Sound(s) && Sound(v) && Adds(s, Menu(body, Empty), v) && Adds(v, rest, w)
    ensures Adds(s, Menu(body, rest), w)
  {
    hide Recorded, Sound;
    MenuSizes(body, rest);
    RecordedFrame(v.lines, v.menus, w.lines, w.menus, Menu(body, Empty), |s.lines|, Top(s), |s.menus| + 1);
    RecordedMenu(w.lines, w.menus, body, rest, |s.lines|, Top(s), |s.menus| + 1);
  }

  lemma MenuSizes(body: Forest, rest: Forest)
    ensures Size(Menu(body, Empty)) == 2 + Size(body) && Count(Menu(body, Empty)) == 1 + Count(body)
    ensures Size(Menu(body, rest)) == 2 + Size(body) + Size(rest)
    ensures Count(Menu(body, rest)) == 1 + Count(body) + Count(rest)
  {
  }

  lemma RecordedMenu(ls: seq<Line>, ms: seq<Mark>, body: Forest, rest: Forest, p: nat, parent: nat, m: nat)
    requires Recorded(ls, ms, Menu(body, Empty), p, parent, m)
    requires Recorded(ls, ms, rest, p + 2 + Size(body), parent, m + 1 + Count(body))
    ensures Recorded(ls, ms, Menu(body, rest), p, parent, m)
  {
  }

  lemma RunMenu(s: State, body: Forest, rest: Forest)
    requires Sound(s)
    ensures Run(s, Flat(Menu(body, rest)))
            == Continue(Continue(Continue(Step(s, MainmenuOption), Flat(body)), [Endmenu]), Flat(rest))
  {
    hide Run, Step;
    Assoc([MainmenuOption], Flat(body), [Endmenu]);
    Assoc([MainmenuOption], Flat(body) + [Endmenu], Flat(rest));
    RunCons(s, MainmenuOption, Flat(body) + [Endmenu] + Flat(rest));
    RunAppend(Step(s, MainmenuOption), Flat(body) + [Endmenu], Flat(rest));
    RunAppend(Step(s, MainmenuOption), Flat(body), [Endmenu]);
  }

  lemma RunOne(s: State, k: Kind)
    requires Sound(s)
    ensures Run(s, [k]) == Step(s, k)
  {
    assert [k][1..] == [];
  }

  /** The pass computes the numbers of the tree, exactly when the tree is within the limits. */
  lemma {:induction false} RunForest(s: State, f: Forest)
    requires Sound(s) && Proper(f)
    ensures var r := Run(s, Flat(f));
            if Fits(f, |s.stack| - 1, |s.menus|) then r.Marked? && Adds(s, f, r.state) else r.Rejected?
    decreases f
  {
    match f
    case Empty =>
    case Entry(k, rest) =>
      RunCons(s, k, Flat(rest));
      if Step(s, k).Marked? {
        RunForest(Step(s, k).state, rest);
        if Fits(f, |s.stack| - 1, |s.menus|) { AddsEntry(s, k, rest, Run(s, Flat(f)).state); }
      }
    case Menu(body, rest) => RunForestMenu(s, body, rest);
  }

  lemma {:induction false} RunForestMenu(s: State, body: Forest, rest: Forest)
    requires Sound(s) && Proper(body) && Proper(rest)
    ensures var f := Menu(body, rest);
            var r := Run(s, Flat(f));
            if Fits(f, |s.stack| - 1, |s.menus|) then r.Marked? && Adds(s, f, r.state) else r.Rejected?
    decreases Menu(body, rest), 0
  {
    hide Run, Recorded, Sound, Adds, InMenu, Numbered, Flat;
    RunMenu(s, body, rest);
    if Step(s, MainmenuOption).Marked? {
      var t := Step(s, MainmenuOption).state;
      RunForest(t, body);
      if Fits(body, |s.stack|, |s.menus| + 1) {
        var u := Run(t, Flat(body)).state;
        CloseMenu(s, body, u);
        RunOne(u, Endmenu);
        var v := Step(u, Endmenu).state;
        RunForest(v, rest);
        if Fits(rest, |s.stack| - 1, |s.menus| + 1 + Count(body)) { AddsMenu(s, body, rest, v, Run(v, Flat(rest)).state); }
      }
    }
  }

  /** The limits in terms of the whole tree. */
  predicate Sheltered(f: Forest) {
    match f
    case Empty => true
    case Entry(k, rest) => !InMenu(k) && Sheltered(rest)
    case Menu(_, rest) => Sheltered(rest)
  }

  predicate Within(f: Forest, depth: nat, total: nat) {
    depth + Height(f) < MAX_DEPTH && total + Count(f) < MAX_MENUS && (depth == 0 ==> Sheltered(f))
  }

  lemma MenuMeasures(body: Forest, rest: Forest)
    ensures var f := Menu(body, rest);
            && Count(f) == 1 + Count(body) + Count(rest) && Sheltered(f) == Sheltered(rest)
            && Height(f) == if Height(body) >= Height(rest) then Height(body) + 1 else Height(rest)
  {
  }

  lemma WithinMenu(body: Forest, rest: Forest, depth: nat, total: nat)
    requires depth < MAX_DEPTH && total < MAX_MENUS
    ensures Within(Menu(body, rest), depth, total)
            <==> Within(body, depth + 1, total + 1) && Within(rest, depth, total + 1 + Count(body))
  {
    hide Count, Height, Sheltered;
    MenuMeasures(body, rest);
  }

  lemma {:induction false} FitsIff(f: Forest, depth: nat, total: nat)
    requires depth < MAX_DEPTH && total < MAX_MENUS
    ensures Fits(f, depth, total) <==> Within(f, depth, total)
    decreases f
  {
    match f
    case Empty =>
    case Entry(_, rest) => FitsIff(rest, depth, total);
    case Menu(body, rest) =>
      WithinMenu(body, rest, depth, total);
      if depth + 1 < MAX_DEPTH && total + 1 < MAX_MENUS {
        FitsIff(body, depth + 1, total + 1);
        if total + 1 + Count(body) < MAX_MENUS { FitsIff(rest, depth, total + 1 + Count(body)); }
      }
  }

  /** The pass as a whole: it accepts a tree exactly within the limits, and then its tables are right. */
  lemma NumberingRecoversTree(f: Forest)
    requires Proper(f)
    ensures Run(START, Flat(f)).Marked? <==> Height(f) < 64 && Count(f) < 100 && Sheltered(f)
    ensures var r := Run(START, Flat(f));
            r.Marked? ==> && r.state.stack == [0] && |r.state.lines| == Size(f) && |r.state.menus| == Count(f)
                          && Recorded(r.state.lines, r.state.menus, f, 0, 0, 1)
  {
    RunForest(START, f);
    FitsIff(f, 0, 0);
  }

  // ----- the verdict, from the list alone -----

  function Opened(kinds: seq<Kind>, q: nat): nat
    requires q <= |kinds|
  {
    multiset(kinds[..q])[MainmenuOption]
  }

  function Closed(kinds: seq<Kind>, q: nat): nat
    requires q <= |kinds|
  {
    multiset(kinds[..q])[Endmenu]
  }

  /** What is wrong with statement q behind those before it. */
  function Problem(kinds: seq<Kind>, q: nat): Option<Error>
    requires q < |kinds|
  {
    var ups, downs := Opened(kinds, q), Closed(kinds, q);
    match kinds[q]
    case MainmenuOption =>
      if ups - downs >= 63 then Some(TooDeep) else if ups >= 99 then Some(TooMany) else None
    case Endmenu => if ups == downs then Some(Unmatched) else None
    case Bool | ChoiceHeader | ChoiceItem | Comment | DepBool | DepMbool | DepTristate
       | Hex | Int | String | Tristate =>
      if ups == downs then Some(NotInMenu) else None
    case _ => None
  }

  predicate Faultless(kinds: seq<Kind>, n: nat) {
    n <= |kinds| && forall q :: 0 <= q < n ==> Problem(kinds, q) == None
  }

  lemma OneMore(kinds: seq<Kind>, q: nat)
    requires q < |kinds|
    ensures kinds[..q + 1] == kinds[..q] + [kinds[q]]
    ensures Opened(kinds, q + 1) == Opened(kinds, q) + if kinds[q] == MainmenuOption then 1 else 0
    ensures Closed(kinds, q + 1) == Closed(kinds, q) + if kinds[q] == Endmenu then 1 else 0
  {
    assert kinds[..q + 1] == kinds[..q] + [kinds[q]];
  }

  /** Statement q stands in a menu and is of a kind that gets its number. */
  predicate GetsNumber(kinds: seq<Kind>, q: nat)
    requires q < |kinds|
  {
    && Opened(kinds, q) > Closed(kinds, q)
    && kinds[q] !in {Unknown, Else, Endmenu, Fi, If, MainmenuName, Source, Then}
  }

  /** The stack and the tables after the first n statements. */
  predicate Reflects(s: State, kinds: seq<Kind>, n: nat)
    requires n <= |kinds|
  {
    && |s.stack| == 1 + Opened(kinds, n) - Closed(kinds, n) && |s.menus| == Opened(kinds, n) && |s.lines| == n
    && forall q :: 0 <= q < n ==> (s.lines[q].number > 0 <==> GetsNumber(kinds, q))
  }

  lemma StepLine(s: State, k: Kind)
    requires Sound(s) && Step(s, k).Marked?
    ensures var r := Step(s, k).state;
            && r.lines == s.lines + [r.lines[|s.lines|]]
            && (r.lines[|s.lines|].number > 0
                <==> |s.stack| > 1 && k !in {Unknown, Else, Endmenu, Fi, If, MainmenuName, Source, Then})
  {
  }

  lemma StepCounts(s: State, k: Kind)
    requires Sound(s) && Step(s, k).Marked?
    ensures var r := Step(s, k).state;
            && |r.stack| == |s.stack| + (if k == MainmenuOption then 1 else if k == Endmenu then -1 else 0)
            && |r.menus| == |s.menus| + if k == MainmenuOption then 1 else 0
  {
  }

  lemma StepFinds(s: State, kinds: seq<Kind>, n: nat)
    requires Sound(s) && n < |kinds|
    requires |s.stack| == 1 + Opened(kinds, n) - Closed(kinds, n) && |s.menus| == Opened(kinds, n)
    ensures var r, problem := Step(s, kinds[n]), Problem(kinds, n);
            if problem.None? then r.Marked? else r == Rejected(problem.value)
  {
    hide Opened, Closed;
  }

  lemma StepReflects(s: State, kinds: seq<Kind>, n: nat)
    requires Sound(s) && n < |kinds| && Reflects(s, kinds, n)
    ensures var r, problem := Step(s, kinds[n]), Problem(kinds, n);
            if problem.None? then r.Marked? && Reflects(r.state, kinds, n + 1) else r == Rejected(problem.value)
  {
    hide Opened, Closed, Problem, Step;
    OneMore(kinds, n);
    StepFinds(s, kinds, n);
    if Problem(kinds, n).None? {
      StepCounts(s, kinds[n]);
      StepLine(s, kinds[n]);
    }
  }

  lemma {:induction false} RunReflects(kinds: seq<Kind>, n: nat)
    requires Faultless(kinds, n)
    ensures Run(START, kinds[..n]).Marked? && Reflects(Run(START, kinds[..n]).state, kinds, n)
    decreases n
  {
    if n > 0 {
      RunReflects(kinds, n - 1);
      RunNext(kinds, n - 1);
      StepReflects(Run(START, kinds[..n - 1]).state, kinds, n - 1);
    }
  }

  lemma RunNext(kinds: seq<Kind>, n: nat)
    requires n < |kinds| && Run(START, kinds[..n]).Marked?
    ensures Run(START, kinds[..n + 1]) == Step(Run(START, kinds[..n]).state, kinds[n])
  {
    hide Run, Step;
    OneMore(kinds, n);
    RunAppend(Marked(START), kinds[..n], [kinds[n]]);
    RunOne(Run(START, kinds[..n]).state, kinds[n]);
  }

  lemma StopsThere(kinds: seq<Kind>, n: nat)
    requires n <= |kinds| && Run(START, kinds[..n]).Rejected?
    ensures Run(START, kinds) == Run(START, kinds[..n])
  {
    hide Run, Step;
    RunAppend(Marked(START), kinds[..n], kinds[n..]);
    assert kinds[..n] + kinds[n..] == kinds;
  }

  /** At the first statement that something is wrong with, the program stops and says what it is. */
  lemma FirstProblemIsReported(kinds: seq<Kind>, q: nat)
    requires q < |kinds| && Faultless(kinds, q) && Problem(kinds, q).Some?
    ensures Run(START, kinds) == Rejected(Problem(kinds, q).value)
  {
    assert Sound(START);
    hide Run, Step, Problem, Reflects, Sound, Faultless, Opened, Closed;
    RunReflects(kinds, q);
    RunNext(kinds, q);
    StepReflects(Run(START, kinds[..q]).state, kinds, q);
    StopsThere(kinds, q + 1);
  }

  /** And it accepts exactly the scripts without any such statement; then the statements of menus have numbers, and no
      others. */
  lemma AcceptedIffFaultless(kinds: seq<Kind>)
    ensures Run(START, kinds).Marked? <==> Faultless(kinds, |kinds|)
    ensures var r := Run(START, kinds);
            r.Marked? ==>
              && |r.state.lines| == |kinds|
              && forall q :: 0 <= q < |kinds| ==> (r.state.lines[q].number > 0 <==> GetsNumber(kinds, q))
  {
    hide Run, Problem;
    if n: nat :| n < |kinds| && Problem(kinds, n).Some? {
      FirstProblem(kinds, n);
    } else {
      RunReflects(kinds, |kinds|);
      assert kinds[..|kinds|] == kinds;
    }
  }

  lemma {:induction false} FirstProblem(kinds: seq<Kind>, n: nat)
    requires n < |kinds| && Problem(kinds, n).Some?
    ensures Run(START, kinds).Rejected?
    decreases n
  {
    hide Run, Problem;
    if q: nat :| q < n && Problem(kinds, q).Some? {
      FirstProblem(kinds, q);
    } else {
      FirstProblemIsReported(kinds, n);
    }
  }

  // ----- every accepted list that closes its menus is a tree -----

  /** The trees that a list completes, read from its end: one for each menu left to close, and one more. */
  function Build(kinds: seq<Kind>): seq<Forest>
    decreases |kinds|
  {
    if |kinds| == 0 then [Empty] else
    var later := Build(kinds[1..]);
    if kinds[0] == Endmenu then if |later| == 0 then [] else [Empty] + later
    else if kinds[0] == MainmenuOption then if |later| < 2 then [] else [Menu(later[0], later[1])] + later[2..]
    else if |later| == 0 then [] else [Entry(kinds[0], later[0])] + later[1..]
  }

  function FlatAll(fs: seq<Forest>): seq<Kind> {
    if |fs| == 0 then [] else if |fs| == 1 then Flat(fs[0]) else Flat(fs[0]) + [Endmenu] + FlatAll(fs[1..])
  }

  predicate AllProper(fs: seq<Forest>) {
    forall j :: 0 <= j < |fs| ==> Proper(fs[j])
  }

  lemma FlatFirst(k: Kind, f: Forest, fs: seq<Forest>)
    ensures FlatAll([Entry(k, f)] + fs) == [k] + FlatAll([f] + fs)
  {
    assert ([Entry(k, f)] + fs)[1..] == fs == ([f] + fs)[1..];
    if |fs| > 0 {
      Assoc([k], Flat(f), [Endmenu]);
      Assoc([k], Flat(f) + [Endmenu], FlatAll(fs));
    }
  }

  lemma FlatMenu(body: Forest, rest: Forest, fs: seq<Forest>)
    ensures FlatAll([Menu(body, rest)] + fs) == [MainmenuOption] + FlatAll([body, rest] + fs)
  {
    var more := if |fs| == 0 then [] else [Endmenu] + FlatAll(fs);
    assert ([Menu(body, rest)] + fs)[1..] == fs == ([rest] + fs)[1..];
    assert ([body, rest] + fs)[1..] == [rest] + fs;
    assert FlatAll([rest] + fs) == Flat(rest) + more by { Assoc(Flat(rest), [Endmenu], FlatAll(fs)); }
    assert FlatAll([Menu(body, rest)] + fs) == Flat(Menu(body, rest)) + more by {
      Assoc(Flat(Menu(body, rest)), [Endmenu], FlatAll(fs));
    }
    Regroup([MainmenuOption], Flat(body), [Endmenu], Flat(rest), more);
  }

  lemma Regroup<T>(a: seq<T>, b: seq<T>, c: seq<T>, d: seq<T>, e: seq<T>)
    ensures a + b + c + d + e == a + (b + c + (d + e))
  {
  }

  lemma FlatEndmenu(fs: seq<Forest>)
    requires |fs| > 0
    ensures FlatAll([Empty] + fs) == [Endmenu] + FlatAll(fs)
  {
    assert ([Empty] + fs)[1..] == fs;
  }

  lemma {:induction false} BuildFlat(kinds: seq<Kind>)
    ensures AllProper(Build(kinds)) && (|Build(kinds)| > 0 ==> FlatAll(Build(kinds)) == kinds)
    decreases |kinds|
  {
    if |kinds| > 0 {
      hide FlatAll, Flat;
      var later := Build(kinds[1..]);
      BuildFlat(kinds[1..]);
      assert kinds == [kinds[0]] + kinds[1..];
      if kinds[0] == Endmenu {
        if |later| > 0 { FlatEndmenu(later); }
      } else if kinds[0] == MainmenuOption {
        if |later| >= 2 {
          assert later == [later[0], later[1]] + later[2..];
          FlatMenu(later[0], later[1], later[2..]);
        }
      } else if |later| > 0 {
        assert later == [later[0]] + later[1..];
        FlatFirst(kinds[0], later[0], later[1..]);
      }
    }
  }

  lemma {:induction false} BuildSize(s: State, kinds: seq<Kind>)
    requires Sound(s) && Run(s, kinds).Marked? && |Run(s, kinds).state.stack| == 1
    ensures |Build(kinds)| == |s.stack|
    decreases |kinds|
  {
    if |kinds| > 0 { BuildSize(Step(s, kinds[0]).state, kinds[1..]); }
  }

  /** Nothing but trees passes, unless a menu is left open. */
  lemma AcceptedIsForest(kinds: seq<Kind>)
    requires Run(START, kinds).Marked? && |Run(START, kinds).state.stack| == 1
    ensures exists f :: Proper(f) && Flat(f) == kinds
  {
    BuildSize(START, kinds);
    BuildFlat(kinds);
    assert Proper(Build(kinds)[0]) && Flat(Build(kinds)[0]) == kinds;
  }

  // ----- the body of a menu -----

  function Body(f: Forest, m: nat, i: nat): Forest
    requires m <= i < m + Count(f)
  {
    match f
    case Entry(_, rest) => Body(rest, m, i)
    case Menu(body, rest) =>
      if i == m then body
      else if i < m + 1 + Count(body) then Body(body, m + 1, i)
      else Body(rest, m + 1 + Count(body), i)
  }

  lemma {:induction false} ProperBody(f: Forest, m: nat, i: nat)
    requires Proper(f) && m <= i < m + Count(f)
    ensures Proper(Body(f, m, i))
    decreases f
  {
    match f
    case Entry(_, rest) => ProperBody(rest, m, i);
    case Menu(body, rest) =>
      if i >= m + 1 + Count(body) { ProperBody(rest, m + 1 + Count(body), i); }
      else if i > m { ProperBody(body, m + 1, i); }
  }

  /** No statement of these lines stands in menu i. */
  predicate NoneOf(ls: seq<Line>, from: nat, to: nat, i: nat) {
    forall q :: from <= q < to && q < |ls| ==> ls[q].number != i
  }

  lemma {:induction false} NumbersInRange(ls: seq<Line>, ms: seq<Mark>, f: Forest, p: nat, parent: nat, m: nat, i: nat)
    requires Recorded(ls, ms, f, p, parent, m) && i > 0 && i != parent && !(m <= i < m + Count(f))
    ensures NoneOf(ls, p, p + Size(f), i)
    decreases f
  {
    match f
    case Empty =>
    case Entry(k, rest) => NumbersInRange(ls, ms, rest, p + 1, parent, m, i);
    case Menu(body, rest) =>
      NumbersInRange(ls, ms, body, p + 1, m, m + 1, i);
      NumbersInRange(ls, ms, rest, p + 2 + Size(body), parent, m + 1 + Count(body), i);
  }

  /** Between these two positions the marks of menu i enclose its body, and elsewhere no statement has its number. */
  predicate Encloses(ls: seq<Line>, ms: seq<Mark>, body: Forest, i: nat, from: nat, to: nat) {
    && 1 <= i <= |ms| && from <= ms[i - 1].first < ms[i - 1].last < to <= |ls|
    && Recorded(ls, ms, body, ms[i - 1].first + 1, i, i + 1)
    && ms[i - 1].last == ms[i - 1].first + 1 + Size(body)
    && NoneOf(ls, from, ms[i - 1].first + 1, i) && NoneOf(ls, ms[i - 1].last, to, i)
  }

  lemma Widen(ls: seq<Line>, ms: seq<Mark>, body: Forest, i: nat, from: nat, to: nat, from': nat, to': nat)
    requires Encloses(ls, ms, body, i, from, to) && from' <= from && to <= to' <= |ls|
    requires NoneOf(ls, from', from, i) && NoneOf(ls, to, to', i)
    ensures Encloses(ls, ms, body, i, from', to')
  {
  }

  /** Every menu is found between its marks. */
  lemma {:induction false} BodyBetweenMarks(ls: seq<Line>, ms: seq<Mark>, f: Forest, p: nat, parent: nat, m: nat, i: nat)
    requires Recorded(ls, ms, f, p, parent, m) && parent < m <= i < m + Count(f)
    ensures Encloses(ls, ms, Body(f, m, i), i, p, p + Size(f))
    decreases f
  {
    hide Encloses, Numbered;
    match f
    case Entry(k, rest) =>
      RecordedBounds(ls, ms, rest, p + 1, parent, m);
      BodyBetweenMarks(ls, ms, rest, p + 1, parent, m, i);
      Widen(ls, ms, Body(f, m, i), i, p + 1, p + Size(f), p, p + Size(f));
    case Menu(body, rest) =>
      hide NoneOf;
      var next, n := p + 2 + Size(body), m + 1 + Count(body);
      if i >= n {
        NumbersInRange(ls, ms, body, p + 1, m, m + 1, i);
        BodyBetweenMarks(ls, ms, rest, next, parent, n, i);
        AfterFirstMenu(ls, ms, body, rest, p, parent, m, i);
      } else {
        NumbersInRange(ls, ms, rest, next, parent, n, i);
        if i > m { BodyBetweenMarks(ls, ms, body, p + 1, m, m + 1, i); }
        InFirstMenu(ls, ms, body, rest, p, parent, m, i);
      }
  }

  lemma AfterFirstMenu(ls: seq<Line>, ms: seq<Mark>, body: Forest, rest: Forest, p: nat, parent: nat, m: nat, i: nat)
    requires Recorded(ls, ms, Menu(body, rest), p, parent, m) && parent < m
    requires m + 1 + Count(body) <= i < m + Count(Menu(body, rest)) && NoneOf(ls, p + 1, p + 1 + Size(body), i)
    requires Encloses(ls, ms, Body(rest, m + 1 + Count(body), i), i, p + 2 + Size(body), p + Size(Menu(body, rest)))
    ensures Encloses(ls, ms, Body(Menu(body, rest), m, i), i, p, p + Size(Menu(body, rest)))
  {
    hide Encloses;
    RecordedBounds(ls, ms, rest, p + 2 + Size(body), parent, m + 1 + Count(body));
    Widen(ls, ms, Body(rest, m + 1 + Count(body), i), i, p + 2 + Size(body), p + Size(Menu(body, rest)),
          p, p + Size(Menu(body, rest)));
  }

  /** Around the body of a menu that does not have the number, no statement has it. */
  lemma AroundBody(ls: seq<Line>, ms: seq<Mark>, body: Forest, rest: Forest, p: nat, parent: nat, m: nat, i: nat)
    requires Recorded(ls, ms, Menu(body, rest), p, parent, m) && parent < i && 0 < i
    requires NoneOf(ls, p + 2 + Size(body), p + 2 + Size(body) + Size(rest), i)
    ensures NoneOf(ls, p, p + 1, i) && NoneOf(ls, p + 1 + Size(body), p + Size(Menu(body, rest)), i)
  {
    assert ls[p].number == parent && ls[p + 1 + Size(body)].number == 0;
    hide Recorded;
  }

  lemma MenuFits(ls: seq<Line>, ms: seq<Mark>, body: Forest, rest: Forest, p: nat, parent: nat, m: nat)
    requires Recorded(ls, ms, Menu(body, rest), p, parent, m)
    ensures p + 2 + Size(body) <= p + Size(Menu(body, rest)) <= |ls|
  {
    RecordedBounds(ls, ms, rest, p + 2 + Size(body), parent, m + 1 + Count(body));
  }

  lemma OwnMenu(ls: seq<Line>, ms: seq<Mark>, body: Forest, rest: Forest, p: nat, parent: nat, m: nat)
    requires Recorded(ls, ms, Menu(body, rest), p, parent, m) && parent < m
    requires NoneOf(ls, p, p + 1, m) && NoneOf(ls, p + 1 + Size(body), p + Size(Menu(body, rest)), m)
    ensures Encloses(ls, ms, body, m, p, p + Size(Menu(body, rest)))
  {
    MenuFits(ls, ms, body, rest, p, parent, m);
    assert ms[m - 1] == Mark(p, p + 1 + Size(body), parent) && Recorded(ls, ms, body, p + 1, m, m + 1);
    hide Recorded, NoneOf, Size;
  }

  lemma InFirstMenu(ls: seq<Line>, ms: seq<Mark>, body: Forest, rest: Forest, p: nat, parent: nat, m: nat, i: nat)
    requires Recorded(ls, ms, Menu(body, rest), p, parent, m) && parent < m <= i < m + 1 + Count(body)
    requires NoneOf(ls, p + 2 + Size(body), p + 2 + Size(body) + Size(rest), i)
    requires i > m ==> Encloses(ls, ms, Body(body, m + 1, i), i, p + 1, p + 1 + Size(body))
    ensures Encloses(ls, ms, Body(Menu(body, rest), m, i), i, p, p + Size(Menu(body, rest)))
  {
    hide Recorded, Size, NoneOf, Encloses;
    AroundBody(ls, ms, body, rest, p, parent, m, i);
    MenuFits(ls, ms, body, rest, p, parent, m);
    if i > m {
      Widen(ls, ms, Body(body, m + 1, i), i, p + 1, p + 1 + Size(body), p, p + Size(Menu(body, rest)));
    } else {
      OwnMenu(ls, ms, body, rest, p, parent, m);
    }
  }
}
