/** The menus on the heap (scripts/tkgen.c): the tables of their heads and ends, the pass that fills them, and the walk
    that reads them. */
module MenuTables {
  import opened Menus
  import opened MenuRows
  import opened Scripts
  import opened Sequences
  import opened Statements
  import opened Wrappers

  ghost function KindsOf(all: seq<Kconfig>): (r: seq<Kind>)
    reads Lines(all)
    ensures |r| == |all|
  {
    seq(|all|, q requires 0 <= q < |all| reads Lines(all) => all[q].kind)
  }

  /** The statements have these kinds and these menu numbers. */
  ghost predicate Carries(all: seq<Kconfig>, ls: seq<Line>)
    reads Lines(all)
  {
    |ls| <= |all| && forall q {:trigger ls[q]} :: 0 <= q < |ls| ==> ls[q] == Line(all[q].kind, all[q].menuNumber)
  }

  ghost function At(all: seq<Kconfig>, i: nat): Kconfig? {
    if i < |all| then all[i] else null
  }

  class MenuTable {
    var total: nat
    var first: array<Kconfig?>
    var last: array<Kconfig?>

    constructor ()
      ensures fresh(first) && fresh(last) && first != last && first.Length == last.Length == MAX_MENUS
    {
      total := 0;
      first, last := new Kconfig?[MAX_MENUS](_ => null), new Kconfig?[MAX_MENUS](_ => null);
    }

    /** The tables point to the heads and ends of these menus. */
    ghost predicate Points(all: seq<Kconfig>, ms: seq<Mark>)
      reads this, first, last
    {
      && first != last && first.Length == last.Length == MAX_MENUS && total == |ms| < MAX_MENUS
      && forall n {:trigger ms[n]} :: 0 <= n < |ms| ==>
           && ms[n].first < |all| && ms[n].last < |all|
           && first[n + 1] == all[ms[n].first] && last[n + 1] == all[ms[n].last]
    }

    /** The pass has dealt with the statements before i. */
    ghost predicate Progress(all: seq<Kconfig>, i: nat, s: State, num: array<nat>, depth: int)
      reads this, first, last, num, Lines(all)
    {
      && Sound(s) && |s.lines| == i <= |all| && Points(all, s.menus) && Carries(all, s.lines)
      && num.Length == MAX_DEPTH && 0 <= depth < MAX_DEPTH && num[..depth + 1] == s.stack
      && forall q {:trigger all[q]} :: i <= q < |all| ==> all[q].menuNumber == 0
    }

    /** case token_mainmenu_option */
    method Open(cfg: Kconfig, num: array<nat>, depth: int, ghost all: seq<Kconfig>, ghost i: nat, ghost s: State)
      returns (d: int, error: Option<Error>)
      requires Progress(all, i, s, num, depth) && i < |all| && Different(all) && cfg == all[i] && cfg.kind == MainmenuOption
      modifies this`total, first, last, num, cfg`menuNumber
      ensures var o := Step(s, MainmenuOption);
              if o.Marked? then error == None && Progress(all, i + 1, o.state, num, d) else error == Some(o.error)
    {
      d := depth + 1;
      if d >= MAX_DEPTH { return d, Some(TooDeep); }
      if total + 1 >= MAX_MENUS { return d, Some(TooMany); }
      total := total + 1;
      num[d] := total;
      first[total], last[total] := cfg, cfg;
      cfg.menuNumber := num[d - 1];
      return d, None;
    }

    /** case token_endmenu */
    method Close(cfg: Kconfig, num: array<nat>, depth: int, ghost all: seq<Kconfig>, ghost i: nat, ghost s: State)
      returns (d: int, error: Option<Error>)
      requires Progress(all, i, s, num, depth) && i < |all| && Different(all) && cfg == all[i] && cfg.kind == Endmenu
      modifies this`total, first, last, num, cfg`menuNumber
      ensures var o := Step(s, Endmenu);
              if o.Marked? then error == None && Progress(all, i + 1, o.state, num, d) else error == Some(o.error)
    {
      last[num[depth]] := cfg;
      d := depth - 1;
      if d < 0 { return d, Some(Unmatched); }
      return d, None;
    }

    /** The other cases. */
    method Place(cfg: Kconfig, num: array<nat>, depth: int, ghost all: seq<Kconfig>, ghost i: nat, ghost s: State)
      returns (error: Option<Error>)
      requires Progress(all, i, s, num, depth) && i < |all| && Different(all) && cfg == all[i]
      requires cfg.kind != MainmenuOption && cfg.kind != Endmenu
      modifies cfg`menuNumber
      ensures var o := Step(s, cfg.kind);
              if o.Marked? then error == None && Progress(all, i + 1, o.state, num, depth) else error == Some(o.error)
    {
      if InMenu(cfg.kind) {
        cfg.menuNumber := num[depth];
        if depth == 0 { return Some(NotInMenu); }
      } else if Anywhere(cfg.kind) {
        cfg.menuNumber := num[depth];
      }
      return None;
    }

    lemma NumberingStarts(all: seq<Kconfig>, num: array<nat>)
      requires first != last && first.Length == last.Length == MAX_MENUS && total == 0
      requires num.Length == MAX_DEPTH && num[0] == 0
      requires forall q {:trigger all[q]} :: 0 <= q < |all| ==> all[q].menuNumber == 0
      ensures Progress(all, 0, START, num, 0)
    {
    }

    /** The numbering pass of dump_tk_script. */
    method Number(head: Kconfig?, ghost all: seq<Kconfig>) returns (error: Option<Error>)
      requires IsScript(head, all) && forall q {:trigger all[q]} :: 0 <= q < |all| ==> all[q].menuNumber == 0
      requires first != last && first.Length == last.Length == MAX_MENUS
      modifies this`total, first, last, Lines(all)`menuNumber
      ensures var o := Run(START, old(KindsOf(all)));
              if o.Marked? then
                error == None && Points(all, o.state.menus) && Carries(all, o.state.lines) && |o.state.lines| == |all|
              else error == Some(o.error)
    {
      hide Step, Run, Sound, InMenu, Anywhere, Numbered, Continue, Points, Carries;
      var num := new nat[MAX_DEPTH](_ => 0);
      var depth: int := 0;
      total := 0;
      ghost var kinds := KindsOf(all);
      ghost var s, i := START, 0;
      assert kinds[0..] == kinds;
      NumberingStarts(all, num);
      var cfg := head;
      while cfg != null
        invariant 0 <= i <= |all| && cfg == At(all, i)
        invariant Progress(all, i, s, num, depth)
        invariant Run(s, kinds[i..]) == Run(START, kinds)
        decreases |all| - i
      {
        RunHead(s, kinds, i);
        if cfg.kind == MainmenuOption {
          depth, error := Open(cfg, num, depth, all, i, s);
        } else if cfg.kind == Endmenu {
          depth, error := Close(cfg, num, depth, all, i, s);
        } else {
          error := Place(cfg, num, depth, all, i, s);
        }
        if error != None { return; }
        s := Step(s, cfg.kind).state;
        cfg, i := cfg.next, i + 1;
      }
      RunEnd(s, kinds);
      return None;
    }

    // ----- the windows -----

    /** The tables are those of the tree. */
    ghost predicate Holds(all: seq<Kconfig>, ls: seq<Line>, ms: seq<Mark>, f: Forest)
      reads this, first, last, Lines(all)
    {
      && Points(all, ms) && Carries(all, ls) && |ls| == |all|
      && Proper(f) && Size(f) == |ls| && Count(f) == |ms| && Recorded(ls, ms, f, 0, 0, 1)
    }

    lemma AtHead(all: seq<Kconfig>, ls: seq<Line>, ms: seq<Mark>, n: nat)
      requires Points(all, ms) && Carries(all, ls) && |ls| == |all| && Heads(ls, ms, 1, |ms| + 1) && 1 <= n <= |ms|
      ensures first[n] != null && first[n].menuNumber == ms[n - 1].parent
    {
      var mark := ms[n - 1];
      assert ls[mark.first].number == mark.parent;
    }

    /** The search for the number of the submenu that starts here. */
    method FindSubmenu(i: nat, nr: nat, ghost all: seq<Kconfig>, ghost ls: seq<Line>, ghost ms: seq<Mark>, ghost m: nat)
      returns (n: nat)
      requires Points(all, ms) && Carries(all, ls) && |ls| == |all| && Heads(ls, ms, 1, |ms| + 1)
      requires nr < m <= |ms| && ms[m - 1].parent <= i && Deeper(ms, nr + 1, m, i)
      ensures n == m
    {
      n := nr + 1;
      AtHead(all, ls, ms, n);
      while first[n].menuNumber > i
        invariant nr < n <= m && first[n] != null && first[n].menuNumber == ms[n - 1].parent
        decreases m - n
      {
        n := n + 1;
        AtHead(all, ls, ms, n);
      }
    }

    /** The statement's line, and its row in the script. */
    method AddRow(cfg: Kconfig, line: nat, submenu: nat, rows: seq<WindowRow>, ghost all: seq<Kconfig>,
                  ghost pre: seq<Row>, ghost p: nat, ghost i: nat)
      returns (more: seq<WindowRow>)
      requires Shows(rows, all, pre, i) && Placed(pre, all, p) && Untouched(all, p, i)
      requires p < |all| && cfg == all[p] && cfg.menuNumber == i && Different(all)
      modifies cfg`menuLine
      ensures var now := pre + [Row(p, line, submenu)]; Shows(more, all, now, i) && Placed(now, all, p + 1)
      ensures Untouched(all, p + 1, i)
    {
      cfg.menuLine := line;
      more := rows + [WindowRow(cfg, cfg.menuNumber, cfg.menuLine, submenu)];
    }

    ghost predicate Tables(all: seq<Kconfig>, ls: seq<Line>, ms: seq<Mark>)
      reads this, first, last, Lines(all)
    {
      Points(all, ms) && Carries(all, ls) && |ls| == |all| && Heads(ls, ms, 1, |ms| + 1)
    }

    /** The walk over menu i stands at w. */
    ghost predicate Walking(all: seq<Kconfig>, ls: seq<Line>, ms: seq<Mark>, i: nat, w: Spot,
                            rows: seq<WindowRow>, line: nat, nr: nat, named: bool)
      reads this, first, last, Lines(all)
    {
      && Tables(all, ls, ms) && 1 <= i <= |ms| && w.p + Size(w.rest) == ms[i - 1].last
      && Recorded(ls, ms, w.rest, w.p, i, w.m) && Proper(w.rest)
      && Shows(rows, all, w.pre, i) && Placed(w.pre, all, w.p) && Untouched(all, w.p, i)
      && (named ==> 0 <= w.naming < w.p && w.naming < |all| && all[w.naming].menuLine == -1)
      && i <= nr < w.m && Deeper(ms, nr + 1, w.m, i)
    }

    /** case token_mainmenu_option */
    method WalkSubmenu(cfg: Kconfig, i: nat, line: nat, nr: nat, named: bool, rows: seq<WindowRow>, ghost all: seq<Kconfig>,
                       ghost ls: seq<Line>, ghost ms: seq<Mark>, ghost w: Spot)
      returns (next: Kconfig, nr': nat, rows': seq<WindowRow>, ghost w': Spot)
      requires Walking(all, ls, ms, i, w, rows, line, nr, named) && w.p < ms[i - 1].last && Different(all)
      requires cfg == all[w.p] && cfg.kind == MainmenuOption && cfg.menuNumber == i
      modifies cfg`menuLine
      ensures Walking(all, ls, ms, i, w', rows', line + 1, nr', named) && w'.rest < w.rest
      ensures 0 < w'.p <= |all| && next == all[w'.p - 1]
      ensures Total(w', line + 1, named) == Total(w, line, named)
    {
      hide Recorded, Rows, Shows, Heads, Deeper, Proper, Size;
      ghost var body, rest := AtMenu(ls, ms, w.rest, w.p, i, w.m);
      nr' := FindSubmenu(i, nr, all, ls, ms, w.m);
      rows' := AddRow(cfg, line, nr', rows, all, w.pre, w.p, i);
      next := last[nr'];
      w' := Spot(rest, w.p + 2 + Size(body), w.m + 1 + Count(body), w.pre + [Row(w.p, line, w.m)], w.naming);
      PlacedLater(w'.pre, all, w.p + 1, w'.p);
      UntouchedLater(all, w.p + 1, w'.p, i);
      TotalMenu(w, body, rest, line, named);
    }

    /** case token_comment */
    method WalkComment(cfg: Kconfig, i: nat, line: nat, nr: nat, named: bool, rows: seq<WindowRow>, ghost all: seq<Kconfig>,
                       ghost ls: seq<Line>, ghost ms: seq<Mark>, ghost w: Spot)
      returns (line': nat, rows': seq<WindowRow>, ghost w': Spot)
      requires Walking(all, ls, ms, i, w, rows, line, nr, named) && w.p < ms[i - 1].last && Different(all)
      requires cfg == all[w.p] && cfg.kind == Comment && cfg.menuNumber == i
      modifies cfg`menuLine
      ensures Walking(all, ls, ms, i, w', rows', line', nr, true) && w'.rest < w.rest && w'.p == w.p + 1
      ensures Total(w', line', true) == Total(w, line, named)
    {
      hide Recorded, Rows, Shows, Heads, Deeper, Proper, Size, Total, HasRow, Numbered;
      ghost var rest := AtEntry(ls, ms, w.rest, w.p, i, w.m);
      TotalComment(w, rest, line, named);
      if cfg.menuLine == 0 && !named {
        cfg.menuLine := -1;
        line', rows' := line, rows;
        w' := Spot(rest, w.p + 1, w.m, w.pre, w.p);
      } else {
        rows' := AddRow(cfg, line, 0, rows, all, w.pre, w.p, i);
        line' := line + 1;
        w' := Spot(rest, w.p + 1, w.m, w.pre + [Row(w.p, line, 0)], w.naming);
      }
    }

    /** The other cases that take a line. */
    method WalkEntry(cfg: Kconfig, i: nat, line: nat, nr: nat, named: bool, rows: seq<WindowRow>, ghost all: seq<Kconfig>,
                     ghost ls: seq<Line>, ghost ms: seq<Mark>, ghost w: Spot)
      returns (rows': seq<WindowRow>, ghost w': Spot)
      requires Walking(all, ls, ms, i, w, rows, line, nr, named) && w.p < ms[i - 1].last && Different(all)
      requires cfg == all[w.p] && cfg.kind != MainmenuOption && TakesLine(cfg.kind) && cfg.menuNumber == i
      modifies cfg`menuLine
      ensures Walking(all, ls, ms, i, w', rows', line + 1, nr, named) && w'.rest < w.rest && w'.p == w.p + 1
      ensures Total(w', line + 1, named) == Total(w, line, named)
    {
      hide Recorded, Rows, Shows, Heads, Deeper, Proper, Size, HasRow, TakesLine, Total, Numbered;
      ghost var rest := AtEntry(ls, ms, w.rest, w.p, i, w.m);
      TotalPlain(w, cfg.kind, rest, line, named);
      rows' := AddRow(cfg, line, 0, rows, all, w.pre, w.p, i);
      w' := Spot(rest, w.p + 1, w.m, w.pre + [Row(w.p, line, 0)], w.naming);
    }

    /** The statements without a line. */
    lemma WalkOn(cfg: Kconfig, i: nat, line: nat, nr: nat, named: bool, rows: seq<WindowRow>, all: seq<Kconfig>,
                 ls: seq<Line>, ms: seq<Mark>, w: Spot)
      returns (w': Spot)
      requires Walking(all, ls, ms, i, w, rows, line, nr, named) && w.p < ms[i - 1].last
      requires cfg == all[w.p] && !TakesLine(cfg.kind) && cfg.kind != Comment && cfg.kind != MainmenuOption
      ensures Walking(all, ls, ms, i, w', rows, line, nr, named) && w'.rest < w.rest && w'.p == w.p + 1
      ensures Total(w', line, named) == Total(w, line, named)
    {
      hide Recorded, Rows, Shows, Heads, Deeper, Proper, Size, HasRow, TakesLine;
      TakesLineIff(cfg.kind);
      var rest := AtEntry(ls, ms, w.rest, w.p, i, w.m);
      TotalEntry(w, cfg.kind, rest, line, named);
      w' := Spot(rest, w.p + 1, w.m, w.pre, w.naming);
    }

    lemma NumberHere(cfg: Kconfig, i: nat, line: nat, nr: nat, named: bool, rows: seq<WindowRow>, all: seq<Kconfig>,
                     ls: seq<Line>, ms: seq<Mark>, w: Spot)
      requires Walking(all, ls, ms, i, w, rows, line, nr, named) && w.p < ms[i - 1].last && cfg == all[w.p]
      ensures TakesLine(cfg.kind) || cfg.kind == Comment || cfg.kind == MainmenuOption ==> cfg.menuNumber == i
    {
      TakesLineIff(cfg.kind);
      assert ls[w.p] == Line(cfg.kind, cfg.menuNumber);
      if cfg.kind == MainmenuOption {
        var body, rest := AtMenu(ls, ms, w.rest, w.p, i, w.m);
      } else {
        var rest := AtEntry(ls, ms, w.rest, w.p, i, w.m);
      }
    }

    lemma WalkStarts(all: seq<Kconfig>, ls: seq<Line>, ms: seq<Mark>, f: Forest, i: nat) returns (w: Spot)
      requires Holds(all, ls, ms, f) && Linked(all) && 1 <= i <= total && Untouched(all, 0, i)
      ensures i <= |ms| && i < first.Length == last.Length
      ensures w.p == ms[i - 1].first + 1 && first[i] != null && first[i].next == At(all, w.p)
      ensures Walking(all, ls, ms, i, w, [], 0, i, false)
      ensures Total(w, 0, false) == (Rows(Body(f, 1, i), w.p, i + 1, 0, false), Naming(Body(f, 1, i), w.p))
    {
      hide Recorded, Rows, Body, Proper, Deeper, Heads, Carries, Untouched, Size, Count;
      WalkBounds(ls, ms, f, i);
      w := Spot(Body(f, 1, i), ms[i - 1].first + 1, i + 1, [], -1);
      UntouchedLater(all, 0, w.p, i);
      assert w.pre + Rows(w.rest, w.p, w.m, 0, false) == Rows(w.rest, w.p, w.m, 0, false);
      assert first[i] == all[ms[i - 1].first];
    }

    /** The walk goes on exactly while it has not met the end of the menu. */
    lemma BeforeEnd(cfg: Kconfig?, i: nat, line: nat, nr: nat, named: bool, rows: seq<WindowRow>, all: seq<Kconfig>,
                    ls: seq<Line>, ms: seq<Mark>, w: Spot)
      requires Walking(all, ls, ms, i, w, rows, line, nr, named) && Different(all) && cfg == At(all, w.p)
      ensures cfg != null && cfg != last[i] <==> w.p < ms[i - 1].last
      ensures ms[i - 1].last < |all|
      ensures w.p >= ms[i - 1].last ==> IsWalked(rows, all, Total(w, line, named), i)
    {
      if w.p == ms[i - 1].last { assert w.rest == Empty; }
    }

    /** One round of the walk. */
    method WalkOne(cfg: Kconfig, i: nat, line: nat, nr: nat, named: bool, rows: seq<WindowRow>, ghost all: seq<Kconfig>,
                   ghost ls: seq<Line>, ghost ms: seq<Mark>, ghost w: Spot)
      returns (next: Kconfig?, line': nat, nr': nat, named': bool, rows': seq<WindowRow>, ghost w': Spot)
      requires Walking(all, ls, ms, i, w, rows, line, nr, named) && w.p < ms[i - 1].last && Linked(all)
      requires w.p < |all| && cfg == all[w.p]
      modifies cfg`menuLine
      ensures Walking(all, ls, ms, i, w', rows', line', nr', named') && w'.rest < w.rest && next == At(all, w'.p)
      ensures Total(w', line', named') == Total(w, line, named)
      ensures cfg.menuNumber != i ==> cfg.menuLine == old(cfg.menuLine)
    {
      hide Walking, Total, TakesLine;
      NumberHere(cfg, i, line, nr, named, rows, all, ls, ms, w);
      var here := cfg;
      line', nr', named', rows' := line, nr, named, rows;
      if cfg.kind == MainmenuOption {
        here, nr', rows', w' := WalkSubmenu(cfg, i, line, nr, named, rows, all, ls, ms, w);
        line' := line + 1;
        assert here == all[w'.p - 1];
      } else if cfg.kind == Comment {
        line', rows', w' := WalkComment(cfg, i, line, nr, named, rows, all, ls, ms, w);
        named' := true;
      } else if TakesLine(cfg.kind) {
        rows', w' := WalkEntry(cfg, i, line, nr, named, rows, all, ls, ms, w);
        line' := line + 1;
      } else {
        w' := WalkOn(cfg, i, line, nr, named, rows, all, ls, ms, w);
      }
      next := here.next;
    }

    /** The walk over menu i in dump_tk_script. */
    method Walk(i: nat, ghost all: seq<Kconfig>, ghost ls: seq<Line>, ghost ms: seq<Mark>, ghost f: Forest)
      returns (rows: seq<WindowRow>)
      requires Holds(all, ls, ms, f) && Linked(all) && 1 <= i <= total
      requires Untouched(all, 0, i)
      modifies Lines(all)`menuLine
      ensures i <= |ms|
      ensures var body, p := Body(f, 1, i), ms[i - 1].first + 1;
              IsWalked(rows, all, (Rows(body, p, i + 1, 0, false), Naming(body, p)), i)
      ensures forall k :: k in Lines(all) && k.menuNumber != i ==> k.menuLine == old(k.menuLine)
    {
      hide Walking, Total, Rows, Body, Shows, Placed, Untouched, Points, Carries, Recorded, Proper;
      ghost var w := WalkStarts(all, ls, ms, f, i);
      ghost var spec := Total(w, 0, false);
      var line, nr, named := 0, i, false;
      rows := [];
      var cfg := first[i].next;
      BeforeEnd(cfg, i, line, nr, named, rows, all, ls, ms, w);
      while cfg != null && cfg != last[i]
        invariant cfg == At(all, w.p) && Linked(all)
        invariant Walking(all, ls, ms, i, w, rows, line, nr, named) && Total(w, line, named) == spec
        invariant cfg != null && cfg != last[i] <==> w.p < ms[i - 1].last
        invariant forall k :: k in Lines(all) && k.menuNumber != i ==> k.menuLine == old(k.menuLine)
        decreases w.rest
      {
        cfg, line, nr, named, rows, w := WalkOne(cfg, i, line, nr, named, rows, all, ls, ms, w);
        BeforeEnd(cfg, i, line, nr, named, rows, all, ls, ms, w);
      }
      BeforeEnd(cfg, i, line, nr, named, rows, all, ls, ms, w);
    }

    /** start_proc's "Next" button: the windows it closes before it opens the next menu. */
    method Teardown(k: nat, ghost all: seq<Kconfig>, ghost ls: seq<Line>, ghost ms: seq<Mark>, ghost f: Forest)
      returns (closed: seq<nat>)
      requires Holds(all, ls, ms, f) && 1 <= k <= total
      ensures Preorder(ms) && (k < |ms| ==> OnPath(ms, k, ms[k].parent))
      ensures closed == if k < |ms| then Climb(ms, k, ms[k].parent) else []
    {
      NextParentIsOnPath(ls, ms, f, k);
      HeadsCarryParents(ls, ms, f, 0, 0, 1);
      hide Recorded, Carries;
      closed := [];
      AtHead(all, ls, ms, k);
      if k < total { AtHead(all, ls, ms, k + 1); }
      if k < total && first[k + 1].menuNumber != k {
        closed := [k];
        var up: nat := first[k].menuNumber;
        while up > 0 && first[k + 1].menuNumber != up
          invariant k < |ms| && up <= k && OnPath(ms, up, ms[k].parent)
          invariant closed + Climb(ms, up, ms[k].parent) == Climb(ms, k, ms[k].parent)
        {
          AtHead(all, ls, ms, up);
          closed := closed + [up];
          up := first[up].menuNumber;
        }
      }
    }

    lemma NumberingHolds(all: seq<Kconfig>, s: State, f: Forest)
      requires Proper(f) && Run(START, Flat(f)) == Marked(s) && Points(all, s.menus) && Carries(all, s.lines)
      requires |s.lines| == |all|
      ensures Holds(all, s.lines, s.menus, f) && total == |s.menus|
    {
      hide Run, Recorded, Carries;
      NumberingRecoversTree(f);
    }

    /** One round of the loop over the menus. */
    method OneWindow(i: nat, ghost all: seq<Kconfig>, ghost ls: seq<Line>, ghost ms: seq<Mark>, ghost f: Forest)
      returns (window: Window)
      requires Holds(all, ls, ms, f) && Linked(all) && 1 <= i <= total && Unwalked(all, i)
      modifies Lines(all)`menuLine
      ensures IsWindow(window, all, f, ms, i)
      ensures Holds(all, ls, ms, f) && Linked(all) && Unwalked(all, i + 1)
    {
      hide Recorded, Proper, Size, Count, Rows, Body, Climb, Preorder, OnPath, Shows, Placed, IsWindow;
      var closed := Teardown(i, all, ls, ms, f);
      var rows := Walk(i, all, ls, ms, f);
      MakeWindow(rows, closed, all, f, ms, i);
      window := Window(rows, closed);
    }

    /** The windows of a script: dump_tk_script as far as the menus are concerned. */
    method Windows(head: Kconfig?, ghost all: seq<Kconfig>, ghost f: Forest)
      returns (error: Option<Error>, windows: seq<Window>)
      requires IsScript(head, all) && Proper(f) && Flat(f) == KindsOf(all)
      requires forall q {:trigger all[q]} :: 0 <= q < |all| ==> all[q].menuNumber == 0 && all[q].menuLine == 0
      requires first != last && first.Length == last.Length == MAX_MENUS
      modifies this`total, first, last, Lines(all)`menuNumber, Lines(all)`menuLine
      ensures error == None <==> Height(f) < 64 && Count(f) < 100 && Sheltered(f)
      ensures error == None ==> Run(START, Flat(f)).Marked? && AreWindows(windows, all, f, Run(START, Flat(f)).state.menus)
    {
      hide Run, Recorded, Points, Carries, Proper, Flat, Height, Count, Sheltered, Size, IsWindow, Unwalked;
      windows := [];
      NumberingRecoversTree(f);
      error := Number(head, all);
      if error != None { return; }
      ghost var s := Run(START, Flat(f)).state;
      NumberingHolds(all, s, f);
      NothingWalked(all);
      hide Holds, Linked;
      var i := 1;
      while i <= total
        invariant 1 <= i <= total + 1 && total == |s.menus| && Linked(all) && Holds(all, s.lines, s.menus, f)
        invariant Unwalked(all, i)
        invariant |windows| == i - 1
        invariant forall n :: 0 <= n < i - 1 ==> IsWindow(windows[n], all, f, s.menus, n + 1)
      {
        var window := OneWindow(i, all, s.lines, s.menus, f);
        windows := windows + [window];
        i := i + 1;
      }
    }
  }

  /** A window's rows, and the windows its "Next" button closes. */
  datatype Window = Window(rows: seq<WindowRow>, closed: seq<nat>)

  /** The window of menu i. */
  ghost predicate IsWindow(window: Window, all: seq<Kconfig>, f: Forest, ms: seq<Mark>, i: nat) {
    && 1 <= i <= |ms| == Count(f) && Preorder(ms)
    && Shows(window.rows, all, Rows(Body(f, 1, i), ms[i - 1].first + 1, i + 1, 0, false), i)
    && window.closed == if i < |ms| then Climb(ms, i, ms[i].parent) else []
  }

  lemma MakeWindow(rows: seq<WindowRow>, closed: seq<nat>, all: seq<Kconfig>, f: Forest, ms: seq<Mark>, i: nat)
    requires 1 <= i <= |ms| == Count(f) && Preorder(ms)
    requires Shows(rows, all, Rows(Body(f, 1, i), ms[i - 1].first + 1, i + 1, 0, false), i)
    requires closed == if i < |ms| then Climb(ms, i, ms[i].parent) else []
    ensures IsWindow(Window(rows, closed), all, f, ms, i)
  {
  }

  ghost predicate AreWindows(windows: seq<Window>, all: seq<Kconfig>, f: Forest, ms: seq<Mark>) {
    |windows| == |ms| == Count(f) && forall n :: 0 <= n < |ms| ==> IsWindow(windows[n], all, f, ms, n + 1)
  }

  /** The statements of menu i and those after it have no line yet. */
  ghost predicate Unwalked(all: seq<Kconfig>, i: nat)
    reads Lines(all)
  {
    forall q {:trigger all[q]} :: 0 <= q < |all| && all[q].menuNumber >= i ==> all[q].menuLine == 0
  }

  lemma NothingWalked(all: seq<Kconfig>)
    requires forall q {:trigger all[q]} :: 0 <= q < |all| ==> all[q].menuLine == 0
    ensures Unwalked(all, 1)
  {
  }

  /** All rows of a walk that stands at w, and the comment that names the menu. */
  ghost function Total(w: Spot, line: nat, named: bool): (seq<Row>, int) {
    (w.pre + Rows(w.rest, w.p, w.m, line, named), if named then w.naming else Naming(w.rest, w.p))
  }

  lemma TotalMenu(w: Spot, body: Forest, rest: Forest, line: nat, named: bool)
    requires w.rest == Menu(body, rest)
    ensures Total(Spot(rest, w.p + 2 + Size(body), w.m + 1 + Count(body), w.pre + [Row(w.p, line, w.m)], w.naming),
                  line + 1, named)
            == Total(w, line, named)
  {
    RowsOfMenu(body, rest, w.p, w.m, line, named);
    Assoc(w.pre, [Row(w.p, line, w.m)], Rows(rest, w.p + 2 + Size(body), w.m + 1 + Count(body), line + 1, named));
  }

  /** The rest of the menu, where it starts, the next menu number, the rows so far, and the naming comment if it has
      come up. */
  datatype Spot = Spot(rest: Forest, p: nat, m: nat, pre: seq<Row>, naming: int)

  /** From p on the statements of menu i have no line yet. */
  ghost predicate Untouched(all: seq<Kconfig>, p: nat, i: nat)
    reads Lines(all)
  {
    forall q {:trigger all[q]} :: p <= q < |all| && all[q].menuNumber == i ==> all[q].menuLine == 0
  }

  /** What the script says about one row. */
  datatype WindowRow = WindowRow(cfg: Kconfig, number: nat, line: int, submenu: nat)

  ghost predicate Shows(rows: seq<WindowRow>, all: seq<Kconfig>, spec: seq<Row>, i: nat) {
    && |rows| == |spec|
    && forall j :: 0 <= j < |spec| ==>
         spec[j].at < |all| && rows[j] == WindowRow(all[spec[j].at], i, spec[j].line, spec[j].submenu)
  }

  /** The statements of these rows lie before p and have their lines. */
  ghost predicate Placed(pre: seq<Row>, all: seq<Kconfig>, p: nat)
    reads Lines(all)
  {
    forall j :: 0 <= j < |pre| ==> pre[j].at < p && pre[j].at < |all| && all[pre[j].at].menuLine == pre[j].line
  }

  /** A walk has given these rows, their statements have their lines, and the naming comment has line -1. */
  ghost predicate IsWalked(rows: seq<WindowRow>, all: seq<Kconfig>, spec: (seq<Row>, int), i: nat)
    reads Lines(all)
  {
    && Shows(rows, all, spec.0, i) && Placed(spec.0, all, |all|)
    && (spec.1 >= 0 ==> spec.1 < |all| && all[spec.1].menuLine == -1)
  }

  lemma PlacedLater(pre: seq<Row>, all: seq<Kconfig>, p: nat, q: nat)
    requires Placed(pre, all, p) && p <= q
    ensures Placed(pre, all, q)
  {
  }

  lemma UntouchedLater(all: seq<Kconfig>, p: nat, q: nat, i: nat)
    requires Untouched(all, p, i) && p <= q
    ensures Untouched(all, q, i)
  {
  }

  lemma TotalEntry(w: Spot, k: Kind, rest: Forest, line: nat, named: bool)
    requires w.rest == Entry(k, rest)
    ensures Total(w, line, named)
            == if !HasRow(k) then Total(Spot(rest, w.p + 1, w.m, w.pre, w.naming), line, named)
               else if k == Comment && !named then Total(Spot(rest, w.p + 1, w.m, w.pre, w.p), line, true)
               else Total(Spot(rest, w.p + 1, w.m, w.pre + [Row(w.p, line, 0)], w.naming), line + 1, named)
  {
    RowsOfEntry(k, rest, w.p, w.m, line, named);
    Assoc(w.pre, [Row(w.p, line, 0)], Rows(rest, w.p + 1, w.m, line + 1, named));
  }

  lemma TotalComment(w: Spot, rest: Forest, line: nat, named: bool)
    requires w.rest == Entry(Comment, rest)
    ensures Total(w, line, named)
            == if !named then Total(Spot(rest, w.p + 1, w.m, w.pre, w.p), line, true)
               else Total(Spot(rest, w.p + 1, w.m, w.pre + [Row(w.p, line, 0)], w.naming), line + 1, true)
  {
    TotalEntry(w, Comment, rest, line, named);
  }

  lemma TotalPlain(w: Spot, k: Kind, rest: Forest, line: nat, named: bool)
    requires w.rest == Entry(k, rest) && TakesLine(k)
    ensures Total(w, line, named) == Total(Spot(rest, w.p + 1, w.m, w.pre + [Row(w.p, line, 0)], w.naming), line + 1, named)
    ensures k != MainmenuOption
  {
    TakesLineIff(k);
    TotalEntry(w, k, rest, line, named);
  }

  /** The cases of the walk that do nothing but take a line. */
  predicate TakesLine(k: Kind) {
    match k
    case Bool | ChoiceHeader | DepBool | DepMbool | DepTristate | Hex | Int | String | Tristate => true
    case _ => false
  }

  lemma TakesLineIff(k: Kind)
    ensures TakesLine(k) <==> HasRow(k) && k != Comment && k != MainmenuOption
  {
  }

  /** Each statement links to the next. */
  ghost predicate Linked(all: seq<Kconfig>)
    reads Lines(all)
  {
    Different(all) && forall q {:trigger all[q]} :: 0 <= q < |all| ==> all[q].next == Following(all, q)
  }
}
