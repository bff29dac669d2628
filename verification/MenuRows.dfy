/** The walk over one menu (scripts/tkgen.c): which statements become rows of its window, and which windows the "Next"
    button closes. */
module MenuRows {
  import opened Menus
  import opened Statements

  /** One row of a window: the statement, its line, and the number of the submenu it opens, if it opens one. */
  datatype Row = Row(at: nat, line: nat, submenu: nat)

  /** The statements with a row of their own; the items of a choice share their header's. */
  predicate HasRow(k: Kind) {
    (InMenu(k) && k != ChoiceItem) || k == MainmenuOption
  }

  /** The rows of a forest: submenus are one row each, and the first comment of a menu only names it. */
  function Rows(f: Forest, p: nat, m: nat, line: nat, named: bool): seq<Row> {
    match f
    case Empty => []
    case Entry(k, rest) =>
      if !HasRow(k) then Rows(rest, p + 1, m, line, named)
      else if k == Comment && !named then Rows(rest, p + 1, m, line, true)
      else [Row(p, line, 0)] + Rows(rest, p + 1, m, line + 1, named)
    case Menu(body, rest) =>
      [Row(p, line, m)] + Rows(rest, p + 2 + Size(body), m + 1 + Count(body), line + 1, named)
  }

  /** Where the comment stands that names the menu; -1 when there is none. */
  function Naming(f: Forest, p: nat): int {
    match f
    case Empty => -1
    case Entry(k, rest) => if k == Comment then p else Naming(rest, p + 1)
    case Menu(body, rest) => Naming(rest, p + 2 + Size(body))
  }

  /** A statement of menu i that wants a row: a question, a choice, a comment or a submenu. */
  predicate Wants(l: Line, i: nat) {
    && l.number == i
    && l.kind in {Bool, ChoiceHeader, Comment, DepBool, DepMbool, DepTristate, Hex, Kind.Int, MainmenuOption, String,
                  Tristate}
  }

  /** No comment of menu i stands in these lines. */
  predicate Unnamed(ls: seq<Line>, from: nat, to: nat, i: nat) {
    forall q :: from <= q < to && q < |ls| ==> !(ls[q] == Line(Comment, i))
  }

  /** The statement is the comment that names the menu. */
  predicate Names(ls: seq<Line>, from: nat, q: nat, i: nat, named: bool)
    requires q < |ls|
  {
    !named && ls[q] == Line(Comment, i) && Unnamed(ls, from, q, i)
  }

  predicate RowAt(rows: seq<Row>, q: nat) {
    exists j :: 0 <= j < |rows| && rows[j].at == q
  }

  /** Rows are numbered without gaps, in the order of the script, and a row opens a submenu exactly when it stands for
      the head of that menu. */
  predicate InOrder(rows: seq<Row>, ls: seq<Line>, ms: seq<Mark>, from: nat, to: nat, i: nat, line: nat) {
    && (forall j :: 0 <= j < |rows| ==>
          && rows[j].line == line + j && from <= rows[j].at < to && rows[j].at < |ls|
          && (ls[rows[j].at].kind == MainmenuOption <==> rows[j].submenu > 0)
          && (rows[j].submenu > 0 ==> && rows[j].submenu <= |ms| && ms[rows[j].submenu - 1].first == rows[j].at
                                      && ms[rows[j].submenu - 1].parent == i))
    && (forall j, k :: 0 <= j < k < |rows| ==> rows[j].at < rows[k].at)
  }

  /** The rows from `from` to `to` are those of the statements that carry the number of menu i. */
  predicate Complete(rows: seq<Row>, ls: seq<Line>, from: nat, to: nat, i: nat, named: bool) {
    forall q :: from <= q < to && q < |ls| ==> (RowAt(rows, q) <==> Wants(ls[q], i) && !Names(ls, from, q, i, named))
  }

  lemma FirstRow(r: Row, rows: seq<Row>, ls: seq<Line>, ms: seq<Mark>, from: nat, next: nat, to: nat, i: nat)
    requires r.at == from < next <= to <= |ls| && InOrder(rows, ls, ms, next, to, i, r.line + 1)
    requires ls[from].kind == MainmenuOption <==> r.submenu > 0
    requires r.submenu > 0 ==> r.submenu <= |ms| && ms[r.submenu - 1].first == from && ms[r.submenu - 1].parent == i
    ensures InOrder([r] + rows, ls, ms, from, to, i, r.line)
  {
  }

  lemma FirstComplete(r: Row, rows: seq<Row>, ls: seq<Line>, from: nat, next: nat, to: nat, i: nat, named: bool)
    requires r.at == from < next <= to <= |ls| && Wants(ls[from], i) && (named || ls[from].kind != Comment)
    requires Complete(rows, ls, next, to, i, named) && NoneOf(ls, from + 1, next, i)
    requires forall j :: 0 <= j < |rows| ==> next <= rows[j].at
    ensures Complete([r] + rows, ls, from, to, i, named)
  {
    forall q | from <= q < to && q < |ls|
      ensures RowAt([r] + rows, q) <==> Wants(ls[q], i) && !Names(ls, from, q, i, named)
    {
      assert ([r] + rows)[0] == r;
      if RowAt(rows, q) {
        var j :| 0 <= j < |rows| && rows[j].at == q;
        assert ([r] + rows)[j + 1] == rows[j];
      }
      if q >= next && !named {
        UnnamedFrom(ls, from, next, q, i);
      }
    }
  }

  lemma UnnamedFrom(ls: seq<Line>, from: nat, next: nat, q: nat, i: nat)
    requires from < next <= q <= |ls| && NoneOf(ls, from + 1, next, i) && ls[from] != Line(Comment, i)
    ensures Unnamed(ls, from, q, i) <==> Unnamed(ls, next, q, i)
  {
  }

  lemma SkipComplete(rows: seq<Row>, ls: seq<Line>, from: nat, to: nat, i: nat, named: bool, now: bool)
    requires from < to <= |ls| && Complete(rows, ls, from + 1, to, i, now)
    requires forall j :: 0 <= j < |rows| ==> from < rows[j].at
    requires if ls[from] == Line(Comment, i) && !named then now else !Wants(ls[from], i) && now == named
    ensures Complete(rows, ls, from, to, i, named)
  {
    forall q | from <= q < to && q < |ls|
      ensures RowAt(rows, q) <==> Wants(ls[q], i) && !Names(ls, from, q, i, named)
    {
      if q > from {
        assert ls[from] == Line(Comment, i) ==> !Unnamed(ls, from, q, i);
      }
    }
  }

  /** These are the rows of menu i between two positions. */
  predicate RightRows(rows: seq<Row>, ls: seq<Line>, ms: seq<Mark>, from: nat, to: nat, i: nat, line: nat, named: bool) {
    to <= |ls| && InOrder(rows, ls, ms, from, to, i, line) && Complete(rows, ls, from, to, i, named)
  }

  lemma RightWithRow(r: Row, rows: seq<Row>, ls: seq<Line>, ms: seq<Mark>, next: nat, to: nat, i: nat, named: bool)
    requires r.at < next <= to && RightRows(rows, ls, ms, next, to, i, r.line + 1, named)
    requires Wants(ls[r.at], i) && (named || ls[r.at].kind != Comment) && NoneOf(ls, r.at + 1, next, i)
    requires ls[r.at].kind == MainmenuOption <==> r.submenu > 0
    requires r.submenu > 0 ==> r.submenu <= |ms| && ms[r.submenu - 1].first == r.at && ms[r.submenu - 1].parent == i
    ensures RightRows([r] + rows, ls, ms, r.at, to, i, r.line, named)
  {
    FirstRow(r, rows, ls, ms, r.at, next, to, i);
    FirstComplete(r, rows, ls, r.at, next, to, i, named);
  }

  lemma RightWithoutRow(rows: seq<Row>, ls: seq<Line>, ms: seq<Mark>, from: nat, to: nat, i: nat, line: nat, named: bool,
                        now: bool)
    requires from < to && RightRows(rows, ls, ms, from + 1, to, i, line, now)
    requires if ls[from] == Line(Comment, i) && !named then now else !Wants(ls[from], i) && now == named
    ensures RightRows(rows, ls, ms, from, to, i, line, named)
  {
    SkipComplete(rows, ls, from, to, i, named, now);
  }

  lemma RowsOfEntry(k: Kind, rest: Forest, p: nat, m: nat, line: nat, named: bool)
    ensures Rows(Entry(k, rest), p, m, line, named)
            == if !HasRow(k) then Rows(rest, p + 1, m, line, named)
               else if k == Comment && !named then Rows(rest, p + 1, m, line, true)
               else [Row(p, line, 0)] + Rows(rest, p + 1, m, line + 1, named)
    ensures Size(Entry(k, rest)) == 1 + Size(rest)
  {
  }

  lemma RowsOfMenu(body: Forest, rest: Forest, p: nat, m: nat, line: nat, named: bool)
    ensures Rows(Menu(body, rest), p, m, line, named)
            == [Row(p, line, m)] + Rows(rest, p + 2 + Size(body), m + 1 + Count(body), line + 1, named)
    ensures Size(Menu(body, rest)) == 2 + Size(body) + Size(rest)
  {
  }

  lemma EntryParts(ls: seq<Line>, ms: seq<Mark>, k: Kind, rest: Forest, p: nat, i: nat, m: nat)
    requires Recorded(ls, ms, Entry(k, rest), p, i, m) && k != MainmenuOption && i > 0
    ensures p < |ls| && ls[p].kind == k && Recorded(ls, ms, rest, p + 1, i, m)
    ensures if HasRow(k) then ls[p].number == i && Wants(ls[p], i) else !Wants(ls[p], i)
    ensures k == Comment ==> HasRow(k)
  {
  }

  lemma MenuParts(ls: seq<Line>, ms: seq<Mark>, body: Forest, rest: Forest, p: nat, i: nat, m: nat)
    requires Recorded(ls, ms, Menu(body, rest), p, i, m)
    ensures p < |ls| && ls[p].kind == MainmenuOption && Wants(ls[p], i)
    ensures m <= |ms| && ms[m - 1].first == p && ms[m - 1].parent == i
    ensures Recorded(ls, ms, rest, p + 2 + Size(body), i, m + 1 + Count(body))
  {
  }

  /** The walk of menu i gives a row to exactly the statements that carry its number, the naming comment apart. */
  lemma {:induction false} RowsExact(ls: seq<Line>, ms: seq<Mark>, f: Forest, p: nat, i: nat, m: nat, line: nat, named: bool)
    requires Recorded(ls, ms, f, p, i, m) && 0 < i < m && Proper(f)
    ensures RightRows(Rows(f, p, m, line, named), ls, ms, p, p + Size(f), i, line, named)
    decreases f
  {
    hide RightRows, Rows, Size, NoneOf, Recorded, HasRow, Numbered;
    match f
    case Empty =>
      RecordedBounds(ls, ms, f, p, i, m);
      NoRows(ls, ms, p, i, m, line, named);
    case Entry(k, rest) =>
      EntryParts(ls, ms, k, rest, p, i, m);
      RowsOfEntry(k, rest, p, m, line, named);
      if !HasRow(k) {
        RowsExact(ls, ms, rest, p + 1, i, m, line, named);
        RightWithoutRow(Rows(rest, p + 1, m, line, named), ls, ms, p, p + Size(f), i, line, named, named);
      } else if k == Comment && !named {
        RowsExact(ls, ms, rest, p + 1, i, m, line, true);
        RightWithoutRow(Rows(rest, p + 1, m, line, true), ls, ms, p, p + Size(f), i, line, named, true);
      } else {
        RowsExact(ls, ms, rest, p + 1, i, m, line + 1, named);
        NoneBetween(ls, p + 1, i);
        RightWithRow(Row(p, line, 0), Rows(rest, p + 1, m, line + 1, named), ls, ms, p + 1, p + Size(f), i, named);
      }
    case Menu(body, rest) =>
      MenuParts(ls, ms, body, rest, p, i, m);
      RowsOfMenu(body, rest, p, m, line, named);
      RowsExact(ls, ms, rest, p + 2 + Size(body), i, m + 1 + Count(body), line + 1, named);
      NoneInSubmenu(ls, ms, body, rest, p, i, m);
      RightWithRow(Row(p, line, m), Rows(rest, p + 2 + Size(body), m + 1 + Count(body), line + 1, named), ls, ms,
                   p + 2 + Size(body), p + Size(f), i, named);
  }

  lemma NoRows(ls: seq<Line>, ms: seq<Mark>, p: nat, i: nat, m: nat, line: nat, named: bool)
    requires p <= |ls|
    ensures RightRows(Rows(Empty, p, m, line, named), ls, ms, p, p + Size(Empty), i, line, named)
  {
  }

  lemma NoneBetween(ls: seq<Line>, p: nat, i: nat)
    ensures NoneOf(ls, p, p, i)
  {
  }

  lemma NoneInSubmenu(ls: seq<Line>, ms: seq<Mark>, body: Forest, rest: Forest, p: nat, i: nat, m: nat)
    requires Recorded(ls, ms, Menu(body, rest), p, i, m) && 0 < i < m
    ensures NoneOf(ls, p + 1, p + 2 + Size(body), i)
  {
    NumbersInRange(ls, ms, body, p + 1, m, m + 1, i);
  }

  /** The head of every menu carries the number of the menu around it. */
  predicate Heads(ls: seq<Line>, ms: seq<Mark>, m: nat, n: nat) {
    1 <= m <= n <= |ms| + 1
    && forall j {:trigger ms[j]} :: m <= j + 1 < n ==> ms[j].first < |ls| && ls[ms[j].first] == Line(MainmenuOption, ms[j].parent)
  }

  lemma {:induction false} HeadsCarryParents(ls: seq<Line>, ms: seq<Mark>, f: Forest, p: nat, parent: nat, m: nat)
    requires Recorded(ls, ms, f, p, parent, m)
    ensures Heads(ls, ms, m, m + Count(f))
    decreases f
  {
    match f
    case Empty =>
    case Entry(_, rest) => HeadsCarryParents(ls, ms, rest, p + 1, parent, m);
    case Menu(body, rest) =>
      HeadsCarryParents(ls, ms, body, p + 1, m, m + 1);
      HeadsCarryParents(ls, ms, rest, p + 2 + Size(body), parent, m + 1 + Count(body));
  }

  /** These menus lie in menus after i. */
  predicate Deeper(ms: seq<Mark>, from: nat, to: nat, i: nat) {
    1 <= from && to <= |ms| + 1 && forall j {:trigger ms[j]} :: from <= j + 1 < to ==> ms[j].parent > i
  }

  // ----- one step of the walk -----

  /** In the whole script: the rows of menu i are exactly the statements that carry its number, the first comment
      apart, in order and numbered from 0 without gaps; and each submenu's row names the menu that starts there. */
  lemma WalkIsExact(ls: seq<Line>, ms: seq<Mark>, f: Forest, i: nat)
    requires Recorded(ls, ms, f, 0, 0, 1) && Proper(f) && Size(f) == |ls| && Count(f) == |ms| && 1 <= i <= |ms|
    ensures var rows := Rows(Body(f, 1, i), ms[i - 1].first + 1, i + 1, 0, false);
            && InOrder(rows, ls, ms, 0, |ls|, i, 0)
            && forall q :: 0 <= q < |ls| ==> (RowAt(rows, q) <==> Wants(ls[q], i) && !Names(ls, 0, q, i, false))
  {
    hide Recorded, Proper, Size, Count, Rows, Body;
    BodyBetweenMarks(ls, ms, f, 0, 0, 1, i);
    ProperBody(f, 1, i);
    var first, last := ms[i - 1].first, ms[i - 1].last;
    RowsExact(ls, ms, Body(f, 1, i), first + 1, i, i + 1, 0, false);
    var rows := Rows(Body(f, 1, i), first + 1, i + 1, 0, false);
    forall q | 0 <= q < |ls| ensures RowAt(rows, q) <==> Wants(ls[q], i) && !Names(ls, 0, q, i, false) {
      assert Unnamed(ls, 0, first + 1, i);
    }
  }

  /** It is the first comment that carries the menu's number. */
  lemma {:induction false} NamingIsFirst(ls: seq<Line>, ms: seq<Mark>, f: Forest, p: nat, i: nat, m: nat)
    requires Recorded(ls, ms, f, p, i, m) && 0 < i < m
    ensures p + Size(f) <= |ls|
    ensures var q := Naming(f, p);
            if q < 0 then Unnamed(ls, p, p + Size(f), i) else p <= q < p + Size(f) && Names(ls, p, q, i, false)
    decreases f
  {
    RecordedBounds(ls, ms, f, p, i, m);
    match f
    case Empty =>
    case Entry(k, rest) => NamingIsFirst(ls, ms, rest, p + 1, i, m);
    case Menu(body, rest) =>
      NamingIsFirst(ls, ms, rest, p + 2 + Size(body), i, m + 1 + Count(body));
      SubmenuUnnamed(ls, ms, body, rest, p, i, m);
      hide Recorded, NoneOf;
  }

  /** No comment in a submenu carries the menu's number. */
  lemma SubmenuUnnamed(ls: seq<Line>, ms: seq<Mark>, body: Forest, rest: Forest, p: nat, i: nat, m: nat)
    requires Recorded(ls, ms, Menu(body, rest), p, i, m) && 0 < i < m
    ensures p + 2 + Size(body) <= |ls| && Unnamed(ls, p, p + 2 + Size(body), i)
  {
    NumbersInRange(ls, ms, body, p + 1, m, m + 1, i);
    assert ls[p].kind == MainmenuOption && ls[p + 1 + Size(body)].number == 0;
    hide Recorded;
  }

  /** Where the walk of menu i starts and ends. */
  lemma WalkBounds(ls: seq<Line>, ms: seq<Mark>, f: Forest, i: nat)
    requires Recorded(ls, ms, f, 0, 0, 1) && Proper(f) && Size(f) == |ls| && Count(f) == |ms| && 1 <= i <= |ms|
    ensures var p := ms[i - 1].first + 1;
            && p + Size(Body(f, 1, i)) == ms[i - 1].last < |ls|
            && Recorded(ls, ms, Body(f, 1, i), p, i, i + 1) && Proper(Body(f, 1, i))
            && Deeper(ms, i + 1, i + 1, i) && Heads(ls, ms, 1, |ms| + 1)
  {
    hide Recorded, Proper, NoneOf, Size, Count, Body, Heads;
    BodyBetweenMarks(ls, ms, f, 0, 0, 1, i);
    HeadsCarryParents(ls, ms, f, 0, 0, 1);
    ProperBody(f, 1, i);
  }

  /** At the head of a submenu. */
  lemma AtMenu(ls: seq<Line>, ms: seq<Mark>, f: Forest, p: nat, i: nat, m: nat) returns (body: Forest, rest: Forest)
    requires Recorded(ls, ms, f, p, i, m) && Proper(f) && Size(f) > 0 && i < m && p < |ls| && ls[p].kind == MainmenuOption
    ensures f == Menu(body, rest) && rest < f && Size(f) == 2 + Size(body) + Size(rest)
    ensures m <= |ms| && ms[m - 1] == Mark(p, p + 1 + Size(body), i)
    ensures Recorded(ls, ms, rest, p + 2 + Size(body), i, m + 1 + Count(body)) && Proper(rest)
    ensures Deeper(ms, m + 1, m + 1 + Count(body), i)
  {
    body, rest := f.body, f.rest;
    NextOnPath(ls, ms, body, p + 1, m, m + 1);
  }

  /** At any other statement. */
  lemma AtEntry(ls: seq<Line>, ms: seq<Mark>, f: Forest, p: nat, i: nat, m: nat) returns (rest: Forest)
    requires Recorded(ls, ms, f, p, i, m) && Proper(f) && Size(f) > 0 && p < |ls| && ls[p].kind != MainmenuOption
    ensures f == Entry(ls[p].kind, rest) && rest < f && Size(f) == 1 + Size(rest)
    ensures Recorded(ls, ms, rest, p + 1, i, m) && Proper(rest)
    ensures Numbered(ls[p].kind) ==> ls[p].number == i
  {
    rest := f.rest;
  }

  // ----- the next menu -----

  /** The number is 0, that of menu k, or that of a menu around it. */
  predicate OnPath(ms: seq<Mark>, k: nat, a: nat) {
    a == k || (1 <= k <= |ms| && ms[k - 1].parent < k && OnPath(ms, ms[k - 1].parent, a))
  }

  /** Menus come after those around them. */
  predicate Preorder(ms: seq<Mark>) {
    forall j :: 0 <= j < |ms| ==> ms[j].parent <= j
  }

  /** The windows on the way up from menu k, before `top`. */
  function Climb(ms: seq<Mark>, k: nat, top: nat): seq<nat>
    requires k <= |ms| && Preorder(ms)
  {
    if k == 0 || k == top then [] else [k] + Climb(ms, ms[k - 1].parent, top)
  }

  lemma {:induction false} PathJoin(ms: seq<Mark>, k: nat, a: nat, b: nat)
    requires OnPath(ms, k, a) && OnPath(ms, a, b)
    ensures OnPath(ms, k, b)
  {
    if a != k { PathJoin(ms, ms[k - 1].parent, a, b); }
  }

  lemma {:induction false} PathToTop(ms: seq<Mark>, k: nat)
    requires k <= |ms| && Preorder(ms)
    ensures OnPath(ms, k, 0)
  {
    if k > 0 { PathToTop(ms, ms[k - 1].parent); }
  }

  lemma {:induction false} PathIsDown(ms: seq<Mark>, k: nat, a: nat)
    requires OnPath(ms, k, a)
    ensures a <= k
  {
    if a != k { PathIsDown(ms, ms[k - 1].parent, a); }
  }

  /** Menus m to n - 1 lie below `parent`. */
  predicate Under(ms: seq<Mark>, m: nat, n: nat, parent: nat) {
    1 <= m <= n <= |ms| + 1
    && forall j {:trigger ms[j]} :: m <= j + 1 < n ==> parent <= ms[j].parent <= j && OnPath(ms, j + 1, parent)
  }

  /** From each of the menus m to n - 1 but the last, the parent of the next is on the way up. */
  predicate Chained(ms: seq<Mark>, m: nat, n: nat) {
    1 <= m <= n <= |ms| + 1 && forall j {:trigger ms[j]} :: m <= j < n - 1 ==> OnPath(ms, j, ms[j].parent)
  }

  lemma UnderJoin(ms: seq<Mark>, parent: nat, m: nat, k: nat, n: nat)
    requires 1 <= m <= |ms| && parent < m && ms[m - 1].parent == parent
    requires Under(ms, m + 1, k, m) && Under(ms, k, n, parent)
    ensures Under(ms, m, n, parent)
  {
    assert OnPath(ms, m, parent);
    forall j {:trigger ms[j]} | m + 1 <= j + 1 < k ensures OnPath(ms, j + 1, parent) { PathJoin(ms, j + 1, m, parent); }
  }

  lemma ChainedJoin(ms: seq<Mark>, parent: nat, m: nat, k: nat, n: nat)
    requires Under(ms, m, n, parent) && m < k
    requires Chained(ms, m + 1, k) && Chained(ms, k, n)
    requires (m + 1 < k ==> ms[m].parent == m) && (k < n ==> ms[k - 1].parent == parent)
    ensures Chained(ms, m, n)
  {
    assert m + 1 < k ==> OnPath(ms, m, m);
    if k < n {
      var last := ms[k - 2];
      assert OnPath(ms, k - 1, parent);
    }
  }

  /** A forest's menus all lie below its parent, the first of them directly; and each is followed by one whose parent
      is on the way up. */
  lemma {:induction false} NextOnPath(ls: seq<Line>, ms: seq<Mark>, f: Forest, p: nat, parent: nat, m: nat)
    requires Recorded(ls, ms, f, p, parent, m) && parent < m
    ensures Under(ms, m, m + Count(f), parent) && Chained(ms, m, m + Count(f))
    ensures Count(f) > 0 ==> ms[m - 1].parent == parent
    decreases f
  {
    match f
    case Empty =>
    case Entry(_, rest) => NextOnPath(ls, ms, rest, p + 1, parent, m);
    case Menu(body, rest) =>
      var k := m + 1 + Count(body);
      NextOnPath(ls, ms, body, p + 1, m, m + 1);
      NextOnPath(ls, ms, rest, p + 2 + Size(body), parent, k);
      UnderJoin(ms, parent, m, k, k + Count(rest));
      ChainedJoin(ms, parent, m, k, k + Count(rest));
  }

  /** In preorder the parent of menu k + 1 is k, a menu around k, or 0. */
  lemma NextParentIsOnPath(ls: seq<Line>, ms: seq<Mark>, f: Forest, k: nat)
    requires Recorded(ls, ms, f, 0, 0, 1) && |ms| == Count(f)
    ensures Preorder(ms) && (1 <= k < |ms| ==> OnPath(ms, k, ms[k].parent))
  {
    NextOnPath(ls, ms, f, 0, 0, 1);
  }

  /** The windows closed are exactly those that are not open around the next menu: each menu on the way up from k
      that is not on the way up from `top`. */
  lemma {:induction false} ClimbIsExact(ms: seq<Mark>, k: nat, top: nat, n: nat)
    requires k <= |ms| && Preorder(ms) && OnPath(ms, k, top)
    ensures n in Climb(ms, k, top) <==> OnPath(ms, k, n) && !OnPath(ms, top, n)
  {
    if k == top {
    } else {
      var up := ms[k - 1].parent;
      ClimbIsExact(ms, up, top, n);
      if OnPath(ms, top, k) { PathIsDown(ms, top, k); PathIsDown(ms, up, top); }
    }
  }
}
