/** join_condition_stack of scripts/tkcond.c: one guard from the frames of the condition stack. */
module Joining {
  import opened Conditions
  import opened Sequences

  // ----- the copy of the frames -----

  /** One step of the loop over the stack: `acc` is the list built so far. */
  function AppendFrame(acc: seq<Token>, f: seq<Token>): seq<Token>
    requires |f| > 0
  {
    if f[0].op.True? then acc
    else
      acc + (if acc == [] then [] else [GLUE])
      + (if f[0].op.LParen? then f else Group(f))
  }

  function GlueFrames(fs: seq<seq<Token>>): seq<Token>
    requires forall i :: 0 <= i < |fs| ==> |fs[i]| > 0
  {
    if |fs| == 0 then [] else AppendFrame(GlueFrames(fs[..|fs| - 1]), fs[|fs| - 1])
  }

  // ----- duplicate conditions -----

  /** `( variable op constant )` at the head. */
  predicate StartsSimpleGroup(ts: seq<Token>) {
    && |ts| >= 5 && ts[0].op.LParen? && ts[1].op.Variable? && IsCompare(ts[2])
    && ts[3].op.Constant? && ts[4].op.RParen?
  }

  /** The tokens from j on repeat the group at the head, as the program compares them. */
  predicate Repeats(ts: seq<Token>, j: nat)
    requires |ts| >= 5 && j + 5 <= |ts|
  {
    && ts[j + 1].op.Variable? && ts[j + 1].nameindex == ts[1].nameindex
    && ts[j + 2].op == ts[2].op
    && ts[j + 3].op.Constant? && ts[j + 3].str == ts[3].str
    && ts[j + 4].op.RParen?
  }

  function Nuke(t: Token): Token {
    t.(op := Nuked)
  }

  /** The head group vanishes, with the `&&` behind it or else with the one behind its repetition. */
  function NukeHead(ts: seq<Token>, j: nat): (r: seq<Token>)
    requires |ts| >= 6 && (ts[5].op.And? || j + 5 < |ts|)
    ensures |r| == |ts|
  {
    var k := if ts[5].op.And? then 5 else j + 5;
    seq(|ts|, i requires 0 <= i < |ts| => if i < 5 || i == k then Nuke(ts[i]) else ts[i])
  }

  /** The inner loop: `ts` starts with the group being checked, the scan stands at j. */
  function ScanRepeats(ts: seq<Token>, j: nat): (r: seq<Token>)
    requires |ts| >= 6
    ensures |r| == |ts|
    decreases |ts| - j
  {
    if j >= |ts| then ts
    else if !ts[j].op.LParen? then ScanRepeats(ts, j + 1)
    else if j + 5 > |ts| then ts
    else if Repeats(ts, j) && (ts[5].op.And? || (j + 5 < |ts| && ts[j + 5].op.And?)) then
      ScanRepeats(NukeHead(ts, j), j + 1)
    else ScanRepeats(ts, j + 1)
  }

  /** One step of the outer loop on the list from its current node on. */
  function NukeStep(ts: seq<Token>): (r: seq<Token>)
    ensures |r| == |ts|
  {
    if |ts| >= 6 && StartsSimpleGroup(ts) then ScanRepeats(ts, 6) else ts
  }

  function NukeAll(ts: seq<Token>): (r: seq<Token>)
    ensures |r| == |ts|
    decreases |ts|
  {
    if |ts| == 0 then [] else
    var t := NukeStep(ts);
    [t[0]] + NukeAll(t[1..])
  }

  /** The guard for a statement under the given frames; the empty sequence is the NULL list. */
  function JoinStack(fs: seq<seq<Token>>): seq<Token>
    requires forall i :: 0 <= i < |fs| ==> |fs[i]| > 0
  {
    if exists i :: 0 <= i < |fs| && fs[i][0].op.False? then [NEVER]
    else NukeAll(GlueFrames(fs))
  }

  // ----- the frames as groups -----

  /** A stack entry, read: decided, a chain, or the parenthesized groups of a dependency. */
  datatype Frame = Decided(t: Token) | Single(c: seq<Token>) | Groups(cs: seq<seq<Token>>) {
    ghost predicate Valid() {
      match this
      case Decided(t) => t.op.True? || t.op.False?
      case Single(c) => Plain(c)
      case Groups(cs) => |cs| > 0 && AllPlain(cs)
    }

    function Tokens(): (r: seq<Token>)
      requires Valid()
      ensures |r| > 0
    {
      match this
      case Decided(t) => [t]
      case Single(c) => c
      case Groups(cs) => Glue(cs)
    }

    function Parts(): seq<seq<Token>> {
      match this
      case Decided(t) => []
      case Single(c) => [c]
      case Groups(cs) => cs
    }

    predicate Value(eq: Equality)
      requires Valid()
    {
      match this
      case Decided(t) => t.op.True?
      case Single(c) => TestValue(c, eq, true)
      case Groups(cs) => AllHold(cs, eq)
    }
  }

  ghost predicate AllValid(fs: seq<Frame>) {
    forall i :: 0 <= i < |fs| ==> fs[i].Valid()
  }

  function FrameTokens(fs: seq<Frame>): (r: seq<seq<Token>>)
    requires AllValid(fs)
    ensures |r| == |fs| && forall i :: 0 <= i < |fs| ==> r[i] == fs[i].Tokens() && |r[i]| > 0
  {
    seq(|fs|, i requires 0 <= i < |fs| => fs[i].Tokens())
  }

  function AllParts(fs: seq<Frame>): seq<seq<Token>> {
    if |fs| == 0 then [] else AllParts(fs[..|fs| - 1]) + fs[|fs| - 1].Parts()
  }

  predicate FramesHold(fs: seq<Frame>, eq: Equality)
    requires AllValid(fs)
  {
    forall i :: 0 <= i < |fs| ==> fs[i].Value(eq)
  }

  lemma AppendFrameIsGlue(xs: seq<seq<Token>>, f: Frame)
    requires AllPlain(xs) && f.Valid() && !f.Tokens()[0].op.False?
    ensures AllPlain(xs + f.Parts())
    ensures AppendFrame(Glue(xs), f.Tokens()) == Glue(xs + f.Parts())
  {
    var ys := f.Parts();
    if f.Decided? {
      assert xs + ys == xs;
    } else {
      if f.Single? {
        ChainParenFree(f.c);
      }
      assert AppendFrame(Glue(xs), f.Tokens()) == Glue(xs) + (if xs == [] then [] else [GLUE]) + Glue(ys);
      if xs == [] {
        assert xs + ys == ys;
      } else {
        GlueAppend(xs, ys);
      }
    }
  }

  lemma {:induction false} GlueFramesIsGlue(fs: seq<Frame>)
    requires AllValid(fs)
    requires forall i :: 0 <= i < |fs| ==> !fs[i].Tokens()[0].op.False?
    ensures AllPlain(AllParts(fs))
    ensures GlueFrames(FrameTokens(fs)) == Glue(AllParts(fs))
    decreases |fs|
  {
    if |fs| > 0 {
      var init := fs[..|fs| - 1];
      GlueFramesIsGlue(init);
      assert FrameTokens(fs)[..|fs| - 1] == FrameTokens(init);
      AppendFrameIsGlue(AllParts(init), fs[|fs| - 1]);
    }
  }

  // ----- what nuking does to groups -----

  predicate IsTriple(c: seq<Token>) {
    |c| == 3 && c[0].op.Variable? && IsCompare(c[1]) && c[2].op.Constant?
  }

  predicate SameTriple(c: seq<Token>, d: seq<Token>) {
    && IsTriple(c) && IsTriple(d)
    && c[0].nameindex == d[0].nameindex && c[1].op == d[1].op && c[2].str == d[2].str
  }

  predicate OccursIn(c: seq<Token>, ds: seq<seq<Token>>) {
    exists i :: 0 <= i < |ds| && SameTriple(c, ds[i])
  }

  /** The groups without those that occur again later. */
  function DropRepeated(cs: seq<seq<Token>>): seq<seq<Token>> {
    if |cs| == 0 then []
    else (if OccursIn(cs[0], cs[1..]) then [] else [cs[0]]) + DropRepeated(cs[1..])
  }

  lemma {:induction false} ScanSkips(ts: seq<Token>, j: nat, k: nat)
    requires |ts| >= 6 && j <= k <= |ts|
    requires forall i :: j <= i < k ==> !ts[i].op.LParen?
    ensures ScanRepeats(ts, j) == ScanRepeats(ts, k)
    decreases k - j
  {
    if j < k { ScanSkips(ts, j + 1, k); }
  }

  /** Once nuked, the head matches nothing any more. */
  lemma {:induction false} ScanAfterNuke(ts: seq<Token>, j: nat)
    requires |ts| >= 6 && ts[2].op.Nuked? && j >= 3
    requires forall i :: j <= i < |ts| ==> !ts[i].op.Nuked?
    ensures ScanRepeats(ts, j) == ts
    decreases |ts| - j
  {
    if j < |ts| { ScanAfterNuke(ts, j + 1); }
  }

  lemma ScanAtParen(ts: seq<Token>, j: nat)
    requires |ts| >= 6 && j + 5 <= |ts| && ts[5].op.And? && ts[j].op.LParen?
    ensures ScanRepeats(ts, j) == ScanRepeats(if Repeats(ts, j) then NukeHead(ts, j) else ts, j + 1)
  {
  }

  predicate HeadIs(ts: seq<Token>, c: seq<Token>) {
    && |ts| >= 6 && |c| == 3
    && ts[0] == LEFT && ts[1] == c[0] && ts[2] == c[1] && ts[3] == c[2] && ts[4] == RIGHT && ts[5] == GLUE
  }

  predicate GroupAt(ts: seq<Token>, j: nat, d: seq<Token>) {
    && j + |d| + 2 <= |ts| && ts[j] == LEFT && ts[j + |d| + 1] == RIGHT
    && forall i :: j < i <= j + |d| ==> ts[i] == d[i - j - 1]
  }

  lemma RepeatsIsSame(c: seq<Token>, ts: seq<Token>, d: seq<Token>, j: nat)
    requires IsTriple(c) && Plain(d) && HeadIs(ts, c) && GroupAt(ts, j, d)
    ensures j + 5 <= |ts| && (Repeats(ts, j) <==> SameTriple(c, d))
  {
    assert Unbanged(d) == d;
    assert ts[j + 1] == d[0] && ts[j + 2] == d[1] && ts[j + 3] == d[2];
    if |d| > 3 {
      assert ts[j + 4] == d[3];
    }
  }

  /** The scan meets one group `d` at j: it nukes the head if the groups are the same, or passes on. */
  lemma ScanOne(c: seq<Token>, ts: seq<Token>, d: seq<Token>, j: nat)
    requires IsTriple(c) && Plain(d) && HeadIs(ts, c) && GroupAt(ts, j, d) && j >= 6
    requires forall i :: j <= i < |ts| ==> !ts[i].op.Nuked?
    ensures ScanRepeats(ts, j) == if SameTriple(c, d) then NukeHead(ts, j) else ScanRepeats(ts, j + |d| + 2)
  {
    RepeatsIsSame(c, ts, d, j);
    hide Chain, Repeats, SameTriple;
    ScanAtParen(ts, j);
    hide ScanRepeats;
    if SameTriple(c, d) {
      ScanAfterNuke(NukeHead(ts, j), j + 1);
    } else {
      ChainParenFree(d);
      ScanSkips(ts, j + 1, j + |d| + 2);
    }
  }

  lemma GlueShape(ds: seq<seq<Token>>)
    requires |ds| > 0
    ensures var g, n := Glue(ds), |ds[0]|;
            && |g| >= n + 2 && g[0] == LEFT && g[n + 1] == RIGHT
            && (forall i :: 0 < i <= n ==> g[i] == ds[0][i - 1])
            && if |ds| == 1 then |g| == n + 2 else |g| > n + 2 && g[n + 2] == GLUE && g[n + 3..] == Glue(ds[1..])
  {
  }

  lemma GlueAt(ts: seq<Token>, j: nat, ds: seq<seq<Token>>)
    requires j <= |ts| && ts[j..] == Glue(ds) && |ds| > 0 && AllPlain(ds)
    ensures GroupAt(ts, j, ds[0])
    ensures forall i :: j <= i < |ts| ==> !ts[i].op.Nuked?
    ensures var e := j + |ds[0]| + 2;
            if |ds| == 1 then e == |ts| else e < |ts| && ts[e] == GLUE && ts[e + 1..] == Glue(ds[1..])
  {
    var g := Glue(ds);
    GlueFree(ds);
    GlueShape(ds);
    hide Plain, Glue;
    assert forall i {:trigger ts[i]} :: j <= i < |ts| ==> ts[i] == g[i - j];
    if |ds| > 1 {
      assert ts[j + |ds[0]| + 3..] == g[|ds[0]| + 3..];
    }
  }

  /** The scan at the first of the groups `ds`: done, or on to the next group. */
  lemma ScanNext(c: seq<Token>, ts: seq<Token>, j: nat, ds: seq<seq<Token>>)
    requires IsTriple(c) && AllPlain(ds) && HeadIs(ts, c) && |ds| > 0
    requires 6 <= j <= |ts| && ts[j..] == Glue(ds)
    ensures ScanRepeats(ts, j)
         == if SameTriple(c, ds[0]) then NukeHead(ts, 6)
            else if |ds| == 1 then ts else ScanRepeats(ts, |ts| - |Glue(ds[1..])|)
    ensures |ds| > 1 ==>
      var k := |ts| - |Glue(ds[1..])|;
      6 <= k <= |ts| && ts[k..] == Glue(ds[1..])
  {
    hide ScanRepeats, Glue, NukeHead, SameTriple, IsTriple, Plain, Group;
    GlueAt(ts, j, ds);
    HeadAnd(ts, c);
    hide HeadIs, GroupAt;
    NukeHeadAnywhere(ts, j);
    ScanOne(c, ts, ds[0], j);
    var e := j + |ds[0]| + 2;
    if |ds| > 1 {
      ScanSkips(ts, e, e + 1);
    } else {
      ScanEnd(ts);
    }
  }

  /** The inner loop finds a repetition among the later groups if there is one. */
  lemma {:induction false} ScanGroups(c: seq<Token>, ts: seq<Token>, j: nat, ds: seq<seq<Token>>)
    requires IsTriple(c) && AllPlain(ds) && HeadIs(ts, c)
    requires 6 <= j <= |ts| && ts[j..] == Glue(ds)
    ensures ScanRepeats(ts, j) == if OccursIn(c, ds) then NukeHead(ts, 6) else ts
    decreases |ds|
  {
    hide Plain, SameTriple, IsTriple, HeadIs;
    if |ds| == 0 {
      ScanEnd(ts);
    } else {
      ScanNext(c, ts, j, ds);
      OccursTail(c, ds);
      hide ScanRepeats, Glue, NukeHead;
      if |ds| > 1 {
        ScanGroups(c, ts, |ts| - |Glue(ds[1..])|, ds[1..]);
      }
    }
  }

  lemma HeadAnd(ts: seq<Token>, c: seq<Token>)
    requires HeadIs(ts, c)
    ensures |ts| >= 6 && ts[5].op.And?
  {
  }

  lemma NukeHeadAnywhere(ts: seq<Token>, j: nat)
    requires |ts| >= 6 && ts[5].op.And?
    ensures NukeHead(ts, j) == NukeHead(ts, 6)
  {
  }

  lemma ScanEnd(ts: seq<Token>)
    requires |ts| >= 6
    ensures ScanRepeats(ts, |ts|) == ts
  {
  }

  lemma OccursTail(c: seq<Token>, ds: seq<seq<Token>>)
    requires |ds| > 0
    ensures OccursIn(c, ds) <==> SameTriple(c, ds[0]) || OccursIn(c, ds[1..])
  {
    if OccursIn(c, ds) {
      var i :| 0 <= i < |ds| && SameTriple(c, ds[i]);
      if i > 0 { assert ds[i] == ds[1..][i - 1]; }
    }
    if OccursIn(c, ds[1..]) {
      var i :| 0 <= i < |ds[1..]| && SameTriple(c, ds[1..][i]);
      assert ds[i + 1] == ds[1..][i];
    }
  }

  lemma {:induction false} NukePasses(pre: seq<Token>, ts: seq<Token>)
    requires Free(pre, LParen)
    ensures NukeAll(pre + ts) == pre + NukeAll(ts)
    decreases |pre|
  {
    var all := pre + ts;
    if |pre| == 0 {
      assert all == ts && pre + NukeAll(ts) == NukeAll(ts);
    } else {
      NukePasses(pre[1..], ts);
      assert NukeAll(all) == [pre[0]] + NukeAll(pre[1..] + ts) by {
        assert NukeStep(all) == all;
        assert all[1..] == pre[1..] + ts;
      }
      ConsAppend(pre, NukeAll(ts));
    }
  }

  function Flat(ts: seq<Token>): (r: seq<Token>)
    ensures |r| == |ts| && forall i :: 0 <= i < |ts| ==> r[i] == Nuke(ts[i])
  {
    seq(|ts|, i requires 0 <= i < |ts| => Nuke(ts[i]))
  }

  lemma NukeKeepsHead(ts: seq<Token>, head: seq<Token>, tail: seq<Token>)
    requires |head| > 0 && ts == head + tail
    requires NukeStep(ts) == ts && Free(head[1..], LParen)
    ensures NukeAll(ts) == head + NukeAll(tail)
  {
    assert ts[1..] == head[1..] + tail;
    NukePasses(head[1..], tail);
    ConsAppend(head, NukeAll(tail));
  }

  lemma NukeDropsHead(ts: seq<Token>, head: seq<Token>, tail: seq<Token>)
    requires |head| == 6 && ts == head + tail && head[5].op.And?
    requires NukeStep(ts) == NukeHead(ts, 6)
    ensures NukeAll(ts) == Flat(head) + NukeAll(tail)
  {
    var flat := Flat(head);
    assert NukeHead(ts, 6) == flat + tail;
    assert (flat + tail)[1..] == flat[1..] + tail;
    NukePasses(flat[1..], tail);
    ConsAppend(flat, NukeAll(tail));
  }

  lemma SimpleGroupIsTriple(c: seq<Token>, rest: seq<Token>)
    requires Plain(c)
    ensures StartsSimpleGroup(Group(c) + rest) <==> IsTriple(c)
  {
    var ts := Group(c) + rest;
    assert Unbanged(c) == c;
    assert ts[1] == c[0] && ts[2] == c[1] && ts[3] == c[2];
    assert |c| > 3 ==> ts[4] == c[3];
  }

  lemma GroupBody(c: seq<Token>)
    requires Free(c, LParen)
    ensures Free((Group(c) + [GLUE])[1..], LParen)
  {
    assert (Group(c) + [GLUE])[1..] == c + [RIGHT, GLUE];
  }

  lemma NukeStepOnGroups(c: seq<Token>, rest: seq<seq<Token>>)
    requires Plain(c) && AllPlain(rest) && |rest| > 0
    ensures var ts := Group(c) + [GLUE] + Glue(rest);
            NukeStep(ts) == if OccursIn(c, rest) then NukeHead(ts, 6) else ts
  {
    hide Chain, SameTriple, ScanRepeats, Glue;
    var ts := Group(c) + [GLUE] + Glue(rest);
    assert ts == Group(c) + ([GLUE] + Glue(rest));
    SimpleGroupIsTriple(c, [GLUE] + Glue(rest));
    if IsTriple(c) {
      assert ts[6..] == Glue(rest);
      ScanGroups(c, ts, 6, rest);
    } else if OccursIn(c, rest) {
      OccursIsTriple(c, rest);
    }
  }

  /** The outer loop on groups: the head group either stays or turns into six nuked tokens. */
  lemma NukeGroupsStep(cs: seq<seq<Token>>)
    requires |cs| > 1 && AllPlain(cs)
    ensures var head := Group(cs[0]) + [GLUE];
            NukeAll(Glue(cs)) == (if OccursIn(cs[0], cs[1..]) then Flat(head) else head) + NukeAll(Glue(cs[1..]))
  {
    hide Chain, NukeAll, NukeStep;
    var head := Group(cs[0]) + [GLUE];
    NukeStepOnGroups(cs[0], cs[1..]);
    if OccursIn(cs[0], cs[1..]) {
      OccursIsTriple(cs[0], cs[1..]);
      NukeDropsHead(Glue(cs), head, Glue(cs[1..]));
    } else {
      ChainParenFree(cs[0]);
      GroupBody(cs[0]);
      NukeKeepsHead(Glue(cs), head, Glue(cs[1..]));
    }
  }

  lemma OccursIsTriple(c: seq<Token>, ds: seq<seq<Token>>)
    requires OccursIn(c, ds)
    ensures IsTriple(c) && |c| == 3
  {
  }

  lemma {:induction false} FlatInvisible(ts: seq<Token>)
    requires forall i :: 0 <= i < |ts| ==> ts[i].op.Nuked?
    ensures Visible(ts) == []
    decreases |ts|
  {
    if |ts| > 0 { FlatInvisible(ts[1..]); }
  }

  lemma VisibleNuked(flat: seq<Token>, ts: seq<Token>)
    requires forall i :: 0 <= i < |flat| ==> flat[i].op.Nuked?
    ensures Visible(flat + ts) == Visible(ts)
  {
    VisibleConcat(flat, ts);
    FlatInvisible(flat);
  }

  lemma VisibleKept(c: seq<Token>, ts: seq<Token>, ds: seq<seq<Token>>)
    requires Plain(c) && |ds| > 0 && Visible(ts) == Glue(ds)
    ensures Visible(Group(c) + [GLUE] + ts) == Glue([c] + ds)
  {
    var head := Group(c) + [GLUE];
    VisibleConcat(head, ts);
    ChainParenFree(c);
    VisibleAll(head);
    assert ([c] + ds)[1..] == ds;
  }

  /** What is left to print of joined groups are the groups without the repeated ones. */
  lemma {:induction false} NukedGroups(cs: seq<seq<Token>>)
    requires |cs| > 0 && AllPlain(cs)
    ensures AllPlain(DropRepeated(cs)) && |DropRepeated(cs)| > 0
    ensures Visible(NukeAll(Glue(cs))) == Glue(DropRepeated(cs))
    decreases |cs|
  {
    hide NukeAll, Chain, Visible, SameTriple;
    if |cs| == 1 {
      LastGroup(cs[0]);
      assert DropRepeated(cs[1..]) == [] && DropRepeated(cs) == cs;
      VisibleGlue(cs);
    } else {
      var rest := cs[1..];
      NukeGroupsStep(cs);
      NukedGroups(rest);
      hide Glue;
      if OccursIn(cs[0], rest) {
        VisibleNuked(Flat(Group(cs[0]) + [GLUE]), NukeAll(Glue(rest)));
        assert DropRepeated(cs) == DropRepeated(rest);
      } else {
        VisibleKept(cs[0], NukeAll(Glue(rest)), DropRepeated(rest));
      }
    }
  }

  /** The last group has nothing behind it and stays. */
  lemma LastGroup(c: seq<Token>)
    requires Plain(c)
    ensures NukeAll(Group(c)) == Group(c)
  {
    var ts := Group(c);
    ChainParenFree(c);
    assert Unbanged(c) == c;
    assert |c| > 3 ==> ts[4] == c[3];
    assert NukeStep(ts) == ts;
    NukePasses(ts[1..], []);
    assert ts[1..] + [] == ts[1..];
  }

  lemma {:induction false} RepeatedChangeNothing(cs: seq<seq<Token>>, eq: Equality)
    requires AllPlain(cs)
    ensures AllPlain(DropRepeated(cs))
    ensures AllHold(DropRepeated(cs), eq) == AllHold(cs, eq)
    decreases |cs|
  {
    if |cs| > 0 {
      var c, rest := cs[0], cs[1..];
      RepeatedChangeNothing(rest, eq);
      AllHoldAppend([c], rest, eq);
      assert cs == [c] + rest;
      if OccursIn(c, rest) {
        var i :| 0 <= i < |rest| && SameTriple(c, rest[i]);
        SameValue(c, rest[i], eq);
        assert DropRepeated(cs) == DropRepeated(rest);
      } else {
        AllHoldAppend([c], DropRepeated(rest), eq);
      }
    }
  }

  lemma SameValue(c: seq<Token>, d: seq<Token>, eq: Equality)
    requires Plain(c) && Plain(d) && SameTriple(c, d)
    ensures TestValue(c, eq, true) == TestValue(d, eq, true)
  {
    assert Unbanged(c) == c && Unbanged(d) == d;
  }

  lemma {:induction false} OccursAfterDrop(c: seq<Token>, cs: seq<seq<Token>>)
    ensures OccursIn(c, DropRepeated(cs)) ==> OccursIn(c, cs)
    decreases |cs|
  {
    if |cs| > 0 {
      OccursAfterDrop(c, cs[1..]);
      OccursTail(c, cs);
      if !OccursIn(cs[0], cs[1..]) {
        var ds := [cs[0]] + DropRepeated(cs[1..]);
        assert ds[1..] == DropRepeated(cs[1..]);
        OccursTail(c, ds);
      } else {
        assert DropRepeated(cs) == DropRepeated(cs[1..]);
      }
    }
  }

  /** Both are the comparison of the same variable, by the same operator, with the same text. */
  predicate SameComparison(c: seq<Token>, d: seq<Token>) {
    && |c| == 3 && |d| == 3 && c[0].op.Variable? && d[0].op.Variable? && c[0].nameindex == d[0].nameindex
    && c[1].op in {Eq, Neq} && c[1].op == d[1].op && c[2].op.Constant? && d[2].op.Constant? && c[2].str == d[2].str
  }

  lemma TripleIsComparison(c: seq<Token>, d: seq<Token>)
    ensures SameTriple(c, d) <==> SameComparison(c, d)
  {
  }

  predicate AllDifferent(ds: seq<seq<Token>>) {
    forall i, j :: 0 <= i < j < |ds| ==> !SameComparison(ds[i], ds[j])
  }

  /** No two surviving simple groups are the same. */
  lemma {:induction false} NoGroupSurvivesTwice(cs: seq<seq<Token>>)
    ensures AllDifferent(DropRepeated(cs))
    decreases |cs|
  {
    hide SameTriple, SameComparison;
    if |cs| > 0 {
      var es := DropRepeated(cs[1..]);
      NoGroupSurvivesTwice(cs[1..]);
      if OccursIn(cs[0], cs[1..]) {
        assert DropRepeated(cs) == es;
      } else {
        OccursAfterDrop(cs[0], cs[1..]);
        assert !OccursIn(cs[0], es);
        var ds := [cs[0]] + es;
        forall i, j | 0 <= i < j < |ds| ensures !SameComparison(ds[i], ds[j]) {
          TripleIsComparison(ds[i], ds[j]);
          assert ds[j] == es[j - 1];
          if i > 0 {
            assert ds[i] == es[i - 1];
          }
        }
      }
    }
  }

  lemma FramePartsHold(f: Frame, eq: Equality)
    requires f.Valid() && !f.Tokens()[0].op.False?
    ensures AllPlain(f.Parts()) && AllHold(f.Parts(), eq) == f.Value(eq)
  {
  }

  lemma FramesHoldInit(fs: seq<Frame>, eq: Equality)
    requires |fs| > 0 && AllValid(fs)
    ensures FramesHold(fs, eq) == (FramesHold(fs[..|fs| - 1], eq) && fs[|fs| - 1].Value(eq))
  {
  }

  lemma {:induction false} PartsHold(fs: seq<Frame>, eq: Equality)
    requires AllValid(fs)
    requires forall i :: 0 <= i < |fs| ==> !fs[i].Tokens()[0].op.False?
    ensures AllPlain(AllParts(fs)) && AllHold(AllParts(fs), eq) == FramesHold(fs, eq)
    decreases |fs|
  {
    if |fs| > 0 {
      hide AllHold, AllPlain, FramesHold, TestValue, Plain;
      var n := |fs| - 1;
      var init, f := fs[..n], fs[n];
      PartsHold(init, eq);
      FramePartsHold(f, eq);
      AllHoldAppend(AllParts(init), f.Parts(), eq);
      FramesHoldInit(fs, eq);
    }
  }

  ghost predicate SomeFalse(fs: seq<Frame>)
    requires AllValid(fs)
  {
    exists i :: 0 <= i < |fs| && fs[i].Tokens()[0].op.False?
  }

  lemma SomeFalseTokens(fs: seq<Frame>, eq: Equality)
    requires AllValid(fs)
    ensures var gs: seq<seq<Token>> := FrameTokens(fs);
            SomeFalse(fs) <==> exists i :: 0 <= i < |gs| && gs[i][0].op.False?
    ensures SomeFalse(fs) ==> !FramesHold(fs, eq)
  {
    var gs: seq<seq<Token>> := FrameTokens(fs);
    if SomeFalse(fs) {
      var i :| 0 <= i < |fs| && fs[i].Tokens()[0].op.False?;
      assert gs[i][0].op.False?;
      if fs[i].Single? { ChainParenFree(fs[i].c); }
      assert !fs[i].Value(eq);
    }
  }

  lemma JoinLive(fs: seq<Frame>, eq: Equality)
    requires AllValid(fs) && !SomeFalse(fs)
    ensures var guard := NukeAll(GlueFrames(FrameTokens(fs)));
            && (guard != [] ==> !guard[0].op.False?)
            && GuardValue(guard, eq) == (if FramesHold(fs, eq) then Yes else No)
  {
    hide NukeAll, Chain, GlueFrames, TclExpr, Visible;
    GlueFramesIsGlue(fs);
    PartsHold(fs, eq);
    var cs := AllParts(fs);
    var guard := NukeAll(Glue(cs));
    if |cs| > 0 {
      NukedGroups(cs);
      RepeatedChangeNothing(cs, eq);
      TclReadsGlue(DropRepeated(cs), eq, true);
      HeadAfterNuke(Glue(cs));
    }
  }

  /** Joining is conjunction. A false frame alone makes the guard the lone constant that has the statement
      dropped; otherwise the guard reads as the conjunction of all frames. */
  lemma JoinIsConjunction(fs: seq<Frame>, eq: Equality)
    requires AllValid(fs)
    ensures var guard := JoinStack(FrameTokens(fs));
            if SomeFalse(fs) then guard == [NEVER] && !FramesHold(fs, eq)
            else
              && (guard != [] ==> !guard[0].op.False?)
              && GuardValue(guard, eq) == (if FramesHold(fs, eq) then Yes else No)
  {
    hide NukeAll, GlueFrames, GuardValue, FramesHold;
    SomeFalseTokens(fs, eq);
    if !SomeFalse(fs) {
      JoinLive(fs, eq);
    }
  }

  lemma {:induction false} ScanHead(ts: seq<Token>, j: nat)
    requires |ts| >= 6 && !ts[0].op.False? && j > 0
    ensures !ScanRepeats(ts, j)[0].op.False?
    decreases |ts| - j
  {
    if j < |ts| {
      ScanHead(ts, j + 1);
      if ts[5].op.And? || j + 5 < |ts| {
        ScanHead(NukeHead(ts, j), j + 1);
      }
    }
  }

  lemma HeadAfterNuke(ts: seq<Token>)
    requires |ts| > 0 && !ts[0].op.False?
    ensures !NukeAll(ts)[0].op.False?
  {
    if |ts| >= 6 && StartsSimpleGroup(ts) { ScanHead(ts, 6); }
  }
}
