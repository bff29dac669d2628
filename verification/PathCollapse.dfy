/** The `/../` collapse of include paths (scripts/mkdep.c): text surgery against the stack machine that it stands for. */
module PathCollapse {
  import opened Sequences
  import opened Wrappers

  /** What lies between two slashes; it may be empty. */
  predicate IsComponent(c: string) {
    '/' !in c
  }

  predicate AllComponents(cs: seq<string>) {
    forall k :: 0 <= k < |cs| ==> IsComponent(cs[k])
  }

  function Text(cs: seq<string>): string {
    if |cs| == 0 then "" else "/" + cs[0] + Text(cs[1..])
  }

  /** Where component k starts, its slash included. */
  function Start(cs: seq<string>, k: nat): nat
    requires k <= |cs|
  {
    if k == 0 then 0 else 1 + |cs[0]| + Start(cs[1..], k - 1)
  }

  const UP := ".."

  // ----- what the loop leaves -----

  /** A stack of components: each `..` takes away the one before it, whatever that is. */
  function Fold(stack: seq<string>, cs: seq<string>): Option<seq<string>>
    decreases |cs|
  {
    if |cs| == 0 then Some(stack)
    else if cs[0] != UP then Fold(stack + [cs[0]], cs[1..])
    else if |stack| == 0 then None
    else Fold(stack[..|stack| - 1], cs[1..])
  }

  /** The last component stays: no slash follows it. None when there is nothing left to take away. */
  function Collapsed(cs: seq<string>): Option<seq<string>>
    requires |cs| > 0
  {
    match Fold([], cs[..|cs| - 1])
    case None => None
    case Some(stack) => Some(stack + [cs[|cs| - 1]])
  }

  predicate NoUp(cs: seq<string>) {
    forall k :: 0 <= k < |cs| ==> cs[k] != UP
  }

  lemma {:induction false} FoldPlain(stack: seq<string>, a: seq<string>, b: seq<string>)
    requires NoUp(a)
    ensures Fold(stack, a + b) == Fold(stack + a, b)
    decreases |a|
  {
    if |a| == 0 {
      assert a + b == b && stack + a == stack;
    } else {
      ConsAppend(a, b);
      assert (a + b)[1..] == a[1..] + b;
      FoldPlain(stack + [a[0]], a[1..], b);
      assert stack + [a[0]] + a[1..] == stack + a;
    }
  }

  /** One round of the loop: the first `..` and the component before it go. */
  lemma RoundKeepsResult(cs: seq<string>, k: nat)
    requires k + 1 < |cs| && cs[k] == UP && NoUp(cs[..k])
    ensures if k == 0 then Collapsed(cs) == None else Collapsed(cs) == Collapsed(cs[..k - 1] + cs[k + 1..])
  {
    hide Fold, NoUp;
    var before, rest := cs[..k], cs[k + 1..|cs| - 1];
    AroundIndex(cs[..|cs| - 1], k);
    assert cs[..|cs| - 1][..k] == before && cs[..|cs| - 1][k + 1..] == rest;
    FoldFrom(before, [UP] + rest);
    FoldUp(before, rest);
    if k > 0 {
      var less, shorter := cs[..k - 1] + cs[k + 1..], before[..k - 1];
      assert less[..|less| - 1] == shorter + rest && less[|less| - 1] == cs[|cs| - 1];
      NoUpTake(before, k - 1);
      FoldFrom(shorter, rest);
    }
  }

  lemma AroundIndex<T>(s: seq<T>, k: nat)
    requires k < |s|
    ensures s == s[..k] + ([s[k]] + s[k + 1..])
  {
  }

  lemma NoUpTake(cs: seq<string>, k: nat)
    requires k <= |cs| && NoUp(cs)
    ensures NoUp(cs[..k])
  {
  }

  lemma FoldUp(stack: seq<string>, cs: seq<string>)
    ensures Fold(stack, [UP] + cs) == if |stack| == 0 then None else Fold(stack[..|stack| - 1], cs)
  {
    assert ([UP] + cs)[1..] == cs;
  }

  lemma FoldFrom(a: seq<string>, b: seq<string>)
    requires NoUp(a)
    ensures Fold([], a + b) == Fold(a, b)
  {
    FoldPlain([], a, b);
    assert [] + a == a;
  }

  lemma NoRoundLeft(cs: seq<string>)
    requires |cs| > 0 && NoUp(cs[..|cs| - 1])
    ensures Collapsed(cs) == Some(cs)
  {
    var inner := cs[..|cs| - 1];
    FoldPlain([], inner, []);
    assert inner + [] == inner && [] + inner == inner;
    assert inner + [cs[|cs| - 1]] == cs;
  }

  // ----- what a path means -----

  /** The components of a name, without those that mean nothing. */
  predicate IsName(c: string) {
    c != "" && c != "."
  }

  /** The lexical meaning: nothing for an empty component or `.`, one step up for `..`; at the root, up is the root. */
  function Resolve(at: seq<string>, cs: seq<string>): seq<string>
    decreases |cs|
  {
    if |cs| == 0 then at
    else if !IsName(cs[0]) then Resolve(at, cs[1..])
    else if cs[0] != UP then Resolve(at + [cs[0]], cs[1..])
    else Resolve(if |at| == 0 then [] else at[..|at| - 1], cs[1..])
  }

  /** No prefix climbs above the root. */
  predicate StaysBelow(depth: nat, cs: seq<string>)
    decreases |cs|
  {
    |cs| == 0
    || if !IsName(cs[0]) then StaysBelow(depth, cs[1..])
       else if cs[0] != UP then StaysBelow(depth + 1, cs[1..])
       else depth > 0 && StaysBelow(depth - 1, cs[1..])
  }

  /** What the loop takes away is always a name. */
  predicate TakesNames(stack: seq<string>, cs: seq<string>)
    decreases |cs|
  {
    |cs| == 0
    || if cs[0] != UP then TakesNames(stack + [cs[0]], cs[1..])
       else |stack| > 0 && IsName(stack[|stack| - 1]) && TakesNames(stack[..|stack| - 1], cs[1..])
  }

  function NamesIn(stack: seq<string>): seq<string> {
    if |stack| == 0 then []
    else
      var last := stack[|stack| - 1];
      if IsName(last) then NamesIn(stack[..|stack| - 1]) + [last] else NamesIn(stack[..|stack| - 1])
  }

  lemma {:induction false} ResolvePlain(at: seq<string>, stack: seq<string>, cs: seq<string>)
    requires NoUp(stack)
    ensures Resolve(at, stack + cs) == Resolve(at + NamesIn(stack), cs)
    decreases |stack|
  {
    if |stack| == 0 {
      assert stack + cs == cs && at + NamesIn(stack) == at;
    } else {
      var before, last := stack[..|stack| - 1], stack[|stack| - 1];
      assert stack + cs == before + ([last] + cs) && ([last] + cs)[1..] == cs;
      ResolvePlain(at, before, [last] + cs);
      Assoc(at, NamesIn(before), [last]);
    }
  }

  /** Both machines side by side: as long as only names are taken away, the names on the stack are the meaning; from the
      first other component taken away, there are too many. */
  lemma {:induction false} FoldAgainstMeaning(stack: seq<string>, at: seq<string>, cs: seq<string>, good: bool)
    requires NoUp(stack) && StaysBelow(|at|, cs)
    requires if good then at == NamesIn(stack) else |at| < |NamesIn(stack)|
    ensures var r := Fold(stack, cs);
            && r.Some? && NoUp(r.value)
            && (if good && TakesNames(stack, cs) then NamesIn(r.value) == Resolve(at, cs)
                else |Resolve(at, cs)| < |NamesIn(r.value)|)
    decreases |cs|
  {
    if |cs| > 0 {
      if cs[0] != UP {
        assert (stack + [cs[0]])[..|stack|] == stack;
        FoldAgainstMeaning(stack + [cs[0]], if IsName(cs[0]) then at + [cs[0]] else at, cs[1..], good);
      } else {
        var last := stack[|stack| - 1];
        FoldAgainstMeaning(stack[..|stack| - 1], at[..|at| - 1], cs[1..], good && IsName(last));
      }
    }
  }

  // ----- which component a `..` takes away -----

  /** How many more components than `..` there are. */
  function Rise(cs: seq<string>): int {
    if |cs| == 0 then 0 else (if cs[0] == UP then -1 else 1) + Rise(cs[1..])
  }

  /** Every `..` has a component before it, and none is left over. */
  predicate Balanced(cs: seq<string>) {
    Rise(cs) == 0 && forall m :: 0 <= m <= |cs| ==> Rise(cs[..m]) >= 0
  }

  /** Component j is a name, and between it and the `..` at k everything is balanced. */
  predicate TakesName(cs: seq<string>, j: nat, k: nat) {
    j < k < |cs| && IsName(cs[j]) && cs[j] != UP && Balanced(cs[j + 1..k])
  }

  /** From component n on, every `..` takes a name away. */
  ghost predicate UpsTakeNames(cs: seq<string>, n: nat) {
    forall k :: n <= k < |cs| && cs[k] == UP ==> exists j: nat :: TakesName(cs, j, k)
  }

  lemma {:induction false} RiseAppend(a: seq<string>, b: seq<string>)
    ensures Rise(a + b) == Rise(a) + Rise(b)
    decreases |a|
  {
    if |a| == 0 {
      assert a + b == b;
    } else {
      assert (a + b)[1..] == a[1..] + b;
      RiseAppend(a[1..], b);
    }
  }

  lemma RiseOfPair(x: seq<string>, c: string, y: seq<string>)
    requires c != UP
    ensures Rise(x + [c]) == Rise(x) + 1 && Rise(x + [c, UP] + y) == Rise(x + y)
  {
    RiseAppend(x, [c]);
    RiseAppend(x, [c, UP]);
    RiseAppend(x + [c, UP], y);
    RiseAppend(x, y);
    assert [c, UP][1..] == [UP] && [UP][1..] == [];
  }

  /** A component and the `..` behind it make no difference. */
  lemma BalancedAroundPair(x: seq<string>, c: string, y: seq<string>)
    requires c != UP
    ensures Balanced(x + [c, UP] + y) <==> Balanced(x + y)
  {
    hide Rise;
    var z, s := x + [c, UP] + y, x + y;
    RiseOfPair(x, c, y);
    forall m | 0 <= m <= |x| ensures z[..m] == s[..m] {}
    assert s[..|x|] == x && z[..|x| + 1] == x + [c];
    forall m | |x| <= m <= |s| ensures Rise(z[..m + 2]) == Rise(s[..m]) {
      assert z[..m + 2] == x + [c, UP] + y[..m - |x|] && s[..m] == x + y[..m - |x|];
      RiseOfPair(x, c, y[..m - |x|]);
    }
    if Balanced(s) {
      forall m | 0 <= m <= |z| ensures Rise(z[..m]) >= 0 {
        if m <= |x| {
          assert z[..m] == s[..m];
        } else if m > |x| + 1 {
          assert Rise(z[..m - 2 + 2]) == Rise(s[..m - 2]);
        }
      }
    }
    if Balanced(z) {
      forall m | 0 <= m <= |s| ensures Rise(s[..m]) >= 0 {
        if m <= |x| { assert z[..m] == s[..m]; } else { assert Rise(z[..m + 2]) == Rise(s[..m]); }
      }
    }
  }

  lemma TakesNameAroundPair(pre: seq<string>, c: string, post: seq<string>, j: nat, k: nat)
    requires c != UP && |pre| <= k < |pre + post|
    ensures TakesName(pre + post, j, k) <==> TakesName(pre + [c, UP] + post, if j < |pre| then j else j + 2, k + 2)
  {
    hide Balanced;
    var short, full := pre + post, pre + [c, UP] + post;
    if j < |pre| {
      var x, y := pre[j + 1..], post[..k - |pre|];
      assert short[j + 1..k] == x + y && full[j + 1..k + 2] == x + [c, UP] + y;
      BalancedAroundPair(x, c, y);
    } else if j < k {
      assert short[j + 1..k] == post[j + 1 - |pre|..k - |pre|] == full[j + 3..k + 2];
    }
  }

  lemma PairTakesNothingElse(pre: seq<string>, c: string, post: seq<string>, j: nat, k: nat)
    requires |pre| <= j < |pre| + 2 <= k
    ensures !TakesName(pre + [c, UP] + post, j, k)
  {
    var full := pre + [c, UP] + post;
    if k < |full| {
      assert full[|pre| + 1] == UP;
      if j == |pre| {
        var between := full[j + 1..k];
        assert between[..1] == [UP] && [UP][1..] == [];
        assert Rise(between[..1]) == -1;
      }
    }
  }

  lemma MatchedAroundPair(pre: seq<string>, c: string, post: seq<string>, k: nat, k': nat)
    requires c != UP && |pre| <= k < |pre + post| && k' == k + 2
    ensures (exists j: nat :: TakesName(pre + post, j, k)) <==> exists j: nat :: TakesName(pre + [c, UP] + post, j, k')
  {
    hide TakesName;
    if j: nat :| TakesName(pre + post, j, k) {
      TakesNameAroundPair(pre, c, post, j, k);
    }
    if j: nat :| TakesName(pre + [c, UP] + post, j, k') {
      if |pre| <= j < |pre| + 2 {
        PairTakesNothingElse(pre, c, post, j, k');
      } else {
        TakesNameAroundPair(pre, c, post, if j < |pre| then j else j - 2, k);
      }
    }
  }

  lemma UpsAroundPair(pre: seq<string>, c: string, post: seq<string>)
    requires c != UP
    ensures UpsTakeNames(pre + post, |pre|) <==> UpsTakeNames(pre + [c, UP] + post, |pre| + 2)
  {
    hide TakesName;
    var short, full := pre + post, pre + [c, UP] + post;
    if UpsTakeNames(short, |pre|) {
      forall k | |pre| + 2 <= k < |full| && full[k] == UP ensures exists j: nat :: TakesName(full, j, k) {
        assert short[k - 2] == full[k];
        MatchedAroundPair(pre, c, post, k - 2, k);
      }
    }
    if UpsTakeNames(full, |pre| + 2) {
      forall k | |pre| <= k < |short| && short[k] == UP ensures exists j: nat :: TakesName(short, j, k) {
        assert short[k] == full[k + 2];
        MatchedAroundPair(pre, c, post, k, k + 2);
      }
    }
  }

  lemma {:induction false} RisePlain(cs: seq<string>)
    requires NoUp(cs)
    ensures Rise(cs) == |cs|
    decreases |cs|
  {
    if |cs| > 0 { RisePlain(cs[1..]); }
  }

  /** Behind components other than `..`, only the last of them can be taken away. */
  lemma FirstUpTakesLast(stack: seq<string>, rest: seq<string>)
    requires NoUp(stack)
    ensures var n, cs := |stack|, stack + [UP] + rest;
            (exists j: nat :: TakesName(cs, j, n)) <==> n > 0 && IsName(stack[n - 1])
  {
    var n, cs := |stack|, stack + [UP] + rest;
    if j: nat :| TakesName(cs, j, n) {
      assert cs[j + 1..n] == stack[j + 1..];
      RisePlain(stack[j + 1..]);
    }
    if n > 0 && IsName(stack[n - 1]) {
      assert cs[n..n] == [] && TakesName(cs, n - 1, n);
    }
  }

  /** What the stack machine takes away, in terms of the path. */
  lemma {:induction false} TakesNamesIff(stack: seq<string>, cs: seq<string>)
    requires NoUp(stack)
    ensures TakesNames(stack, cs) <==> UpsTakeNames(stack + cs, |stack|)
    decreases |cs|
  {
    hide TakesName;
    if |cs| > 0 {
      var rest, n := cs[1..], |stack|;
      assert cs == [cs[0]] + rest;
      Assoc(stack, [cs[0]], rest);
      if cs[0] != UP {
        TakesNamesIff(stack + [cs[0]], rest);
        assert (stack + cs)[n] == cs[0];
        assert UpsTakeNames(stack + cs, n) <==> UpsTakeNames(stack + cs, n + 1);
      } else {
        FirstUpTakesLast(stack, rest);
        if n > 0 && IsName(stack[n - 1]) {
          var pre, last := stack[..n - 1], stack[n - 1];
          TakesNamesIff(pre, rest);
          UpsAroundPair(pre, last, rest);
          assert stack + cs == pre + [last, UP] + rest;
          assert UpsTakeNames(stack + cs, n) <==> UpsTakeNames(stack + cs, n + 1);
        } else {
          assert (stack + cs)[n] == UP;
        }
      }
    }
  }

  /** The loop keeps the meaning of a path that never climbs above the root if and only if every `..` before the last
      component is matched by a name, not by an empty component or a `.`. */
  lemma CollapseKeepsMeaningIff(cs: seq<string>)
    requires |cs| > 0 && StaysBelow(0, cs)
    ensures Collapsed(cs).Some?
    ensures Resolve([], Collapsed(cs).value) == Resolve([], cs) <==> UpsTakeNames(cs[..|cs| - 1], 0)
  {
    hide UpsTakeNames;
    var inner, last := cs[..|cs| - 1], [cs[|cs| - 1]];
    assert cs == inner + last;
    ResolveAppend([], inner, last);
    FoldAgainstMeaning([], [], inner, true);
    TakesNamesIff([], inner);
    assert [] + inner == inner;
    var stack := Fold([], inner).value;
    ResolvePlain([], stack, last);
    assert [] + NamesIn(stack) == NamesIn(stack) && last[1..] == [];
  }

  /** The family on which it does not: behind a name and an empty component or `.`, a `..` takes the latter. */
  lemma EmptyComponentIsTaken(x: string, c: string, y: string)
    requires c in {"", "."} && x !in {"", ".", ".."} && y !in {"", ".", ".."}
    ensures var cs := [x, c, "..", y];
            && StaysBelow(0, cs) && Collapsed(cs) == Some([x, y])
            && Resolve([], cs) == [y] && Resolve([], [x, y]) == [x, y]
  {
    var cs := [x, c, UP, y];
    assert cs[1..] == [c, UP, y] && cs[2..] == [UP, y] && cs[3..] == [y];
    assert [c, UP, y][1..] == [UP, y] && [UP, y][1..] == [y] && [y][1..] == [] && [x, y][1..] == [y];
    assert cs[..3] == [x] + [c, UP] && [x, c][..1] == [x];
    assert ([x] + [c, UP])[1..] == [c, UP] && [c, UP][1..] == [UP] && [UP][1..] == [];
    assert Fold([x, c], [UP]) == Some([x]);
    assert Fold([x], [c, UP]) == Some([x]) by { assert [x] + [c] == [x, c]; }
    assert Fold([], cs[..3]) == Some([x]) by { assert [] + [x] == [x]; }
    assert Resolve([], [y]) == [y] by { assert [] + [y] == [y]; }
    assert Resolve([x], [UP, y]) == [y] by { assert [x][..0] == []; }
    assert Resolve([x], [y]) == [x, y] by { assert [x] + [y] == [x, y]; }
    assert Resolve([x], [c, UP, y]) == [y];
    assert cs[..|cs| - 1] == cs[..3] && [x] + [cs[|cs| - 1]] == [x, y];
    assert [] + [x] == [x];
    assert StaysBelow(0, [y]) && StaysBelow(1, [UP, y]) && StaysBelow(1, [c, UP, y]);
  }

  lemma {:induction false} ResolveAppend(at: seq<string>, a: seq<string>, b: seq<string>)
    requires StaysBelow(|at|, a + b)
    ensures Resolve(at, a + b) == Resolve(Resolve(at, a), b)
    ensures StaysBelow(|at|, a) && StaysBelow(|Resolve(at, a)|, b)
    decreases |a|
  {
    if |a| == 0 {
      assert a + b == b;
    } else {
      assert (a + b)[1..] == a[1..] + b;
      ResolveAppend(if !IsName(a[0]) then at else if a[0] != UP then at + [a[0]] else at[..|at| - 1], a[1..], b);
    }
  }

  /** In particular it does when no component is empty or `.`, and then no `..` is left before the last component. */
  lemma CollapseOfNames(cs: seq<string>)
    requires |cs| > 0 && StaysBelow(0, cs) && forall k {:trigger cs[k]} :: 0 <= k < |cs| ==> cs[k] !in {"", "."}
    ensures Collapsed(cs).Some? && Resolve([], Collapsed(cs).value) == Resolve([], cs)
    ensures NoUp(Collapsed(cs).value[..|Collapsed(cs).value| - 1])
    ensures cs[|cs| - 1] != UP ==> Collapsed(cs).value == Resolve([], cs)
  {
    var inner, last := cs[..|cs| - 1], [cs[|cs| - 1]];
    assert cs == inner + last && last[1..] == [];
    ResolveAppend([], inner, last);
    FoldOfNames([], inner);
    FoldAgainstMeaning([], [], inner, true);
    TakesNamesIff([], inner);
    assert [] + inner == inner;
    CollapseKeepsMeaningIff(cs);
    var stack := Fold([], inner).value;
    assert (stack + last)[..|stack + last| - 1] == stack;
  }

  lemma {:induction false} FoldOfNames(stack: seq<string>, cs: seq<string>)
    requires StaysBelow(|stack|, cs) && forall k :: 0 <= k < |cs| ==> IsName(cs[k])
    requires forall k :: 0 <= k < |stack| ==> IsName(stack[k])
    ensures TakesNames(stack, cs) && Fold(stack, cs) == Some(Resolve(stack, cs))
    decreases |cs|
  {
    if |cs| > 0 { FoldOfNames(if cs[0] != UP then stack + [cs[0]] else stack[..|stack| - 1], cs[1..]); }
  }

  // ----- the text -----

  lemma {:induction false} TextAppend(a: seq<string>, b: seq<string>)
    ensures Text(a + b) == Text(a) + Text(b)
    decreases |a|
  {
    if |a| == 0 {
      assert a + b == b;
    } else {
      assert (a + b)[1..] == a[1..] + b;
      TextAppend(a[1..], b);
      Assoc("/" + a[0], Text(a[1..]), Text(b));
    }
  }

  lemma {:induction false} StartIsLength(cs: seq<string>, k: nat)
    requires k <= |cs|
    ensures Start(cs, k) == |Text(cs[..k])|
    decreases k
  {
    if k > 0 {
      StartIsLength(cs[1..], k - 1);
      assert cs[..k][1..] == cs[1..][..k - 1];
    }
  }

  /** `/../` stands at p. */
  predicate DotsAt(s: string, p: nat) {
    p + 4 <= |s| && s[p] == '/' && s[p + 1] == '.' && s[p + 2] == '.' && s[p + 3] == '/'
  }

  /** The component around or before position p. */
  function Index(cs: seq<string>, p: nat): (k: nat)
    requires p < |Text(cs)|
    ensures k < |cs|
    decreases |cs|
  {
    if p <= |cs[0]| then 0 else 1 + Index(cs[1..], p - 1 - |cs[0]|)
  }

  /** Slashes stand at the starts of components only. */
  lemma {:induction false} SlashIsStart(cs: seq<string>, p: nat)
    requires AllComponents(cs) && p < |Text(cs)|
    ensures Text(cs)[p] == '/' <==> p == Start(cs, Index(cs, p))
    decreases |cs|
  {
    var c, rest := cs[0], cs[1..];
    if p > |c| {
      assert Text(cs)[p] == Text(rest)[p - 1 - |c|];
      SlashIsStart(rest, p - 1 - |c|);
    } else if p > 0 {
      assert Text(cs)[p] == c[p - 1];
    }
  }

  /** An occurrence of `/../` is a component `..` that is not the last. */
  lemma {:induction false} DotsAreUp(cs: seq<string>, p: nat)
    requires AllComponents(cs) && DotsAt(Text(cs), p)
    ensures var k := Index(cs, p); p == Start(cs, k) && k + 1 < |cs| && cs[k] == UP
    decreases |cs|
  {
    var c, rest, s := cs[0], cs[1..], Text(cs);
    assert forall q {:trigger s[q]} :: 1 <= q <= |c| ==> s[q] == c[q - 1];
    assert forall q {:trigger s[q]} :: |c| < q < |s| ==> s[q] == Text(rest)[q - 1 - |c|];
    if p > |c| {
      DotsAreUp(rest, p - 1 - |c|);
    } else {
      assert p == 0;
      assert forall q {:trigger c[q]} :: 0 <= q < |c| ==> c[q] == s[q + 1] && c[q] != '/';
      assert |c| <= 2;
      if |rest| > 0 { assert Text(rest)[0] == '/'; }
      assert c == UP;
    }
  }

  lemma {:induction false} UpIsDots(cs: seq<string>, k: nat)
    requires k + 1 < |cs| && cs[k] == UP
    ensures DotsAt(Text(cs), Start(cs, k))
    decreases k
  {
    var c, rest, s := cs[0], cs[1..], Text(cs);
    assert forall q {:trigger s[q]} :: |c| < q < |s| ==> s[q] == Text(rest)[q - 1 - |c|];
    if k > 0 { UpIsDots(rest, k - 1); }
  }

  lemma {:induction false} StartsGrow(cs: seq<string>, j: nat, k: nat)
    requires j < k <= |cs|
    ensures Start(cs, j) < Start(cs, k)
    decreases j
  {
    if j > 0 { StartsGrow(cs[1..], j - 1, k - 1); }
  }

  /** The search meets the first `..` that is not the last component. */
  lemma FirstDots(cs: seq<string>, p: nat) returns (k: nat)
    requires AllComponents(cs) && DotsAt(Text(cs), p) && forall q :: 0 <= q < p ==> !DotsAt(Text(cs), q)
    ensures k + 1 < |cs| && cs[k] == UP && NoUp(cs[..k]) && p == Start(cs, k)
  {
    DotsAreUp(cs, p);
    k := Index(cs, p);
    forall j | 0 <= j < k ensures cs[..k][j] != UP {
      if cs[j] == UP {
        UpIsDots(cs, j);
        StartsGrow(cs, j, k);
      }
    }
  }

  lemma NoDotsNoUp(cs: seq<string>)
    requires |cs| > 0 && forall q :: 0 <= q < |Text(cs)| ==> !DotsAt(Text(cs), q)
    ensures NoUp(cs[..|cs| - 1])
  {
    forall j {:trigger cs[j]} | 0 <= j < |cs| - 1 ensures cs[..|cs| - 1][j] != UP {
      if cs[j] == UP { UpIsDots(cs, j); }
    }
  }

  lemma SlashBefore(cs: seq<string>, k: nat) returns (r: nat)
    requires AllComponents(cs) && 1 <= k < |cs|
    ensures r == Start(cs, k - 1) < Start(cs, k) < |Text(cs)| && Text(cs)[r] == '/'
    ensures forall q {:trigger Text(cs)[q]} :: r < q < Start(cs, k) ==> Text(cs)[q] != '/'
  {
    r := Start(cs, k - 1);
    StartIsLength(cs, k - 1);
    StartIsLength(cs, k);
    assert cs[..k] == cs[..k - 1] + [cs[k - 1]];
    TextAppend(cs[..k - 1], [cs[k - 1]]);
    assert [cs[k - 1]][1..] == [];
    assert cs == cs[..k] + cs[k..];
    TextAppend(cs[..k], cs[k..]);
    var s, before, c := Text(cs), Text(cs[..k - 1]), cs[k - 1];
    assert s == before + ("/" + c) + Text(cs[k..]) && |before| == r;
    forall q {:trigger Text(cs)[q]} | r < q < Start(cs, k) ensures Text(cs)[q] != '/' {
      assert s[q] == c[q - r - 1];
    }
  }

  /** Removing the text between the two slashes removes the two components. */
  lemma RoundOnText(cs: seq<string>, k: nat)
    requires 1 <= k && k + 1 < |cs| && cs[k] == UP
    ensures Start(cs, k - 1) < Start(cs, k) && Start(cs, k) + 3 <= |Text(cs)|
    ensures Text(cs[..k - 1] + cs[k + 1..]) == Text(cs)[..Start(cs, k - 1)] + Text(cs)[Start(cs, k) + 3..]
  {
    StartIsLength(cs, k - 1);
    StartIsLength(cs, k);
    StartsGrow(cs, k - 1, k);
    var a, b, c, d := cs[..k - 1], [cs[k - 1]], [UP], cs[k + 1..];
    assert cs[..k] == a + b && cs == a + b + c + d;
    TextAppend(a, b);
    TextAppend(a + b, c);
    TextAppend(a + b + c, d);
    TextAppend(a, d);
    assert c[1..] == [] && Text(c) == "/..";
    Cut(Text(a), Text(b), Text(c), Text(d));
  }

  lemma Cut<T>(a: seq<T>, b: seq<T>, c: seq<T>, d: seq<T>)
    ensures var s := a + b + c + d; s[..|a|] == a && s[|a + b| + |c|..] == d
  {
  }

  // ----- the loop on the buffer -----

  /** strstr(name2, "/../"); the result is n when nothing is found. */
  method FindDots(a: array<char>, n: nat) returns (p: nat)
    requires n <= a.Length
    ensures p <= n && forall q :: 0 <= q < p ==> !DotsAt(a[..n], q)
    ensures p < n ==> DotsAt(a[..n], p)
  {
    p := 0;
    while p < n
      invariant p <= n && forall q :: 0 <= q < p ==> !DotsAt(a[..n], q)
    {
      if p + 4 <= n && a[p] == '/' && a[p + 1] == '.' && a[p + 2] == '.' && a[p + 3] == '/' { return; }
      p := p + 1;
    }
  }

  /** strrchr(name2, '/') in the first n characters; the result is -1 when there is none. */
  method FindLastSlash(a: array<char>, n: nat) returns (r: int)
    requires n <= a.Length
    ensures -1 <= r < n && (r >= 0 ==> a[r] == '/') && forall q :: r < q < n ==> a[q] != '/'
  {
    r := n - 1;
    while r >= 0 && a[r] != '/'
      invariant -1 <= r < n && forall q :: r < q < n ==> a[q] != '/'
    {
      r := r - 1;
    }
  }

  /** strcpy of what starts at `from` down to `to`. */
  method MoveDown(a: array<char>, to: nat, from: nat, n: nat) returns (m: nat)
    requires to <= from <= n <= a.Length
    modifies a
    ensures m == n - (from - to) && a[..m] == old(a[..to] + a[from..n])
  {
    ghost var was := a[..];
    var i, j := to, from;
    while j < n
      invariant to <= i && from <= j <= n && i + from == j + to
      invariant forall q {:trigger a[q]} :: 0 <= q < to ==> a[q] == was[q]
      invariant forall q {:trigger a[q]} :: to <= q < i ==> a[q] == was[q + from - to]
      invariant forall q {:trigger a[q]} :: j <= q < n ==> a[q] == was[q]
    {
      a[i] := a[j];
      i, j := i + 1, j + 1;
    }
    m := i;
    Moved(a[..m], was, to, from, n);
  }

  lemma Moved(s: string, was: string, to: nat, from: nat, n: nat)
    requires to <= from <= n <= |was| && |s| == n - (from - to)
    requires forall q {:trigger s[q]} :: 0 <= q < |s| ==> s[q] == was[if q < to then q else q + from - to]
    ensures s == was[..to] + was[from..n]
  {
  }

  /** The loop of handle_include: it ends, and leaves what the stack machine leaves. When there is nothing left to take
      away the program follows a null pointer; here the result is false. */
  method Collapse(a: array<char>, n: nat, ghost cs: seq<string>) returns (m: nat, ok: bool)
    requires n <= a.Length && |cs| > 0 && AllComponents(cs) && a[..n] == Text(cs)
    modifies a
    ensures ok <==> Collapsed(cs).Some?
    ensures ok ==> m <= a.Length && a[..m] == Text(Collapsed(cs).value)
  {
    hide Fold, Text, Start, Collapsed, IsComponent;
    ghost var now := cs;
    m, ok := n, true;
    while true
      invariant m <= a.Length && |now| > 0 && AllComponents(now) && a[..m] == Text(now) && ok
      invariant Collapsed(now) == Collapsed(cs)
      decreases m
    {
      var p := FindDots(a, m);
      if p == m {
        assert forall q :: 0 <= q < |Text(now)| ==> !DotsAt(a[..m], q);
        NoDotsNoUp(now);
        NoRoundLeft(now);
        return;
      }
      ghost var k := FirstDots(now, p);
      RoundKeepsResult(now, k);
      var r := FindLastSlash(a, p);
      if r < 0 {
        if k > 0 { ghost var r' := SlashBefore(now, k); }
        return m, false;
      }
      LastSlash(now, k, a[..m], r);
      RoundOnText(now, k);
      m := MoveDown(a, r, p + 3, m);
      now := now[..k - 1] + now[k + 1..];
    }
  }

  lemma LastSlash(cs: seq<string>, k: nat, s: string, r: nat)
    requires AllComponents(cs) && k < |cs| && s == Text(cs) && r < Start(cs, k) <= |s|
    requires s[r] == '/' && forall q {:trigger s[q]} :: r < q < Start(cs, k) ==> s[q] != '/'
    ensures k > 0 && r == Start(cs, k - 1)
  {
    if k > 0 { var r' := SlashBefore(cs, k); }
  }

  // ----- every absolute path has components -----

  function Split(s: string): (cs: seq<string>)
    ensures AllComponents(cs)
  {
    if |s| == 0 then [""] else
    var later := Split(s[1..]);
    if s[0] == '/' then [""] + later else [[s[0]] + later[0]] + later[1..]
  }

  lemma {:induction false} EveryPathSplits(t: string)
    ensures Text(Split(t)) == "/" + t
    decreases |t|
  {
    hide AllComponents, IsComponent;
    if |t| == 0 {
      assert [""][1..] == [];
    } else {
      EveryPathSplits(t[1..]);
      var later := Split(t[1..]);
      assert t == [t[0]] + t[1..];
      assert later[0] + Text(later[1..]) == t[1..] by { TextHead(later); }
      if t[0] == '/' {
        assert ([""] + later)[1..] == later;
      } else {
        var c := [t[0]] + later[0];
        assert ([c] + later[1..])[1..] == later[1..];
        Assoc([t[0]], later[0], Text(later[1..]));
        Assoc("/", c, Text(later[1..]));
      }
    }
  }

  lemma TextHead(cs: seq<string>)
    requires |cs| > 0
    ensures Text(cs) == "/" + (cs[0] + Text(cs[1..])) && Text(cs)[1..] == cs[0] + Text(cs[1..])
  {
    Assoc("/", cs[0], Text(cs[1..]));
  }
}
