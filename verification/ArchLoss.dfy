/** When it matters that the generated program does not know the architecture. */
module ArchLoss {
  import opened Conditions
  import opened Inversion

  /** The valuation with another value for one variable. */
  function With(env: int -> string, a: int, value: string): int -> string {
    (v: int) => if v == a then value else env(v)
  }

  /** The condition holds in a shell with these values. */
  ghost predicate HoldsIn(ts: seq<Token>, env: int -> string)
    requires Chain(ts)
  {
    TestValue(ts, ShellEquality(env), true)
  }

  /** No `-o` stands between the two comparisons. */
  ghost predicate SameGroup(ts: seq<Token>, j: nat, k: nat) {
    forall m: nat :: (j <= m < k || k <= m < j) && 4 * m + 3 < |ts| ==> !ts[4 * m + 3].op.Or?
  }

  lemma SameGroupTail(ts: seq<Token>, j: nat, k: nat)
    requires |ts| > 3
    ensures SameGroup(ts[4..], j, k) <==> SameGroup(ts, j + 1, k + 1)
  {
    var us := ts[4..];
    if SameGroup(us, j, k) {
      forall m: nat | (j + 1 <= m < k + 1 || k + 1 <= m < j + 1) && 4 * m + 3 < |ts| ensures !ts[4 * m + 3].op.Or? {
        assert us[4 * (m - 1) + 3] == ts[4 * m + 3];
      }
    }
    if SameGroup(ts, j + 1, k + 1) {
      forall m: nat | (j <= m < k || k <= m < j) && 4 * m + 3 < |us| ensures !us[4 * m + 3].op.Or? {
        assert ts[4 * (m + 1) + 3] == us[4 * m + 3];
      }
    }
  }

  /** The head of a chain, and the rest. */
  lemma ValueOfHead(ts: seq<Token>, eq: Equality, acc: bool)
    requires Plain(ts)
    ensures Count(ts) > 0
    ensures |ts| == 3 ==> Count(ts) == 1 && TestValue(ts, eq, acc) == (acc && Holds(ts, 0, eq))
    ensures |ts| != 3 ==> |ts| > 3 && Plain(ts[4..]) && Count(ts) == Count(ts[4..]) + 1
    ensures |ts| > 3 ==>
              var v := acc && Holds(ts, 0, eq);
              TestValue(ts, eq, acc) == if ts[3].op.Or? then v || TestValue(ts[4..], eq, true)
                                        else TestValue(ts[4..], eq, v)
    ensures |ts| > 3 ==> forall j: nat :: Holds(ts[4..], j, eq) <==> Holds(ts, j + 1, eq)
  {
    assert Unbanged(ts) == ts && ts[0..] == ts;
    if |ts| > 3 { HoldsTail(ts, eq); }
  }

  lemma {:induction false} NoneHolds(ts: seq<Token>, eq: Equality, acc: bool)
    requires Plain(ts) && forall j: nat :: j < Count(ts) ==> !Holds(ts, j, eq)
    ensures !TestValue(ts, eq, acc)
    decreases |ts|
  {
    hide TestValue, Plain, Holds, Count;
    ValueOfHead(ts, eq, acc);
    if |ts| > 3 { NoneHolds(ts[4..], eq, ts[3].op.Or?); }
  }

  lemma {:induction false} SameHoldsSameValue(ts: seq<Token>, e: Equality, f: Equality, acc: bool)
    requires Plain(ts) && forall j: nat :: j < Count(ts) ==> Holds(ts, j, e) == Holds(ts, j, f)
    ensures TestValue(ts, e, acc) == TestValue(ts, f, acc)
    decreases |ts|
  {
    hide TestValue, Plain, Holds, Count;
    ValueOfHead(ts, e, acc);
    ValueOfHead(ts, f, acc);
    if |ts| > 3 { SameHoldsSameValue(ts[4..], e, f, ts[3].op.Or? || (acc && Holds(ts, 0, e))); }
  }

  /** A first group that holds, and nothing else. */
  lemma {:induction false} FirstGroupCarries(ts: seq<Token>, eq: Equality, acc: bool)
    requires Plain(ts)
    requires forall j: nat :: j < Count(ts) ==> Holds(ts, j, eq) == SameGroup(ts, 0, j)
    ensures TestValue(ts, eq, acc) == acc
    decreases |ts|
  {
    hide TestValue, Plain, Holds, Count;
    ValueOfHead(ts, eq, acc);
    assert Holds(ts, 0, eq);
    if |ts| > 3 {
      var us := ts[4..];
      forall j: nat ensures SameGroup(ts, 0, j + 1) == (!ts[3].op.Or? && SameGroup(us, 0, j)) {
        FirstConnective(ts, j);
      }
      if ts[3].op.Or? {
        forall j: nat | j < Count(us) ensures !Holds(us, j, eq) {
          FirstConnective(ts, j);
          assert Holds(us, j, eq) <==> Holds(ts, j + 1, eq);
        }
        NoneHolds(us, eq, true);
      } else {
        FirstGroupCarries(us, eq, acc);
      }
    }
  }

  lemma FirstConnective(ts: seq<Token>, j: nat)
    requires |ts| > 3
    ensures SameGroup(ts, 0, j + 1) == (!ts[3].op.Or? && SameGroup(ts[4..], 0, j))
    ensures SameGroup(ts, j + 1, 0) == SameGroup(ts, 0, j + 1)
  {
    SameGroupTail(ts, 0, j);
    assert 4 * 0 + 3 == 3 && ts[4 * 0 + 3] == ts[3];
  }

  /** When the other comparisons hold exactly in its group, comparison k decides. */
  lemma {:induction false} Decides(ts: seq<Token>, k: nat, eq: Equality, acc: bool)
    requires Plain(ts) && k < Count(ts) && (SameGroup(ts, 0, k) ==> acc)
    requires forall j: nat :: j < Count(ts) && j != k ==> Holds(ts, j, eq) == SameGroup(ts, j, k)
    ensures TestValue(ts, eq, acc) == Holds(ts, k, eq)
    decreases |ts|
  {
    hide TestValue, Plain, Holds, Count;
    ValueOfHead(ts, eq, acc);
    if |ts| > 3 {
      var us := ts[4..];
      if k == 0 {
        forall j: nat ensures SameGroup(ts, j + 1, 0) == (!ts[3].op.Or? && SameGroup(us, 0, j)) {
          FirstConnective(ts, j);
        }
        if ts[3].op.Or? {
          forall j: nat | j < Count(us) ensures !Holds(us, j, eq) {
            FirstConnective(ts, j);
            assert Holds(us, j, eq) <==> Holds(ts, j + 1, eq);
          }
          NoneHolds(us, eq, true);
        } else {
          FirstGroupCarries(us, eq, acc && Holds(ts, 0, eq));
        }
      } else {
        FirstConnective(ts, k - 1);
        forall j: nat | j < Count(us) && j != k - 1 ensures Holds(us, j, eq) == SameGroup(us, j, k - 1) {
          SameGroupTail(ts, j, k - 1);
          assert Holds(us, j, eq) <==> Holds(ts, j + 1, eq);
        }
        Decides(us, k - 1, eq, ts[3].op.Or? || (acc && Holds(ts, 0, eq)));
      }
    }
  }

  // ----- the architecture -----

  /** The chain compares the variable with a text on which the two values differ. */
  ghost predicate Tells(ts: seq<Token>, a: int, arch: string) {
    exists k: nat :: 4 * k + 2 < |ts| && ts[4 * k].nameindex == a && ts[4 * k + 2].str in {arch, ""}
  }

  /** For independent comparisons of variables that may have any value: it makes no difference whether the architecture
      is known or empty if and only if it is empty, or no comparison is with its name or with the empty text. */
  lemma ArchIsIrrelevantIff(ts: seq<Token>, a: int, arch: string)
    requires Plain(ts) && Independent(ts)
    ensures (forall env: int -> string ::
               HoldsIn(ts, With(env, a, arch)) == HoldsIn(ts, With(env, a, "")))
            <==> (arch == "" || !Tells(ts, a, arch))
  {
    if arch != "" && Tells(ts, a, arch) {
      var k: nat :| 4 * k + 2 < |ts| && ts[4 * k].nameindex == a && ts[4 * k + 2].str in {arch, ""};
      ArchDecides(ts, a, arch, k);
    } else {
      forall env: int -> string
        ensures HoldsIn(ts, With(env, a, arch)) == HoldsIn(ts, With(env, a, ""))
      {
        NothingTells(ts, a, arch, env);
      }
    }
  }

  lemma NothingTells(ts: seq<Token>, a: int, arch: string, env: int -> string)
    requires Plain(ts) && Independent(ts) && (arch == "" || !Tells(ts, a, arch))
    ensures HoldsIn(ts, With(env, a, arch)) == HoldsIn(ts, With(env, a, ""))
  {
    hide TestValue, Chain, Holds;
    var e, f := ShellEquality(With(env, a, arch)), ShellEquality(With(env, a, ""));
    forall j: nat | j < Count(ts) ensures Holds(ts, j, e) == Holds(ts, j, f) {
      HoldsAt(ts, j, With(env, a, arch));
      HoldsAt(ts, j, With(env, a, ""));
    }
    SameHoldsSameValue(ts, e, f, true);
  }

  ghost function Group(ts: seq<Token>, k: nat): nat -> bool {
    (j: nat) => SameGroup(ts, j, k)
  }

  lemma ArchDecides(ts: seq<Token>, a: int, arch: string, k: nat)
    requires Plain(ts) && Independent(ts) && arch != ""
    requires 4 * k + 2 < |ts| && ts[4 * k].nameindex == a && ts[4 * k + 2].str in {arch, ""}
    ensures var env := Valuation(ts, Group(ts, k));
            HoldsIn(ts, With(env, a, arch)) != HoldsIn(ts, With(env, a, ""))
  {
    hide TestValue, Chain, Holds, Valuation, SameGroup;
    PlainShape(ts);
    var env := Valuation(ts, Group(ts, k));
    var e, f := With(env, a, arch), With(env, a, "");
    forall j: nat | j < Count(ts) && j != k
      ensures Holds(ts, j, ShellEquality(e)) == Holds(ts, j, ShellEquality(f)) == SameGroup(ts, j, k)
    {
      HoldsAt(ts, j, e);
      HoldsAt(ts, j, f);
      HoldsAt(ts, j, env);
      WantedHolds(ts, Group(ts, k), j);
    }
    HoldsAt(ts, k, e);
    HoldsAt(ts, k, f);
    Decides(ts, k, ShellEquality(e), true);
    Decides(ts, k, ShellEquality(f), true);
  }
}
