/** What flattening means to the program that is generated from the flat list. The shell that runs the nested script and
    the generated program do not read every variable alike: the letters y, m and n of dependencies are variables to the
    one and constants to the other, and the architecture is known to the shell alone. */
module Meaning {
  import opened Conditions
  import opened CondPasses
  import opened Flattening
  import opened Sequences
  import opened Statements

  /** The shell's comparisons, with the letters in dependencies taken for what they stand for. */
  function Literally(eq: Equality, w: World): Equality {
    (a: Operand, b: Operand) => eq(w.Literal(a), w.Literal(b))
  }

  // ----- two readings of the same tokens -----

  /** A comparison stands at i. */
  predicate ComparesAt(ts: seq<Token>, i: int) {
    0 <= i && i + 2 < |ts| && IsOperand(ts[i]) && IsCompare(ts[i + 1]) && IsOperand(ts[i + 2])
  }

  /** Both readings give every comparison in these tokens the same value. */
  ghost predicate SameOn(ts: seq<Token>, e: Equality, f: Equality) {
    forall i :: ComparesAt(ts, i) ==>
      e(OperandOf(ts[i]), OperandOf(ts[i + 2])) == f(OperandOf(ts[i]), OperandOf(ts[i + 2]))
  }

  lemma SameOnPart(ts: seq<Token>, e: Equality, f: Equality, from: nat, to: nat)
    requires from <= to <= |ts| && SameOn(ts, e, f)
    ensures SameOn(ts[from..to], e, f)
  {
    forall i | ComparesAt(ts[from..to], i)
      ensures e(OperandOf(ts[from..to][i]), OperandOf(ts[from..to][i + 2]))
           == f(OperandOf(ts[from..to][i]), OperandOf(ts[from..to][i + 2]))
    {
      assert ComparesAt(ts, from + i);
    }
  }

  lemma {:induction false} ChainReadsSame(ts: seq<Token>, e: Equality, f: Equality, acc: bool)
    requires Chain(ts) && SameOn(ts, e, f)
    ensures TestValue(ts, e, acc) == TestValue(ts, f, acc)
    decreases |ts|
  {
    var k := if ts[0].op.Bang? then 1 else 0;
    var us := Unbanged(ts);
    assert us == ts[k..] && us[0] == ts[k] && us[1] == ts[k + 1] && us[2] == ts[k + 2];
    assert ComparesAt(ts, k);
    assert CompareValue(us, e) == CompareValue(us, f);
    if |us| > 3 {
      ChainTail(ts);
      assert us[4..] == ts[k + 4..|ts|];
      SameOnPart(ts, e, f, k + 4, |ts|);
      var v := acc && CompareValue(us, e) != ts[0].op.Bang?;
      ChainReadsSame(us[4..], e, f, if us[3].op.Or? then true else v);
    }
  }

  lemma SameOnMiddle(a: seq<Token>, b: seq<Token>, c: seq<Token>, e: Equality, f: Equality)
    requires SameOn(a + b + c, e, f)
    ensures SameOn(b, e, f)
  {
    assert (a + b + c)[|a|..|a| + |b|] == b;
    SameOnPart(a + b + c, e, f, |a|, |a| + |b|);
  }

  lemma GlueParts(cs: seq<seq<Token>>, e: Equality, f: Equality)
    requires |cs| > 0 && SameOn(Glue(cs), e, f)
    ensures SameOn(cs[0], e, f) && SameOn(Glue(cs[1..]), e, f)
  {
    hide SameOn;
    var c, rest := cs[0], Glue(cs[1..]);
    if |cs| == 1 {
      SameOnMiddle([LEFT], c, [RIGHT], e, f);
      NothingCompared(e, f);
    } else {
      Assoc([LEFT] + c, [RIGHT], [GLUE]);
      Assoc([LEFT] + c, [RIGHT] + [GLUE], rest);
      SameOnMiddle([LEFT], c, [RIGHT] + [GLUE] + rest, e, f);
      assert Group(c) + [GLUE] + rest + [] == Group(c) + [GLUE] + rest;
      SameOnMiddle(Group(c) + [GLUE], rest, [], e, f);
    }
  }

  lemma NothingCompared(e: Equality, f: Equality)
    ensures SameOn([], e, f)
  {
  }

  lemma {:induction false} GlueReadsSame(cs: seq<seq<Token>>, e: Equality, f: Equality)
    requires AllPlain(cs) && SameOn(Glue(cs), e, f)
    ensures AllHold(cs, e) == AllHold(cs, f)
    decreases |cs|
  {
    hide TestValue, SameOn, Glue, Chain;
    if |cs| > 0 {
      var c, rest := cs[0], cs[1..];
      GlueParts(cs, e, f);
      ChainReadsSame(c, e, f, true);
      GlueReadsSame(rest, e, f);
      assert cs == [c] + rest;
      AllHoldAppend([c], rest, e);
      AllHoldAppend([c], rest, f);
    }
  }

  lemma DependencyReadsSame(cond: seq<Token>, e: Equality, f: Equality)
    requires IsDependency(cond) && SameOn(cond, e, f)
    ensures GuardValue(cond, e) == GuardValue(cond, f)
  {
    if cond != [] {
      var cs :| |cs| > 0 && AllPlain(cs) && cond == Glue(cs);
      VisibleGlue(cs);
      TclReadsGlue(cs, e, true);
      TclReadsGlue(cs, f, true);
      GlueReadsSame(cs, e, f);
    }
  }

  // ----- the shell and the generated program -----

  /** The generated program gives every comparison that survives in a condition the shell's value, and every comparison
      in a dependency the shell's value with the letters taken for what they stand for. */
  ghost predicate Alike(b: Block, w: World, shell: Equality, tcl: Equality) {
    match b
    case End => true
    case Do(s, rest) => SameOn(s.cond, tcl, Literally(shell, w)) && Alike(rest, w, shell, tcl)
    case Branch(cond, thn, alt, rest) =>
      && Tokenized(cond) && SameOn(Eliminate(cond, w), tcl, shell)
      && Alike(thn, w, shell, tcl) && Alike(rest, w, shell, tcl)
      && (alt.ElseBlock? ==> Alike(alt.body, w, shell, tcl))
  }

  lemma ConditionAgrees(cond: seq<Token>, w: World, shell: Equality, tcl: Equality)
    requires Tokenized(cond) && !DropsDisjunct(cond, w) && Fits(shell, w) && SameOn(Eliminate(cond, w), tcl, shell)
    ensures AgreedOn(cond, w, shell, tcl)
  {
    EliminateShape(cond, w);
    EliminateKeepsValue(cond, w, shell);
    var e := Eliminate(cond, w);
    hide Eliminate, TestValue, Chain, DropsDisjunct;
    if !IsConst(e) { ChainReadsSame(e, tcl, shell, true); }
  }

  lemma {:induction false} AlikeAgrees(b: Block, w: World, shell: Equality, tcl: Equality)
    requires Flattenable(b, w) && Alike(b, w, shell, tcl) && Fits(shell, w)
    ensures Agreed(b, w, Readings(shell, Literally(shell, w), tcl))
    decreases b
  {
    hide Fits, SameOn, Eliminate, Literally, AgreedOn, GuardValue, DropsDisjunct;
    match b
    case End =>
    case Do(s, rest) =>
      AlikeAgrees(rest, w, shell, tcl);
      DependencyReadsSame(s.cond, tcl, Literally(shell, w));
    case Branch(cond, thn, alt, rest) =>
      ConditionAgrees(cond, w, shell, tcl);
      AlikeAgrees(thn, w, shell, tcl);
      AlikeAgrees(rest, w, shell, tcl);
      if alt.ElseBlock? { AlikeAgrees(alt.body, w, shell, tcl); }
  }

  /** Flattening preserves meaning: whatever the shell's valuation, as long as the generated program reads the surviving
      comparisons as the shell does, every guard is readable to that program, and the statements in effect are those
      that the structured interpreter reaches under the shell's valuation, in its order. */
  lemma FlatteningPreservesMeaning(b: Block, arch: string, names: seq<string>, shell: Equality, tcl: Equality)
    requires var w := World(arch, names, Defined(Linearize(b)));
             && Flattenable(b, w) && Alike(b, w, shell, tcl) && Height(b) <= 32 && Fits(shell, w)
    ensures Nested(Linearize(b), 0)
    ensures var flat := FixConditionals(Linearize(b), arch, names);
            var w := World(arch, names, Defined(Linearize(b)));
            Readable(flat, tcl) && InEffect(flat, tcl) == Reached(b, w, shell, Literally(shell, w))
  {
    var w := World(arch, names, Defined(Linearize(b)));
    AlikeAgrees(b, w, shell, tcl);
    FlatteningKeepsReadings(b, arch, names, Readings(shell, Literally(shell, w), tcl));
  }
}
