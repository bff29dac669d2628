/** The variable table of scripts/tkparse.c: every variable of a script is known by its index. */
module Symbols {
  datatype Variable = Variable(name: string, defined: bool, globalWritten: bool)

  const CHUNK := 1000

  // ----- interning as a function -----

  /** No name is recorded twice; slot 0 is never used. */
  predicate Interned(names: seq<string>) {
    |names| > 0 && forall i, j :: 1 <= i < j < |names| ==> names[i] != names[j]
  }

  /** The name is in the table. */
  predicate Known(names: seq<string>, name: string) {
    exists i :: 1 <= i < |names| && names[i] == name
  }

  ghost function Intern(names: seq<string>, name: string): (r: (seq<string>, nat))
    requires Interned(names)
    ensures Interned(r.0) && names <= r.0 && 1 <= r.1 < |r.0| && r.0[r.1] == name
  {
    if i :| 1 <= i < |names| && names[i] == name then (names, i) else (names + [name], |names|)
  }

  ghost function InternAll(names: seq<string>, calls: seq<string>): (r: (seq<string>, seq<nat>))
    requires Interned(names)
    ensures Interned(r.0) && names <= r.0 && |r.1| == |calls|
    decreases |calls|
  {
    if calls == [] then (names, []) else
    var (now, index) := Intern(names, calls[0]);
    var (later, indices) := InternAll(now, calls[1..]);
    (later, [index] + indices)
  }

  lemma {:induction false} IndicesNameCalls(names: seq<string>, calls: seq<string>)
    requires Interned(names)
    ensures var (later, indices) := InternAll(names, calls);
            forall k :: 0 <= k < |calls| ==> 1 <= indices[k] < |later| && later[indices[k]] == calls[k]
    decreases |calls|
  {
    if calls != [] {
      var (now, index) := Intern(names, calls[0]);
      IndicesNameCalls(now, calls[1..]);
      var (later, indices) := InternAll(names, calls);
      forall k | 0 <= k < |calls| ensures 1 <= indices[k] < |later| && later[indices[k]] == calls[k] {
        if k > 0 {
          assert calls[k] == calls[1..][k - 1];
        } else {
          assert later[index] == now[index];
        }
      }
    }
  }

  /** Interning is a stable bijection: over any sequence of calls, two calls return the same index exactly when the
      names are equal, every index is in range and stands for its name, and the names known before keep theirs. */
  lemma InterningIsStableBijection(names: seq<string>, calls: seq<string>)
    requires Interned(names)
    ensures var (later, indices) := InternAll(names, calls);
            && names <= later
            && (forall k :: 0 <= k < |calls| ==> 1 <= indices[k] < |later| && later[indices[k]] == calls[k])
            && (forall j, k :: 0 <= j < |calls| && 0 <= k < |calls| ==>
                  (indices[j] == indices[k] <==> calls[j] == calls[k]))
  {
    IndicesNameCalls(names, calls);
  }

  // ----- the table -----

  class VariableTable {
    var table: array<Variable>
    var maxVarnum: nat

    ghost predicate Valid()
      reads this, table
    {
      (if table.Length == 0 then maxVarnum == 0 else maxVarnum < table.Length) && Interned(Names())
    }

    /** The names by index, with a placeholder for the unused slot 0. */
    function Names(): seq<string>
      reads this, table
    {
      [""] + seq(maxVarnum, i requires 0 <= i reads this, table =>
        if i + 1 < table.Length then table[i + 1].name else "")
    }

    function DefinedSet(): set<int>
      reads this, table
    {
      set i | 1 <= i <= maxVarnum && i < table.Length && table[i].defined
    }

    function GlobalSet(): set<int>
      reads this, table
    {
      set i | 1 <= i <= maxVarnum && i < table.Length && table[i].globalWritten
    }

    constructor ()
      ensures Valid() && maxVarnum == 0 && fresh(table)
    {
      table := new Variable[0];
      maxVarnum := 0;
    }

    /** The table in a larger block; what it holds stays. */
    method Grow()
      requires Valid()
      modifies this`table
      ensures Valid() && fresh(table) && table.Length == old(table.Length) + CHUNK
      ensures Names() == old(Names()) && DefinedSet() == old(DefinedSet())
    {
      var old_table := table;
      var larger := new Variable[table.Length + CHUNK](_ => Variable("", false, false));
      forall i | 0 <= i < old_table.Length {
        larger[i] := old_table[i];
      }
      table := larger;
      assert Names() == old(Names());
    }

    method SetDefined(i: nat, flag: bool)
      requires Valid() && 1 <= i <= maxVarnum
      modifies table
      ensures Valid() && Names() == old(Names())
      ensures DefinedSet() == if flag then old(DefinedSet()) + {i} else old(DefinedSet()) - {i}
    {
      table[i] := table[i].(defined := flag);
      assert Names() == old(Names());
    }

    method SetGlobal(i: nat)
      requires Valid() && 1 <= i <= maxVarnum
      modifies table
      ensures Valid() && Names() == old(Names()) && DefinedSet() == old(DefinedSet())
      ensures GlobalSet() == old(GlobalSet()) + {i}
    {
      table[i] := table[i].(globalWritten := true);
      assert Names() == old(Names());
    }

    /** clear_globalflags */
    method ClearGlobals()
      requires Valid()
      modifies table
      ensures Valid() && Names() == old(Names()) && DefinedSet() == old(DefinedSet()) && GlobalSet() == {}
    {
      var i := 1;
      while i <= maxVarnum
        invariant 1 <= i <= maxVarnum + 1 && Valid() && Names() == old(Names()) && DefinedSet() == old(DefinedSet())
        invariant forall k {:trigger table[k]} :: 1 <= k < i ==> !table[k].globalWritten
      {
        table[i] := table[i].(globalWritten := false);
        assert Names() == old(Names());
        i := i + 1;
      }
    }

    /** One more name, in a free slot. */
    method Append(name: string)
      requires Valid() && maxVarnum + 1 < table.Length && name !in Names()[1..]
      modifies this`maxVarnum, table
      ensures Valid() && Names() == old(Names()) + [name] && maxVarnum == old(maxVarnum) + 1
    {
      ghost var names := Names();
      maxVarnum := maxVarnum + 1;
      table[maxVarnum] := Variable(name, false, false);
      assert Names() == names + [name];
    }

    method GetVarnum(name: string) returns (index: nat)
      requires Valid()
      modifies this, table
      ensures Valid() && (table == old(table) || fresh(table))
      ensures (Names(), index) == Intern(old(Names()), name)
      ensures Names() == old(Names()) ==> unchanged(this) && unchanged(table)
    {
      var i := 1;
      while i <= maxVarnum
        invariant 1 <= i <= maxVarnum + 1
        invariant forall k :: 1 <= k < i ==> Names()[k] != name
      {
        assert Names()[i] == table[i].name;
        if table[i].name == name {
          return i;
        }
        i := i + 1;
      }
      while maxVarnum + 1 >= table.Length
        invariant Valid() && Names() == old(Names()) && maxVarnum == old(maxVarnum)
        invariant table == old(table) || fresh(table)
        decreases maxVarnum + 2 - table.Length
      {
        Grow();
      }
      Append(name);
      return maxVarnum;
    }
  }
}
