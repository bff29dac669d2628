/** The statement list of a script on the heap: `struct kconfig` of scripts/tkparse.h. */
module Scripts {
  import opened Statements
  import opened CondLists

  class Kconfig {
    var next: Kconfig?
    var kind: Kind
    var nameindex: int
    var prompt: string
    var value: string
    var cond: Condition?
    // used only by the generator
    var menuNumber: nat
    var menuLine: int

    constructor (kind: Kind, nameindex: int, prompt: string, value: string, cond: Condition?)
      ensures next == null && menuNumber == 0 && menuLine == 0
      ensures this.kind == kind && this.nameindex == nameindex && this.prompt == prompt
      ensures this.value == value && this.cond == cond
    {
      next := null;
      this.kind, this.nameindex, this.prompt, this.value, this.cond := kind, nameindex, prompt, value, cond;
      menuNumber, menuLine := 0, 0;
    }
  }

  ghost function Lines(all: seq<Kconfig>): set<Kconfig> {
    set k | k in all
  }

  ghost function Following(all: seq<Kconfig>, i: nat): Kconfig? {
    if i + 1 < |all| then all[i + 1] else null
  }

  ghost predicate Different(all: seq<Kconfig>) {
    forall i, j :: 0 <= i < j < |all| ==> all[i] != all[j]
  }

  /** `head` is the list of exactly these statements. */
  ghost predicate IsScript(head: Kconfig?, all: seq<Kconfig>)
    reads Lines(all)
  {
    && head == (if |all| == 0 then null else all[0])
    && (forall i {:trigger all[i].next} :: 0 <= i < |all| ==> all[i].next == Following(all, i))
    && Different(all)
  }

  /** The statement, read together with the nodes of its condition. */
  ghost function ReadStmt(k: Kconfig, chain: seq<Condition>): Stmt
    reads k, Nodes(chain)
  {
    Stmt(k.kind, k.nameindex, k.prompt, k.value, TokensOf(chain))
  }
}
