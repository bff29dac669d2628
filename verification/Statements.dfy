/** Statements of a configuration script (scripts/tkparse.h) as values. */
module Statements {
  import opened Conditions

  datatype Kind =
    | Unknown | Bool | ChoiceHeader | ChoiceItem | Comment
    | DefineBool | DefineHex | DefineInt | DefineString | DefineTristate
    | DepBool | DepMbool | DepTristate
    | Else | Endmenu | Fi | Hex | If | Int | MainmenuName | MainmenuOption
    | Source | String | Then | Tristate | Unset

  /** A `struct kconfig` without its links. The empty sequence is the NULL condition. */
  datatype Stmt = Stmt(kind: Kind, nameindex: int, prompt: string, value: string, cond: seq<Token>)

  predicate IsDep(k: Kind) {
    k.DepBool? || k.DepMbool? || k.DepTristate?
  }

  /** The statements that receive the aggregate condition, dependent ones apart. */
  predicate IsSimple(k: Kind) {
    k in {Bool, ChoiceItem, ChoiceHeader, Comment, DefineBool, DefineHex, DefineInt, DefineString, DefineTristate,
          Endmenu, Hex, Int, MainmenuOption, String, Tristate, Unset}
  }

  predicate IsGuarded(k: Kind) {
    IsSimple(k) || IsDep(k)
  }

  /** The statements that give their variable a value. */
  predicate Defines(k: Kind) {
    || IsDep(k)
    || k in {Bool, ChoiceItem, DefineBool, DefineHex, DefineInt, DefineString, DefineTristate,
             Hex, Int, String, Tristate, Unset}
  }

  /** The variables that some statement of the script defines. */
  function Defined(stmts: seq<Stmt>): set<int> {
    set i | 0 <= i < |stmts| && Defines(stmts[i].kind) && stmts[i].nameindex > 0 :: stmts[i].nameindex
  }
}
