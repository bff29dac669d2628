/** Which variables a text reads when Tcl substitutes in it: texts of a script are printed into the generated program as
    they are. */
module TclText {
  import Texts

  predicate IsNameChar(c: char) {
    'a' <= c <= 'z' || 'A' <= c <= 'Z' || '0' <= c <= '9' || c == '_'
  }

  predicate IsWord(s: string) {
    s != "" && forall i :: 0 <= i < |s| ==> IsNameChar(s[i])
  }

  /** How many name characters the text begins with. */
  function NameLength(s: string): (n: nat)
    ensures n <= |s| && (n < |s| ==> !IsNameChar(s[n])) && forall i :: 0 <= i < n ==> IsNameChar(s[i])
  {
    if s == "" || !IsNameChar(s[0]) then 0 else 1 + NameLength(s[1..])
  }

  /** Where the first closing brace stands; the length of the text if there is none. */
  function BraceAt(s: string): (n: nat)
    ensures n <= |s| && (n < |s| ==> s[n] == '}') && forall i :: 0 <= i < n ==> s[i] != '}'
  {
    if s == "" || s[0] == '}' then 0 else 1 + BraceAt(s[1..])
  }

  /** The names read from a text in double quotes, in order: `$name` and `${name}`; a backslash protects the character
      behind it, and any other dollar stands for itself. */
  function Reads(s: string): seq<string>
    decreases |s|
  {
    if s == "" then []
    else if s[0] == '\\' then if |s| == 1 then [] else Reads(s[2..])
    else if s[0] != '$' then Reads(s[1..])
    else if |s| > 1 && s[1] == '{' then
      var n := BraceAt(s[2..]);
      if n == |s[2..]| then [] else [s[2..][..n]] + Reads(s[2..][n + 1..])
    else
      var n := NameLength(s[1..]);
      if n == 0 then Reads(s[1..]) else [s[1..][..n]] + Reads(s[1..][n..])
  }

  /** The names read from a text without quotes around it: braces of its own keep Tcl from substituting. */
  function BareReads(s: string): seq<string> {
    if s != "" && s[0] == '{' then [] else Reads(s)
  }

  // ----- a text, piece by piece -----

  datatype Piece = Plain(c: char) | Escaped(c: char) | Named(name: string) | Braced(name: string)

  function Shown(p: Piece): (s: string)
    ensures s != ""
  {
    match p
    case Plain(c) => [c]
    case Escaped(c) => ['\\', c]
    case Named(name) => "$" + name
    case Braced(name) => "${" + name + "}"
  }

  function Written(ps: seq<Piece>): string {
    if |ps| == 0 then "" else Shown(ps[0]) + Written(ps[1..])
  }

  /** The piece ends where the rest begins: a plain character begins nothing else, and a name does not run on. */
  predicate EndsAt(p: Piece, rest: string) {
    match p
    case Plain(c) => c != '\\' && c != '$'
    case Escaped(_) => true
    case Named(name) =>
      && name != "" && (forall c :: c in name ==> c in Texts.NAME_CHARS)
      && (rest != "" ==> rest[0] !in Texts.NAME_CHARS)
    case Braced(name) => '}' !in name
  }

  /** The pieces can be told apart in the text. */
  predicate Distinct(ps: seq<Piece>) {
    |ps| > 0 ==> EndsAt(ps[0], Written(ps[1..])) && Distinct(ps[1..])
  }

  function Names(ps: seq<Piece>): seq<string> {
    if |ps| == 0 then []
    else (if ps[0].Named? || ps[0].Braced? then [ps[0].name] else []) + Names(ps[1..])
  }

  lemma {:induction false} NameLengthIs(name: string, rest: string)
    requires (forall i :: 0 <= i < |name| ==> IsNameChar(name[i])) && (rest != "" ==> !IsNameChar(rest[0]))
    ensures NameLength(name + rest) == |name|
  {
    var s := name + rest;
    assert (forall i :: 0 <= i < |name| ==> s[i] == name[i]) && (rest != "" ==> s[|name|] == rest[0]);
  }

  lemma BraceAtIs(name: string, rest: string)
    requires '}' !in name
    ensures BraceAt(name + ("}" + rest)) == |name|
  {
    var s := name + ("}" + rest);
    assert s[|name|] == '}' && forall i :: 0 <= i < |name| ==> s[i] == name[i];
  }

  lemma NamedIsRead(name: string, rest: string)
    requires IsWord(name) && (rest != "" ==> !IsNameChar(rest[0]))
    ensures Reads("$" + name + rest) == [name] + Reads(rest)
  {
    var s, t := "$" + name + rest, name + rest;
    NameLengthIs(name, rest);
    assert s[0] == '$' && s[1..] == t && s[1] == name[0] && s[1] != '{';
    assert t[..|name|] == name && t[|name|..] == rest;
    hide IsWord, IsNameChar, BraceAt;
    assert Reads(s) == [t[..|name|]] + Reads(t[|name|..]);
  }

  lemma BracedIsRead(name: string, rest: string)
    requires '}' !in name
    ensures Reads("${" + name + "}" + rest) == [name] + Reads(rest)
  {
    var s, t := "${" + name + "}" + rest, name + ("}" + rest);
    BraceAtIs(name, rest);
    assert s[0] == '$' && s[1] == '{' && s[2..] == t;
    assert t[..|name|] == name && t[|name| + 1..] == rest;
    assert Reads(s) == [t[..|name|]] + Reads(t[|name| + 1..]);
  }

  lemma NameCharIff(c: char)
    ensures IsNameChar(c) <==> c in Texts.NAME_CHARS
  {
    Texts.NameCharsAre();
    var b := c as int;
    var i := if b < 58 then b - 48 else if b < 91 then b - 55 else if b < 96 then 62 else b - 61;
    if IsNameChar(c) {
      assert Texts.NAME_CHARS[i] as int == b;
    }
  }

  lemma NamedEnds(name: string, rest: string)
    requires EndsAt(Named(name), rest)
    ensures IsWord(name) && (rest != "" ==> !IsNameChar(rest[0]))
  {
    hide IsNameChar;
    forall i | 0 <= i < |name| ensures IsNameChar(name[i]) { NameCharIff(name[i]); }
    if rest != "" { NameCharIff(rest[0]); }
  }

  lemma PieceIsRead(p: Piece, rest: string)
    requires EndsAt(p, rest)
    ensures Reads(Shown(p) + rest) == (if p.Named? || p.Braced? then [p.name] else []) + Reads(rest)
  {
    var s := Shown(p) + rest;
    match p
    case Plain(c) =>
      assert s[1..] == rest;
    case Escaped(c) =>
      assert s[2..] == rest;
    case Named(name) =>
      hide Reads;
      NamedEnds(name, rest);
      NamedIsRead(name, rest);
    case Braced(name) =>
      hide Reads;
      BracedIsRead(name, rest);
  }

  /** Round trip: from a text written piece by piece, exactly the names in it are read, in order. */
  lemma {:induction false} WrittenNamesAreRead(ps: seq<Piece>)
    requires Distinct(ps)
    ensures Reads(Written(ps)) == Names(ps)
    decreases |ps|
  {
    hide Reads;
    if |ps| > 0 {
      WrittenNamesAreRead(ps[1..]);
      PieceIsRead(ps[0], Written(ps[1..]));
    } else {
      NothingIsRead();
    }
  }

  lemma NothingIsRead()
    ensures Reads("") == []
  {
  }

  // ----- numbers in names -----

  function Digit(n: nat): char
    requires n < 10
  {
    "0123456789"[n]
  }

  function Digits(n: nat): (s: string)
    ensures s != "" && (n > 0 ==> s[0] != '0')
  {
    if n < 10 then [Digit(n)] else Digits(n / 10) + [Digit(n % 10)]
  }

  predicate IsDigit(c: char) {
    '0' <= c <= '9'
  }

  function Value(c: char): nat
    requires IsDigit(c)
  {
    c as int - '0' as int
  }

  /** The text is a number as it is printed. */
  predicate IsNumber(s: string) {
    s != "" && (|s| > 1 ==> s[0] != '0') && forall i :: 0 <= i < |s| ==> IsDigit(s[i])
  }

  function Number(s: string): nat
    requires forall i :: 0 <= i < |s| ==> IsDigit(s[i])
  {
    if s == "" then 0 else 10 * Number(s[..|s| - 1]) + Value(s[|s| - 1])
  }

  lemma {:induction false} DigitsIsNumber(n: nat)
    ensures IsNumber(Digits(n)) && Number(Digits(n)) == n
  {
    var s := Digits(n);
    if n >= 10 {
      DigitsIsNumber(n / 10);
      assert s[..|s| - 1] == Digits(n / 10);
    } else {
      assert s[..0] == "";
    }
  }

  lemma DigitsStep(m: nat, d: nat)
    requires m > 0 && d < 10
    ensures Digits(10 * m + d) == Digits(m) + [Digit(d)]
  {
    assert (10 * m + d) / 10 == m && (10 * m + d) % 10 == d;
  }

  lemma {:induction false} NumberIsPositive(s: string)
    requires IsNumber(s) && s[0] != '0'
    ensures Number(s) > 0
    decreases |s|
  {
    if |s| > 1 { NumberIsPositive(s[..|s| - 1]); }
  }

  lemma ValueIsDigit(c: char)
    requires IsDigit(c)
    ensures Value(c) < 10 && Digit(Value(c)) == c
  {
  }

  lemma {:induction false} NumberIsDigits(s: string)
    requires IsNumber(s)
    ensures Digits(Number(s)) == s
    decreases |s|
  {
    var t, c := s[..|s| - 1], s[|s| - 1];
    ValueIsDigit(c);
    if t != "" {
      assert s == t + [c] && IsNumber(t);
      NumberIsDigits(t);
      NumberIsPositive(t);
      hide Digits, Digit, Value, IsNumber;
      DigitsStep(Number(t), Value(c));
    } else {
      assert s == [c];
    }
  }
}
