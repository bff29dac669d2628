/** The options a file is known to depend on (scripts/mkdep.c): one long string of names, each between newlines,
    that serves as a set. */
module ConfigCache {
  import opened WordReader
  import opened Scanner
  import opened Sequences
  import opened Texts

  type Name = seq<Byte>

  predicate OneLine(name: Name) {
    NEWLINE !in name
  }

  predicate AllOneLine(names: seq<Name>) {
    forall i :: 0 <= i < |names| ==> OneLine(names[i])
  }

  // ----- the string as a set -----

  /** The string after the given names were added to the empty one. */
  function Encode(names: seq<Name>): (r: seq<Byte>)
    ensures |r| > 0 && r[0] == NEWLINE
  {
    if |names| == 0 then [NEWLINE] else [NEWLINE] + names[0] + Encode(names[1..])
  }

  /** `name` stands at p between two newlines, and the search gets as far as p. */
  predicate FoundAt(str: seq<Byte>, name: Name, p: int) {
    && 1 <= p < |str| - |name|
    && str[p - 1] == NEWLINE && str[p + |name|] == NEWLINE && str[p..p + |name|] == name
  }

  lemma {:induction false} EncodeAppend(names: seq<Name>, name: Name)
    ensures Encode(names + [name]) == Encode(names) + name + [NEWLINE]
    decreases |names|
  {
    if |names| == 0 {
      assert (names + [name])[1..] == [];
    } else {
      assert (names + [name])[1..] == names[1..] + [name];
      EncodeAppend(names[1..], name);
      Assoc([NEWLINE] + names[0], Encode(names[1..]), name);
      Assoc([NEWLINE] + names[0], Encode(names[1..]) + name, [NEWLINE]);
    }
  }

  lemma FoundFirst(name: Name, rest: seq<Byte>)
    requires |rest| > 0 && rest[0] == NEWLINE
    ensures FoundAt([NEWLINE] + name + rest, name, 1)
  {
    assert ([NEWLINE] + name + rest)[1..1 + |name|] == name;
  }

  lemma FoundFurther(first: seq<Byte>, rest: seq<Byte>, name: Name, p: int)
    requires FoundAt(rest, name, p)
    ensures FoundAt(first + rest, name, |first| + p)
  {
    assert (first + rest)[|first| + p..|first| + p + |name|] == rest[p..p + |name|];
  }

  lemma {:induction false} MemberIsFound(names: seq<Name>, name: Name)
    requires name in names
    ensures exists p :: FoundAt(Encode(names), name, p)
    decreases |names|
  {
    hide FoundAt;
    if names[0] == name {
      FoundFirst(name, Encode(names[1..]));
      assert FoundAt(Encode(names), name, 1);
    } else {
      MemberIsFound(names[1..], name);
      var p :| FoundAt(Encode(names[1..]), name, p);
      FoundFurther([NEWLINE] + names[0], Encode(names[1..]), name, p);
      assert FoundAt(Encode(names), name, 1 + |names[0]| + p);
    }
  }

  lemma {:induction false} FoundIsMember(names: seq<Name>, name: Name, p: int)
    requires AllOneLine(names) && OneLine(name) && FoundAt(Encode(names), name, p)
    ensures name in names
    decreases |names|
  {
    var str := Encode(names);
    if |names| > 0 {
      var rest, first := Encode(names[1..]), names[0];
      var n := 1 + |first|;
      assert str[n..] == rest && str[1..n] == first && str[n] == NEWLINE;
      if p == 1 {
        FirstLine(str, name, first);
      } else {
        assert forall k {:trigger str[k]} :: 1 <= k < n ==> str[k] == first[k - 1];
        assert rest[p - n - 1] == str[p - 1] && rest[p - n + |name|] == str[p + |name|];
        assert rest[p - n..p - n + |name|] == str[p..p + |name|];
        assert AllOneLine(names[1..]);
        FoundIsMember(names[1..], name, p - n);
      }
    }
  }

  lemma FirstLine(str: seq<Byte>, name: Name, first: Name)
    requires OneLine(name) && OneLine(first) && 1 + |name| < |str| && 1 + |first| < |str|
    requires str[1..1 + |name|] == name && str[1 + |name|] == NEWLINE
    requires str[1..1 + |first|] == first && str[1 + |first|] == NEWLINE
    ensures name == first
  {
    assert forall k {:trigger str[k]} :: 1 <= k <= |name| ==> str[k] == name[k - 1];
    assert forall k {:trigger str[k]} :: 1 <= k <= |first| ==> str[k] == first[k - 1];
    assert |name| == |first|;
  }

  /** The string is a set: the search finds exactly the names that were added. */
  lemma StringIsSet(names: seq<Name>, name: Name)
    requires AllOneLine(names) && OneLine(name)
    ensures (exists p :: FoundAt(Encode(names), name, p)) <==> name in names
  {
    if name in names { MemberIsFound(names, name); }
    if p :| FoundAt(Encode(names), name, p) { FoundIsMember(names, name, p); }
  }

  const FIRST_SIZE := 4096

  class Cache {
    var str: array<Byte>
    var len: nat
    // the names defined since the string was last cleared
    ghost var names: seq<Name>

    ghost predicate Valid()
      reads this, str
    {
      len <= str.Length && AllOneLine(names) && (len > 0 ==> str[..len] == Encode(names)) && (len == 0 ==> names == [])
    }

    constructor ()
      ensures Valid() && names == [] && fresh(str)
    {
      str := new Byte[0];
      len, names := 0, [];
    }

    /** grow_config */
    method Grow(more: nat)
      requires len <= str.Length
      modifies this`str
      ensures len + more <= str.Length && str[..len] == old(str[..len])
      ensures str == old(str) || fresh(str)
    {
      while len + more > str.Length
        invariant len <= str.Length && str[..len] == old(str[..len])
        invariant str == old(str) || fresh(str)
        decreases len + more - str.Length
      {
        var small := str;
        var large := new Byte[if str.Length == 0 then FIRST_SIZE else 2 * str.Length](_ => 0);
        forall i | 0 <= i < small.Length {
          large[i] := small[i];
        }
        str := large;
      }
    }

    /** define_config, on the string alone. */
    method Append(name: Name)
      requires len <= str.Length
      modifies this`str, this`len, str
      ensures len == old(len) + |name| + 1 <= str.Length
      ensures str[..len] == old(str[..len]) + name + [NEWLINE]
      ensures str == old(str) || fresh(str)
    {
      Grow(|name| + 1);
      ghost var was := str[..len];
      forall i | 0 <= i < |name| {
        str[len + i] := name[i];
      }
      len := len + |name|;
      str[len] := NEWLINE;
      len := len + 1;
      assert str[..len] == was + name + [NEWLINE];
    }

    /** clear_config */
    method Clear()
      requires Valid()
      modifies this, str
      ensures Valid() && names == [] && len > 0
      ensures str == old(str) || fresh(str)
    {
      len := 0;
      Append([]);
      names := [];
    }

    /** define_config, after the string has been cleared once. */
    method Define(name: Name)
      requires Valid() && len > 0 && OneLine(name)
      modifies this, str
      ensures Valid() && len > 0 && names == old(names) + [name]
      ensures str == old(str) || fresh(str)
    {
      EncodeAppend(names, name);
      Append(name);
      names := names + [name];
    }

    /** is_defined_config: under any sequence of calls, the names defined since the last clear. */
    method IsDefined(name: Name) returns (found: bool)
      requires Valid() && len > 0 && OneLine(name)
      ensures found <==> name in names
    {
      StringIsSet(names, name);
      ghost var s := str[..len];
      var p := 1;
      while p < len - |name|
        invariant 1 <= p
        invariant forall q :: q < p ==> !FoundAt(s, name, q)
      {
        if str[p - 1] == NEWLINE && str[p + |name|] == NEWLINE && str[p..p + |name|] == name {
          assert s[p..p + |name|] == name;
          assert FoundAt(s, name, p);
          return true;
        }
        assert !FoundAt(s, name, p) by { assert s[p..p + |name|] == str[p..p + |name|]; }
        p := p + 1;
      }
      return false;
    }
  }

  // ----- the options of one file -----

  function Lower(b: Byte): Byte {
    if 65 <= b <= 90 then b + 32 else b
  }

  /** An option as the name of its header: in lower case, with a slash for every underscore. */
  function Header(option: Name): (r: Name)
    ensures |r| == |option|
  {
    seq(|option|, i requires 0 <= i < |option| => if option[i] == UNDERSCORE then SLASH else Lower(option[i]))
  }

  /** The name of an option's header, byte by byte: 47 is the slash, 95 the underscore, and the small letters stand 32
      behind the capitals. */
  predicate NamesOption(header: Name, option: Name) {
    && |header| == |option|
    && forall i :: 0 <= i < |option| ==>
         && (option[i] == 95 ==> header[i] == 47)
         && (65 <= option[i] < 65 + 26 ==> header[i] == 97 + (option[i] - 65))
         && (option[i] != 95 && !(65 <= option[i] <= 90) ==> header[i] == option[i])
  }

  lemma HeaderNamesOption(option: Name)
    ensures NamesOption(Header(option), option)
  {
  }

  /** No capital and no underscore is left. */
  lemma HeaderIsSmall(option: Name)
    ensures forall i :: 0 <= i < |option| ==> Header(option)[i] != 95 && !(65 <= Header(option)[i] <= 90)
  {
  }

  /** Two bytes that are not told apart: a letter in either case, or an underscore and a slash. */
  predicate Indistinct(b: Byte, c: Byte) {
    || b == c
    || (65 <= b <= 90 && c == b + 32) || (65 <= c <= 90 && b == c + 32)
    || (b == 95 && c == 47) || (b == 47 && c == 95)
  }

  /** Options share a header if and only if they differ at most in the case of letters and in underscores against
      slashes. */
  lemma HeaderIsSharedIff(a: Name, b: Name)
    ensures Header(a) == Header(b) <==> |a| == |b| && forall i :: 0 <= i < |a| ==> Indistinct(a[i], b[i])
  {
    if |a| == |b| {
      assert forall i :: 0 <= i < |a| ==> (Header(a)[i] == Header(b)[i] <==> Indistinct(a[i], b[i]));
    }
  }

  const CONFIG_DIR: seq<Byte> := [99, 111, 110, 102, 105, 103, 47]

  /** An include of `config/NAME.h` counts as a dependency that need not be repeated. */
  predicate IsConfigHeader(name: Name) {
    |name| >= 9 && name[..7] == CONFIG_DIR
  }

  function ConfigHeaderName(name: Name): Name
    requires IsConfigHeader(name)
  {
    name[7..|name| - 2]
  }

  /** A `config/` include too short for a suffix, on which the program's length would become negative. */
  predicate IsStump(event: Event) {
    event.Include? && 7 <= |event.name| < 9 && event.name[..7] == CONFIG_DIR
  }

  predicate Clean(event: Event) {
    match event
    case Use(name) => forall i :: 0 <= i < |name| ==> IsWordByte(name[i])
    case Include(_, name) => OneLine(name)
  }

  predicate AllClean(events: seq<Event>) {
    forall i :: 0 <= i < |events| ==> Clean(events[i]) && !IsStump(events[i])
  }

  lemma HeaderOneLine(option: Name)
    requires Clean(Use(option))
    ensures OneLine(Header(option))
  {
  }

  /** The names an event makes known. */
  function Known(event: Event): set<Name> {
    match event
    case Use(name) => {Header(name)}
    case Include(_, name) => if IsConfigHeader(name) then {ConfigHeaderName(name)} else {}
  }

  /** An include of an option's header makes known what a use of the option does. */
  lemma HeaderIncludeIsUse(option: Name, start: nat)
    ensures Known(Include(start, Bytes("config/") + Header(option) + Bytes(".h"))) == Known(Use(option))
  {
    var name := Bytes("config/") + Header(option) + Bytes(".h");
    assert Bytes("config/") == CONFIG_DIR;
    assert name[..7] == CONFIG_DIR && name[7..|name| - 2] == Header(option);
  }

  /** The headers written out, given those known before. */
  function Written(events: seq<Event>, known: set<Name>): seq<Name> {
    if |events| == 0 then []
    else
      (if events[0].Use? && Header(events[0].name) !in known then [Header(events[0].name)] else [])
      + Written(events[1..], known + Known(events[0]))
  }

  predicate NoneIn(names: seq<Name>, known: set<Name>) {
    forall i :: 0 <= i < |names| ==> names[i] !in known
  }

  predicate AllDifferent(names: seq<Name>) {
    forall i, j :: 0 <= i < j < |names| ==> names[i] != names[j]
  }

  lemma {:induction false} WrittenAreNew(events: seq<Event>, known: set<Name>)
    ensures NoneIn(Written(events, known), known) && AllDifferent(Written(events, known))
    decreases |events|
  {
    if |events| > 0 {
      WrittenAreNew(events[1..], known + Known(events[0]));
      var rest := Written(events[1..], known + Known(events[0]));
      assert NoneIn(rest, known) && NoneIn(rest, Known(events[0]));
    }
  }

  /** Each option is written at most once, and every used option is written or was known from an earlier include
      of its header. */
  lemma {:induction false} EveryUseWrittenOnce(events: seq<Event>, known: set<Name>, k: nat)
    requires k < |events| && events[k].Use?
    ensures var w, h := Written(events, known), Header(events[k].name);
            && AllDifferent(w)
            && (h in w || h in known
                || exists j :: 0 <= j < k && events[j].Include? && IsConfigHeader(events[j].name)
                               && ConfigHeaderName(events[j].name) == h)
    decreases |events|
  {
    WrittenAreNew(events, known);
    var h := Header(events[k].name);
    if k > 0 {
      var rest := events[1..];
      assert rest[k - 1] == events[k];
      EveryUseWrittenOnce(rest, known + Known(events[0]), k - 1);
      if j :| 0 <= j < k - 1 && rest[j].Include? && IsConfigHeader(rest[j].name) && ConfigHeaderName(rest[j].name) == h {
        assert rest[j] == events[j + 1];
      }
    }
  }

  function Names(names: seq<Name>): set<Name> {
    set n | n in names
  }

  /** Every header written is that of an option used. */
  lemma {:induction false} WrittenAreUsed(events: seq<Event>, known: set<Name>)
    ensures forall h :: h in Written(events, known) ==>
              exists k :: 0 <= k < |events| && events[k].Use? && NamesOption(h, events[k].name)
    decreases |events|
  {
    if |events| > 0 {
      hide NamesOption, Header, Known;
      var rest := events[1..];
      WrittenAreUsed(rest, known + Known(events[0]));
      if events[0].Use? { HeaderNamesOption(events[0].name); }
      forall h | h in Written(events, known)
        ensures exists k :: 0 <= k < |events| && events[k].Use? && NamesOption(h, events[k].name)
      {
        if h in Written(rest, known + Known(events[0])) {
          var k :| 0 <= k < |rest| && rest[k].Use? && NamesOption(h, rest[k].name);
          assert events[k + 1] == rest[k];
        } else {
          assert events[0].Use? && h == Header(events[0].name);
        }
      }
    }
  }

  lemma HeaderStep(option: Name, c: Byte)
    ensures Header(option + [c]) == Header(option) + [if c == UNDERSCORE then SLASH else Lower(c)]
  {
  }

  /** The loop of use_config over the characters of an option. */
  method NameHeader(option: Name) returns (pc: Name)
    ensures pc == Header(option) && NamesOption(pc, option)
  {
    HeaderNamesOption(option);
    pc := [];
    for i := 0 to |option|
      invariant pc == Header(option[..i])
    {
      var c := option[i];
      assert option[..i + 1] == option[..i] + [c];
      HeaderStep(option[..i], c);
      if 65 <= c <= 90 { c := c + 32; }
      if c == UNDERSCORE { c := SLASH; }
      pc := pc + [c];
    }
    assert option[..|option|] == option;
  }

  /** use_config, and the cache's part of handle_include. */
  method Handle(event: Event, cache: Cache) returns (written: seq<Name>)
    requires cache.Valid() && cache.len > 0 && Clean(event) && !IsStump(event)
    modifies cache, cache.str
    ensures cache.Valid() && cache.len > 0 && (cache.str == old(cache.str) || fresh(cache.str))
    ensures written == if event.Use? && Header(event.name) !in Names(old(cache.names)) then [Header(event.name)] else []
    ensures Names(cache.names) == Names(old(cache.names)) + Known(event)
  {
    written := [];
    match event {
      case Use(name) =>
        var h := NameHeader(name);
        HeaderOneLine(name);
        var found := cache.IsDefined(h);
        if !found {
          cache.Define(h);
          written := [h];
        }
      case Include(_, name) =>
        if |name| >= 7 && name[..7] == CONFIG_DIR {
          cache.Define(ConfigHeaderName(name));
        }
    }
  }

  /** What all events of one file write. */
  method WriteDependencies(events: seq<Event>, cache: Cache) returns (written: seq<Name>)
    requires cache.Valid() && AllClean(events)
    modifies cache, cache.str
    ensures cache.Valid() && written == Written(events, {})
  {
    hide Header, Known;
    cache.Clear();
    written := [];
    assert Names([]) == {} && events[0..] == events;
    assert [] + Written(events, {}) == Written(events, {});
    for i := 0 to |events|
      invariant cache.Valid() && cache.len > 0 && (cache.str == old(cache.str) || fresh(cache.str))
      invariant written + Written(events[i..], Names(cache.names)) == Written(events, {})
    {
      ghost var rest, before := events[i..], written;
      assert rest[0] == events[i] && rest[1..] == events[i + 1..];
      assert Clean(events[i]) && !IsStump(events[i]);
      ghost var known := Names(cache.names);
      var more := Handle(events[i], cache);
      assert Written(rest, known) == more + Written(rest[1..], known + Known(events[i]));
      Assoc(written, more, Written(rest[1..], known + Known(events[i])));
      written := written + more;
    }
  }

  // ----- what the scanner delivers -----

  lemma {:induction false} LexIsClean(s: seq<Byte>, p: nat)
    ensures forall i :: 0 <= i < |Lex(s, p)| ==> Clean(Lex(s, p)[i])
    decreases |s| - p
  {
    if p < |s| {
      LexIsClean(s, LexemeAt(s, p).end);
      LexemeIsClean(s, p);
    }
  }

  lemma LexemeIsClean(s: seq<Byte>, p: nat)
    requires p < |s|
    ensures var es := LexemeAt(s, p).events; |es| <= 1 && forall i :: 0 <= i < |es| ==> Clean(es[i])
  {
  }

  /** One file, from its bytes to the option headers written for it. */
  method DependOn(file: seq<Byte>, width: nat, littleEndian: bool, cache: Cache) returns (written: seq<Name>)
    requires width > 0 && cache.Valid()
    requires forall i :: 0 <= i < |Lex(Padded(file, width), 0)| ==> !IsStump(Lex(Padded(file, width), 0)[i])
    modifies cache, cache.str
    ensures cache.Valid() && written == Written(Lex(Padded(file, width), 0), {})
    ensures var events := Lex(Padded(file, width), 0);
            forall h :: h in written ==>
              exists k :: 0 <= k < |events| && events[k].Use? && NamesOption(h, events[k].name)
  {
    WrittenAreUsed(Lex(Padded(file, width), 0), {});
    hide Written, NamesOption;
    hide Lex, Padded, Clean, IsStump, OneLine;
    LexIsClean(Padded(file, width), 0);
    ghost var str := cache.str;
    var events := StateMachine(file, width, littleEndian);
    assert cache.str == str && unchanged(cache) && unchanged(cache.str);
    written := WriteDependencies(events, cache);
  }
}
