/** state_machine of scripts/mkdep.c: the hand-written automaton, and the lexer it amounts to. */
module Scanner {
  import opened WordReader
  import opened Sequences

  // ----- characters -----

  const NEWLINE: Byte := 10
  const TAB: Byte := 9
  const BLANK: Byte := 32
  const DQUOTE: Byte := 34
  const POUND: Byte := 35
  const SQUOTE: Byte := 39
  const STAR: Byte := 42
  const SLASH: Byte := 47
  const LANGLE: Byte := 60
  const RANGLE: Byte := 62
  const CEE: Byte := 67
  const BACKSLASH: Byte := 92
  const UNDERSCORE: Byte := 95

  predicate IsWordByte(b: Byte) {
    48 <= b <= 57 || 65 <= b <= 90 || 97 <= b <= 122 || b == UNDERSCORE
  }

  predicate IsBlank(b: Byte) {
    b == BLANK || b == TAB
  }

  const NCLUDE: seq<Byte> := [110, 99, 108, 117, 100, 101]
  const EFINE: seq<Byte> := [101, 102, 105, 110, 101]
  const NDEF: seq<Byte> := [110, 100, 101, 102]
  const ONFIG_: seq<Byte> := [79, 78, 70, 73, 71, 95]

  /** What the scanner reports: a used option by the part behind `CONFIG_`, or an included name with the index of
      the first directory to look in. */
  datatype Event = Use(name: seq<Byte>) | Include(start: nat, name: seq<Byte>)

  // ----- the automaton -----

  /** The labels of the program, each standing for "about to read the next byte". A label behind a keyword counts
      the letters matched; `dot` is where the name being collected begins. */
  datatype Label =
    | Start
    | SlashSlash | SlashSlashSkip
    | Slash | InComment | CommentStar
    | Squote | SquoteSkip | Dquote | DquoteSkip
    | Pound | PoundI(k: nat) | PoundD(k: nat) | PoundU(k: nat)
    | PoundInclude | IncludeDquote(dot: nat) | IncludeLangle(dot: nat)
    | PoundDefine | DefineConfig(k: nat) | DefineWord
    | Cee(k: nat) | CeeWord(dot: nat)

  /** The label `__start`, reached with byte i as the current one. */
  function Dispatch(s: seq<Byte>, i: nat): Label
    requires i < |s|
  {
    if s[i] == SLASH then Slash
    else if s[i] == SQUOTE then Squote
    else if s[i] == DQUOTE then Dquote
    else if s[i] == POUND then Pound
    else if s[i] == CEE then
      if i > 0 && IsWordByte(s[i - 1]) then Start else Cee(0)
    else Start
  }

  /** One letter of a keyword. */
  function Expect(s: seq<Byte>, i: nat, word: seq<Byte>, k: nat, more: Label, done: Label): Label
    requires i < |s|
  {
    if k >= |word| || s[i] != word[k] then Dispatch(s, i)
    else if k + 1 == |word| then done
    else more
  }

  /** The label after reading byte i. */
  function Next(s: seq<Byte>, i: nat, at: Label): Label
    requires i < |s|
  {
    var c := s[i];
    match at
    case Start => Dispatch(s, i)
    case SlashSlash => if c == NEWLINE then Start else if c == BACKSLASH then SlashSlashSkip else SlashSlash
    case SlashSlashSkip => SlashSlash
    case Slash => if c == SLASH then SlashSlash else if c == STAR then InComment else Dispatch(s, i)
    case InComment => if c == STAR then CommentStar else InComment
    case CommentStar => if c == SLASH then Start else if c == STAR then CommentStar else InComment
    case Squote => if c == SQUOTE then Start else if c == BACKSLASH then SquoteSkip else Squote
    case SquoteSkip => Squote
    case Dquote => if c == DQUOTE then Start else if c == BACKSLASH then DquoteSkip else Dquote
    case DquoteSkip => Dquote
    case Pound =>
      if IsBlank(c) then Pound
      else if c == 105 then PoundI(0)
      else if c == 100 then PoundD(0)
      else if c == 117 then PoundU(0)
      else Dispatch(s, i)
    case PoundI(k) => Expect(s, i, NCLUDE, k, PoundI(k + 1), PoundInclude)
    case PoundD(k) => Expect(s, i, EFINE, k, PoundD(k + 1), PoundDefine)
    case PoundU(k) => Expect(s, i, NDEF, k, PoundU(k + 1), PoundDefine)
    case PoundInclude =>
      if IsBlank(c) then PoundInclude
      else if c == DQUOTE then IncludeDquote(i + 1)
      else if c == LANGLE then IncludeLangle(i + 1)
      else Dispatch(s, i)
    case IncludeDquote(dot) => if c == NEWLINE || c == DQUOTE then Start else at
    case IncludeLangle(dot) => if c == NEWLINE || c == RANGLE then Start else at
    case PoundDefine => if IsBlank(c) then PoundDefine else if c == CEE then DefineConfig(0) else Dispatch(s, i)
    case DefineConfig(k) => Expect(s, i, ONFIG_, k, DefineConfig(k + 1), DefineWord)
    case DefineWord => if IsWordByte(c) then DefineWord else Dispatch(s, i)
    case Cee(k) => Expect(s, i, ONFIG_, k, Cee(k + 1), CeeWord(i + 1))
    case CeeWord(dot) => if IsWordByte(c) then at else Dispatch(s, i)
  }

  /** What reading byte i reports. */
  function Report(s: seq<Byte>, i: nat, at: Label): seq<Event>
    requires i < |s|
  {
    var c := s[i];
    match at
    case IncludeDquote(dot) => if c == DQUOTE && dot <= i then [Include(0, s[dot..i])] else []
    case IncludeLangle(dot) => if c == RANGLE && dot <= i then [Include(1, s[dot..i])] else []
    case CeeWord(dot) => if !IsWordByte(c) && dot <= i then [Use(s[dot..i])] else []
    case _ => []
  }

  /** Everything reported from byte i on. */
  function Run(s: seq<Byte>, i: nat, at: Label): seq<Event>
    decreases |s| - i
  {
    if i >= |s| then [] else Report(s, i, at) + Run(s, i + 1, Next(s, i, at))
  }

  // ----- the lexer -----

  predicate At(s: seq<Byte>, i: nat, word: seq<Byte>) {
    i + |word| <= |s| && s[i..i + |word|] == word
  }

  /** Behind the first star and slash at or after i, or the end of the input. */
  function CommentEnd(s: seq<Byte>, i: nat): (r: nat)
    requires i <= |s|
    ensures i <= r <= |s|
    decreases |s| - i
  {
    if i + 1 >= |s| then |s| else if s[i] == STAR && s[i + 1] == SLASH then i + 2 else CommentEnd(s, i + 1)
  }

  /** Behind the first byte `quote` at or after i that no backslash escapes, or the end of the input. */
  function QuoteEnd(s: seq<Byte>, i: nat, quote: Byte): (r: nat)
    requires i <= |s|
    ensures i <= r <= |s|
    decreases |s| - i
  {
    if i == |s| then |s|
    else if s[i] == quote then i + 1
    else if s[i] == BACKSLASH then if i + 1 == |s| then |s| else QuoteEnd(s, i + 2, quote)
    else QuoteEnd(s, i + 1, quote)
  }

  function SkipBlanks(s: seq<Byte>, i: nat): (r: nat)
    requires i <= |s|
    ensures i <= r <= |s| && (forall k :: i <= k < r ==> IsBlank(s[k])) && (r < |s| ==> !IsBlank(s[r]))
    decreases |s| - i
  {
    if i < |s| && IsBlank(s[i]) then SkipBlanks(s, i + 1) else i
  }

  function WordEnd(s: seq<Byte>, i: nat): (r: nat)
    requires i <= |s|
    ensures i <= r <= |s| && (forall k :: i <= k < r ==> IsWordByte(s[k])) && (r < |s| ==> !IsWordByte(s[r]))
    decreases |s| - i
  {
    if i < |s| && IsWordByte(s[i]) then WordEnd(s, i + 1) else i
  }

  /** The first closing byte or newline at or after i. */
  function NameEnd(s: seq<Byte>, i: nat, close: Byte): (r: nat)
    requires i <= |s|
    ensures i <= r <= |s| && (forall k :: i <= k < r ==> s[k] != close && s[k] != NEWLINE)
    ensures r < |s| ==> s[r] == close || s[r] == NEWLINE
    decreases |s| - i
  {
    if i < |s| && s[i] != close && s[i] != NEWLINE then NameEnd(s, i + 1, close) else i
  }

  /** A lexeme: where the next one begins, and what it reports. */
  datatype Lexeme = Lexeme(end: nat, events: seq<Event>)

  const INCLUDE_WORD: seq<Byte> := [105] + NCLUDE
  const DEFINE_WORD: seq<Byte> := [100] + EFINE
  const UNDEF_WORD: seq<Byte> := [117] + NDEF
  const CONFIG_WORD: seq<Byte> := [CEE] + ONFIG_

  /** The name of an include, from behind its opening byte at i. */
  function IncludeName(s: seq<Byte>, i: nat, start: nat, close: Byte): (r: Lexeme)
    requires i <= |s|
    ensures i <= r.end <= |s|
  {
    var e := NameEnd(s, i, close);
    if e == |s| then Lexeme(e, [])
    else if s[e] == close then Lexeme(e + 1, [Include(start, s[i..e])])
    else Lexeme(e + 1, [])
  }

  /** Behind the word `include` of the directive at p. */
  function Included(s: seq<Byte>, p: nat, i: nat): (r: Lexeme)
    requires p < i <= |s|
    ensures p < r.end <= |s|
  {
    var r := SkipBlanks(s, i);
    if r < |s| && s[r] == DQUOTE then IncludeName(s, r + 1, 0, DQUOTE)
    else if r < |s| && s[r] == LANGLE then IncludeName(s, r + 1, 1, RANGLE)
    else Lexeme(p + 1, [])
  }

  /** Behind the word `define` or `undef` of the directive at p. */
  function OptionDefined(s: seq<Byte>, p: nat, i: nat): (r: Lexeme)
    requires p < i <= |s|
    ensures p < r.end <= |s|
  {
    var r := SkipBlanks(s, i);
    Lexeme(if At(s, r, CONFIG_WORD) then WordEnd(s, r + 7) else p + 1, [])
  }

  /** What begins with the `#` at p: an include, a define or undef of an option, or nothing special. */
  function Directive(s: seq<Byte>, p: nat): (r: Lexeme)
    requires p < |s|
    ensures p < r.end <= |s|
  {
    var q := SkipBlanks(s, p + 1);
    if At(s, q, INCLUDE_WORD) then Included(s, p, q + 7)
    else if At(s, q, DEFINE_WORD) then OptionDefined(s, p, q + 6)
    else if At(s, q, UNDEF_WORD) then OptionDefined(s, p, q + 5)
    else Lexeme(p + 1, [])
  }

  /** The lexeme at p: a comment, a literal, a directive, an option word that is not part of a longer word, or a
      single byte. An option word at the very end of the input is not reported. */
  function LexemeAt(s: seq<Byte>, p: nat): (r: Lexeme)
    requires p < |s|
    ensures p < r.end <= |s|
  {
    if At(s, p, [SLASH, STAR]) then Lexeme(CommentEnd(s, p + 2), [])
    else if At(s, p, [SLASH, SLASH]) then Lexeme(QuoteEnd(s, p + 2, NEWLINE), [])
    else if s[p] == SQUOTE || s[p] == DQUOTE then Lexeme(QuoteEnd(s, p + 1, s[p]), [])
    else if s[p] == POUND then Directive(s, p)
    else if At(s, p, CONFIG_WORD) && (p > 0 ==> !IsWordByte(s[p - 1])) then
      var e := WordEnd(s, p + 7);
      Lexeme(e, if e < |s| then [Use(s[p + 7..e])] else [])
    else Lexeme(p + 1, [])
  }

  /** What the input from p on reports, lexeme by lexeme. */
  function Lex(s: seq<Byte>, p: nat): seq<Event>
    decreases |s| - p
  {
    if p >= |s| then [] else LexemeAt(s, p).events + Lex(s, LexemeAt(s, p).end)
  }

  // ----- the automaton runs through a lexeme -----

  lemma {:induction false} RunComment(s: seq<Byte>, i: nat)
    requires i <= |s|
    ensures Run(s, i, InComment) == Run(s, CommentEnd(s, i), Start)
    ensures i > 0 && s[i - 1] == STAR ==> Run(s, i, CommentStar) == Run(s, CommentEnd(s, i - 1), Start)
    decreases |s| - i
  {
    if i < |s| {
      RunComment(s, i + 1);
    }
  }

  lemma {:induction false} RunLine(s: seq<Byte>, i: nat)
    requires i <= |s|
    ensures Run(s, i, SlashSlash) == Run(s, QuoteEnd(s, i, NEWLINE), Start)
    decreases |s| - i
  {
    hide Run;
    if i == |s| {
      RunEnd(s, SlashSlash);
      RunEnd(s, Start);
    } else {
      RunMatch(s, i, SlashSlash);
      if s[i] != NEWLINE {
        if s[i] != BACKSLASH {
          RunLine(s, i + 1);
        } else if i + 1 < |s| {
          RunMatch(s, i + 1, SlashSlashSkip);
          RunLine(s, i + 2);
        } else {
          RunEnd(s, SlashSlashSkip);
          RunEnd(s, Start);
        }
      }
    }
  }

  lemma {:induction false} RunSquote(s: seq<Byte>, i: nat)
    requires i <= |s|
    ensures Run(s, i, Squote) == Run(s, QuoteEnd(s, i, SQUOTE), Start)
    decreases |s| - i
  {
    hide Run;
    if i == |s| {
      RunEnd(s, Squote);
      RunEnd(s, Start);
    } else {
      RunMatch(s, i, Squote);
      if s[i] != SQUOTE {
        if s[i] != BACKSLASH {
          RunSquote(s, i + 1);
        } else if i + 1 < |s| {
          RunMatch(s, i + 1, SquoteSkip);
          RunSquote(s, i + 2);
        } else {
          RunEnd(s, SquoteSkip);
          RunEnd(s, Start);
        }
      }
    }
  }

  lemma {:induction false} RunDquote(s: seq<Byte>, i: nat)
    requires i <= |s|
    ensures Run(s, i, Dquote) == Run(s, QuoteEnd(s, i, DQUOTE), Start)
    decreases |s| - i
  {
    hide Run;
    if i == |s| {
      RunEnd(s, Dquote);
      RunEnd(s, Start);
    } else {
      RunMatch(s, i, Dquote);
      if s[i] != DQUOTE {
        if s[i] != BACKSLASH {
          RunDquote(s, i + 1);
        } else if i + 1 < |s| {
          RunMatch(s, i + 1, DquoteSkip);
          RunDquote(s, i + 2);
        } else {
          RunEnd(s, DquoteSkip);
          RunEnd(s, Start);
        }
      }
    }
  }

  /** A byte that begins nothing. */
  predicate Inert(b: Byte) {
    b != SLASH && b != SQUOTE && b != DQUOTE && b != POUND && b != CEE
  }

  lemma {:induction false} RunInert(s: seq<Byte>, i: nat, j: nat)
    requires i <= j <= |s| && forall k :: i <= k < j ==> Inert(s[k])
    ensures Run(s, i, Start) == Run(s, j, Start)
    decreases j - i
  {
    if i < j {
      RunInert(s, i + 1, j);
      assert Inert(s[i]);
    }
  }

  lemma {:induction false} RunWord(s: seq<Byte>, i: nat)
    requires i <= |s|
    ensures Run(s, i, DefineWord) == Run(s, WordEnd(s, i), Start)
    decreases |s| - i
  {
    if i < |s| {
      RunWord(s, i + 1);
    }
  }

  lemma {:induction false} RunUse(s: seq<Byte>, dot: nat, i: nat)
    requires dot <= i <= |s|
    ensures var e := WordEnd(s, i);
            Run(s, i, CeeWord(dot)) == if e == |s| then [] else [Use(s[dot..e])] + Run(s, e, Start)
    decreases |s| - i
  {
    if i < |s| {
      if IsWordByte(s[i]) {
        RunUse(s, dot, i + 1);
      } else {
        assert Run(s, i, Start) == [] + Run(s, i + 1, Dispatch(s, i)) == Run(s, i + 1, Dispatch(s, i));
      }
    }
  }

  lemma RunStep(s: seq<Byte>, i: nat, at: Label)
    requires i < |s|
    ensures Run(s, i, at) == Report(s, i, at) + Run(s, i + 1, Next(s, i, at))
  {
  }

  lemma {:induction false} RunIncludeDquote(s: seq<Byte>, dot: nat, i: nat)
    requires dot <= i <= |s|
    ensures var e := NameEnd(s, i, DQUOTE);
            Run(s, i, IncludeDquote(dot))
            == if e == |s| then []
               else (if s[e] == DQUOTE then [Include(0, s[dot..e])] else []) + Run(s, e + 1, Start)
    decreases |s| - i
  {
    hide Run;
    if i == |s| {
      RunEnd(s, IncludeDquote(dot));
    } else if s[i] != DQUOTE && s[i] != NEWLINE {
      RunMatch(s, i, IncludeDquote(dot));
      RunIncludeDquote(s, dot, i + 1);
    } else {
      RunStep(s, i, IncludeDquote(dot));
    }
  }

  lemma {:induction false} RunIncludeLangle(s: seq<Byte>, dot: nat, i: nat)
    requires dot <= i <= |s|
    ensures var e := NameEnd(s, i, RANGLE);
            Run(s, i, IncludeLangle(dot))
            == if e == |s| then []
               else (if s[e] == RANGLE then [Include(1, s[dot..e])] else []) + Run(s, e + 1, Start)
    decreases |s| - i
  {
    hide Run;
    if i == |s| {
      RunEnd(s, IncludeLangle(dot));
    } else if s[i] != RANGLE && s[i] != NEWLINE {
      RunMatch(s, i, IncludeLangle(dot));
      RunIncludeLangle(s, dot, i + 1);
    } else {
      RunStep(s, i, IncludeLangle(dot));
    }
  }

  // ----- keywords -----

  lemma AtUnfold(s: seq<Byte>, i: nat, word: seq<Byte>)
    requires |word| > 0
    ensures At(s, i, word) <==> i < |s| && s[i] == word[0] && At(s, i + 1, word[1..])
  {
    if i + |word| <= |s| {
      assert s[i..i + |word|] == [s[i]] + s[i + 1..i + |word|];
      assert word == [word[0]] + word[1..];
    }
  }

  lemma KeywordTail(word: seq<Byte>, k: nat)
    requires k < |word|
    ensures word[k..][0] == word[k] && word[k..][1..] == word[k + 1..]
    ensures k + 1 == |word| ==> word[k + 1..] == []
  {
  }

  lemma AtFits(s: seq<Byte>, i: nat, word: seq<Byte>)
    requires At(s, i, word)
    ensures i + |word| <= |s|
  {
  }

  lemma AtNothing(s: seq<Byte>, i: nat)
    requires i <= |s|
    ensures At(s, i, [])
  {
  }

  lemma RunEnd(s: seq<Byte>, at: Label)
    ensures Run(s, |s|, at) == []
  {
  }

  /** A byte that does not continue a keyword is read as if the automaton had stood at the start. */
  lemma RunMismatch(s: seq<Byte>, i: nat, at: Label)
    requires i < |s| && Next(s, i, at) == Dispatch(s, i) && Report(s, i, at) == []
    ensures Run(s, i, at) == Run(s, i, Start)
  {
  }

  lemma RunMatch(s: seq<Byte>, i: nat, at: Label)
    requires i < |s| && Report(s, i, at) == []
    ensures Run(s, i, at) == Run(s, i + 1, Next(s, i, at))
  {
  }

  lemma StepInert(s: seq<Byte>, i: nat)
    requires i < |s| && Inert(s[i])
    ensures Run(s, i, Start) == Run(s, i + 1, Start)
  {
  }

  lemma {:induction false} RunPoundI(s: seq<Byte>, i: nat, k: nat)
    requires i <= |s| && k < |NCLUDE|
    ensures Run(s, i, PoundI(k))
         == if At(s, i, NCLUDE[k..]) then Run(s, i + |NCLUDE| - k, PoundInclude) else Run(s, i, Start)
    decreases |NCLUDE| - k
  {
    hide Run, At;
    AtUnfold(s, i, NCLUDE[k..]);
    KeywordTail(NCLUDE, k);
    if i == |s| {
      RunEnd(s, PoundI(k));
      RunEnd(s, Start);
    } else {
      if s[i] == NCLUDE[k] {
        RunMatch(s, i, PoundI(k));
        StepInert(s, i);
        if k + 1 < |NCLUDE| { RunPoundI(s, i + 1, k + 1); } else { AtNothing(s, i + 1); }
      } else {
        RunMismatch(s, i, PoundI(k));
      }
    }
  }

  lemma {:induction false} RunPoundD(s: seq<Byte>, i: nat, k: nat)
    requires i <= |s| && k < |EFINE|
    ensures Run(s, i, PoundD(k))
         == if At(s, i, EFINE[k..]) then Run(s, i + |EFINE| - k, PoundDefine) else Run(s, i, Start)
    decreases |EFINE| - k
  {
    hide Run, At;
    AtUnfold(s, i, EFINE[k..]);
    KeywordTail(EFINE, k);
    if i == |s| {
      RunEnd(s, PoundD(k));
      RunEnd(s, Start);
    } else {
      if s[i] == EFINE[k] {
        RunMatch(s, i, PoundD(k));
        StepInert(s, i);
        if k + 1 < |EFINE| { RunPoundD(s, i + 1, k + 1); } else { AtNothing(s, i + 1); }
      } else {
        RunMismatch(s, i, PoundD(k));
      }
    }
  }

  lemma {:induction false} RunPoundU(s: seq<Byte>, i: nat, k: nat)
    requires i <= |s| && k < |NDEF|
    ensures Run(s, i, PoundU(k))
         == if At(s, i, NDEF[k..]) then Run(s, i + |NDEF| - k, PoundDefine) else Run(s, i, Start)
    decreases |NDEF| - k
  {
    hide Run, At;
    AtUnfold(s, i, NDEF[k..]);
    KeywordTail(NDEF, k);
    if i == |s| {
      RunEnd(s, PoundU(k));
      RunEnd(s, Start);
    } else {
      if s[i] == NDEF[k] {
        RunMatch(s, i, PoundU(k));
        StepInert(s, i);
        if k + 1 < |NDEF| { RunPoundU(s, i + 1, k + 1); } else { AtNothing(s, i + 1); }
      } else {
        RunMismatch(s, i, PoundU(k));
      }
    }
  }

  lemma {:induction false} RunDefineConfig(s: seq<Byte>, i: nat, k: nat)
    requires i <= |s| && k < |ONFIG_|
    ensures Run(s, i, DefineConfig(k))
         == if At(s, i, ONFIG_[k..]) then Run(s, i + |ONFIG_| - k, DefineWord) else Run(s, i, Start)
    decreases |ONFIG_| - k
  {
    hide Run, At;
    AtUnfold(s, i, ONFIG_[k..]);
    KeywordTail(ONFIG_, k);
    if i == |s| {
      RunEnd(s, DefineConfig(k));
      RunEnd(s, Start);
    } else {
      if s[i] == ONFIG_[k] {
        RunMatch(s, i, DefineConfig(k));
        StepInert(s, i);
        if k + 1 < |ONFIG_| { RunDefineConfig(s, i + 1, k + 1); } else { AtNothing(s, i + 1); }
      } else {
        RunMismatch(s, i, DefineConfig(k));
      }
    }
  }

  lemma {:induction false} RunCee(s: seq<Byte>, i: nat, k: nat)
    requires i <= |s| && k < |ONFIG_|
    ensures Run(s, i, Cee(k))
         == if At(s, i, ONFIG_[k..]) then Run(s, i + |ONFIG_| - k, CeeWord(i + |ONFIG_| - k)) else Run(s, i, Start)
    decreases |ONFIG_| - k
  {
    hide Run, At;
    AtUnfold(s, i, ONFIG_[k..]);
    KeywordTail(ONFIG_, k);
    if i == |s| {
      RunEnd(s, Cee(k));
      RunEnd(s, Start);
    } else {
      if s[i] == ONFIG_[k] {
        RunMatch(s, i, Cee(k));
        StepInert(s, i);
        if k + 1 < |ONFIG_| { RunCee(s, i + 1, k + 1); } else { AtNothing(s, i + 1); }
      } else {
        RunMismatch(s, i, Cee(k));
      }
    }
  }

  // ----- directives -----

  lemma {:induction false} RunBlanks(s: seq<Byte>, i: nat, at: Label)
    requires i <= |s| && at in {Pound, PoundInclude, PoundDefine}
    ensures Run(s, i, at) == Run(s, SkipBlanks(s, i), at)
    decreases |s| - i
  {
    if i < |s| && IsBlank(s[i]) {
      RunMatch(s, i, at);
      RunBlanks(s, i + 1, at);
    }
  }

  lemma {:induction false} InertKeyword(s: seq<Byte>, i: nat, word: seq<Byte>)
    requires At(s, i, word) && forall k :: 0 <= k < |word| ==> Inert(word[k])
    ensures forall k :: i <= k < i + |word| ==> Inert(s[k])
  {
    forall k | i <= k < i + |word| ensures Inert(s[k]) {
      assert s[k] == s[i..i + |word|][k - i];
    }
  }

  lemma RunPoundInclude(s: seq<Byte>, q: nat)
    requires q <= |s|
    ensures var r := SkipBlanks(s, q);
            Run(s, q, PoundInclude)
            == if r < |s| && s[r] == DQUOTE then Run(s, r + 1, IncludeDquote(r + 1))
               else if r < |s| && s[r] == LANGLE then Run(s, r + 1, IncludeLangle(r + 1))
               else Run(s, q, Start)
  {
    hide Run;
    var r := SkipBlanks(s, q);
    RunBlanks(s, q, PoundInclude);
    RunInert(s, q, r);
    RunEnd(s, PoundInclude);
    RunEnd(s, Start);
    if r < |s| {
      if s[r] == DQUOTE || s[r] == LANGLE { RunMatch(s, r, PoundInclude); } else { RunMismatch(s, r, PoundInclude); }
    }
  }

  /** A `C` that does not begin an option word is an ordinary byte. */
  lemma RunPlainCee(s: seq<Byte>, r: nat)
    requires r < |s| && s[r] == CEE && !At(s, r, CONFIG_WORD)
    ensures Run(s, r, Start) == Run(s, r + 1, Start)
  {
    hide Run, At;
    AtUnfold(s, r, CONFIG_WORD);
    assert CONFIG_WORD[1..] == ONFIG_ == ONFIG_[0..];
    RunMatch(s, r, Start);
    RunCee(s, r + 1, 0);
  }

  lemma RunPoundDefine(s: seq<Byte>, q: nat)
    requires q <= |s|
    ensures var r := SkipBlanks(s, q);
            Run(s, q, PoundDefine)
            == if At(s, r, CONFIG_WORD) then Run(s, WordEnd(s, r + 7), Start) else Run(s, q, Start)
  {
    hide Run, WordEnd, SkipBlanks, At;
    var r := SkipBlanks(s, q);
    RunBlanks(s, q, PoundDefine);
    RunInert(s, q, r);
    RunEnd(s, PoundDefine);
    RunEnd(s, Start);
    AtUnfold(s, r, CONFIG_WORD);
    if r < |s| {
      if s[r] == CEE {
        RunMatch(s, r, PoundDefine);
        assert CONFIG_WORD[1..] == ONFIG_ == ONFIG_[0..];
        RunDefineConfig(s, r + 1, 0);
        if At(s, r, CONFIG_WORD) { AtFits(s, r, CONFIG_WORD); RunWord(s, r + 7); } else { RunPlainCee(s, r); }
      } else {
        RunMismatch(s, r, PoundDefine);
      }
    }
  }

  lemma RunPound(s: seq<Byte>, q: nat)
    requires q <= |s|
    ensures var r := SkipBlanks(s, q);
            Run(s, q, Pound)
            == if At(s, r, INCLUDE_WORD) then Run(s, r + 7, PoundInclude)
               else if At(s, r, DEFINE_WORD) then Run(s, r + 6, PoundDefine)
               else if At(s, r, UNDEF_WORD) then Run(s, r + 5, PoundDefine)
               else Run(s, q, Start)
  {
    hide Run, SkipBlanks, At;
    var r := SkipBlanks(s, q);
    RunBlanks(s, q, Pound);
    RunInert(s, q, r);
    RunEnd(s, Pound);
    RunEnd(s, Start);
    AtUnfold(s, r, INCLUDE_WORD);
    AtUnfold(s, r, DEFINE_WORD);
    AtUnfold(s, r, UNDEF_WORD);
    assert INCLUDE_WORD[1..] == NCLUDE[0..] && DEFINE_WORD[1..] == EFINE[0..] && UNDEF_WORD[1..] == NDEF[0..];
    if r < |s| {
      if s[r] == 105 {
        RunMatch(s, r, Pound);
        RunPoundI(s, r + 1, 0);
        StepInert(s, r);
      } else if s[r] == 100 {
        RunMatch(s, r, Pound);
        RunPoundD(s, r + 1, 0);
        StepInert(s, r);
      } else if s[r] == 117 {
        RunMatch(s, r, Pound);
        RunPoundU(s, r + 1, 0);
        StepInert(s, r);
      } else {
        RunMismatch(s, r, Pound);
      }
    }
  }

  lemma RunQuotedName(s: seq<Byte>, i: nat)
    requires i <= |s|
    ensures var l := IncludeName(s, i, 0, DQUOTE); Run(s, i, IncludeDquote(i)) == l.events + Run(s, l.end, Start)
  {
    hide Run, NameEnd;
    RunIncludeDquote(s, i, i);
    RunEnd(s, Start);
  }

  lemma RunAngledName(s: seq<Byte>, i: nat)
    requires i <= |s|
    ensures var l := IncludeName(s, i, 1, RANGLE); Run(s, i, IncludeLangle(i)) == l.events + Run(s, l.end, Start)
  {
    hide Run, NameEnd;
    RunIncludeLangle(s, i, i);
    RunEnd(s, Start);
  }

  predicate IsDirectiveWord(word: seq<Byte>) {
    word == INCLUDE_WORD || word == DEFINE_WORD || word == UNDEF_WORD
  }

  lemma DirectiveWordInert(word: seq<Byte>)
    requires IsDirectiveWord(word)
    ensures forall k :: 0 <= k < |word| ==> Inert(word[k])
  {
  }

  /** Blanks and a directive word begin nothing. */
  lemma RunOverDirectiveWord(s: seq<Byte>, p: nat, word: seq<Byte>)
    requires p < |s| && IsDirectiveWord(word) && At(s, SkipBlanks(s, p + 1), word)
    ensures SkipBlanks(s, p + 1) + |word| <= |s|
    ensures Run(s, p + 1, Start) == Run(s, SkipBlanks(s, p + 1) + |word|, Start)
  {
    hide Run, IsDirectiveWord;
    var q := SkipBlanks(s, p + 1);
    DirectiveWordInert(word);
    InertKeyword(s, q, word);
    AtFits(s, q, word);
    hide At, SkipBlanks;
    RunInert(s, p + 1, q + |word|);
  }

  lemma RunIncludeDirective(s: seq<Byte>, p: nat, q: nat)
    requires p < |s| && q == SkipBlanks(s, p + 1) && At(s, q, INCLUDE_WORD)
    ensures var l := Directive(s, p); q + 7 <= |s| && Run(s, q + 7, PoundInclude) == l.events + Run(s, l.end, Start)
  {
    hide Run, IncludeName;
    RunOverDirectiveWord(s, p, INCLUDE_WORD);
    RunPoundInclude(s, q + 7);
    var r := SkipBlanks(s, q + 7);
    if r < |s| {
      RunQuotedName(s, r + 1);
      RunAngledName(s, r + 1);
    }
  }

  lemma DirectiveDefine(s: seq<Byte>, p: nat, q: nat, word: seq<Byte>)
    requires p < |s| && q == SkipBlanks(s, p + 1) && At(s, q, word) && q + |word| <= |s|
    requires !At(s, q, INCLUDE_WORD)
    requires word == DEFINE_WORD || (word == UNDEF_WORD && !At(s, q, DEFINE_WORD))
    ensures var r := SkipBlanks(s, q + |word|);
            Directive(s, p) == Lexeme(if At(s, r, CONFIG_WORD) then WordEnd(s, r + 7) else p + 1, [])
  {
    hide At, SkipBlanks, WordEnd, IncludeName;
  }

  lemma RunDefineDirective(s: seq<Byte>, p: nat, q: nat, word: seq<Byte>)
    requires p < |s| && q == SkipBlanks(s, p + 1) && At(s, q, word)
    requires !At(s, q, INCLUDE_WORD)
    requires word == DEFINE_WORD || (word == UNDEF_WORD && !At(s, q, DEFINE_WORD))
    ensures var l := Directive(s, p);
            q + |word| <= |s| && Run(s, q + |word|, PoundDefine) == l.events + Run(s, l.end, Start)
  {
    hide Run, WordEnd, Directive, At, SkipBlanks;
    RunOverDirectiveWord(s, p, word);
    DirectiveDefine(s, p, q, word);
    RunPoundDefine(s, q + |word|);
    hide *;
  }

  lemma DirectiveNone(s: seq<Byte>, p: nat)
    requires p < |s|
    requires var q := SkipBlanks(s, p + 1); !At(s, q, INCLUDE_WORD) && !At(s, q, DEFINE_WORD) && !At(s, q, UNDEF_WORD)
    ensures Directive(s, p) == Lexeme(p + 1, [])
  {
  }

  lemma BeginPound(s: seq<Byte>, p: nat)
    requires p < |s| && s[p] == POUND
    ensures Run(s, p, Start) == Run(s, p + 1, Pound)
  {
  }

  lemma RunDirective(s: seq<Byte>, p: nat)
    requires p < |s| && s[p] == POUND
    ensures var l := Directive(s, p); Run(s, p, Start) == l.events + Run(s, l.end, Start)
  {
    hide Run, Directive, At, SkipBlanks;
    var q := SkipBlanks(s, p + 1);
    BeginPound(s, p);
    RunPound(s, p + 1);
    if At(s, q, INCLUDE_WORD) {
      RunIncludeDirective(s, p, q);
    } else if At(s, q, DEFINE_WORD) {
      RunDefineDirective(s, p, q, DEFINE_WORD);
    } else if At(s, q, UNDEF_WORD) {
      RunDefineDirective(s, p, q, UNDEF_WORD);
    } else {
      DirectiveNone(s, p);
    }
  }

  // ----- the automaton is the lexer -----

  lemma AtTwo(s: seq<Byte>, i: nat, a: Byte, b: Byte)
    ensures At(s, i, [a, b]) <==> i + 1 < |s| && s[i] == a && s[i + 1] == b
  {
    if i + 2 <= |s| {
      assert s[i..i + 2] == [s[i], s[i + 1]];
    }
  }

  lemma AtFirst(s: seq<Byte>, i: nat, word: seq<Byte>)
    requires |word| > 0 && At(s, i, word)
    ensures s[i] == word[0]
  {
    AtUnfold(s, i, word);
  }

  lemma LexemeSlash(s: seq<Byte>, p: nat)
    requires p < |s| && s[p] == SLASH
    ensures LexemeAt(s, p)
         == if p + 1 < |s| && s[p + 1] == STAR then Lexeme(CommentEnd(s, p + 2), [])
            else if p + 1 < |s| && s[p + 1] == SLASH then Lexeme(QuoteEnd(s, p + 2, NEWLINE), [])
            else Lexeme(p + 1, [])
  {
    AtTwo(s, p, SLASH, STAR);
    AtTwo(s, p, SLASH, SLASH);
    if At(s, p, CONFIG_WORD) { AtFirst(s, p, CONFIG_WORD); }
  }

  lemma LexemeCee(s: seq<Byte>, p: nat)
    requires p < |s| && s[p] == CEE
    ensures LexemeAt(s, p)
         == if At(s, p, CONFIG_WORD) && (p > 0 ==> !IsWordByte(s[p - 1])) then
              var e := WordEnd(s, p + 7);
              Lexeme(e, if e < |s| then [Use(s[p + 7..e])] else [])
            else Lexeme(p + 1, [])
  {
    AtTwo(s, p, SLASH, STAR);
    AtTwo(s, p, SLASH, SLASH);
  }

  lemma LexemeOther(s: seq<Byte>, p: nat)
    requires p < |s| && s[p] != CEE && s[p] != SLASH
    ensures LexemeAt(s, p)
         == if s[p] == SQUOTE || s[p] == DQUOTE then Lexeme(QuoteEnd(s, p + 1, s[p]), [])
            else if s[p] == POUND then Directive(s, p)
            else Lexeme(p + 1, [])
  {
    AtTwo(s, p, SLASH, STAR);
    AtTwo(s, p, SLASH, SLASH);
    if At(s, p, CONFIG_WORD) { AtFirst(s, p, CONFIG_WORD); }
  }

  lemma RunSlash(s: seq<Byte>, p: nat)
    requires p < |s| && s[p] == SLASH
    ensures Run(s, p, Start) == LexemeAt(s, p).events + Run(s, LexemeAt(s, p).end, Start)
  {
    hide Run, At, CommentEnd, QuoteEnd, LexemeAt;
    LexemeSlash(s, p);
    RunMatch(s, p, Start);
    RunEnd(s, Slash);
    RunEnd(s, Start);
    if p + 1 < |s| {
      if s[p + 1] == STAR {
        RunMatch(s, p + 1, Slash);
        RunComment(s, p + 2);
      } else if s[p + 1] == SLASH {
        RunMatch(s, p + 1, Slash);
        RunLine(s, p + 2);
      } else {
        RunMismatch(s, p + 1, Slash);
      }
    }
  }

  lemma RunOptionWord(s: seq<Byte>, p: nat)
    requires p < |s| && s[p] == CEE
    ensures Run(s, p, Start) == LexemeAt(s, p).events + Run(s, LexemeAt(s, p).end, Start)
  {
    hide Run, At, WordEnd, LexemeAt;
    LexemeCee(s, p);
    AtUnfold(s, p, CONFIG_WORD);
    assert CONFIG_WORD[1..] == ONFIG_ == ONFIG_[0..];
    RunMatch(s, p, Start);
    if p > 0 && IsWordByte(s[p - 1]) {
    } else if At(s, p, CONFIG_WORD) {
      AtFits(s, p, CONFIG_WORD);
      RunCee(s, p + 1, 0);
      RunUse(s, p + 7, p + 7);
      RunEnd(s, Start);
    } else {
      RunPlainCee(s, p);
    }
  }

  lemma RunLexeme(s: seq<Byte>, p: nat)
    requires p < |s|
    ensures Run(s, p, Start) == LexemeAt(s, p).events + Run(s, LexemeAt(s, p).end, Start)
  {
    hide Run, At, QuoteEnd, Directive, LexemeAt;
    if s[p] == SLASH {
      RunSlash(s, p);
    } else if s[p] == CEE {
      RunOptionWord(s, p);
    } else {
      LexemeOther(s, p);
      RunMatch(s, p, Start);
      if s[p] == SQUOTE {
        RunSquote(s, p + 1);
      } else if s[p] == DQUOTE {
        RunDquote(s, p + 1);
      } else if s[p] == POUND {
        RunDirective(s, p);
      }
    }
  }

  /** The automaton reports exactly what the lexer reports, on every input. */
  lemma {:induction false} AutomatonIsLexer(s: seq<Byte>, p: nat)
    requires p <= |s|
    ensures Run(s, p, Start) == Lex(s, p)
    decreases |s| - p
  {
    if p < |s| {
      RunLexeme(s, p);
      AutomatonIsLexer(s, LexemeAt(s, p).end);
    }
  }

  // ----- what the lexer's helpers mean -----

  /** A comment ends behind the first star and slash after its opening, or never. */
  lemma {:induction false} CommentEndsAtFirst(s: seq<Byte>, i: nat)
    requires i <= |s|
    ensures var r := CommentEnd(s, i);
            && (forall k :: i <= k && k + 2 < r ==> !At(s, k, [STAR, SLASH]))
            && ((i + 2 <= r && At(s, r - 2, [STAR, SLASH]))
                || (r == |s| && forall k :: i <= k < |s| ==> !At(s, k, [STAR, SLASH])))
    decreases |s| - i
  {
    AtTwo(s, i, STAR, SLASH);
    if i + 1 < |s| && !(s[i] == STAR && s[i + 1] == SLASH) {
      CommentEndsAtFirst(s, i + 1);
    }
  }

  /** Preceded by an odd number of backslashes, counted from i. */
  predicate Escaped(s: seq<Byte>, i: nat, k: nat)
    requires i <= k <= |s|
    decreases k
  {
    k > i && s[k - 1] == BACKSLASH && !Escaped(s, i, k - 1)
  }

  lemma {:induction false} EscapedFrom(s: seq<Byte>, i: nat, j: nat, k: nat)
    requires i <= j <= k <= |s| && !Escaped(s, i, j)
    ensures Escaped(s, i, k) == Escaped(s, j, k)
    decreases k
  {
    if k > j { EscapedFrom(s, i, j, k - 1); }
  }

  predicate Closes(s: seq<Byte>, i: nat, k: nat, quote: Byte)
    requires i <= k < |s|
  {
    s[k] == quote && !Escaped(s, i, k)
  }

  /** A literal (and a line comment, whose quote is the newline) ends behind its first unescaped quote, or never. */
  lemma {:induction false} QuoteEndsAtFirst(s: seq<Byte>, i: nat, quote: Byte)
    requires i <= |s| && quote != BACKSLASH
    ensures var r := QuoteEnd(s, i, quote);
            if r > i && Closes(s, i, r - 1, quote) then forall k :: i <= k < r - 1 ==> !Closes(s, i, k, quote)
            else r == |s| && forall k :: i <= k < |s| ==> !Closes(s, i, k, quote)
    decreases |s| - i
  {
    if i < |s| && s[i] != quote {
      var j := if s[i] == BACKSLASH then i + 2 else i + 1;
      if j <= |s| {
        assert !Escaped(s, i, j) by { assert s[i] == BACKSLASH ==> Escaped(s, i, i + 1); }
        QuoteEndsAtFirst(s, j, quote);
        forall k | j <= k < |s| ensures Closes(s, i, k, quote) == Closes(s, j, k, quote) {
          EscapedFrom(s, i, j, k);
        }
        assert s[i] == BACKSLASH ==> Escaped(s, i, i + 1);
      }
    }
  }

  // ----- the padding -----

  /** The longer input goes on with zero bytes. */
  predicate Pads(s: seq<Byte>, t: seq<Byte>) {
    s <= t && forall k :: |s| <= k < |t| ==> t[k] == 0
  }

  /** A lexeme that begins at p, or one of those after it, begins at q. */
  predicate Begins(s: seq<Byte>, p: nat, q: nat)
    decreases |s| - p
  {
    p == q || (p < |s| && Begins(s, LexemeAt(s, p).end, q))
  }

  /** An option word, not part of a longer word, in which the input ends. */
  predicate OptionAtEnd(s: seq<Byte>, p: nat) {
    At(s, p, CONFIG_WORD) && (p > 0 ==> !IsWordByte(s[p - 1])) && WordEnd(s, p + 7) == |s|
  }

  lemma {:induction false} CommentEndPadded(s: seq<Byte>, t: seq<Byte>, i: nat)
    requires Pads(s, t) && i <= |s|
    ensures Further(s, CommentEnd(s, i), CommentEnd(t, i))
    decreases |s| - i
  {
    if i + 1 < |s| {
      if !(s[i] == STAR && s[i + 1] == SLASH) { CommentEndPadded(s, t, i + 1); }
    } else if i < |s| && i + 1 < |t| {
      assert t[i + 1] == 0;
    }
  }

  /** The same place, or the ends of both inputs. */
  predicate Further(s: seq<Byte>, e: nat, f: nat) {
    e == f || e == |s| <= f
  }

  lemma {:induction false} QuoteEndPadded(s: seq<Byte>, t: seq<Byte>, i: nat, quote: Byte)
    requires Pads(s, t) && i <= |s|
    ensures Further(s, QuoteEnd(s, i, quote), QuoteEnd(t, i, quote))
    decreases |s| - i
  {
    if i < |s| && s[i] != quote {
      if s[i] != BACKSLASH {
        QuoteEndPadded(s, t, i + 1, quote);
      } else if i + 1 < |s| {
        QuoteEndPadded(s, t, i + 2, quote);
      }
    }
  }

  lemma {:induction false} SkipBlanksPadded(s: seq<Byte>, t: seq<Byte>, i: nat)
    requires Pads(s, t) && i <= |s|
    ensures SkipBlanks(t, i) == SkipBlanks(s, i)
    decreases |s| - i
  {
    if i < |s| && IsBlank(s[i]) { SkipBlanksPadded(s, t, i + 1); }
  }

  lemma {:induction false} WordEndPadded(s: seq<Byte>, t: seq<Byte>, i: nat)
    requires Pads(s, t) && i <= |s|
    ensures WordEnd(t, i) == WordEnd(s, i)
    decreases |s| - i
  {
    if i < |s| && IsWordByte(s[i]) { WordEndPadded(s, t, i + 1); }
  }

  lemma {:induction false} NameEndPadded(s: seq<Byte>, t: seq<Byte>, i: nat, close: Byte)
    requires Pads(s, t) && i <= |s| && close != 0
    ensures NameEnd(t, i, close) == if NameEnd(s, i, close) < |s| then NameEnd(s, i, close) else |t|
    decreases |t| - i
  {
    if i < |s| {
      if s[i] != close && s[i] != NEWLINE { NameEndPadded(s, t, i + 1, close); }
    } else {
      NameEndOfZeros(t, i, close);
    }
  }

  lemma {:induction false} NameEndOfZeros(t: seq<Byte>, i: nat, close: Byte)
    requires i <= |t| && close != 0 && forall k :: i <= k < |t| ==> t[k] == 0
    ensures NameEnd(t, i, close) == |t|
    decreases |t| - i
  {
    if i < |t| { NameEndOfZeros(t, i + 1, close); }
  }

  lemma AtPadded(s: seq<Byte>, t: seq<Byte>, i: nat, word: seq<Byte>)
    requires Pads(s, t) && |word| > 0 && word[|word| - 1] != 0
    ensures At(t, i, word) == At(s, i, word)
  {
    if i + |word| <= |s| {
      assert t[i..i + |word|] == s[i..i + |word|];
    } else if i + |word| <= |t| {
      assert t[i..i + |word|][|word| - 1] == 0;
    }
  }

  /** The lexeme reports the same, and ends at the same place or at the ends of both inputs. */
  predicate SameLexeme(s: seq<Byte>, a: Lexeme, b: Lexeme) {
    a.events == b.events && Further(s, a.end, b.end)
  }

  lemma IncludeNamePadded(s: seq<Byte>, t: seq<Byte>, i: nat, start: nat, close: Byte)
    requires Pads(s, t) && i <= |s| && close != 0
    ensures SameLexeme(s, IncludeName(s, i, start, close), IncludeName(t, i, start, close))
  {
    NameEndPadded(s, t, i, close);
    var e := NameEnd(s, i, close);
    if e < |s| { assert t[i..e] == s[i..e]; }
  }

  lemma IncludedPadded(s: seq<Byte>, t: seq<Byte>, p: nat, i: nat)
    requires Pads(s, t) && p < i <= |s|
    ensures SameLexeme(s, Included(s, p, i), Included(t, p, i))
  {
    hide SkipBlanks, IncludeName;
    SkipBlanksPadded(s, t, i);
    var r := SkipBlanks(s, i);
    if r < |s| {
      IncludeNamePadded(s, t, r + 1, 0, DQUOTE);
      IncludeNamePadded(s, t, r + 1, 1, RANGLE);
    } else if r < |t| {
      assert t[r] == 0;
    }
  }

  lemma OptionDefinedPadded(s: seq<Byte>, t: seq<Byte>, p: nat, i: nat)
    requires Pads(s, t) && p < i <= |s|
    ensures OptionDefined(t, p, i) == OptionDefined(s, p, i)
  {
    hide SkipBlanks, At, WordEnd;
    SkipBlanksPadded(s, t, i);
    var r := SkipBlanks(s, i);
    AtPadded(s, t, r, CONFIG_WORD);
    if At(s, r, CONFIG_WORD) {
      AtFits(s, r, CONFIG_WORD);
      WordEndPadded(s, t, r + 7);
    }
  }

  lemma DirectivePadded(s: seq<Byte>, t: seq<Byte>, p: nat)
    requires Pads(s, t) && p < |s|
    ensures SameLexeme(s, Directive(s, p), Directive(t, p))
  {
    hide At, SkipBlanks, Included, OptionDefined;
    var q := SkipBlanks(s, p + 1);
    SkipBlanksPadded(s, t, p + 1);
    AtPadded(s, t, q, INCLUDE_WORD);
    AtPadded(s, t, q, DEFINE_WORD);
    AtPadded(s, t, q, UNDEF_WORD);
    if At(s, q, INCLUDE_WORD) {
      AtFits(s, q, INCLUDE_WORD);
      IncludedPadded(s, t, p, q + 7);
    } else if At(s, q, DEFINE_WORD) {
      AtFits(s, q, DEFINE_WORD);
      OptionDefinedPadded(s, t, p, q + 6);
    } else if At(s, q, UNDEF_WORD) {
      AtFits(s, q, UNDEF_WORD);
      OptionDefinedPadded(s, t, p, q + 5);
    }
  }

  lemma SlashPadded(s: seq<Byte>, t: seq<Byte>, p: nat)
    requires Pads(s, t) && p < |s| && s[p] == SLASH
    ensures SameLexeme(s, LexemeAt(s, p), LexemeAt(t, p))
  {
    hide LexemeAt, CommentEnd, QuoteEnd;
    LexemeSlash(s, p);
    LexemeSlash(t, p);
    if p + 2 <= |s| {
      CommentEndPadded(s, t, p + 2);
      QuoteEndPadded(s, t, p + 2, NEWLINE);
    } else if p + 1 < |t| {
      assert t[p + 1] == 0;
    }
  }

  lemma OptionWordPadded(s: seq<Byte>, t: seq<Byte>, p: nat)
    requires Pads(s, t) && p < |s| && s[p] == CEE
    ensures if OptionAtEnd(s, p) then
              && LexemeAt(s, p) == Lexeme(|s|, [])
              && LexemeAt(t, p) == Lexeme(|s|, if |t| > |s| then [Use(s[p + 7..])] else [])
            else SameLexeme(s, LexemeAt(s, p), LexemeAt(t, p))
  {
    hide LexemeAt, At, WordEnd;
    LexemeCee(s, p);
    LexemeCee(t, p);
    AtPadded(s, t, p, CONFIG_WORD);
    if At(s, p, CONFIG_WORD) {
      AtFits(s, p, CONFIG_WORD);
      WordEndPadded(s, t, p + 7);
      var e := WordEnd(s, p + 7);
      assert t[p + 7..e] == s[p + 7..e] && s[p + 7..|s|] == s[p + 7..];
    }
  }

  lemma OptionBegins(s: seq<Byte>, p: nat)
    requires OptionAtEnd(s, p)
    ensures p + 7 <= |s| && s[p] == CEE
  {
    AtFirst(s, p, CONFIG_WORD);
  }

  /** Padding leaves every lexeme as it is, except an option word at the end. */
  lemma LexemePadded(s: seq<Byte>, t: seq<Byte>, p: nat)
    requires Pads(s, t) && p < |s| && !OptionAtEnd(s, p)
    ensures SameLexeme(s, LexemeAt(s, p), LexemeAt(t, p))
  {
    hide LexemeAt, OptionAtEnd, QuoteEnd, Directive;
    if s[p] == SLASH {
      SlashPadded(s, t, p);
    } else if s[p] == CEE {
      OptionWordPadded(s, t, p);
    } else {
      LexemeOther(s, p);
      LexemeOther(t, p);
      QuoteEndPadded(s, t, p + 1, s[p]);
      if s[p] == POUND { DirectivePadded(s, t, p); }
    }
  }

  lemma {:induction false} LexZeros(t: seq<Byte>, i: nat)
    requires forall k :: i <= k < |t| ==> t[k] == 0
    ensures Lex(t, i) == []
    decreases |t| - i
  {
    hide LexemeAt;
    if i < |t| {
      LexemeOther(t, i);
      LexZeros(t, i + 1);
    }
  }

  /** A file that ends inside no option word reports the same with its padding. */
  lemma {:induction false} LexPadded(s: seq<Byte>, t: seq<Byte>, p: nat)
    requires Pads(s, t) && forall q: nat :: Begins(s, p, q) ==> !OptionAtEnd(s, q)
    ensures Lex(t, p) == Lex(s, p)
    decreases |s| - p
  {
    hide LexemeAt, OptionAtEnd;
    if p >= |s| {
      LexZeros(t, p);
    } else {
      assert Begins(s, p, p);
      LexemePadded(s, t, p);
      var a, b := LexemeAt(s, p), LexemeAt(t, p);
      forall q: nat | Begins(s, a.end, q) ensures !OptionAtEnd(s, q) { assert Begins(s, p, q); }
      LexPadded(s, t, a.end);
      if b.end != a.end { LexZeros(t, b.end); }
    }
  }

  /** One that does reports that option in addition, if there is padding. */
  lemma {:induction false} LexPaddedOption(s: seq<Byte>, t: seq<Byte>, p: nat, q: nat)
    requires Pads(s, t) && Begins(s, p, q) && OptionAtEnd(s, q)
    ensures q + 7 <= |s| && Lex(t, p) == Lex(s, p) + if |t| > |s| then [Use(s[q + 7..])] else []
    decreases |s| - p
  {
    OptionBegins(s, q);
    hide LexemeAt, OptionAtEnd;
    if p == q || OptionAtEnd(s, p) {
      OptionBegins(s, p);
      OptionWordPadded(s, t, p);
      LexZeros(t, |s|);
    } else {
      LexemePadded(s, t, p);
      var a := LexemeAt(s, p);
      LexPaddedOption(s, t, a.end, q);
      Assoc(a.events, Lex(s, a.end), if |t| > |s| then [Use(s[q + 7..])] else []);
    }
  }

  /** What the padding adds: the option word in which the file ends, if there is padding at all. */
  lemma PaddingReports(file: seq<Byte>, width: nat)
    requires width > 0
    ensures var t := Padded(file, width);
            && (forall q: nat :: Begins(file, 0, q) && OptionAtEnd(file, q) ==>
                  q + 7 <= |file| && Lex(t, 0) == Lex(file, 0) + if |t| > |file| then [Use(file[q + 7..])] else [])
            && ((forall q: nat :: Begins(file, 0, q) ==> !OptionAtEnd(file, q)) ==> Lex(t, 0) == Lex(file, 0))
  {
    var t := Padded(file, width);
    forall q: nat | Begins(file, 0, q) && OptionAtEnd(file, q)
      ensures q + 7 <= |file| && Lex(t, 0) == Lex(file, 0) + if |t| > |file| then [Use(file[q + 7..])] else []
    {
      LexPaddedOption(file, t, 0, q);
    }
    if forall q: nat :: Begins(file, 0, q) ==> !OptionAtEnd(file, q) { LexPadded(file, t, 0); }
  }

  lemma OptionEndsInWordByte(s: seq<Byte>)
    ensures (exists q: nat :: OptionAtEnd(s, q)) ==> |s| > 0 && IsWordByte(s[|s| - 1])
  {
    if q: nat :| OptionAtEnd(s, q) {
      OptionBegins(s, q);
      assert s[q..q + 7][6] == UNDERSCORE;
    }
  }

  /** A file that does not end inside a word, such as one whose last byte is a newline, reports the same whatever
      the width of a machine word. */
  lemma PaddingIsInvisible(file: seq<Byte>, width: nat)
    requires width > 0 && (|file| > 0 ==> !IsWordByte(file[|file| - 1]))
    ensures Lex(Padded(file, width), 0) == Lex(file, 0)
  {
    OptionEndsInWordByte(file);
    PaddingReports(file, width);
  }

  /** Exactly when padding changes what is reported: it does if there is any, and some lexeme is an option word at the
      end of the file. */
  lemma PaddingIsInvisibleIff(file: seq<Byte>, width: nat)
    requires width > 0
    ensures Lex(Padded(file, width), 0) == Lex(file, 0)
       <==> |Padded(file, width)| == |file| || !exists q: nat :: Begins(file, 0, q) && OptionAtEnd(file, q)
  {
    PaddingReports(file, width);
  }

  /** A family on which it does: a file that is one option word reports nothing on its own, and its option when it is
      padded. */
  lemma LastWordIsMissed(option: seq<Byte>, width: nat)
    requires width > 0 && forall i :: 0 <= i < |option| ==> IsWordByte(option[i])
    requires |Padded(CONFIG_WORD + option, width)| > |CONFIG_WORD + option|
    ensures Lex(CONFIG_WORD + option, 0) == []
    ensures Lex(Padded(CONFIG_WORD + option, width), 0) == [Use(option)]
  {
    var file := CONFIG_WORD + option;
    OptionWordAt(file, option);
    assert file[..7] == CONFIG_WORD && file[7..] == option;
    assert Begins(file, 0, 0) && OptionAtEnd(file, 0);
    PaddingReports(file, width);
  }

  lemma OptionWordAt(s: seq<Byte>, option: seq<Byte>)
    requires |s| >= 7 + |option| && s[..7 + |option|] == CONFIG_WORD + option
    requires (forall i :: 0 <= i < |option| ==> IsWordByte(option[i])) && (|s| > 7 + |option| ==> !IsWordByte(s[7 + |option|]))
    ensures LexemeAt(s, 0) == Lexeme(7 + |option|, if |s| > 7 + |option| then [Use(option)] else [])
  {
    assert s[0] == CEE && s[..7] == CONFIG_WORD by { assert s[..7] == s[..7 + |option|][..7]; }
    AtTwo(s, 0, SLASH, STAR);
    AtTwo(s, 0, SLASH, SLASH);
    var e := WordEnd(s, 7);
    assert forall k {:trigger s[k]} :: 7 <= k < 7 + |option| ==> s[k] == option[k - 7];
    assert e == 7 + |option|;
    assert s[7..e] == option;
  }

  // ----- the program -----

  /** The names being collected lie before the current byte. */
  predicate DotBehind(at: Label, i: nat) {
    match at
    case IncludeDquote(dot) => dot <= i
    case IncludeLangle(dot) => dot <= i
    case CeeWord(dot) => dot <= i
    case _ => true
  }

  lemma DotStaysBehind(s: seq<Byte>, i: nat, at: Label)
    requires i < |s| && DotBehind(at, i)
    ensures DotBehind(Next(s, i, at), i + 1)
  {
  }

  /** From one label to the next, with `c` in the register and `next` behind it. */
  method Goto(memory: seq<Byte>, next: nat, c: Byte, from: Label) returns (at: Label, reported: seq<Event>)
    requires 0 < next <= |memory| && c == memory[next - 1] && DotBehind(from, next - 1)
    ensures at == Next(memory, next - 1, from) && reported == Report(memory, next - 1, from)
  {
    at, reported := from, [];
    // the label __start, with c as the current byte
    var again :=
      if c == SLASH then Slash
      else if c == SQUOTE then Squote
      else if c == DQUOTE then Dquote
      else if c == POUND then Pound
      else if c == CEE then
        if next >= 2 && IsWordByte(memory[next - 2]) then Start else Cee(0)
      else Start;
    match at {
      case Start => at := again;
      case SlashSlash =>
        if c == NEWLINE { at := Start; } else if c == BACKSLASH { at := SlashSlashSkip; }
      case SlashSlashSkip => at := SlashSlash;
      case Slash =>
        if c == SLASH { at := SlashSlash; } else if c == STAR { at := InComment; } else { at := again; }
      case InComment =>
        if c == STAR { at := CommentStar; }
      case CommentStar =>
        if c == SLASH { at := Start; } else if c != STAR { at := InComment; }
      case Squote =>
        if c == SQUOTE { at := Start; } else if c == BACKSLASH { at := SquoteSkip; }
      case SquoteSkip => at := Squote;
      case Dquote =>
        if c == DQUOTE { at := Start; } else if c == BACKSLASH { at := DquoteSkip; }
      case DquoteSkip => at := Dquote;
      case Pound =>
        if !IsBlank(c) {
          at := if c == 105 then PoundI(0) else if c == 100 then PoundD(0) else if c == 117 then PoundU(0) else again;
        }
      case PoundInclude =>
        if !IsBlank(c) {
          var mapDot := next;
          at := if c == DQUOTE then IncludeDquote(mapDot) else if c == LANGLE then IncludeLangle(mapDot) else again;
        }
      case IncludeDquote(mapDot) =>
        if c == DQUOTE { reported := [Include(0, memory[mapDot..next - 1])]; }
        if c == NEWLINE || c == DQUOTE { at := Start; }
      case IncludeLangle(mapDot) =>
        if c == RANGLE { reported := [Include(1, memory[mapDot..next - 1])]; }
        if c == NEWLINE || c == RANGLE { at := Start; }
      case PoundDefine =>
        if !IsBlank(c) { at := if c == CEE then DefineConfig(0) else again; }
      case DefineWord =>
        if !IsWordByte(c) { at := again; }
      case CeeWord(mapDot) =>
        if !IsWordByte(c) {
          reported := [Use(memory[mapDot..next - 1])];
          at := again;
        }
      case PoundI(n) =>
        at := if n < |NCLUDE| && c == NCLUDE[n] then (if n + 1 == |NCLUDE| then PoundInclude else PoundI(n + 1)) else again;
      case PoundD(n) =>
        at := if n < |EFINE| && c == EFINE[n] then (if n + 1 == |EFINE| then PoundDefine else PoundD(n + 1)) else again;
      case PoundU(n) =>
        at := if n < |NDEF| && c == NDEF[n] then (if n + 1 == |NDEF| then PoundDefine else PoundU(n + 1)) else again;
      case DefineConfig(n) =>
        at := if n < |ONFIG_| && c == ONFIG_[n] then (if n + 1 == |ONFIG_| then DefineWord else DefineConfig(n + 1)) else again;
      case Cee(n) =>
        at := if n < |ONFIG_| && c == ONFIG_[n] then (if n + 1 == |ONFIG_| then CeeWord(next) else Cee(n + 1)) else again;
    }
  }

  /** The whole scan of one file. */
  method StateMachine(file: seq<Byte>, width: nat, littleEndian: bool) returns (events: seq<Event>)
    requires width > 0
    ensures events == Lex(Padded(file, width), 0)
  {
    var r := new Reader(file, width, littleEndian);
    ghost var s := Padded(file, width);
    AutomatonIsLexer(s, 0);
    RunEnd(s, Start);
    hide Run, Lex, Padded, Next, Report;
    events := [];
    var at := Start;
    while true
      invariant r.Valid() && fresh(r) && r.memory == s && r.next <= |s|
      invariant DotBehind(at, r.next)
      invariant events + Run(s, r.next, at) == Run(s, 0, Start)
      decreases |s| - r.next
    {
      var more := r.GetNext();
      if !more {
        RunEnd(s, at);
        break;
      }
      var c := r.Current();
      DotStaysBehind(s, r.next - 1, at);
      RunStep(s, r.next - 1, at);
      var reported;
      ghost var before := events;
      at, reported := Goto(r.memory, r.next, c, at);
      events := events + reported;
      Assoc(before, reported, Run(s, r.next, at));
    }
    assert events + [] == events;
  }
}
