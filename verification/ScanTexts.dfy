/** What the scanner makes of texts as they are written in source files. */
module ScanTexts {
  import opened Scanner
  import opened Texts
  import opened WordReader

  const CONFIG: seq<Byte> := Bytes("CONFIG_")
  const HASH: seq<Byte> := Bytes("#")
  const INCLUDE: seq<Byte> := Bytes("include")
  const DEFINE: seq<Byte> := Bytes("define")
  const UNDEF: seq<Byte> := Bytes("undef")
  const NEW_LINE: Byte := Bytes("\n")[0]
  const QUOTE: Byte := Bytes("\"")[0]
  const APOSTROPHE: Byte := Bytes("'")[0]
  const ESCAPE: Byte := Bytes("\\")[0]
  const LESS: Byte := Bytes("<")[0]
  const GREATER: Byte := Bytes(">")[0]
  const COMMENT: seq<Byte> := Bytes("/*")
  const COMMENT_END: seq<Byte> := Bytes("*/")
  const LINE_COMMENT: seq<Byte> := Bytes("//")
  const BEGINNINGS: seq<Byte> := Bytes("/\"'#C")

  /** The word stands at p. */
  predicate Stands(s: seq<Byte>, p: int, word: seq<Byte>) {
    0 <= p && p + |word| <= |s| && s[p..p + |word|] == word
  }

  /** From i to e there are characters of names only, and e ends them. */
  predicate NameStands(s: seq<Byte>, i: int, e: int) {
    0 <= i <= e <= |s| && (forall k :: i <= k < e ==> IsNameChar(s[k])) && (e < |s| ==> !IsNameChar(s[e]))
  }

  /** From i to e there are blanks and tabs only, and e ends them. */
  predicate GapStands(s: seq<Byte>, i: int, e: int) {
    0 <= i <= e < |s| && (forall k :: i <= k < e ==> IsBlankOrTab(s[k])) && !IsBlankOrTab(s[e])
  }

  // ----- the scanner's bytes -----

  lemma Keywords()
    ensures CONFIG == CONFIG_WORD && HASH == [POUND]
    ensures INCLUDE == INCLUDE_WORD && DEFINE == DEFINE_WORD && UNDEF == UNDEF_WORD
  {
  }

  lemma Signs()
    ensures NEW_LINE == NEWLINE && QUOTE == DQUOTE && APOSTROPHE == SQUOTE && ESCAPE == BACKSLASH
    ensures LESS == LANGLE && GREATER == RANGLE && COMMENT == [SLASH, STAR] && COMMENT_END == [STAR, SLASH]
    ensures LINE_COMMENT == [SLASH, SLASH]
  {
  }

  lemma StandsAt(s: seq<Byte>, p: nat, word: seq<Byte>)
    ensures Stands(s, p, word) <==> At(s, p, word)
    ensures Stands(s, p, word) && |word| > 0 ==> s[p] == word[0]
  {
    if Stands(s, p, word) && |word| > 0 { assert s[p] == s[p..p + |word|][0]; }
  }

  lemma {:induction false} WordEndIs(s: seq<Byte>, i: nat, e: nat)
    requires NameStands(s, i, e)
    ensures WordEnd(s, i) == e
    decreases e - i
  {
    hide IsNameChar;
    if i < |s| { NameCharIff(s[i]); }
    if i < e { WordEndIs(s, i + 1, e); }
  }

  lemma {:induction false} SkipBlanksIs(s: seq<Byte>, i: nat, e: nat)
    requires GapStands(s, i, e)
    ensures SkipBlanks(s, i) == e
    decreases e - i
  {
    hide IsBlankOrTab;
    BlankOrTabIff(s[i]);
    if i < e { SkipBlanksIs(s, i + 1, e); }
  }

  lemma LexStep(s: seq<Byte>, p: nat, end: nat, events: seq<Event>)
    requires p < |s| && LexemeAt(s, p) == Lexeme(end, events)
    ensures Lex(s, p) == events + Lex(s, end)
    ensures events == [] ==> Lex(s, p) == Lex(s, end)
  {
  }

  // ----- option words -----

  /** `CONFIG_NAME`, not part of a longer word, is the use of NAME. */
  lemma OptionIsReported(s: seq<Byte>, p: nat, e: nat)
    requires Stands(s, p, CONFIG) && (p > 0 ==> !IsNameChar(s[p - 1]))
    requires NameStands(s, p + 7, e) && e < |s|
    ensures Lex(s, p) == [Use(s[p + 7..e])] + Lex(s, e)
  {
    Keywords();
    StandsAt(s, p, CONFIG);
    WordEndIs(s, p + 7, e);
    if p > 0 { NameCharIff(s[p - 1]); }
    hide Stands, NameStands, IsNameChar, At, WordEnd, LexemeAt, Lex;
    LexemeCee(s, p);
    LexStep(s, p, e, [Use(s[p + 7..e])]);
  }

  /** In particular: the option and one byte behind it. */
  lemma OptionText(name: seq<Byte>, last: Byte)
    requires IsName(name) && !IsNameChar(last) && last !in BEGINNINGS
    ensures Lex(CONFIG + name + [last], 0) == [Use(name)]
  {
    var s := CONFIG + name + [last];
    var e := 7 + |name|;
    hide IsNameChar, Lex;
    assert s[0..7] == CONFIG && s[7..e] == name && s[e] == last;
    OptionIsReported(s, 0, e);
    OtherIsSkipped(s, e);
    LexEnd(s);
  }

  lemma LexEnd(s: seq<Byte>)
    ensures Lex(s, |s|) == []
  {
  }

  /** Inside a longer word it is nothing. */
  lemma OptionInWordIsNone(s: seq<Byte>, p: nat)
    requires p > 0 && Stands(s, p, CONFIG) && IsNameChar(s[p - 1])
    ensures Lex(s, p) == Lex(s, p + 1)
  {
    Keywords();
    StandsAt(s, p, CONFIG);
    NameCharIff(s[p - 1]);
    hide Stands, IsNameChar, At, WordEnd, LexemeAt, Lex;
    LexemeCee(s, p);
    LexStep(s, p, p + 1, []);
  }

  // ----- directives -----

  /** The three words exclude each other. */
  lemma OneWord(s: seq<Byte>, q: nat)
    ensures At(s, q, INCLUDE_WORD) ==> !At(s, q, DEFINE_WORD) && !At(s, q, UNDEF_WORD)
    ensures At(s, q, DEFINE_WORD) ==> !At(s, q, UNDEF_WORD)
  {
    AtUnfold(s, q, INCLUDE_WORD);
    AtUnfold(s, q, DEFINE_WORD);
    AtUnfold(s, q, UNDEF_WORD);
  }

  /** An option that is defined or undefined is not used. */
  lemma DefinedIsNotUsed(s: seq<Byte>, p: nat, q: nat, word: seq<Byte>, r: nat, e: nat)
    requires Stands(s, p, HASH) && GapStands(s, p + 1, q) && word in {DEFINE, UNDEF} && Stands(s, q, word)
    requires GapStands(s, q + |word|, r) && Stands(s, r, CONFIG) && NameStands(s, r + 7, e)
    ensures Lex(s, p) == Lex(s, e)
  {
    hide IsNameChar, IsBlankOrTab, At, SkipBlanks, WordEnd, Lex;
    Keywords();
    WordEndIs(s, r + 7, e);
    SkipBlanksIs(s, p + 1, q);
    SkipBlanksIs(s, q + |word|, r);
    hide NameStands, GapStands;
    StandsAt(s, p, HASH);
    StandsAt(s, q, word);
    StandsAt(s, r, CONFIG);
    OneWord(s, q);
    Fits(s, q, word);
    Fits(s, r, CONFIG);
    hide Stands;
    DefinedHere(s, p, q, word, r);
  }

  lemma Fits(s: seq<Byte>, p: nat, word: seq<Byte>)
    requires Stands(s, p, word)
    ensures p + |word| <= |s|
  {
  }

  lemma DefinedHere(s: seq<Byte>, p: nat, q: nat, word: seq<Byte>, r: nat)
    requires p < |s| && s[p] == POUND && SkipBlanks(s, p + 1) == q && !At(s, q, INCLUDE_WORD)
    requires (word == DEFINE_WORD && At(s, q, word)) || (word == UNDEF_WORD && At(s, q, word) && !At(s, q, DEFINE_WORD))
    requires q + |word| <= |s| && SkipBlanks(s, q + |word|) == r && At(s, r, CONFIG_WORD) && r + 7 <= |s|
    ensures Lex(s, p) == Lex(s, WordEnd(s, r + 7))
  {
    LexemeOther(s, p);
    DirectiveDefine(s, p, q, word);
    hide At, SkipBlanks, WordEnd, Directive, LexemeAt, Lex;
    LexStep(s, p, WordEnd(s, r + 7), []);
  }

  /** The bytes that enclose the name of an included file, and where the search for it starts. */
  predicate Encloses(open: Byte, close: Byte, start: nat) {
    (open == QUOTE && close == QUOTE && start == 0) || (open == LESS && close == GREATER && start == 1)
  }

  /** The name of an included file is reported, with the first directory to look in. */
  lemma IncludeIsReported(s: seq<Byte>, p: nat, q: nat, r: nat, e: nat, start: nat)
    requires Stands(s, p, HASH) && GapStands(s, p + 1, q) && Stands(s, q, INCLUDE) && GapStands(s, q + 7, r)
    requires r < e < |s| && Encloses(s[r], s[e], start) && forall k :: r < k < e ==> s[k] != s[e] && s[k] != NEW_LINE
    ensures Lex(s, p) == [Include(start, s[r + 1..e])] + Lex(s, e + 1)
  {
    hide IsBlankOrTab, At, SkipBlanks, NameEnd, LexemeAt, Lex;
    Keywords();
    SkipBlanksIs(s, p + 1, q);
    SkipBlanksIs(s, q + 7, r);
    hide GapStands;
    StandsAt(s, p, HASH);
    StandsAt(s, q, INCLUDE);
    Fits(s, q, INCLUDE);
    hide Stands;
    Signs();
    NameEndIs(s, r + 1, e, s[e]);
    IncludeHere(s, p, q, r);
    assert LexemeAt(s, p) == IncludeName(s, r + 1, start, s[e]);
    LexStep(s, p, e + 1, [Include(start, s[r + 1..e])]);
  }

  lemma IncludeHere(s: seq<Byte>, p: nat, q: nat, r: nat)
    requires p < |s| && s[p] == POUND && SkipBlanks(s, p + 1) == q && At(s, q, INCLUDE_WORD) && q + 7 <= |s|
    requires SkipBlanks(s, q + 7) == r < |s| && s[r] in {DQUOTE, LANGLE}
    ensures LexemeAt(s, p)
         == IncludeName(s, r + 1, if s[r] == DQUOTE then 0 else 1, if s[r] == DQUOTE then DQUOTE else RANGLE)
  {
    LexemeOther(s, p);
    hide At, SkipBlanks, OptionDefined, IncludeName, LexemeAt;
    assert Directive(s, p) == Included(s, p, q + 7);
  }

  lemma {:induction false} NameEndIs(s: seq<Byte>, i: nat, e: nat, close: Byte)
    requires i <= e < |s| && s[e] == close && forall k :: i <= k < e ==> s[k] != close && s[k] != NEWLINE
    ensures NameEnd(s, i, close) == e
    decreases e - i
  {
    if i < e { NameEndIs(s, i + 1, e, close); }
  }

  // ----- what is skipped -----

  /** A comment, whatever stands in it. */
  lemma CommentIsSkipped(s: seq<Byte>, p: nat, e: nat)
    requires Stands(s, p, COMMENT) && p + 2 <= e && Stands(s, e, COMMENT_END)
    requires forall k :: p + 2 <= k < e ==> !Stands(s, k, COMMENT_END)
    ensures Lex(s, p) == Lex(s, e + 2)
  {
    hide Lex, CommentEnd, Stands;
    Signs();
    PairStands(s, p, SLASH, STAR);
    PairStands(s, e, STAR, SLASH);
    CommentEndIs(s, p + 2, e);
    CommentHere(s, p);
  }

  lemma CommentHere(s: seq<Byte>, p: nat)
    requires p + 2 <= |s| && s[p] == SLASH && s[p + 1] == STAR
    ensures Lex(s, p) == Lex(s, CommentEnd(s, p + 2))
  {
    hide Lex, LexemeAt, CommentEnd;
    LexemeSlash(s, p);
    LexStep(s, p, CommentEnd(s, p + 2), []);
  }

  lemma PairStands(s: seq<Byte>, p: nat, a: Byte, b: Byte)
    ensures Stands(s, p, [a, b]) <==> p + 1 < |s| && s[p] == a && s[p + 1] == b
  {
    if p + 2 <= |s| { assert s[p..p + 2] == [s[p], s[p + 1]]; }
  }

  lemma {:induction false} CommentEndIs(s: seq<Byte>, i: nat, e: nat)
    requires i <= e && e + 1 < |s| && s[e] == STAR && s[e + 1] == SLASH
    requires forall k :: i <= k < e ==> !Stands(s, k, [STAR, SLASH])
    ensures CommentEnd(s, i) == e + 2
    decreases e - i
  {
    if i < e {
      PairStands(s, i, STAR, SLASH);
      CommentEndIs(s, i + 1, e);
    }
  }

  /** What begins a text that ends with the quote: a literal of either kind, or a comment up to the end of its line. */
  predicate Quotes(open: seq<Byte>, quote: Byte) {
    || (open == [QUOTE] && quote == QUOTE) || (open == [APOSTROPHE] && quote == APOSTROPHE)
    || (open == LINE_COMMENT && quote == NEW_LINE)
  }

  /** From i to e a backslash protects the byte behind it, and no other byte is the quote, which stands at e. */
  predicate Quoted(s: seq<Byte>, i: nat, e: nat, quote: Byte)
    decreases e - i
  {
    && i <= e < |s|
    && if i == e then s[e] == quote
       else if s[i] == ESCAPE then Quoted(s, i + 2, e, quote)
       else s[i] != quote && Quoted(s, i + 1, e, quote)
  }

  lemma {:induction false} QuoteEndIs(s: seq<Byte>, i: nat, e: nat, quote: Byte)
    requires Quoted(s, i, e, quote) && quote != ESCAPE
    ensures QuoteEnd(s, i, quote) == e + 1
    decreases e - i
  {
    Signs();
    if i < e { QuoteEndIs(s, if s[i] == ESCAPE then i + 2 else i + 1, e, quote); }
  }

  /** A literal, or a comment up to the end of its line, whatever stands in it. */
  lemma QuotedIsSkipped(s: seq<Byte>, p: nat, open: seq<Byte>, e: nat, quote: Byte)
    requires Quotes(open, quote) && Stands(s, p, open) && Quoted(s, p + |open|, e, quote)
    ensures Lex(s, p) == Lex(s, e + 1)
  {
    hide Lex, QuoteEnd, Stands, Quoted;
    Signs();
    StandsAt(s, p, open);
    Fits(s, p, open);
    if |open| == 2 { PairStands(s, p, SLASH, SLASH); }
    QuoteEndIs(s, p + |open|, e, quote);
    QuoteHere(s, p, |open|, quote);
  }

  lemma QuoteHere(s: seq<Byte>, p: nat, n: nat, quote: Byte)
    requires 0 < n && p + n <= |s|
    requires (n == 1 && s[p] == quote && quote in {DQUOTE, SQUOTE})
             || (n == 2 && s[p] == SLASH && s[p + 1] == SLASH && quote == NEWLINE)
    ensures Lex(s, p) == Lex(s, QuoteEnd(s, p + n, quote))
  {
    hide Lex, LexemeAt, QuoteEnd;
    if n == 2 { LexemeSlash(s, p); } else { LexemeOther(s, p); }
    LexStep(s, p, QuoteEnd(s, p + n, quote), []);
  }

  /** Any other byte is passed over. */
  lemma OtherIsSkipped(s: seq<Byte>, p: nat)
    requires p < |s| && s[p] !in BEGINNINGS
    ensures Lex(s, p) == Lex(s, p + 1)
  {
    var t := BEGINNINGS;
    assert t[0] == SLASH && t[1] == DQUOTE && t[2] == SQUOTE && t[3] == POUND && t[4] == CEE;
    hide LexemeAt, Lex;
    LexemeOther(s, p);
    LexStep(s, p, p + 1, []);
  }
}
