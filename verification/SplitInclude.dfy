/** The merge of new configuration values into one-line headers (scripts/split-include.c). */
module SplitInclude {
  import opened ConfigCache
  import opened Scanner
  import opened Texts
  import opened WordReader

  const DOT_H: seq<Byte> := [46, 104]

  predicate IsSpace(b: Byte) {
    b == 32 || 9 <= b <= 13
  }

  // ----- lines and their files -----

  /** A line as fgets delivers it. */
  predicate IsLine(line: seq<Byte>) {
    |line| > 0 && line[|line| - 1] == NEWLINE && forall i :: 0 <= i < |line| - 1 ==> line[i] != NEWLINE
  }

  /** Where `CONFIG_` first stands; the length of the text if it does not. */
  function FindConfig(s: seq<Byte>): (n: nat)
    ensures n <= |s| && (n < |s| ==> n + 7 <= |s| && s[n..n + 7] == CONFIG_WORD)
  {
    if |s| < 7 then |s| else if s[..7] == CONFIG_WORD then 0 else 1 + FindConfig(s[1..])
  }

  predicate IsDirective(line: seq<Byte>) {
    |line| > 0 && line[0] == POUND && FindConfig(line) < |line|
  }

  function UpToSpace(s: seq<Byte>): (n: nat)
    ensures n <= |s| && forall i :: 0 <= i < n ==> !IsSpace(s[i])
  {
    if |s| == 0 || IsSpace(s[0]) then 0 else 1 + UpToSpace(s[1..])
  }

  /** The option a line is about. */
  function Symbol(line: seq<Byte>): Name
    requires IsDirective(line)
  {
    var rest := line[FindConfig(line) + 7..];
    rest[..UpToSpace(rest)]
  }

  /** The file that holds an option: the header that mkdep makes the users of the option depend on. */
  function HeaderFile(option: Name): Name {
    Header(option) + DOT_H
  }

  function FileOf(line: seq<Byte>): Name
    requires IsDirective(line)
  {
    HeaderFile(Symbol(line))
  }

  predicate IsHeaderFile(name: Name) {
    |name| >= 2 && name[|name| - 2..] == DOT_H
  }

  function LineRead(s: seq<Byte>): seq<Byte> {
    if |s| == 0 then [] else if s[0] == NEWLINE then [NEWLINE] else [s[0]] + LineRead(s[1..])
  }

  // ----- the merge, one line at a time -----

  type Files = map<Name, seq<Byte>>

  /** The files, the files opened for writing so far, and what the read buffer holds. */
  datatype State = State(files: Files, log: seq<Name>, buffer: seq<Byte>)

  /** What the buffer holds after a file was read: an empty file leaves it as it is. */
  function Read(buffer: seq<Byte>, files: Files, file: Name): seq<Byte> {
    if file in files && files[file] != [] then LineRead(files[file]) else buffer
  }

  function MergeLine(s: State, line: seq<Byte>): State {
    if !IsDirective(line) then s else
    var file := FileOf(line);
    var buffer := Read(s.buffer, s.files, file);
    if file in s.files && buffer == line then State(s.files, s.log, buffer)
    else State(s.files[file := line], s.log + [file], buffer)
  }

  function MergeLines(s: State, lines: seq<seq<Byte>>): State
    decreases |lines|
  {
    if |lines| == 0 then s else MergeLines(MergeLine(s, lines[0]), lines[1..])
  }

  function Targets(lines: seq<seq<Byte>>): seq<Name> {
    if |lines| == 0 then []
    else (if IsDirective(lines[0]) then [FileOf(lines[0])] else []) + Targets(lines[1..])
  }

  function CleanFile(s: State, file: Name, targets: seq<Name>): State {
    if file in targets || file !in s.files || s.files[file] == [] then s
    else State(s.files[file := []], s.log + [file], s.buffer)
  }

  function CleanFiles(s: State, found: seq<Name>, targets: seq<Name>): State
    decreases |found|
  {
    if |found| == 0 then s else CleanFiles(CleanFile(s, found[0], targets), found[1..], targets)
  }

  // ----- what the merge leaves -----

  /** The buffer before line k, when the files of the earlier lines are still as they were. */
  function BufferBefore(files: Files, buffer: seq<Byte>, lines: seq<seq<Byte>>, k: nat): seq<Byte>
    requires k <= |lines|
  {
    if k == 0 then buffer else
    var before := BufferBefore(files, buffer, lines, k - 1);
    if IsDirective(lines[k - 1]) then Read(before, files, FileOf(lines[k - 1])) else before
  }

  /** Line k finds its file there, and in the buffer what it would write. */
  predicate LeftAlone(files: Files, buffer: seq<Byte>, lines: seq<seq<Byte>>, k: nat)
    requires k < |lines| && IsDirective(lines[k])
  {
    var file := FileOf(lines[k]);
    file in files && Read(BufferBefore(files, buffer, lines, k), files, file) == lines[k]
  }

  lemma {:induction false} MergeOthers(s: State, lines: seq<seq<Byte>>, file: Name)
    requires file !in Targets(lines)
    ensures var t := MergeLines(s, lines);
            && (file in t.files <==> file in s.files) && (file in s.files ==> t.files[file] == s.files[file])
            && (file in t.log <==> file in s.log)
    decreases |lines|
  {
    if |lines| > 0 { MergeOthers(MergeLine(s, lines[0]), lines[1..], file); }
  }

  lemma {:induction false} BufferShift(files: Files, buffer: seq<Byte>, lines: seq<seq<Byte>>, k: nat)
    requires 1 <= k <= |lines|
    ensures BufferBefore(files, buffer, lines, k)
            == BufferBefore(files, if IsDirective(lines[0]) then Read(buffer, files, FileOf(lines[0])) else buffer,
                            lines[1..], k - 1)
    decreases k
  {
    if k > 1 {
      BufferShift(files, buffer, lines, k - 1);
      assert lines[k - 1] == lines[1..][k - 2];
    }
  }

  /** Files agree on the targets of some lines, so the buffer does. */
  lemma {:induction false} BufferFrame(files: Files, files': Files, buffer: seq<Byte>, lines: seq<seq<Byte>>, k: nat)
    requires k <= |lines|
    requires forall j :: 0 <= j < k && IsDirective(lines[j]) ==>
               var f := FileOf(lines[j]); (f in files <==> f in files') && (f in files ==> files[f] == files'[f])
    ensures BufferBefore(files, buffer, lines, k) == BufferBefore(files', buffer, lines, k)
  {
    if k > 0 { BufferFrame(files, files', buffer, lines, k - 1); }
  }

  lemma {:induction false} TargetOf(lines: seq<seq<Byte>>, k: nat)
    requires k < |lines| && IsDirective(lines[k])
    ensures FileOf(lines[k]) in Targets(lines)
  {
    if k > 0 { TargetOf(lines[1..], k - 1); }
  }

  lemma DifferentTail(x: Name, names: seq<Name>)
    requires AllDifferent([x] + names)
    ensures AllDifferent(names) && x !in names
  {
    assert forall j {:trigger names[j]} :: 0 <= j < |names| ==> names[j] == ([x] + names)[j + 1];
    assert ([x] + names)[0] == x;
  }

  lemma TargetsTail(lines: seq<seq<Byte>>)
    requires |lines| > 0 && AllDifferent(Targets(lines))
    ensures AllDifferent(Targets(lines[1..]))
    ensures IsDirective(lines[0]) ==> FileOf(lines[0]) !in Targets(lines[1..])
  {
    hide FileOf, IsDirective, AllDifferent;
    if IsDirective(lines[0]) {
      DifferentTail(FileOf(lines[0]), Targets(lines[1..]));
    } else {
      assert [] + Targets(lines[1..]) == Targets(lines[1..]);
    }
  }

  /** The first line changes neither the files of the others nor what they find in the buffer. */
  lemma FirstLineApart(s: State, lines: seq<seq<Byte>>, k: nat)
    requires AllDifferent(Targets(lines)) && 1 <= k < |lines| && IsDirective(lines[k])
    ensures var next, rest, file := MergeLine(s, lines[0]), lines[1..], FileOf(lines[k]);
            && LeftAlone(next.files, next.buffer, rest, k - 1) == LeftAlone(s.files, s.buffer, lines, k)
            && (file in next.files <==> file in s.files) && (file in s.files ==> next.files[file] == s.files[file])
            && (file in next.log <==> file in s.log)
  {
    hide FileOf, IsDirective, AllDifferent, LineRead, Targets;
    var next, rest := MergeLine(s, lines[0]), lines[1..];
    TargetsTail(lines);
    forall j | 0 <= j < |rest| && IsDirective(rest[j]) ensures FileOf(rest[j]) in Targets(rest) { TargetOf(rest, j); }
    assert rest[k - 1] == lines[k];
    hide BufferBefore;
    BufferShift(s.files, s.buffer, lines, k);
    BufferFrame(next.files, s.files, next.buffer, rest, k - 1);
  }

  /** With a file for every line, the file of line k ends as the line or, if left alone, as it was. */
  lemma {:induction false} MergeExactly(s: State, lines: seq<seq<Byte>>, k: nat)
    requires AllDifferent(Targets(lines)) && k < |lines| && IsDirective(lines[k])
    ensures var file, t := FileOf(lines[k]), MergeLines(s, lines);
            && file in t.files
            && (LeftAlone(s.files, s.buffer, lines, k) ==> file in s.files)
            && t.files[file] == (if LeftAlone(s.files, s.buffer, lines, k) then s.files[file] else lines[k])
            && (file !in s.log ==> (file in t.log <==> !LeftAlone(s.files, s.buffer, lines, k)))
    decreases |lines|
  {
    var next, rest := MergeLine(s, lines[0]), lines[1..];
    TargetsTail(lines);
    if k == 0 {
      MergeOthers(next, rest, FileOf(lines[k]));
    } else {
      FirstLineApart(s, lines, k);
      MergeExactly(next, rest, k - 1);
    }
  }

  /** Whatever the old files hold: the file of line k ends as that line if and only if it was not left alone with
      something else in it. */
  lemma MergedIff(s: State, lines: seq<seq<Byte>>, k: nat)
    requires AllDifferent(Targets(lines)) && k < |lines| && IsDirective(lines[k])
    ensures var file, t := FileOf(lines[k]), MergeLines(s, lines);
            && file in t.files
            && (t.files[file] == lines[k]
                <==> !(LeftAlone(s.files, s.buffer, lines, k) && s.files[file] != lines[k]))
  {
    MergeExactly(s, lines, k);
  }

  /** The family on which it goes wrong: an empty file leaves in the buffer what an earlier file held. When the file of
      the first line holds the second line, the empty file of the second line stays empty. */
  lemma EmptyFileIsMissed(a: seq<Byte>, b: seq<Byte>, log: seq<Name>, buffer: seq<Byte>)
    requires IsDirective(a) && IsDirective(b) && IsLine(b) && FileOf(a) != FileOf(b)
    ensures var t := MergeLines(State(map[FileOf(a) := b, FileOf(b) := []], log, buffer), [a, b]);
            FileOf(b) in t.files && t.files[FileOf(b)] == []
  {
    hide FileOf, IsDirective, LineRead;
    FirstLineOfLine(b);
    var s := State(map[FileOf(a) := b, FileOf(b) := []], log, buffer);
    var t := MergeLine(s, a);
    assert t.buffer == b && t.files[FileOf(b)] == [];
    assert MergeLine(t, b) == t;
    MergeTwo(s, a, b);
  }

  lemma MergeTwo(s: State, a: seq<Byte>, b: seq<Byte>)
    ensures MergeLines(s, [a, b]) == MergeLine(MergeLine(s, a), b)
  {
    hide MergeLine;
    assert [a, b][1..] == [b] && [b][1..] == [];
    assert MergeLines(MergeLine(s, a), [b]) == MergeLine(MergeLine(s, a), b);
  }

  lemma {:induction false} FirstLineOfLine(line: seq<Byte>)
    requires IsLine(line)
    ensures LineRead(line) == line
    decreases |line|
  {
    if |line| > 1 {
      assert line[0] != NEWLINE && IsLine(line[1..]);
      FirstLineOfLine(line[1..]);
    }
  }

  // ----- cleaning -----

  lemma {:induction false} CleanExactly(s: State, found: seq<Name>, targets: seq<Name>, file: Name)
    ensures var t := CleanFiles(s, found, targets);
            && (file in t.files <==> file in s.files)
            && (file in s.files ==> t.files[file] == if file in found && file !in targets then [] else s.files[file])
            && (file in t.log <==> file in s.log
                                   || (file in found && file !in targets && file in s.files && s.files[file] != []))
    decreases |found|
  {
    if |found| > 0 { CleanExactly(CleanFile(s, found[0], targets), found[1..], targets, file); }
  }

  // ----- the whole program -----

  /** Every old header is empty or holds the line of its own option. */
  predicate OwnLines(files: Files) {
    forall f :: f in files && IsHeaderFile(f) && files[f] != [] ==>
      IsLine(files[f]) && IsDirective(files[f]) && FileOf(files[f]) == f
  }

  /** What `find` lists: every header there is. */
  ghost predicate Lists(found: seq<Name>, files: Files) {
    forall f :: f in found <==> f in files && IsHeaderFile(f)
  }

  function Final(s: State, lines: seq<seq<Byte>>, found: seq<Name>): State {
    CleanFiles(MergeLines(s, lines), found, Targets(lines))
  }

  /** The buffer never holds line k by accident. */
  lemma {:induction false} BufferIsOther(files: Files, buffer: seq<Byte>, lines: seq<seq<Byte>>, k: nat, line: seq<Byte>)
    requires k <= |lines| && OwnLines(files) && buffer != line && IsDirective(line)
    requires forall j :: 0 <= j < k && IsDirective(lines[j]) ==> FileOf(lines[j]) != FileOf(line)
    ensures BufferBefore(files, buffer, lines, k) != line
  {
    if k > 0 {
      BufferIsOther(files, buffer, lines, k - 1, line);
      if IsDirective(lines[k - 1]) {
        var file := FileOf(lines[k - 1]);
        FileIsHeader(lines[k - 1]);
        if file in files && files[file] != [] { FirstLineOfLine(files[file]); }
      }
    }
  }

  lemma FileIsHeader(line: seq<Byte>)
    requires IsDirective(line)
    ensures IsHeaderFile(FileOf(line))
  {
    var h := Header(Symbol(line));
    assert (h + DOT_H)[|h|..] == DOT_H;
  }

  lemma {:induction false} EarlierFilesDiffer(lines: seq<seq<Byte>>, j: nat, k: nat)
    requires AllDifferent(Targets(lines)) && j < k < |lines| && IsDirective(lines[j]) && IsDirective(lines[k])
    ensures FileOf(lines[j]) != FileOf(lines[k])
    decreases |lines|
  {
    TargetsTail(lines);
    if j == 0 {
      TargetOf(lines[1..], k - 1);
    } else {
      EarlierFilesDiffer(lines[1..], j - 1, k - 1);
    }
  }

  /** The five cases: a line's file ends as the line, and is written exactly when it was not that before; any other
      header ends empty, and is written exactly when it was not empty before; nothing else changes. */
  lemma FiveCases(files: Files, buffer: seq<Byte>, lines: seq<seq<Byte>>, found: seq<Name>, file: Name)
    requires AllDifferent(Targets(lines)) && OwnLines(files)
    requires buffer !in lines && Lists(found, MergeLines(State(files, [], buffer), lines).files)
    ensures var t := Final(State(files, [], buffer), lines, found);
            && (file in t.files <==> file in files || file in Targets(lines))
            && (forall k :: 0 <= k < |lines| && IsDirective(lines[k]) && FileOf(lines[k]) == file ==>
                  && file in t.files && t.files[file] == lines[k]
                  && (file in t.log <==> !(file in files && files[file] == lines[k])))
            && (file in files && file !in Targets(lines) ==>
                  && t.files[file] == (if IsHeaderFile(file) then [] else files[file])
                  && (file in t.log <==> IsHeaderFile(file) && files[file] != []))
  {
    hide FileOf, IsDirective, LineRead, AllDifferent, Targets, MergeLines, CleanFiles, OwnLines, IsHeaderFile, LeftAlone;
    var s := State(files, [], buffer);
    var u := MergeLines(s, lines);
    CleanExactly(u, found, Targets(lines), file);
    if file !in Targets(lines) {
      MergeOthers(s, lines, file);
    } else {
      var k := LineOf(lines, file);
      MergeExactly(s, lines, k);
    }
    forall k | 0 <= k < |lines| && IsDirective(lines[k]) && FileOf(lines[k]) == file
      ensures var t := Final(s, lines, found);
              file in t.files && t.files[file] == lines[k] && (file in t.log <==> !(file in files && files[file] == lines[k]))
    {
      LineCase(files, buffer, lines, k);
      MergeExactly(s, lines, k);
      TargetOf(lines, k);
    }
  }

  /** With nothing but own lines in the old headers, a file is left alone exactly when it holds the line. */
  lemma LineCase(files: Files, buffer: seq<Byte>, lines: seq<seq<Byte>>, k: nat)
    requires AllDifferent(Targets(lines)) && OwnLines(files) && buffer !in lines && k < |lines| && IsDirective(lines[k])
    ensures LeftAlone(files, buffer, lines, k) <==> FileOf(lines[k]) in files && files[FileOf(lines[k])] == lines[k]
  {
    forall j | 0 <= j < k && IsDirective(lines[j]) ensures FileOf(lines[j]) != FileOf(lines[k]) {
      EarlierFilesDiffer(lines, j, k);
    }
    BufferIsOther(files, buffer, lines, k, lines[k]);
    FileIsHeader(lines[k]);
    var file := FileOf(lines[k]);
    if file in files && files[file] != [] { FirstLineOfLine(files[file]); }
  }

  lemma {:induction false} LineOf(lines: seq<seq<Byte>>, file: Name) returns (k: nat)
    requires file in Targets(lines)
    ensures k < |lines| && IsDirective(lines[k]) && FileOf(lines[k]) == file
    decreases |lines|
  {
    if IsDirective(lines[0]) && FileOf(lines[0]) == file {
      k := 0;
    } else {
      k := LineOf(lines[1..], file);
      k := k + 1;
    }
  }

  // ----- the names agree with mkdep's -----

  lemma {:induction false} FindAfter(pre: seq<Byte>, rest: seq<Byte>)
    requires CEE !in pre
    ensures FindConfig(pre + CONFIG_WORD + rest) == |pre|
    decreases |pre|
  {
    var s := pre + CONFIG_WORD + rest;
    if |pre| == 0 {
      assert s[..7] == CONFIG_WORD;
    } else {
      assert s[0] == pre[0] && CONFIG_WORD[0] == CEE;
      assert s[..7] != CONFIG_WORD by { assert s[..7][0] == s[0]; }
      assert s[1..] == pre[1..] + CONFIG_WORD + rest;
      FindAfter(pre[1..], rest);
    }
  }

  lemma {:induction false} SpaceAfter(word: seq<Byte>, rest: seq<Byte>)
    requires (forall i :: 0 <= i < |word| ==> IsWordByte(word[i])) && |rest| > 0 && IsSpace(rest[0])
    ensures UpToSpace(word + rest) == |word|
    decreases |word|
  {
    var s := word + rest;
    if |word| > 0 {
      assert s[0] == word[0] && s[1..] == word[1..] + rest;
      SpaceAfter(word[1..], rest);
    }
  }

  /** A line that sets an option is merged into the file that mkdep names for the uses of that option; the option ends
      at a blank, a tab, the end of the line, or another of the bytes that count as space. */
  lemma NamesAgree(pre: seq<Byte>, option: Name, rest: seq<Byte>)
    requires |pre| > 0 && pre[0] == POUND && CEE !in pre && Clean(Use(option))
    requires |rest| > 0 && rest[0] in {32, 9, 10, 11, 12, 13}
    ensures var line := pre + CONFIG_WORD + (option + rest);
            IsDirective(line) && Symbol(line) == option && FileOf(line) == Header(option) + [46, 104]
  {
    var line := pre + CONFIG_WORD + (option + rest);
    FindAfter(pre, option + rest);
    SpaceAfter(option, rest);
    assert line[|pre| + 7..] == option + rest;
    assert (option + rest)[..|option|] == option;
  }

  const DEFINE_TEXT: seq<Byte> := Bytes("#define ")
  const UNDEF_TEXT: seq<Byte> := Bytes("#undef ")
  const CONFIG_TEXT: seq<Byte> := Bytes("CONFIG_")
  const YES_TEXT: seq<Byte> := Bytes(" 1\n")
  const END_TEXT: seq<Byte> := Bytes("\n")
  const SUFFIX_TEXT: seq<Byte> := Bytes(".h")

  lemma LineTexts()
    ensures CONFIG_TEXT == CONFIG_WORD && SUFFIX_TEXT == [46, 104]
    ensures Begins(DEFINE_TEXT) && Begins(UNDEF_TEXT)
    ensures YES_TEXT == [32, 49] + [NEWLINE] && YES_TEXT[0] == 32 && NEWLINE !in [32, 49]
    ensures END_TEXT == [] + [NEWLINE] && END_TEXT[0] == 10
  {
    assert DEFINE_TEXT == [35, 100, 101, 102, 105, 110, 101, 32] && UNDEF_TEXT == [35, 117, 110, 100, 101, 102, 32];
  }

  predicate Begins(pre: seq<Byte>) {
    |pre| > 0 && pre[0] == POUND && CEE !in pre && NEWLINE !in pre
  }

  lemma LineAgrees(pre: seq<Byte>, option: Name, more: seq<Byte>, rest: seq<Byte>)
    requires Begins(pre) && IsName(option) && rest == more + [NEWLINE] && NEWLINE !in more
    requires rest[0] in {32, 9, 10, 11, 12, 13}
    ensures var line := pre + CONFIG_WORD + (option + rest);
            IsLine(line) && IsDirective(line) && Symbol(line) == option && FileOf(line) == Header(option) + [46, 104]
  {
    NameIsClean(option);
    hide IsName, Clean, FindConfig, UpToSpace, FileOf, Header, IsLine, IsDirective, Symbol;
    NamesAgree(pre, option, rest);
    LineIs(pre + CONFIG_WORD, option, more, rest);
  }

  /** The lines that set an option to yes and to no, as they are written. */
  lemma LinesAgree(option: Name)
    requires IsName(option)
    ensures var yes := DEFINE_TEXT + CONFIG_TEXT + (option + YES_TEXT);
            IsLine(yes) && IsDirective(yes) && Symbol(yes) == option && FileOf(yes) == Header(option) + SUFFIX_TEXT
    ensures var no := UNDEF_TEXT + CONFIG_TEXT + (option + END_TEXT);
            IsLine(no) && IsDirective(no) && Symbol(no) == option && FileOf(no) == Header(option) + SUFFIX_TEXT
  {
    hide *;
    LineTexts();
    LineAgrees(DEFINE_TEXT, option, [32, 49], YES_TEXT);
    LineAgrees(UNDEF_TEXT, option, [], END_TEXT);
  }

  lemma NameIsClean(option: Name)
    requires IsName(option)
    ensures Clean(Use(option)) && NEWLINE !in option
  {
    forall i | 0 <= i < |option| ensures IsWordByte(option[i]) && option[i] != NEWLINE {
      NameCharIff(option[i]);
    }
  }

  lemma LineIs(pre: seq<Byte>, option: Name, more: seq<Byte>, rest: seq<Byte>)
    requires NEWLINE !in pre && NEWLINE !in option && NEWLINE !in more && rest == more + [NEWLINE]
    ensures IsLine(pre + (option + rest))
  {
    var line := pre + (option + rest);
    assert line == pre + option + more + [NEWLINE];
    assert line[..|line| - 1] == pre + option + more;
    assert forall i :: 0 <= i < |line| - 1 ==> line[i] == (pre + option + more)[i];
  }

  lemma SymbolIsOneLine(line: seq<Byte>)
    requires IsDirective(line)
    ensures OneLine(FileOf(line))
  {
  }

  lemma {:induction false} TargetsOneLine(lines: seq<seq<Byte>>)
    ensures AllOneLine(Targets(lines))
    decreases |lines|
  {
    if |lines| > 0 {
      TargetsOneLine(lines[1..]);
      if IsDirective(lines[0]) { SymbolIsOneLine(lines[0]); }
    }
  }

  // ----- the program -----

  /** strstr(line, "CONFIG_"); the length of the line when it is not there. */
  method SearchConfig(line: seq<Byte>) returns (n: nat)
    ensures n == FindConfig(line)
  {
    n := 0;
    while n + 7 <= |line| && line[n..n + 7] != CONFIG_WORD
      invariant n <= |line| && FindConfig(line) == n + FindConfig(line[n..])
    {
      assert line[n..][..7] == line[n..n + 7] && line[n..][1..] == line[n + 1..];
      n := n + 1;
    }
    if n + 7 <= |line| {
      assert line[n..][..7] == line[n..n + 7];
    } else {
      n := |line|;
    }
  }

  /** The output file name, byte by byte. */
  method MakeName(line: seq<Byte>, start: nat) returns (file: Name)
    requires start <= |line| && UpToSpace(line[start..]) < |line| - start
    ensures file == HeaderFile(line[start..][..UpToSpace(line[start..])])
    ensures var option := line[start..][..UpToSpace(line[start..])];
            |file| == |option| + 2 && NamesOption(file[..|option|], option) && file[|option|..] == [46, 104]
  {
    HeaderNamesOption(line[start..][..UpToSpace(line[start..])]);
    ghost var rest, n := line[start..], UpToSpace(line[start..]);
    file := [];
    var i := 0;
    while !IsSpace(line[start + i])
      invariant 0 <= i <= n && n == i + UpToSpace(rest[i..])
      invariant file == Header(rest[..i])
      decreases n - i
    {
      var c := line[start + i];
      assert rest[i..][0] == c && rest[i..][1..] == rest[i + 1..] && rest[..i + 1] == rest[..i] + [c];
      HeaderStep(rest[..i], c);
      file := file + [if c == UNDERSCORE then SLASH else Lower(c)];
      i := i + 1;
    }
    assert rest[i..][0] == line[start + i];
    file := file + DOT_H;
  }

  /** strstr(list_target, line) with the name between two newlines. */
  method InList(list: seq<Byte>, name: Name, ghost targets: seq<Name>) returns (found: bool)
    requires list == Encode(targets) && AllOneLine(targets) && OneLine(name)
    ensures found <==> name in targets
  {
    StringIsSet(targets, name);
    var p := 1;
    while p + |name| < |list|
      invariant 1 <= p && forall q :: q < p ==> !FoundAt(list, name, q)
    {
      if list[p - 1] == NEWLINE && list[p..p + |name|] == name && list[p + |name|] == NEWLINE {
        assert FoundAt(list, name, p);
        return true;
      }
      p := p + 1;
    }
    return false;
  }

  class Directory {
    var files: Files
    // the files opened for writing, in order
    var log: seq<Name>

    constructor (files: Files)
      ensures this.files == files && log == []
    {
      this.files, log := files, [];
    }

    method Write(file: Name, content: seq<Byte>)
      modifies this
      ensures files == old(files)[file := content] && log == old(log) + [file]
    {
      files, log := files[file := content], log + [file];
    }

    /** One line of the new configuration. */
    method MergeOne(line: seq<Byte>, buffer: seq<Byte>) returns (buffer': seq<Byte>, hit: bool, file: Name)
      requires IsLine(line)
      modifies this
      ensures State(files, log, buffer') == MergeLine(State(old(files), old(log), buffer), line)
      ensures hit <==> IsDirective(line)
      ensures hit ==> file == FileOf(line)
    {
      hide FileOf, IsDirective, LineRead, Symbol, HeaderFile, UpToSpace, FindConfig, IsLine;
      buffer', file := buffer, [];
      var at;
      at, hit := ReadDirective(line);
      if hit {
        NameIsFile(line);
        file := MakeName(line, at);
        if file in files && files[file] != [] { buffer' := LineRead(files[file]); }
        if !(file in files && buffer' == line) { Write(file, line); }
      }
    }

    /** The loop over the new configuration: each line goes into its file unless the first line read from that file is
        the same. The list of targets comes back as one string. */
    method MergeAll(lines: seq<seq<Byte>>, junk: seq<Byte>) returns (list: seq<Byte>)
      requires forall k :: 0 <= k < |lines| ==> IsLine(lines[k])
      modifies this
      ensures var t := MergeLines(State(old(files), old(log), junk), lines); files == t.files && log == t.log
      ensures list == Encode(Targets(lines))
    {
      hide FileOf, IsDirective, Encode, MergeLine, IsLine, Targets;
      ghost var s := State(files, log, junk);
      var buffer := junk;
      list := [NEWLINE];
      ListStart();
      assert lines[0..] == lines && lines[..0] == [];
      for k := 0 to |lines|
        invariant MergeLines(State(files, log, buffer), lines[k..]) == MergeLines(s, lines)
        invariant list == Encode(Targets(lines[..k]))
      {
        assert lines[k..][0] == lines[k] && lines[k..][1..] == lines[k + 1..];
        assert lines[..k + 1] == lines[..k] + [lines[k]];
        TargetsStep(lines[..k], lines[k]);
        var hit, file;
        buffer, hit, file := MergeOne(lines[k], buffer);
        if hit {
          EncodeAppend(Targets(lines[..k]), file);
          list := list + file + [NEWLINE];
        } else {
          assert Targets(lines[..k]) + [] == Targets(lines[..k]);
        }
      }
      assert lines[..|lines|] == lines && lines[|lines|..] == [];
    }

    /** The loop over the headers found: those that are no target are emptied. */
    method Clean(list: seq<Byte>, found: seq<Name>, ghost targets: seq<Name>)
      requires list == Encode(targets) && AllOneLine(targets)
      requires forall k :: 0 <= k < |found| ==> OneLine(found[k]) && found[k] in files
      modifies this
      ensures var t := CleanFiles(State(old(files), old(log), []), found, targets); files == t.files && log == t.log
    {
      hide Encode, AllOneLine, OneLine;
      ghost var s := State(files, log, []);
      assert found[0..] == found;
      for k := 0 to |found|
        invariant CleanFiles(State(files, log, []), found[k..], targets) == CleanFiles(s, found, targets)
        invariant forall j :: 0 <= j < |found| ==> found[j] in files
      {
        assert found[k..][0] == found[k] && found[k..][1..] == found[k + 1..];
        var kept := InList(list, found[k], targets);
        if !kept && files[found[k]] != [] { Write(found[k], []); }
      }
      assert found[|found|..] == [];
    }
  }

  lemma {:induction false} CleanIgnoresBuffer(s: State, buffer: seq<Byte>, found: seq<Name>, targets: seq<Name>)
    ensures var t, u := CleanFiles(s, found, targets), CleanFiles(State(s.files, s.log, buffer), found, targets);
            t.files == u.files && t.log == u.log
    decreases |found|
  {
    if |found| > 0 { CleanIgnoresBuffer(CleanFile(s, found[0], targets), buffer, found[1..], targets); }
  }

  /** The program, given what its search for headers finds once the lines are merged. */
  method Split(dir: Directory, lines: seq<seq<Byte>>, junk: seq<Byte>, found: seq<Name>)
    requires forall k :: 0 <= k < |lines| ==> IsLine(lines[k])
    requires Lists(found, MergeLines(State(dir.files, dir.log, junk), lines).files)
    requires forall k :: 0 <= k < |found| ==> OneLine(found[k])
    modifies dir
    ensures var t := Final(State(old(dir.files), old(dir.log), junk), lines, found); dir.files == t.files && dir.log == t.log
  {
    ghost var t := MergeLines(State(dir.files, dir.log, junk), lines);
    var list := dir.MergeAll(lines, junk);
    TargetsOneLine(lines);
    assert forall k :: 0 <= k < |found| ==> found[k] in dir.files;
    dir.Clean(list, found, Targets(lines));
    CleanIgnoresBuffer(t, [], found, Targets(lines));
  }

  lemma ListStart()
    ensures Encode([]) == [NEWLINE] && Targets([]) == []
  {
  }

  lemma {:induction false} TargetsStep(lines: seq<seq<Byte>>, line: seq<Byte>)
    ensures Targets(lines + [line]) == Targets(lines) + (if IsDirective(line) then [FileOf(line)] else [])
    decreases |lines|
  {
    hide FileOf, IsDirective;
    if |lines| == 0 {
      assert lines + [line] == [line] && [line][1..] == [];
    } else {
      assert (lines + [line])[1..] == lines[1..] + [line];
      TargetsStep(lines[1..], line);
    }
  }

  /** A line that is about an option, and where the option's name starts. */
  method ReadDirective(line: seq<Byte>) returns (at: nat, hit: bool)
    requires IsLine(line)
    ensures hit <==> IsDirective(line)
    ensures hit ==> at == FindConfig(line) + 7 <= |line| && UpToSpace(line[at..]) < |line| - at
  {
    if line[0] != POUND { return 0, false; }
    var n := SearchConfig(line);
    if n == |line| { return 0, false; }
    at, hit := n + 7, true;
    LineEndsInSpace(line, at);
  }

  lemma LineEndsInSpace(line: seq<Byte>, at: nat)
    requires IsLine(line) && at <= |line| && FindConfig(line) + 7 == at
    ensures UpToSpace(line[at..]) < |line| - at
  {
    hide FindConfig, UpToSpace;
    var last := |line| - 1;
    assert line[at - 7..at] == CONFIG_WORD;
    assert line[at - 1] == CONFIG_WORD[6];
    assert line[at..][last - at] == NEWLINE;
  }

  lemma NameIsFile(line: seq<Byte>)
    requires IsDirective(line)
    ensures FileOf(line) == HeaderFile(line[FindConfig(line) + 7..][..UpToSpace(line[FindConfig(line) + 7..])])
  {
  }
}
