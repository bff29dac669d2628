/** Texts written out, as the bytes that stand for them. */
module Texts {
  import opened WordReader

  predicate IsAscii(s: string) {
    forall i :: 0 <= i < |s| ==> s[i] as int < 128
  }

  function Bytes(s: string): (r: seq<Byte>)
    requires IsAscii(s)
    ensures |r| == |s| && forall i :: 0 <= i < |s| ==> r[i] == s[i] as int
  {
    seq(|s|, i requires 0 <= i < |s| => s[i] as int)
  }

  const DIGITS := "0123456789"
  const CAPITALS := "ABCDEFGHIJKLMNOPQRSTUVWXYZ"
  const SMALL := "abcdefghijklmnopqrstuvwxyz"

  /** What a name is made of. */
  const NAME_CHARS := DIGITS + CAPITALS + SMALL + "_"

  /** The characters of the text are consecutive. */
  predicate Consecutive(s: string, first: int) {
    forall i :: 0 <= i < |s| ==> s[i] as int == first + i
  }

  lemma Digits()
    ensures Consecutive(DIGITS, 48) && |DIGITS| == 10
  {
  }

  lemma Capitals()
    ensures Consecutive(CAPITALS, 65) && |CAPITALS| == 26
  {
  }

  lemma Small()
    ensures Consecutive(SMALL, 97) && |SMALL| == 26
  {
  }

  /** The codes of the characters of names. */
  lemma NameCharsAre()
    ensures |NAME_CHARS| == 63 && IsAscii(NAME_CHARS)
    ensures forall i :: 0 <= i < 63 ==>
              NAME_CHARS[i] as int == if i < 10 then 48 + i else if i < 36 then 55 + i else if i < 62 then 61 + i else 95
  {
    Digits();
    Capitals();
    Small();
    JoinedAt(DIGITS, CAPITALS, SMALL, "_");
  }

  lemma JoinedAt(a: string, b: string, c: string, d: string)
    ensures var s := a + b + c + d;
            && |s| == |a| + |b| + |c| + |d|
            && forall i :: 0 <= i < |s| ==>
                 s[i] == if i < |a| then a[i] else if i < |a| + |b| then b[i - |a|]
                         else if i < |a| + |b| + |c| then c[i - |a| - |b|] else d[i - |a| - |b| - |c|]
  {
  }

  /** The byte is a character of names. */
  predicate IsNameChar(b: Byte) {
    NameCharsAre();
    b in Bytes(NAME_CHARS)
  }

  lemma NameCharIff(b: Byte)
    ensures IsNameChar(b) <==> 48 <= b <= 57 || 65 <= b <= 90 || 97 <= b <= 122 || b == 95
  {
    NameCharsAre();
    var bytes := Bytes(NAME_CHARS);
    var i := if b < 58 then b - 48 else if b < 91 then b - 55 else if b < 96 then 62 else b - 61;
    if 48 <= b <= 57 || 65 <= b <= 90 || 97 <= b <= 122 || b == 95 {
      assert bytes[i] == b;
    }
  }

  /** The bytes are characters of names. */
  predicate IsName(name: seq<Byte>) {
    forall i :: 0 <= i < |name| ==> IsNameChar(name[i])
  }

  predicate IsBlankOrTab(b: Byte) {
    b in Bytes(" \t")
  }

  lemma BlankOrTabIff(b: Byte)
    ensures IsBlankOrTab(b) <==> b == 32 || b == 9
  {
    var t := Bytes(" \t");
    assert t[0] == 32 && t[1] == 9;
  }
}
