/** The word-at-a-time input of scripts/mkdep.c: the current word sits in a register and is shifted one byte per
    character. Machine words have any width, and either byte order. */
module WordReader {
  type Byte = b: int | 0 <= b < 256

  function Pow256(n: nat): (r: nat)
    ensures r > 0
  {
    if n == 0 then 1 else 256 * Pow256(n - 1)
  }

  /** The number a little-endian machine loads from these bytes. */
  function LittleEndian(bytes: seq<Byte>): nat {
    if |bytes| == 0 then 0 else bytes[0] + 256 * LittleEndian(bytes[1..])
  }

  /** The number a big-endian machine loads from these bytes. */
  function BigEndian(bytes: seq<Byte>): nat {
    if |bytes| == 0 then 0 else bytes[0] * Pow256(|bytes| - 1) + BigEndian(bytes[1..])
  }

  // ----- arithmetic -----

  lemma MulAtLeast(d: nat, k: int)
    requires k >= 1
    ensures d * k >= d
  {
    assert d * k == d + d * (k - 1);
  }

  lemma MulMonotone(d: nat, a: nat, b: nat)
    requires a <= b
    ensures d * a <= d * b
  {
    assert d * b == d * a + d * (b - a);
  }

  lemma MulNegate(d: nat, k: int)
    ensures d * -k == -(d * k)
  {
  }

  lemma DivisionIsUnique(d: nat, q: int, r: int, q': int, r': int)
    requires 0 <= r < d && 0 <= r' < d && d * q + r == d * q' + r'
    ensures q == q' && r == r'
  {
    assert d * (q - q') == d * q - d * q';
    if q > q' {
      MulAtLeast(d, q - q');
    } else if q < q' {
      MulAtLeast(d, q' - q);
      MulNegate(d, q - q');
    }
  }

  lemma DivMod(d: nat, q: nat, r: nat)
    requires r < d
    ensures d * q + r >= 0 && (d * q + r) / d == q && (d * q + r) % d == r
  {
    MulMonotone(d, 0, q);
    var x := d * q + r;
    DivisionIsUnique(d, x / d, x % d, q, r);
  }

  lemma {:induction false} BigEndianBound(bytes: seq<Byte>)
    ensures BigEndian(bytes) < Pow256(|bytes|)
    decreases |bytes|
  {
    if |bytes| > 0 {
      BigEndianBound(bytes[1..]);
      var first, p, rest := bytes[0], Pow256(|bytes| - 1), BigEndian(bytes[1..]);
      assert BigEndian(bytes) == first * p + rest && Pow256(|bytes|) == 256 * p;
      hide BigEndian, Pow256;
      MulMonotone(p, first, 255);
      assert p * first == first * p;
    }
  }

  lemma {:induction false} BigEndianAppendZero(bytes: seq<Byte>)
    ensures BigEndian(bytes + [0]) == 256 * BigEndian(bytes)
    decreases |bytes|
  {
    if |bytes| == 0 {
      assert bytes + [0] == [0];
    } else {
      assert (bytes + [0])[1..] == bytes[1..] + [0];
      BigEndianAppendZero(bytes[1..]);
      assert Pow256(|bytes|) == 256 * Pow256(|bytes| - 1);
    }
  }

  /** Shifting left drops the first byte of a big-endian word, and its top byte is the first. */
  lemma BigEndianShift(bytes: seq<Byte>)
    requires |bytes| > 0
    ensures (BigEndian(bytes) * 256) % Pow256(|bytes|) == BigEndian(bytes[1..] + [0])
    ensures BigEndian(bytes) / Pow256(|bytes| - 1) == bytes[0]
  {
    var rest, p, first := BigEndian(bytes[1..]), Pow256(|bytes| - 1), bytes[0];
    BigEndianBound(bytes[1..]);
    BigEndianAppendZero(bytes[1..]);
    assert BigEndian(bytes) == first * p + rest && Pow256(|bytes|) == 256 * p;
    hide BigEndian, Pow256;
    TopDigit(first, p, rest);
  }

  lemma TopDigit(first: nat, p: nat, rest: nat)
    requires rest < p
    ensures ((first * p + rest) * 256) % (256 * p) == 256 * rest
    ensures (first * p + rest) / p == first
  {
    DivMod(p, first, rest);
    DivMod(256 * p, first, 256 * rest);
    assert (256 * p) * first == 256 * (p * first);
    assert (first * p + rest) * 256 == (256 * p) * first + 256 * rest;
  }

  lemma LittleEndianShift(bytes: seq<Byte>)
    requires |bytes| > 0
    ensures LittleEndian(bytes) / 256 == LittleEndian(bytes[1..])
    ensures LittleEndian(bytes) % 256 == bytes[0]
  {
  }

  // ----- the padded file -----

  function Zeros(n: nat): (r: seq<Byte>)
    ensures |r| == n && forall i :: 0 <= i < n ==> r[i] == 0
  {
    seq(n, i => 0)
  }

  /** How many words it takes to hold n bytes. */
  function Words(n: nat, width: nat): (r: nat)
    requires width > 0
    ensures n <= width * r < n + width
  {
    if n == 0 then 0 else if n <= width then 1 else
    var r := Words(n - width, width);
    assert width * (1 + r) == width + width * r;
    1 + r
  }

  /** The file as it is mapped: filled up with zero bytes to a whole number of words. */
  function Padded(file: seq<Byte>, width: nat): (r: seq<Byte>)
    requires width > 0
    ensures |r| == width * Words(|file|, width) && |r| < |file| + width && file <= r
    ensures forall i :: |file| <= i < |r| ==> r[i] == 0
  {
    file + Zeros(width * Words(|file|, width) - |file|)
  }

  class Reader {
    const width: nat
    const littleEndian: bool
    const memory: seq<Byte>
    const end: nat
    var next: nat
    var buf: nat
    ghost const file: seq<Byte>
    // the current byte is byte `offset` of word `word`
    ghost var word: nat
    ghost var offset: nat

    /** Where a word begins. */
    ghost function Base(w: nat): nat
      requires width > 0
    {
      width * w
    }

    ghost predicate Shaped()
      reads this
    {
      && width > 0 && memory == Padded(file, width) && end == |file|
      && next <= |memory|
      && (next > 0 ==> next - 1 == Base(word) + offset && offset < width && word < Words(end, width))
    }

    /** The bytes of the current word that have not been shifted out, the current one first. */
    ghost function Left(): (r: seq<Byte>)
      requires Shaped() && next > 0
      reads this
      ensures |r| == width - offset && r[0] == memory[next - 1]
    {
      WordFits(word);
      memory[next - 1..Base(word) + width]
    }

    lemma WordFits(w: nat)
      requires Shaped() && w < Words(end, width)
      ensures Base(w) + width <= |memory|
    {
      MulMonotone(width, w + 1, Words(end, width));
      assert width * (w + 1) == width * w + width;
    }

    ghost predicate Valid()
      reads this
    {
      && Shaped()
      && (next > 0 ==> Holds(buf, Left(), offset))
    }

    /** The register holds these bytes, after `shifts` shifts. */
    ghost predicate Holds(register: nat, left: seq<Byte>, shifts: nat) {
      register == if littleEndian then LittleEndian(left) else BigEndian(left + Zeros(shifts))
    }

    function Shift(register: nat): nat
      requires width > 0
    {
      if littleEndian then register / 256 else (register * 256) % Pow256(width)
    }

    function Load(bytes: seq<Byte>): nat {
      if littleEndian then LittleEndian(bytes) else BigEndian(bytes)
    }

    lemma LoadHolds(bytes: seq<Byte>)
      ensures Holds(Load(bytes), bytes, 0)
    {
      assert bytes + Zeros(0) == bytes;
    }

    constructor (file: seq<Byte>, width: nat, littleEndian: bool)
      requires width > 0
      ensures Valid() && next == 0 && memory == Padded(file, width)
    {
      this.width, this.littleEndian, this.file := width, littleEndian, file;
      memory, end := Padded(file, width), |file|;
      next, buf := 0, 0;
    }

    /** The byte in the register. */
    function Current(): int
      requires width > 0
      reads this
    {
      if littleEndian then buf % 256 else buf / Pow256(width - 1)
    }

    /** The register agrees with the byte stream. */
    lemma CurrentIsByte()
      requires Valid() && next > 0
      ensures Current() == memory[next - 1]
    {
      hide BigEndian, Padded;
      if littleEndian {
        LittleEndianShift(Left());
      } else {
        BigEndianShift(Left() + Zeros(offset));
      }
    }

    /** Inside a word, a shift brings the next byte to the front. */
    lemma ShiftInWord()
      requires Valid() && next > 0 && offset + 1 < width
      ensures next < |memory| && next % width == offset + 1
      ensures Base(word) + width <= |memory|
      ensures Holds(Shift(buf), memory[next..Base(word) + width], offset + 1)
    {
      hide Padded;
      WordFits(word);
      assert Left()[1..] == memory[next..Base(word) + width];
      DivMod(width, word, offset + 1);
      if littleEndian {
        LittleEndianShift(Left());
      } else {
        BigEndianShift(Left() + Zeros(offset));
        assert (Left() + Zeros(offset))[1..] + [0] == Left()[1..] + Zeros(offset + 1);
      }
    }

    /** At a word boundary the input is used up exactly when the file is. */
    lemma Boundary()
      requires Valid() && (next == 0 || offset + 1 == width)
      ensures next % width == 0
      ensures var w := if next == 0 then 0 else word + 1;
              && next == Base(w)
              && if next >= end then next == |memory| else w < Words(end, width) && next + width <= |memory|
    {
      hide Padded;
      var w, words := if next == 0 then 0 else word + 1, Words(end, width);
      assert width * (word + 1) == width * word + width;
      DivMod(width, w, 0);
      MulMonotone(width, w, words);
      if w < words {
        WordFits(w);
      }
    }

    /** GETNEXT: shifts the register, loads the next word where one begins, and stops at a word boundary behind
        the end of the file. No byte outside the padded file is read. */
    method GetNext() returns (more: bool)
      requires Valid()
      modifies this
      ensures more == (old(next) < |memory|)
      ensures more ==> Valid() && next == old(next) + 1 && Current() == memory[old(next)]
    {
      ghost var inside := next > 0 && offset + 1 < width;
      if inside { ShiftInWord(); } else { Boundary(); }
      hide Padded, Words, Holds, Shift, Load, Base, Current;
      buf := Shift(buf);
      if next % width == 0 {
        if next >= end {
          return false;
        }
        ghost var load := memory[next..next + width];
        buf := Load(memory[next..next + width]);
        LoadHolds(load);
        word, offset := if next == 0 then 0 else word + 1, 0;
      } else {
        offset := offset + 1;
      }
      next := next + 1;
      more := true;
      CurrentIsByte();
    }
  }
}
