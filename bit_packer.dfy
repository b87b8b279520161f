/**
 * The two loops of Huffman.getEncodeBytesAndFillConfigurationSize: the
 * StringBuilder loop that concatenates the code of every input byte, and the
 * bit loop that packs that code string into bytes, most significant bit
 * first, with the last byte padded by zero bits.
 *
 * A Java `byte` is kept as its unsigned bit pattern 0..255; the narrowing
 * of `temp <<= 1` and `temp += 1` back to a byte is written out as `% 256`.
 */
module BitPacker {
  import opened Wrappers
  import opened EncodeTables

  /** What `sb.append(table.get(b))` appends: the code of `b`, or the four
      characters "null" when the table has no entry for `b`. */
  function CodeOf(table: EncodeTable<byte>, b: byte): (code: string)
    ensures Some(b) in table.table ==> code == table.table[Some(b)]
    ensures Some(b) !in table.table ==> code == "null"
  {
    if Some(b) in table.table then table.table[Some(b)] else "null"
  }

  /** The code string of a byte sequence: the codes of its bytes, in order. */
  function Codes(bytes: seq<byte>, table: EncodeTable<byte>): string {
    if bytes == [] then ""
    else Codes(bytes[..|bytes| - 1], table) + CodeOf(table, bytes[|bytes| - 1])
  }

  /** The code string of a concatenation is the concatenation of the code
      strings. */
  lemma {:induction false} CodesAppend(a: seq<byte>, b: seq<byte>, table: EncodeTable<byte>)
    ensures Codes(a + b, table) == Codes(a, table) + Codes(b, table)
  {
    if b == [] {
      assert a + b == a;
    } else {
      var b' := b[..|b| - 1];
      assert (a + b)[..|a + b| - 1] == a + b';
      assert (a + b)[|a + b| - 1] == b[|b| - 1];
      CodesAppend(a, b', table);
    }
  }

  /** With every byte in the table and every code binary, the code string
      is binary. */
  lemma {:induction false} CodesAreBinary(bytes: seq<byte>, table: EncodeTable<byte>)
    requires forall s :: s in table.table ==> IsBinary(table.table[s])
    requires forall k :: 0 <= k < |bytes| ==> Some(bytes[k]) in table.table
    ensures IsBinary(Codes(bytes, table))
  {
    if bytes != [] {
      var init := bytes[..|bytes| - 1];
      CodesAreBinary(init, table);
      var a, c := Codes(init, table), CodeOf(table, bytes[|bytes| - 1]);
      forall i | 0 <= i < |a + c| ensures (a + c)[i] == '0' || (a + c)[i] == '1' {
        if i < |a| {
          assert (a + c)[i] == a[i];
        } else {
          assert (a + c)[i] == c[i - |a|];
        }
      }
    }
  }

  /** The StringBuilder loop: appends the code of each byte in turn. */
  method ConcatCodes(bytes: seq<byte>, table: EncodeTable<byte>) returns (code: string)
    ensures code == Codes(bytes, table)
  {
    code := "";
    for i := 0 to |bytes|
      invariant code == Codes(bytes[..i], table)
    {
      assert bytes[..i + 1][..i] == bytes[..i];
      code := code + CodeOf(table, bytes[i]);
    }
    assert bytes[..|bytes|] == bytes;
  }

  /** The bits a code string stands for: a character '1' is a one bit, any
      other character a zero bit. */
  function Binarize(code: string): (bits: seq<bool>)
    ensures |bits| == |code|
  {
    seq(|code|, i requires 0 <= i < |code| => code[i] == '1')
  }

  /** `n` zero bits. */
  function Zeros(n: nat): seq<bool> {
    seq(n, _ => false)
  }

  function Pow2(n: nat): nat {
    if n == 0 then 1 else 2 * Pow2(n - 1)
  }

  lemma {:induction false} Pow2Monotone(n: nat, m: nat)
    requires n <= m
    ensures Pow2(n) <= Pow2(m)
  {
    if n < m {
      Pow2Monotone(n, m - 1);
    }
  }

  /** The low `n` bits of `v`, most significant first. */
  function BitsOf(v: nat, n: nat): (bits: seq<bool>)
    ensures |bits| == n
  {
    if n == 0 then [] else BitsOf(v / 2, n - 1) + [v % 2 == 1]
  }

  /** The value of a bit sequence read most significant bit first. */
  function Value(bits: seq<bool>): nat {
    if bits == [] then 0
    else 2 * Value(bits[..|bits| - 1]) + (if bits[|bits| - 1] then 1 else 0)
  }

  /** Reading back the low `n` bits of a value below 2^n gives the value:
      no bit of a byte is lost. */
  lemma {:induction false} ValueOfBits(v: nat, n: nat)
    requires v < Pow2(n)
    ensures Value(BitsOf(v, n)) == v
  {
    if n > 0 {
      var bits := BitsOf(v, n);
      assert bits[..n - 1] == BitsOf(v / 2, n - 1);
      ValueOfBits(v / 2, n - 1);
    }
  }

  /** The bits of a byte sequence, byte after byte, each most significant
      bit first. */
  function Unpack(bytes: seq<byte>): (bits: seq<bool>)
    ensures |bits| == 8 * |bytes|
  {
    if bytes == [] then []
    else Unpack(bytes[..|bytes| - 1]) + BitsOf(bytes[|bytes| - 1], 8)
  }

  /** One more byte appends its eight bits. */
  lemma UnpackSnoc(bytes: seq<byte>, b: byte)
    ensures Unpack(bytes + [b]) == Unpack(bytes) + BitsOf(b, 8)
  {
    assert (bytes + [b])[..|bytes|] == bytes;
  }

  /** `temp` after `temp <<= 1` and, for a one bit, `temp += 1`, each
      narrowed back to a byte. */
  function ShiftIn(temp: byte, bit: bool): (t: byte)
    ensures t == (2 * temp + (if bit then 1 else 0)) % 256
  {
    var t := (temp as int * 2) % 256;
    if bit then (t as int + 1) % 256 else t
  }

  lemma ShiftInBits(temp: byte, cur: nat, bit: bool)
    requires cur < 8 && temp < Pow2(cur)
    ensures ShiftIn(temp, bit) < Pow2(cur + 1)
    ensures BitsOf(ShiftIn(temp, bit), cur + 1) == BitsOf(temp, cur) + [bit]
  {
    Pow2Monotone(cur, 7);
    assert Pow2(7) == 128 by {
      assert Pow2(1) == 2 && Pow2(2) == 4 && Pow2(3) == 8;
      assert Pow2(4) == 16 && Pow2(5) == 32 && Pow2(6) == 64;
    }
    var t := ShiftIn(temp, bit);
    assert t == 2 * temp + (if bit then 1 else 0);
    assert t / 2 == temp && (t % 2 == 1 <==> bit);
    assert BitsOf(t, cur + 1) == BitsOf(t / 2, cur) + [t % 2 == 1];
  }

  /** The state of the bit loop after `i` characters: the written bytes and
      the `cur` pending bits of `temp` are the first `i` bits of the code. */
  ghost predicate Packed(code: string, out: seq<byte>, temp: byte, cur: nat, i: nat) {
    i <= |code| && cur <= 8 && 8 * |out| + cur == i && temp < Pow2(cur) &&
    Unpack(out) + BitsOf(temp, cur) == Binarize(code)[..i]
  }

  /** Writing out a full `temp` keeps the loop state. */
  lemma Flush(code: string, out: seq<byte>, temp: byte, i: nat)
    requires Packed(code, out, temp, 8, i)
    ensures Packed(code, out + [temp], 0, 0, i)
  {
    UnpackSnoc(out, temp);
  }

  /** Shifting in the `i`-th character keeps the loop state. */
  lemma Push(code: string, out: seq<byte>, temp: byte, cur: nat, i: nat)
    requires Packed(code, out, temp, cur, i) && cur < 8 && i < |code|
    ensures Packed(code, out, ShiftIn(temp, code[i] == '1'), cur + 1, i + 1)
  {
    var bits := Binarize(code);
    ShiftInBits(temp, cur, code[i] == '1');
    assert bits[..i + 1] == bits[..i] + [code[i] == '1'];
    var u, t := Unpack(out), ShiftIn(temp, code[i] == '1');
    assert u + BitsOf(t, cur + 1) == (u + BitsOf(temp, cur)) + [code[i] == '1'];
  }

  /** The state of the padding loop: the code's bits, then zero bits. */
  ghost predicate Padded(code: string, out: seq<byte>, temp: byte, cur: nat, pending: nat) {
    pending <= cur <= 8 && temp < Pow2(cur) &&
    Unpack(out) + BitsOf(temp, cur) == Binarize(code) + Zeros(cur - pending)
  }

  /** Shifting in a zero bit keeps the padding state. */
  lemma Pad(code: string, out: seq<byte>, temp: byte, cur: nat, pending: nat)
    requires Padded(code, out, temp, cur, pending) && cur < 8
    ensures Padded(code, out, ShiftIn(temp, false), cur + 1, pending)
  {
    ShiftInBits(temp, cur, false);
    assert Zeros(cur + 1 - pending) == Zeros(cur - pending) + [false];
    var u, t := Unpack(out), ShiftIn(temp, false);
    assert u + BitsOf(t, cur + 1) == (u + BitsOf(temp, cur)) + [false];
  }

  /** Writing the padded last byte completes the output. */
  lemma Finish(code: string, out: seq<byte>, temp: byte, pending: nat)
    requires Padded(code, out, temp, 8, pending) && 8 * |out| + pending == |code|
    requires |code| == 0 ==> out == [] && pending == 0
    requires |code| > 0 ==> pending > 0
    ensures |out + [temp]| == if |code| == 0 then 1 else (|code| + 7) / 8
    ensures Unpack(out + [temp]) == Binarize(code) + Zeros(8 * |out + [temp]| - |code|)
  {
    UnpackSnoc(out, temp);
  }

  /** The padding loop and the last write: the pending bits of `temp` are
      shifted up to a full byte, which is appended. */
  method WriteLastByte(ghost code: string, out: seq<byte>, temp: byte, cur: nat) returns (out': seq<byte>)
    requires Padded(code, out, temp, cur, cur) && 8 * |out| + cur == |code|
    requires |code| == 0 ==> out == [] && cur == 0
    requires |code| > 0 ==> cur > 0
    requires |code| == 0 ==> temp == 0
    ensures |out'| == if |code| == 0 then 1 else (|code| + 7) / 8
    ensures Unpack(out') == Binarize(code) + Zeros(8 * |out'| - |code|)
    ensures |code| == 0 ==> out' == [0]
  {
    var temp: byte, cur: nat := temp, cur;
    ghost var pending := cur;
    while cur < 8
      invariant Padded(code, out, temp, cur, pending)
      invariant |code| == 0 ==> temp == 0
    {
      Pad(code, out, temp, cur, pending);
      ghost var shifted := ShiftIn(temp, false);
      temp := (temp as int * 2) % 256;
      assert temp == shifted;
      cur := cur + 1;
    }
    Finish(code, out, temp, pending);
    out' := out + [temp];
  }

  /**
   * The bit loop and the padding loop. The `i`-th character is shifted into
   * `temp`; a full `temp` is written out before the next character goes in,
   * so after the loop 1..8 bits are pending (none for an empty code). They
   * are shifted up to a full byte and written. `size` counts the characters
   * (the BigInteger `sum`).
   *
   * Unpacked, the output is the code's bits followed by the zero padding:
   * the first `size` bits give back the code.
   */
  method PackBits(code: string) returns (out: seq<byte>, size: nat)
    ensures size == |code|
    ensures |out| == if |code| == 0 then 1 else (|code| + 7) / 8
    ensures Unpack(out) == Binarize(code) + Zeros(8 * |out| - |code|)
    ensures |code| == 0 ==> out == [0]
  {
    out := [];
    var temp: byte := 0;
    var cur: nat := 0;
    var sum: nat := 0;
    for i := 0 to |code|
      invariant Packed(code, out, temp, cur, i) && sum == i
      invariant i == 0 ==> out == [] && cur == 0 && temp == 0
      invariant i > 0 ==> cur > 0
    {
      if cur == 8 {
        Flush(code, out, temp, i);
        out := out + [temp];
        temp := 0;
        cur := 0;
      }
      sum := sum + 1;
      Push(code, out, temp, cur, i);
      ghost var shifted := ShiftIn(temp, code[i] == '1');
      temp := (temp as int * 2) % 256;
      if code[i] == '1' {
        temp := (temp as int + 1) % 256;
      }
      assert temp == shifted;
      cur := cur + 1;
    }
    assert Binarize(code)[..|code|] == Binarize(code) + Zeros(0);
    out := WriteLastByte(code, out, temp, cur);
    size := sum;
  }

  /** The first `size` bits of the packed output are the code's bits. */
  lemma PackedPrefix(code: string, out: seq<byte>)
    requires |code| <= 8 * |out|
    requires Unpack(out) == Binarize(code) + Zeros(8 * |out| - |code|)
    ensures Unpack(out)[..|code|] == Binarize(code)
  {
  }
}
