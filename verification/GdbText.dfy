/**
 The protocol as it appears on the wire: the value of every digit character, the digits that stand for a register
 file, and packets in plain text from the appendix "GDB Remote Serial Protocol" of the GDB manual.
 */
module GdbText {
  import opened Common
  import opened Words
  import opened GdbProtocol
  import opened GdbHost

  const LOWER: string := "0123456789abcdef"
  const UPPER: string := "0123456789ABCDEF"

  /** The bytes of a text in ASCII. */
  function Ascii(s: string): (b: seq<Byte>)
    ensures |b| == |s|
  {
    seq(|s|, i requires 0 <= i < |s| => s[i] as int % 128)
  }

  /** The digit for every value, in lower case (`hex_encode`) and in upper case (`%02X`). */
  lemma DigitFor(v: nat)
    requires v < 16
    ensures HexEncode(v) == LOWER[v] as int && HexUpper(v) == UPPER[v] as int
  {
  }

  /** The value of every hexadecimal character is its position, in either case; other characters are none. */
  lemma DigitValue(c: Byte)
    ensures IsHex(c) <==> exists v :: 0 <= v < 16 && (LOWER[v] as int == c || UPPER[v] as int == c)
    ensures IsHex(c) ==> LOWER[Nibble(c)] as int == c || UPPER[Nibble(c)] as int == c
  {
    if IsHex(c) {
      var v := Nibble(c);
      assert LOWER[v] as int == c || UPPER[v] as int == c;
    }
  }

  /** Two digits, of either case each, have the value that they have in positional notation. */
  lemma PairValue(hi: nat, lo: nat)
    requires hi < 16 && lo < 16
    ensures DecodeHex(LOWER[hi] as int, LOWER[lo] as int) == 16 * hi + lo
    ensures DecodeHex(UPPER[hi] as int, LOWER[lo] as int) == 16 * hi + lo
    ensures DecodeHex(LOWER[hi] as int, UPPER[lo] as int) == 16 * hi + lo
    ensures DecodeHex(UPPER[hi] as int, UPPER[lo] as int) == 16 * hi + lo
  {
    DigitFor(hi);
    DigitFor(lo);
  }

  /** With a character that is no digit the result is the largest 16-bit number, which no checksum equals. */
  lemma NoPair(msb: Byte, lsb: Byte, sum: Byte)
    requires !IsHex(msb) || !IsHex(lsb)
    ensures DecodeHex(msb, lsb) == 65535 != sum
  {
  }

  // ---------------------------------------------------------------- the register file

  /**
   The text of a register file: byte j of word i, counted from the low end, is written at position 8 * i + 2 * j,
   high digit first.
   */
  lemma RegisterText(words: seq<U32>, i: nat, j: nat)
    requires i < |words| && j < 4
    ensures var text, b := HexBytes(RegBytes(words)), ByteAt(words[i], j);
            && |text| == 8 * |words|
            && text[8 * i + 2 * j] == LOWER[b / 16] as int && text[8 * i + 2 * j + 1] == LOWER[b % 16] as int
  {
    hide HexBytes, RegBytes, Bytes, HexByte, ByteOf;
    BytesOf(words, i, 4 * i);
    var k := 4 * i + j;
    assert RegBytes(words)[k] == RegBytes(words)[4 * i..4 * i + 4][j] == Bytes(words[i], 4)[j];
    SameByte(words[i], j);
    TextAt(RegBytes(words), k);
  }

  lemma SameByte(w: U32, j: nat)
    requires j < 4
    ensures ByteOf(w, j) == ByteAt(w, j)
  {
  }

  lemma TextAt(bytes: seq<Byte>, k: nat)
    requires k < |bytes|
    ensures HexBytes(bytes)[2 * k] == LOWER[bytes[k] / 16] as int && HexBytes(bytes)[2 * k + 1] == LOWER[bytes[k] % 16] as int
  {
    hide HexBytes, HexByte;
    HexBytesOf(bytes, k, 2 * k, 2 * k + 2);
    var pair := HexBytes(bytes)[2 * k..2 * k + 2];
    assert HexBytes(bytes)[2 * k] == pair[0] && HexBytes(bytes)[2 * k + 1] == pair[1];
    PairDigits(bytes[k]);
  }

  lemma PairDigits(b: Byte)
    ensures HexByte(b)[0] == LOWER[b / 16] as int && HexByte(b)[1] == LOWER[b % 16] as int
  {
    DigitFor(b / 16);
    DigitFor(b % 16);
  }

  /** Byte j of a word. */
  function ByteAt(w: U32, j: nat): Byte
    requires j < 4
  {
    (if j == 0 then w else if j == 1 then w / 0x100 else if j == 2 then w / 0x1_0000 else w / 0x100_0000) % 0x100
  }

  // ---------------------------------------------------------------- packets

  /**
   A star after some output repeats the last byte c - 29 times exactly when the next character c is between 29 and 126
   and neither '$' nor '#'. Otherwise it is a byte like any other.
   */
  lemma StarThen(c: Byte, rest: seq<Byte>, out: seq<Byte>, sum: Byte, escape: bool)
    requires out != []
    ensures Recv([0x2a, c] + rest, out, sum, escape)
         == if 29 <= c <= 126 && c != 0x24 && c != 0x23
            then Recv(rest, out + Repeat(out[|out| - 1], c - 29), Plus(Plus(sum, 0x2a), c), escape)
            else Recv([c] + rest, out + [if escape then 0x0a else 0x2a], Plus(sum, 0x2a), false)
  {
    var input := [0x2a, c] + rest;
    assert input[1..] == [c] + rest && ([c] + rest)[1..] == rest;
  }

  lemma Opened(rest: seq<Byte>)
    ensures RecvPacket([0x24] + rest) == Recv(rest, [], 0, false)
  {
    assert ([0x24] + rest)[1..] == rest;
  }

  /** An ordinary byte. */
  lemma OneByte(c: Byte, rest: seq<Byte>, out: seq<Byte>, sum: Byte)
    requires !Special(c)
    ensures Recv([c] + rest, out, sum, false) == Recv(rest, out + [c], Plus(sum, c), false)
  {
    assert ([c] + rest)[1..] == rest;
  }

  lemma Closing(hi: Byte, lo: Byte, tail: seq<Byte>, out: seq<Byte>, sum: Byte)
    ensures Recv([0x23, hi, lo] + tail, out, sum, false) == Packet(out, sum == DecodeHex(hi, lo), tail)
  {
    hide DecodeHex;
    var input, t := [0x23, hi, lo] + tail, [hi, lo] + tail;
    assert input[1..] == t && t[1..][0] == lo && t[2..] == tail;
  }

  /** "$OK#9a" is received as "OK" with its checksum accepted. */
  lemma ReplyOk(tail: seq<Byte>)
    ensures RecvPacket([0x24, 0x4f, 0x4b, 0x23, 0x39, 0x61] + tail) == Packet([0x4f, 0x4b], true, tail)
    ensures Ascii("$OK#9a") == [0x24, 0x4f, 0x4b, 0x23, 0x39, 0x61] && Ascii("OK") == [0x4f, 0x4b]
  {
    hide Recv, RecvPacket;
    PairValue(9, 10);
    var end := [0x23, 0x39, 0x61] + tail;
    Closing(0x39, 0x61, tail, [0x4f, 0x4b], 0x9a);
    assert [] + [0x4f] == [0x4f] && [0x4f] + [0x4b] == [0x4f, 0x4b];
    OneByte(0x4b, end, [0x4f], 0x4f);
    OneByte(0x4f, [0x4b] + end, [], 0);
    Opened([0x4f] + ([0x4b] + end));
    assert [0x24, 0x4f, 0x4b, 0x23, 0x39, 0x61] + tail == [0x24] + ([0x4f] + ([0x4b] + end));
  }

  /** "$0* #7a": the blank after the star repeats the zero three times. */
  lemma RunOfZeros(tail: seq<Byte>)
    ensures RecvPacket([0x24, 0x30, 0x2a, 0x20, 0x23, 0x37, 0x61] + tail) == Packet([0x30, 0x30, 0x30, 0x30], true, tail)
    ensures Ascii("$0* #7a") == [0x24, 0x30, 0x2a, 0x20, 0x23, 0x37, 0x61] && Ascii("0000") == [0x30, 0x30, 0x30, 0x30]
  {
    hide Recv, RecvPacket;
    PairValue(7, 10);
    var end, zeros := [0x23, 0x37, 0x61] + tail, [0x30, 0x30, 0x30, 0x30];
    Closing(0x37, 0x61, tail, zeros, 0x7a);
    hide DecodeHex;
    assert [] + [0x30] == [0x30] && [0x30] + Repeat<Byte>(0x30, 3) == zeros;
    StarThen(0x20, end, [0x30], 0x30, false);
    OneByte(0x30, [0x2a, 0x20] + end, [], 0);
    Opened([0x30] + ([0x2a, 0x20] + end));
    assert [0x24, 0x30, 0x2a, 0x20, 0x23, 0x37, 0x61] + tail == [0x24] + ([0x30] + ([0x2a, 0x20] + end));
  }

  /** A number sign is sent as "}" and the byte 3. */
  lemma EscapedHash(tail: seq<Byte>)
    ensures RecvPacket([0x24, 0x7d, 0x03, 0x23, 0x38, 0x30] + tail) == Packet([0x23], true, tail)
  {
    var input := [0x24, 0x7d, 0x03, 0x23, 0x38, 0x30] + tail;
    var i1, i2, i3, i4 := [0x7d, 0x03, 0x23, 0x38, 0x30] + tail, [0x03, 0x23, 0x38, 0x30] + tail, [0x23, 0x38, 0x30] + tail, [0x38, 0x30] + tail;
    assert input[1..] == i1 && i1[1..] == i2 && i2[1..] == i3 && i3[1..] == i4 && i4[2..] == tail && i4[1..][0] == 0x30;
    PairValue(8, 0);
    assert Recv(i3, [0x23], 0x80, false) == Packet([0x23], true, tail);
    assert [] + [0x23] == [0x23];
    assert Recv(i2, [], 0x7d, true) == Recv(i3, [0x23], 0x80, false);
  }

  /** What `send_packet` writes for the command "OK". */
  lemma SentText()
    ensures [DOLLAR] + (Ascii("OK") + ([HASH] + Digits(Sum(Ascii("OK"))))) == Ascii("$OK#9A")
  {
    var ok := Ascii("OK");
    assert ok == [0x4f, 0x4b] && ok[..1] == [0x4f] && ok[1..] == [0x4b] && [0x4b][1..] == [] && ok[..0] == [];
    assert Sum(ok) == 0x9a;
    DigitFor(9);
    DigitFor(10);
  }
}
