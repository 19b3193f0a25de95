/**
 Register and memory transfer of the GDB client (nemu/tools/qemu-diff/src/gdb-host.c): the hexadecimal
 form of the register file, read back in place, and the chunking of memory writes.
 */
module GdbHost {
  import opened Common
  import opened Words
  import opened GdbProtocol

  const M64: int := 0x1_0000_0000_0000_0000

  // ---------------------------------------------------------------- the hexadecimal form

  /** The register file as it is in memory. */
  function RegBytes(words: seq<U32>): (s: seq<Byte>)
    ensures |s| == 4 * |words|
  {
    if words == [] then [] else RegBytes(words[..|words| - 1]) + Bytes(words[|words| - 1], 4)
  }

  function HexByte(b: Byte): (h: seq<Byte>)
    ensures |h| == 2 && IsHex(h[0]) && IsHex(h[1]) && DecodeHex(h[0], h[1]) == b
  {
    [HexEncode(b / 16), HexEncode(b % 16)]
  }

  function HexBytes(s: seq<Byte>): (h: seq<Byte>)
    ensures |h| == 2 * |s|
  {
    if s == [] then [] else HexBytes(s[..|s| - 1]) + HexByte(s[|s| - 1])
  }

  /** `gdb_setregs`: the command text for a register file. */
  method SetRegs(words: seq<U32>) returns (buf: seq<Byte>)
    ensures buf == [0x47] + HexBytes(RegBytes(words))
  {
    var src := RegBytes(words);
    buf := [0x47];
    var i := 0;
    while i < |src|
      invariant 0 <= i <= |src| && buf == [0x47] + HexBytes(src[..i])
    {
      assert src[..i + 1][..i] == src[..i];
      buf := buf + [HexEncode(src[i] / 16), HexEncode(src[i] % 16)];
      i := i + 1;
    }
    assert src[..|src|] == src;
  }

  // ---------------------------------------------------------------- reading it back

  /** Pairs of hexadecimal digits from the left, least significant byte first, up to the first other character. */
  function DecodeStr(s: seq<Byte>): nat
  {
    if |s| >= 2 && IsHex(s[0]) && IsHex(s[1]) then DecodeHex(s[0], s[1]) + 256 * DecodeStr(s[2..]) else 0
  }

  lemma WrapMulAdd(v: nat, w: nat, d: nat)
    ensures (v % M64 + (w % M64) * d) % M64 == (v + w * d) % M64
  {
    var a, b := v / M64, w / M64;
    assert v + w * d == v % M64 + (w % M64) * d + (a + b * d) * M64 by {
      assert (b * M64 + w % M64) * d == b * d * M64 + (w % M64) * d;
    }
    WrapAdd(v % M64 + (w % M64) * d, a + b * d);
  }

  lemma {:induction false} WrapAdd(x: nat, k: nat)
    ensures (x + k * M64) % M64 == x % M64
  {
    if k > 0 {
      WrapAdd(x, k - 1);
      assert x + k * M64 == x + (k - 1) * M64 + M64;
    }
  }

  /** `gdb_decode_hex_str`: in 64-bit arithmetic. */
  method DecodeHexStr(s: seq<Byte>) returns (value: nat)
    ensures value == DecodeStr(s) % M64
  {
    hide DecodeStr, DecodeHex;
    value := 0;
    var weight: nat := 1;
    var p := 0;
    ghost var v: nat, w: nat := 0, 1;
    assert s[0..] == s;
    while p + 1 < |s| && IsHex(s[p]) && IsHex(s[p + 1])
      invariant 0 <= p <= |s|
      invariant value == v % M64 && weight == w % M64
      invariant v + w * DecodeStr(s[p..]) == DecodeStr(s)
      decreases |s| - p
    {
      var d := DecodeHex(s[p], s[p + 1]);
      DecodeNext(s, p);
      Distribute(w, d, DecodeStr(s[p + 2..]));
      WrapMulAdd(v, w, d);
      WrapMulAdd(0, w, 256);
      value := (value + weight * d) % M64;
      weight := weight * 256 % M64;
      v, w := v + w * d, w * 256;
      p := p + 2;
    }
    DecodeNext(s, p);
  }

  lemma Distribute(w: nat, d: nat, x: nat)
    ensures w * (d + 256 * x) == w * d + w * 256 * x
  {
  }

  lemma DecodeNext(s: seq<Byte>, p: nat)
    requires p <= |s|
    ensures p + 1 < |s| && IsHex(s[p]) && IsHex(s[p + 1]) ==>
              DecodeStr(s[p..]) == DecodeHex(s[p], s[p + 1]) + 256 * DecodeStr(s[p + 2..])
    ensures !(p + 1 < |s| && IsHex(s[p]) && IsHex(s[p + 1])) ==> DecodeStr(s[p..]) == 0
  {
    if p + 1 < |s| {
      assert s[p..][2..] == s[p + 2..];
    }
  }

  /** The word that the eight characters at position 8 * i stand for. */
  function RegAt(reply: seq<Byte>, i: nat): U32
    requires 8 * i + 8 <= |reply|
  {
    DecodeStr(reply[8 * i..8 * i + 8] + [0]) % M64 % 0x1_0000_0000
  }

  /**
   The loop of `gdb_getregs`: each word is cut off with a temporary terminator, and the reply is the same
   afterwards.
   */
  method GetRegs(reply: array<Byte>, n: nat) returns (regs: seq<U32>)
    requires reply.Length > 8 * n
    modifies reply
    ensures reply[..] == old(reply[..])
    ensures |regs| == n && forall i :: 0 <= i < n ==> regs[i] == RegAt(reply[..], i)
  {
    regs := [];
    var p := 0;
    while |regs| < n
      invariant |regs| <= n && p == 8 * |regs|
      invariant reply[..] == old(reply[..])
      invariant forall i :: 0 <= i < |regs| ==> regs[i] == RegAt(old(reply[..]), i)
    {
      ghost var whole := reply[..];
      var c := reply[p + 8];
      reply[p + 8] := 0;
      var text := reply[p..p + 9];
      assert text == whole[p..p + 8] + [0];
      var v := DecodeHexStr(text);
      reply[p + 8] := c;
      assert reply[..] == whole;
      regs := regs + [v % 0x1_0000_0000];
      p := p + 8;
    }
  }

  // ---------------------------------------------------------------- round trip

  lemma {:induction false} HexBytesOf(s: seq<Byte>, i: nat, p: nat, q: nat)
    requires i < |s| && p == 2 * i && q == p + 2
    ensures HexBytes(s)[p..q] == HexByte(s[i])
  {
    if i < |s| - 1 {
      HexBytesOf(s[..|s| - 1], i, p, q);
      assert HexBytes(s)[p..q] == HexBytes(s[..|s| - 1])[p..q];
    }
  }

  lemma {:induction false} BytesOf(words: seq<U32>, i: nat, p: nat)
    requires i < |words| && p == 4 * i
    ensures RegBytes(words)[p..p + 4] == Bytes(words[i], 4)
  {
    if i < |words| - 1 {
      BytesOf(words[..|words| - 1], i, p);
      assert RegBytes(words)[p..p + 4] == RegBytes(words[..|words| - 1])[p..p + 4];
    }
  }

  /** Four hexadecimal bytes and a terminator decode to their little-endian value. */
  lemma DecodeFour(b0: Byte, b1: Byte, b2: Byte, b3: Byte)
    ensures DecodeStr(HexByte(b0) + HexByte(b1) + HexByte(b2) + HexByte(b3) + [0]) == LE([b0, b1, b2, b3])
  {
    DecodeOne(b3, [0]);
    assert DecodeStr([0]) == 0;
    DecodeOne(b2, HexByte(b3) + [0]);
    DecodeOne(b1, HexByte(b2) + (HexByte(b3) + [0]));
    DecodeOne(b0, HexByte(b1) + (HexByte(b2) + (HexByte(b3) + [0])));
    assert HexByte(b0) + HexByte(b1) + HexByte(b2) + HexByte(b3) + [0]
        == HexByte(b0) + (HexByte(b1) + (HexByte(b2) + (HexByte(b3) + [0])));
  }

  lemma DecodeOne(b: Byte, rest: seq<Byte>)
    ensures DecodeStr(HexByte(b) + rest) == b + 256 * DecodeStr(rest)
  {
    var s := HexByte(b) + rest;
    assert s[2..] == rest;
  }

  lemma WordBack(w: U32)
    ensures LE(Bytes(w, 4)) == w
  {
    hide LE, Bytes;
    LoadStored(w, 4);
  }

  /** Reading the text written by `gdb_setregs` gives back every register. */
  lemma SetThenGet(words: seq<U32>, tail: seq<Byte>, i: nat)
    requires i < |words|
    ensures RegAt(HexBytes(RegBytes(words)) + tail, i) == words[i]
  {
    hide HexBytes, RegBytes, HexByte, Bytes, DecodeStr, LE, RegAt;
    WordBack(words[i]);
    BytesOf(words, i, 4 * i);
    GetBytes(RegBytes(words), tail, i, Bytes(words[i], 4));
  }

  lemma GetBytes(bytes: seq<Byte>, tail: seq<Byte>, i: nat, w: seq<Byte>)
    requires |w| == 4 && 4 * i + 4 <= |bytes| && bytes[4 * i..4 * i + 4] == w
    ensures 8 * i + 8 <= |HexBytes(bytes) + tail|
    ensures RegAt(HexBytes(bytes) + tail, i) == LE(w)
  {
    hide HexBytes, HexByte, DecodeStr, LE, RegAt;
    var hex, p := HexBytes(bytes), 8 * i;
    HexOfFour(bytes, 4 * i, p, w);
    Prefix(hex, tail, p);
    RegOf(hex + tail, i, w);
  }

  /** The text of four consecutive bytes. */
  lemma HexOfFour(s: seq<Byte>, j: nat, p: nat, w: seq<Byte>)
    requires |w| == 4 && j + 4 <= |s| && p == 2 * j && s[j..j + 4] == w
    ensures HexBytes(s)[p..p + 8] == HexByte(w[0]) + HexByte(w[1]) + HexByte(w[2]) + HexByte(w[3])
  {
    hide HexBytes, HexByte;
    FourBytes(s, j, w);
    HexSlice(s, j, p);
  }

  lemma RegOf(reply: seq<Byte>, i: nat, w: seq<Byte>)
    requires |w| == 4 && 8 * i + 8 <= |reply|
    requires reply[8 * i..8 * i + 8] == HexByte(w[0]) + HexByte(w[1]) + HexByte(w[2]) + HexByte(w[3])
    ensures RegAt(reply, i) == LE(w)
  {
    hide HexByte, DecodeStr, LE;
    DecodeFour(w[0], w[1], w[2], w[3]);
    assert w == [w[0], w[1], w[2], w[3]];
    SmallWraps(LE(w));
  }

  lemma FourBytes(s: seq<Byte>, p: nat, w: seq<Byte>)
    requires |w| == 4 && p + 4 <= |s| && s[p..p + 4] == w
    ensures s[p] == w[0] && s[p + 1] == w[1] && s[p + 2] == w[2] && s[p + 3] == w[3]
  {
    assert w[0] == s[p..p + 4][0] && w[1] == s[p..p + 4][1] && w[2] == s[p..p + 4][2] && w[3] == s[p..p + 4][3];
  }

  lemma Prefix(s: seq<Byte>, tail: seq<Byte>, p: nat)
    requires p + 8 <= |s|
    ensures (s + tail)[p..p + 8] == s[p..p + 8]
  {
  }

  lemma HexSlice(s: seq<Byte>, j: nat, p: nat)
    requires j + 4 <= |s| && p == 2 * j
    ensures HexBytes(s)[p..p + 8] == HexByte(s[j]) + HexByte(s[j + 1]) + HexByte(s[j + 2]) + HexByte(s[j + 3])
  {
    hide HexBytes, HexByte;
    HexBytesOf(s, j, p, p + 2);
    HexBytesOf(s, j + 1, p + 2, p + 4);
    HexBytesOf(s, j + 2, p + 4, p + 6);
    HexBytesOf(s, j + 3, p + 6, p + 8);
    FourPairs(HexBytes(s), p);
  }

  lemma SmallWraps(w: U32)
    ensures w % M64 % 0x1_0000_0000 == w
  {
  }

  lemma FourPairs(s: seq<Byte>, p: nat)
    requires p + 8 <= |s|
    ensures s[p..p + 8] == s[p..p + 2] + s[p + 2..p + 4] + s[p + 4..p + 6] + s[p + 6..p + 8]
  {
  }

  // ---------------------------------------------------------------- memory writes

  /** One "M" command: address and data. */
  datatype Write = Write(addr: U32, data: seq<Byte>)

  function Concat(ws: seq<Write>): seq<Byte>
  {
    if ws == [] then [] else Concat(ws[..|ws| - 1]) + ws[|ws| - 1].data
  }

  const MTU: nat := 1500

  /** `gdb_memcpy_to_qemu`: the chunks tile the source exactly and land at consecutive addresses. */
  method MemcpyToQemu(dest: U32, src: seq<Byte>) returns (ws: seq<Write>)
    ensures Concat(ws) == src
    ensures |ws| >= 1
    ensures forall k :: 0 <= k < |ws| ==> ws[k].addr == (dest + 1500 * k) % 0x1_0000_0000
    ensures forall k :: 0 <= k < |ws| - 1 ==> |ws[k].data| == 1500
    ensures |ws[|ws| - 1].data| <= 1500
  {
    hide Concat;
    ws := [];
    ConcatEmpty();
    var d: U32, rest := dest, src;
    while |rest| > MTU
      invariant d == (dest + MTU * |ws|) % 0x1_0000_0000
      invariant Concat(ws) + rest == src
      invariant forall k :: 0 <= k < |ws| ==> ws[k].addr == (dest + MTU * k) % 0x1_0000_0000
      invariant forall k :: 0 <= k < |ws| ==> |ws[k].data| == MTU
      decreases |rest|
    {
      ConcatNext(ws, Write(d, rest[..MTU]));
      Split(Concat(ws), rest);
      AddrStep(dest, |ws|);
      ws := ws + [Write(d, rest[..MTU])];
      d := (d + MTU) % 0x1_0000_0000;
      rest := rest[MTU..];
    }
    ConcatNext(ws, Write(d, rest));
    ws := ws + [Write(d, rest)];
  }

  lemma ConcatEmpty()
    ensures Concat([]) == []
  {
  }

  lemma ConcatNext(ws: seq<Write>, w: Write)
    ensures Concat(ws + [w]) == Concat(ws) + w.data
  {
    assert (ws + [w])[..|ws|] == ws;
  }

  lemma Split(done: seq<Byte>, rest: seq<Byte>)
    requires |rest| >= MTU
    ensures done + rest[..MTU] + rest[MTU..] == done + rest
  {
  }

  lemma AddrStep(dest: U32, k: nat)
    ensures ((dest + MTU * k) % 0x1_0000_0000 + MTU) % 0x1_0000_0000 == (dest + MTU * (k + 1)) % 0x1_0000_0000
  {
    var a, m := dest + MTU * k, 0x1_0000_0000;
    var q, r := a / m, a % m;
    assert a == q * m + r && dest + MTU * (k + 1) == a + MTU;
    if r + MTU < m {
      WrapUnique(a + MTU, q, r + MTU);
      WrapUnique(r + MTU, 0, r + MTU);
    } else {
      WrapUnique(a + MTU, q + 1, r + MTU - m);
      WrapUnique(r + MTU, 1, r + MTU - m);
    }
  }

  lemma WrapUnique(x: nat, q: nat, r: nat)
    requires x == q * 0x1_0000_0000 + r && r < 0x1_0000_0000
    ensures x % 0x1_0000_0000 == r
  {
  }
}
