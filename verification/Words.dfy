/** Little-endian words: their bytes in memory, as the x86 interpreter and the GDB client see them. */
module Words {
  import opened Common

  /** Little-endian value of at most four bytes. */
  function LE(s: seq<Byte>): (v: nat)
    requires |s| <= 4
    ensures |s| == 1 ==> v < 0x100
    ensures |s| == 2 ==> v < 0x1_0000
    ensures v < 0x1_0000_0000
  {
    if |s| == 0 then 0
    else if |s| == 1 then s[0]
    else if |s| == 2 then s[0] as int + 256 * s[1] as int
    else if |s| == 3 then s[0] as int + 256 * (s[1] as int + 256 * s[2] as int)
    else s[0] as int + 256 * (s[1] as int + 256 * (s[2] as int + 256 * s[3] as int))
  }

  function ByteOf(v: nat, j: nat): Byte
    requires j < 4
  {
    if j == 0 then v % 256 else if j == 1 then v / 256 % 256 else if j == 2 then v / 65536 % 256 else v / 16777216 % 256
  }

  predicate Width(w: nat)
  {
    w == 1 || w == 2 || w == 4
  }

  /** The low n bytes of a word, least significant first. */
  function Bytes(v: nat, n: nat): (s: seq<Byte>)
    requires n == 0 || Width(n)
    ensures |s| == n && forall j :: 0 <= j < n ==> s[j] == ByteOf(v, j)
  {
    if n == 0 then []
    else if n == 1 then [ByteOf(v, 0)]
    else if n == 2 then [ByteOf(v, 0), ByteOf(v, 1)]
    else [ByteOf(v, 0), ByteOf(v, 1), ByteOf(v, 2), ByteOf(v, 3)]
  }

  function Modulus(w: nat): (m: nat)
    requires Width(w)
    ensures m > 0
  {
    if w == 1 then 0x100 else if w == 2 then 0x1_0000 else 0x1_0000_0000
  }

  /** Storing and loading the same width gives the value cut to that width. */
  lemma LoadStored(v: nat, w: nat)
    requires Width(w)
    ensures LE(Bytes(v, w)) == v % Modulus(w)
  {
    LowBytes(v);
    SplitWord(v % 0x1_0000_0000);
  }

  lemma SplitWord(x: U32)
    ensures x == x % 256 + 256 * (x / 256 % 256) + 65536 * (x / 65536 % 256) + 16777216 * (x / 16777216)
    ensures x / 65536 == x / 65536 % 256 + 256 * (x / 16777216)
    ensures x / 256 == x / 256 % 256 + 256 * (x / 65536)
  {
    assert x / 256 / 256 == x / 65536;
    assert x / 65536 / 256 == x / 16777216;
  }

  lemma LowBytes(v: nat)
    ensures var y := v % 0x1_0000_0000;
            && y % 256 == v % 256 && y / 256 % 256 == v / 256 % 256
            && y / 65536 % 256 == v / 65536 % 256 && y / 16777216 == v / 16777216 % 256
            && v % 65536 == v % 256 + 256 * (v / 256 % 256)
  {
    var q, y := v / 0x1_0000_0000, v % 0x1_0000_0000;
    assert v == 256 * (16777216 * q) + y;
    Mod256(y, 16777216 * q);
    assert v / 256 == 256 * (65536 * q) + y / 256;
    Mod256(y / 256, 65536 * q);
    assert v / 65536 == 256 * (256 * q) + y / 65536;
    Mod256(y / 65536, 256 * q);
    assert v / 16777216 == 256 * q + y / 16777216;
    Mod256(y / 16777216, q);
    LowHalf(v);
  }

  lemma Mod256(x: nat, k: nat)
    ensures (256 * k + x) % 256 == x % 256
  {
  }

  lemma LowHalf(v: nat)
    ensures v % 65536 == v % 256 + 256 * (v / 256 % 256)
  {
    var a, c := v / 256, v % 256;
    var b, d := a / 256, a % 256;
    assert v == 256 * a + c && a == 256 * b + d;
    HalfUnique(v, b, 256 * d + c);
  }

  lemma HalfUnique(v: nat, q: nat, r: nat)
    requires v == 65536 * q + r && r < 65536
    ensures v % 65536 == r
  {
  }
}
