/**
 The packet layer of the GDB remote protocol client (nemu/tools/qemu-diff/src/protocol.c): framing,
 checksum, escapes, run-length decoding and the growing reply buffer. Encodings follow the "Overview"
 section of the appendix "GDB Remote Serial Protocol" of the GDB manual.
 */
module GdbProtocol {

  import opened Common

  const DOLLAR: Byte := 0x24
  const HASH: Byte := 0x23
  const BRACE: Byte := 0x7d
  const STAR: Byte := 0x2a

  // ---------------------------------------------------------------- hex digits

  predicate IsDigit(c: Byte) { 0x30 <= c <= 0x39 }
  predicate IsUpper(c: Byte) { 0x41 <= c <= 0x46 }
  predicate IsLower(c: Byte) { 0x61 <= c <= 0x66 }

  /** `isxdigit`. */
  predicate IsHex(c: Byte)
  {
    IsDigit(c) || IsUpper(c) || IsLower(c)
  }

  /** `hex_nibble`, for hexadecimal digits. */
  function Nibble(c: Byte): (v: nat)
    requires IsHex(c)
    ensures v < 16
  {
    if IsDigit(c) then c - 0x30 else if IsUpper(c) then c + 0x20 - 0x61 + 10 else c - 0x61 + 10
  }

  /** `hex_encode`: lower case, for values below 16. */
  function HexEncode(v: nat): (c: Byte)
    requires v < 16
    ensures IsHex(c) && Nibble(c) == v
  {
    if v > 9 then 0x61 + v - 10 else 0x30 + v
  }

  /** A digit of `%02X`: upper case. */
  function HexUpper(v: nat): (c: Byte)
    requires v < 16
    ensures IsHex(c) && Nibble(c) == v
  {
    if v > 9 then 0x41 + v - 10 else 0x30 + v
  }

  /** `gdb_decode_hex`: UINT16_MAX when one of the characters is not a hexadecimal digit. */
  function DecodeHex(msb: Byte, lsb: Byte): (v: nat)
    ensures v < 256 <==> IsHex(msb) && IsHex(lsb)
  {
    if !IsHex(msb) || !IsHex(lsb) then 0xffff else 16 * Nibble(msb) + Nibble(lsb)
  }

  /** `c ^ 0x20`. */
  function Flip(c: Byte): (r: Byte)
    ensures r == if c / 32 % 2 == 1 then c - 32 else c + 32
  {
    if c / 32 % 2 == 1 then c - 32 else c + 32
  }

  lemma FlipFlip(c: Byte)
    ensures Flip(Flip(c)) == c
  {
  }

  // ---------------------------------------------------------------- checksums

  /** Addition of `uint8_t`. */
  function Plus(a: Byte, b: Byte): Byte
  {
    if a + b < 256 then a + b else a + b - 256
  }

  function Minus(a: Byte, b: Byte): Byte
  {
    if b <= a then a - b else a + 256 - b
  }

  lemma PlusIsMod(a: nat, b: Byte)
    ensures Plus(a % 256, b) == (a + b) % 256
  {
    var q, r := a / 256, a % 256;
    assert a == 256 * q + r;
    assert r + b < 256 ==> a + b == 256 * q + (r + b);
    assert r + b >= 256 ==> a + b == 256 * (q + 1) + (r + b - 256);
  }

  lemma PlusAssoc(a: Byte, b: Byte, c: Byte)
    ensures Plus(a, Plus(b, c)) == Plus(Plus(a, b), c)
  {
  }

  // ---------------------------------------------------------------- receiving

  datatype Received = Closed | Packet(payload: seq<Byte>, sumOk: bool, rest: seq<Byte>)

  /** The count character after '*', when it is a valid one. */
  predicate ValidCount(c: int)
  {
    29 <= c <= 126 && c != DOLLAR && c != HASH
  }

  /** `fgetc` on the rest of the input; -1 is EOF. */
  function Peek(input: seq<Byte>): int
  {
    if input == [] then -1 else input[0]
  }

  /** The character that `(uint8_t)fgetc` yields. */
  function Next(input: seq<Byte>): Byte
  {
    if input == [] then 255 else input[0]
  }

  function Drop(input: seq<Byte>, n: nat): seq<Byte>
  {
    if n <= |input| then input[n..] else []
  }

  /** The receiving loop inside a packet: output so far, running checksum, pending escape. */
  function Recv(input: seq<Byte>, out: seq<Byte>, sum: Byte, escape: bool): Received
    decreases |input|
  {
    if input == [] then Closed else
    var c, t := input[0], input[1..];
    var sum' := Plus(sum, c);
    if c == DOLLAR then Recv(t, [], 0, false)
    else if c == HASH then Packet(out, sum == DecodeHex(Next(t), Next(Drop(t, 1))), Drop(t, 2))
    else if c == BRACE then Recv(t, out, sum', true)
    else if c == STAR && out != [] && ValidCount(Peek(t)) then
      Recv(t[1..], out + Repeat(out[|out| - 1], t[0] - 29), Plus(sum', t[0]), escape)
    else
      Recv(t, out + [if escape then Flip(c) else c], sum', false)
  }

  /** `recv_packet`: skip to the first '$', then receive. */
  function RecvPacket(input: seq<Byte>): Received
    decreases |input|
  {
    if input == [] then Closed
    else if input[0] == DOLLAR then Recv(input[1..], [], 0, false)
    else RecvPacket(input[1..])
  }

  /** A buffer twice as large with the same contents. */
  method Realloc(reply: array<Byte>, size: nat) returns (r: array<Byte>)
    requires reply.Length <= size
    ensures fresh(r) && r.Length == size && r[..reply.Length] == reply[..]
  {
    r := new Byte[size](_ => 0);
    var k := 0;
    while k < reply.Length
      invariant 0 <= k <= reply.Length && r[..k] == reply[..k]
    {
      r[k] := reply[k];
      k := k + 1;
    }
    assert reply[..reply.Length] == reply[..];
  }

  /** Doubles the buffer when the next `count` bytes would not fit; once is enough. */
  method Reserve(reply: array<Byte>, i: nat, count: nat) returns (r: array<Byte>)
    requires i <= reply.Length && count <= reply.Length
    ensures r == reply || fresh(r)
    ensures reply.Length <= r.Length && i + count <= r.Length && r[..i] == reply[..i]
  {
    r := reply;
    if i + count > reply.Length {
      r := Realloc(reply, 2 * reply.Length);
      assert r[..i] == r[..reply.Length][..i] && reply[..i] == reply[..][..i];
    }
  }

  /** Appends the terminating zero, enlarging a full buffer by one. */
  method Terminate(reply: array<Byte>, i: nat) returns (r: array<Byte>)
    requires i <= reply.Length
    modifies reply
    ensures i < r.Length && r[..i] == old(reply[..i]) && r[i] == 0
    ensures r == reply || fresh(r)
  {
    r := reply;
    if i == reply.Length {
      r := Realloc(reply, reply.Length + 1);
      assert r[..i] == reply[..];
    }
    r[i] := 0;
  }

  /** `memset(&reply[i], b, count)`. */
  method Fill(reply: array<Byte>, i: nat, b: Byte, count: nat)
    requires i + count <= reply.Length
    modifies reply
    ensures reply[..i + count] == old(reply[..i]) + Repeat(b, count)
  {
    forall k | i <= k < i + count {
      reply[k] := b;
    }
  }

  /**
   `recv_packet` with its buffer: every write is inside the allocated array, and the reply is the payload
   of the specification, followed by a terminating zero.
   */
  method ReceivePacket(input: seq<Byte>) returns (ok: bool, reply: array<Byte>, size: nat, sumOk: bool, rest: seq<Byte>)
    ensures match RecvPacket(input)
            case Closed => !ok
            case Packet(payload, s, r) =>
              && ok && size == |payload| < reply.Length
              && reply[..size] == payload && reply[size] == 0
              && sumOk == s && rest == r
  {
    hide DecodeHex, Flip, Repeat;
    reply := new Byte[4096](_ => 0);
    size, sumOk, rest := 0, false, input;
    while rest != [] && rest[0] != DOLLAR
      invariant RecvPacket(input) == RecvPacket(rest)
      decreases |rest|
    {
      rest := rest[1..];
    }
    if rest == [] {
      return false, reply, 0, false, rest;
    }
    rest := rest[1..];
    var i: nat, sum: Byte, escape := 0, 0, false;
    assert reply[..0] == [];
    while rest != []
      invariant 4096 <= reply.Length && i <= reply.Length
      invariant fresh(reply)
      invariant RecvPacket(input) == Recv(rest, reply[..i], sum, escape)
      decreases |rest|
    {
      var c := rest[0];
      rest := rest[1..];
      ghost var out, sum0 := reply[..i], sum;
      sum := Plus(sum, c);
      if c == DOLLAR {
        i, sum, escape := 0, 0, false;
        assert reply[..0] == [];
        continue;
      }
      if c == HASH {
        sum := Minus(sum, c);
        assert sum == sum0;
        sumOk := sum == DecodeHex(Next(rest), Next(Drop(rest, 1)));
        rest := Drop(rest, 2);
        reply := Terminate(reply, i);
        return true, reply, i, sumOk, rest;
      }
      if c == BRACE {
        escape := true;
        continue;
      }
      if c == STAR && i > 0 {
        var c2 := Peek(rest);
        if ValidCount(c2) {
          var count := c2 - 29;
          reply := Reserve(reply, i, count);
          var b := reply[i - 1];
          assert b == out[|out| - 1];
          Fill(reply, i, b, count);
          i := i + count;
          sum := Plus(sum, c2);
          rest := rest[1..];
          continue;
        }
      }
      var stored := if escape then Flip(c) else c;
      escape := false;
      reply := Reserve(reply, i, 1);
      reply[i] := stored;
      i := i + 1;
      assert reply[..i] == out + [stored];
    }
    return false, reply, 0, false, rest;
  }

  // ---------------------------------------------------------------- encodings

  /** One element of an encoded payload: a byte, an escaped byte, or a repetition of the last byte. */
  datatype Piece = Raw(b: Byte) | Esc(b: Byte) | Run(n: nat)

  predicate Special(c: Byte)
  {
    c == DOLLAR || c == HASH || c == BRACE || c == STAR
  }

  /** Any byte may be sent as it is or escaped; a repetition needs a byte before it and a valid count. */
  predicate WellFormed(ps: seq<Piece>, first: bool)
  {
    ps == [] || ((ps[0].Run? ==> !first && ValidCount(ps[0].n + 29)) && WellFormed(ps[1..], false))
  }

  function EncodePiece(p: Piece): seq<Byte>
    requires p.Run? ==> ValidCount(p.n + 29)
  {
    match p
    case Raw(b) => [b]
    case Esc(b) => [BRACE, Flip(b)]
    case Run(n) => [STAR, n + 29]
  }

  function Encode(ps: seq<Piece>, first: bool): seq<Byte>
    requires WellFormed(ps, first)
  {
    if ps == [] then [] else EncodePiece(ps[0]) + Encode(ps[1..], false)
  }

  /** The output after one piece. */
  function After(p: Piece, out: seq<Byte>): (r: seq<Byte>)
    requires p.Run? ==> out != []
    ensures r != []
  {
    if p.Run? then out + Repeat(out[|out| - 1], p.n) else out + [p.b]
  }

  /** The payload that an encoding stands for, appended to what came before. */
  function Payload(ps: seq<Piece>, out: seq<Byte>): seq<Byte>
    requires WellFormed(ps, out == [])
  {
    if ps == [] then out else Payload(ps[1..], After(ps[0], out))
  }

  /** The receiver stores this character: it is no marker, and no '*' that starts a repetition. */
  predicate Stored(c: Byte, first: bool, next: int)
  {
    c != DOLLAR && c != HASH && c != BRACE && !(c == STAR && !first && ValidCount(next))
  }

  /** The condition on one piece, given the character that follows its encoding. */
  predicate Fits(p: Piece, first: bool, next: int)
  {
    match p
    case Raw(b) => Stored(b, first, next)
    case Esc(b) => Stored(Flip(b), first, next)
    case Run(_) => true
  }

  /** The condition on all pieces of an encoding that is followed by `rest`. */
  predicate AllFit(ps: seq<Piece>, first: bool, rest: seq<Byte>)
    requires WellFormed(ps, first)
  {
    ps == [] || (Fits(ps[0], first, Peek(Encode(ps[1..], false) + rest)) && AllFit(ps[1..], false, rest))
  }

  /** The checksum of the protocol, added up byte by byte. */
  function Sum(s: seq<Byte>): Byte
  {
    if s == [] then 0 else Plus(Sum(s[..|s| - 1]), s[|s| - 1])
  }

  function Total(s: seq<Byte>): nat
  {
    if s == [] then 0 else Total(s[..|s| - 1]) + s[|s| - 1]
  }

  lemma {:induction false} SumIsMod(s: seq<Byte>)
    ensures Sum(s) == Total(s) % 256
  {
    if s != [] {
      var t, x := s[..|s| - 1], s[|s| - 1];
      SumIsMod(t);
      PlusIsMod(Total(t), x);
    }
  }

  lemma {:induction false} SumConcat(a: seq<Byte>, b: seq<Byte>)
    ensures Sum(a + b) == Plus(Sum(a), Sum(b))
  {
    hide Sum;
    if b == [] {
      assert a + b == a;
      SumEmpty();
    } else {
      var b', x := b[..|b| - 1], b[|b| - 1];
      SumConcat(a, b');
      assert (a + b)[..|a + b| - 1] == a + b' && (a + b)[|a + b| - 1] == x;
      SumLast(a + b, a + b', x);
      SumLast(b, b', x);
      PlusAssoc(Sum(a), Sum(b'), x);
    }
  }

  lemma SumLast(s: seq<Byte>, t: seq<Byte>, x: Byte)
    requires s != [] && t == s[..|s| - 1] && x == s[|s| - 1]
    ensures Sum(s) == Plus(Sum(t), x)
  {
  }

  lemma SumOne(a: Byte)
    ensures Sum([a]) == a
  {
    assert [a][..0] == [];
  }

  lemma SumPair(a: Byte, b: Byte)
    ensures Sum([a, b]) == Plus(a, b)
  {
    SumOne(a);
    assert [a, b][..1] == [a];
  }

  // ---------------------------------------------------------------- the state after a piece

  /** The variables of the loop: output, running checksum, pending escape. */
  datatype State = State(out: seq<Byte>, sum: Byte, escape: bool)

  /** The variables when the loop has read exactly n characters; None if it has returned or is in between. */
  function Reads(input: seq<Byte>, n: nat, s: State): Option<State>
    requires n <= |input|
    decreases n
  {
    if n == 0 then Some(s) else
    var c, t := input[0], input[1..];
    var sum := Plus(s.sum, c);
    if c == DOLLAR then Reads(t, n - 1, State([], 0, false))
    else if c == HASH then None
    else if c == BRACE then Reads(t, n - 1, State(s.out, sum, true))
    else if c == STAR && s.out != [] && ValidCount(Peek(t)) then
      if n == 1 then None
      else Reads(t[1..], n - 2, State(s.out + Repeat(s.out[|s.out| - 1], t[0] - 29), Plus(sum, t[0]), s.escape))
    else
      Reads(t, n - 1, State(s.out + [if s.escape then Flip(c) else c], sum, false))
  }

  /** From there the loop goes on with the rest of the input. */
  lemma {:induction false} ReadsThenRecv(input: seq<Byte>, n: nat, s: State)
    requires n <= |input|
    ensures match Reads(input, n, s)
            case None => true
            case Some(s') => Recv(input, s.out, s.sum, s.escape) == Recv(input[n..], s'.out, s'.sum, s'.escape)
    decreases n
  {
    if n > 0 {
      var c, t := input[0], input[1..];
      var sum := Plus(s.sum, c);
      assert input[n..] == t[n - 1..];
      if c == DOLLAR {
        ReadsThenRecv(t, n - 1, State([], 0, false));
      } else if c == HASH {
      } else if c == BRACE {
        ReadsThenRecv(t, n - 1, State(s.out, sum, true));
      } else if c == STAR && s.out != [] && ValidCount(Peek(t)) {
        if n > 1 {
          assert input[n..] == t[1..][n - 2..];
          ReadsThenRecv(t[1..], n - 2, State(s.out + Repeat(s.out[|s.out| - 1], t[0] - 29), Plus(sum, t[0]), s.escape));
        }
      } else {
        ReadsThenRecv(t, n - 1, State(s.out + [if s.escape then Flip(c) else c], sum, false));
      }
    }
  }

  lemma ReadsOne(c: Byte, rest: seq<Byte>, s: State)
    ensures Reads([c] + rest, 1, s) ==
            if c == DOLLAR then Some(State([], 0, false))
            else if c == HASH || (c == STAR && s.out != [] && ValidCount(Peek(rest))) then None
            else if c == BRACE then Some(State(s.out, Plus(s.sum, c), true))
            else Some(State(s.out + [if s.escape then Flip(c) else c], Plus(s.sum, c), false))
  {
    assert ([c] + rest)[1..] == rest;
  }

  lemma ReadsEscaped(c: Byte, rest: seq<Byte>, s: State)
    ensures Reads([BRACE, c] + rest, 2, s) == Reads([c] + rest, 1, State(s.out, Plus(s.sum, BRACE), true))
  {
    var input, t := [BRACE, c] + rest, [c] + rest;
    assert input[0] == BRACE && input[1..] == t;
    ReadsBrace(input, 2, s);
  }

  lemma ReadsBrace(input: seq<Byte>, n: nat, s: State)
    requires 0 < n <= |input| && input[0] == BRACE
    ensures Reads(input, n, s) == Reads(input[1..], n - 1, State(s.out, Plus(s.sum, BRACE), true))
  {
  }

  lemma ReadsRun(c2: Byte, rest: seq<Byte>, s: State)
    requires s.out != [] && ValidCount(c2)
    ensures Reads([STAR, c2] + rest, 2, s)
         == Some(State(s.out + Repeat(s.out[|s.out| - 1], c2 - 29), Plus(Plus(s.sum, STAR), c2), s.escape))
  {
    hide Reads, Repeat;
    ReadsStar([STAR, c2] + rest, s);
  }

  lemma ReadsStar(input: seq<Byte>, s: State)
    requires |input| >= 2 && input[0] == STAR && s.out != [] && ValidCount(input[1])
    ensures Reads(input, 2, s)
         == Some(State(s.out + Repeat(s.out[|s.out| - 1], input[1] - 29), Plus(Plus(s.sum, STAR), input[1]), s.escape))
  {
    hide Repeat;
    var t := input[1..];
    assert t[0] == input[1];
    ReadsNone(t[1..], State(s.out + Repeat(s.out[|s.out| - 1], t[0] - 29), Plus(Plus(s.sum, STAR), t[0]), s.escape));
  }

  lemma ReadsNone(input: seq<Byte>, s: State)
    ensures Reads(input, 0, s) == Some(s)
  {
  }

  /** What the protocol asks for after a piece. */
  function Wanted(p: Piece, out: seq<Byte>, sum: Byte): State
    requires p.Run? ==> out != [] && ValidCount(p.n + 29)
  {
    State(After(p, out), Plus(sum, Sum(EncodePiece(p))), false)
  }

  /**
   Whatever was received before and whatever follows: after the encoding of a piece the receiver is in the
   state that the protocol asks for if and only if the piece fits.
   */
  lemma PieceExact(p: Piece, rest: seq<Byte>, out: seq<Byte>, sum: Byte)
    requires p.Run? ==> out != [] && ValidCount(p.n + 29)
    ensures Reads(EncodePiece(p) + rest, |EncodePiece(p)|, State(out, sum, false)) == Some(Wanted(p, out, sum))
       <==> Fits(p, out == [], Peek(rest))
  {
    hide Reads, Sum, Flip;
    var s := State(out, sum, false);
    match p
    case Raw(b) =>
      SumOne(b);
      ReadsOne(b, rest, s);
    case Esc(b) =>
      SumPair(BRACE, Flip(b));
      FlipFlip(b);
      ReadsEscaped(Flip(b), rest, s);
      ReadsOne(Flip(b), rest, State(out, Plus(sum, BRACE), true));
      PlusAssoc(sum, BRACE, Flip(b));
    case Run(n) =>
      SumPair(STAR, n + 29);
      ReadsRun(n + 29, rest, s);
      PlusAssoc(sum, STAR, n + 29);
  }

  /** At the end of every piece of the encoding, the receiver is in the state the protocol asks for. */
  ghost predicate Follows(ps: seq<Piece>, rest: seq<Byte>, out: seq<Byte>, sum: Byte)
    requires WellFormed(ps, out == [])
    decreases |ps|
  {
    ps == [] ||
    (var p, input := ps[0], Encode(ps[1..], false) + rest;
     && Reads(EncodePiece(p) + input, |EncodePiece(p)|, State(out, sum, false)) == Some(Wanted(p, out, sum))
     && Follows(ps[1..], rest, Wanted(p, out, sum).out, Wanted(p, out, sum).sum))
  }

  /** The receiver follows an encoding from piece to piece if and only if all pieces fit. */
  lemma {:induction false} FollowsExact(ps: seq<Piece>, rest: seq<Byte>, out: seq<Byte>, sum: Byte)
    requires WellFormed(ps, out == [])
    ensures Follows(ps, rest, out, sum) <==> AllFit(ps, out == [], rest)
    decreases |ps|
  {
    hide Reads, Sum, Fits;
    if ps != [] {
      PieceExact(ps[0], Encode(ps[1..], false) + rest, out, sum);
      var w := Wanted(ps[0], out, sum);
      FollowsExact(ps[1..], rest, w.out, w.sum);
    }
  }

  lemma RecvPiece(p: Piece, rest: seq<Byte>, out: seq<Byte>, sum: Byte)
    requires p.Run? ==> out != [] && ValidCount(p.n + 29)
    requires Fits(p, out == [], Peek(rest))
    ensures Recv(EncodePiece(p) + rest, out, sum, false)
         == Recv(rest, After(p, out), Plus(sum, Sum(EncodePiece(p))), false)
  {
    hide Recv, Reads, Sum, EncodePiece, Fits, After;
    var e := EncodePiece(p);
    assert (e + rest)[|e|..] == rest;
    PieceExact(p, rest, out, sum);
    ReadsThenRecv(e + rest, |e|, State(out, sum, false));
  }

  /** Receiving an encoding whose pieces all fit reproduces the payload and adds its bytes to the checksum. */
  lemma {:induction false} RecvPieces(ps: seq<Piece>, rest: seq<Byte>, out: seq<Byte>, sum: Byte)
    requires WellFormed(ps, out == []) && AllFit(ps, out == [], rest)
    ensures Recv(Encode(ps, out == []) + rest, out, sum, false)
         == Recv(rest, Payload(ps, out), Plus(sum, Sum(Encode(ps, out == []))), false)
    decreases |ps|
  {
    hide Recv, Sum, After, EncodePiece, Fits, ValidCount, Peek;
    if ps == [] {
      assert Encode(ps, out == []) + rest == rest;
      SumEmpty();
    } else {
      var p := ps[0];
      var tail := Encode(ps[1..], false);
      EncodeNext(ps, out == []);
      assert Payload(ps, out) == Payload(ps[1..], After(p, out));
      assert Fits(p, out == [], Peek(tail + rest)) && AllFit(ps[1..], false, rest);
      hide Encode, Payload, AllFit, WellFormed;
      assert EncodePiece(p) + tail + rest == EncodePiece(p) + (tail + rest);
      RecvPiece(p, tail + rest, out, sum);
      RecvPieces(ps[1..], rest, After(p, out), Plus(sum, Sum(EncodePiece(p))));
      SumConcat(EncodePiece(p), tail);
      PlusAssoc(sum, Sum(EncodePiece(p)), Sum(tail));
    }
  }

  // ---------------------------------------------------------------- pieces that do not fit

  /**
   An escaped line feed after a byte and before a count character is taken for a repetition, in any state:
   the last byte is repeated and the escape stays pending.
   */
  lemma EscapedStarIsARun(c2: Byte, rest: seq<Byte>, out: seq<Byte>, sum: Byte)
    requires out != [] && ValidCount(c2)
    ensures EncodePiece(Esc(0x0a)) == [BRACE, STAR]
    ensures Recv([BRACE, STAR, c2] + rest, out, sum, false)
         == Recv(rest, out + Repeat(out[|out| - 1], c2 - 29), Plus(Plus(Plus(sum, BRACE), STAR), c2), true)
  {
    hide Reads;
    var input := [BRACE, STAR, c2] + rest;
    assert input == [BRACE] + ([STAR, c2] + rest) && input[1..] == [STAR, c2] + rest;
    ReadsOne(BRACE, [STAR, c2] + rest, State(out, sum, false));
    ReadsThenRecv(input, 1, State(out, sum, false));
    assert ([STAR, c2] + rest)[2..] == rest;
    ReadsRun(c2, rest, State(out, Plus(sum, BRACE), true));
    ReadsThenRecv([STAR, c2] + rest, 2, State(out, Plus(sum, BRACE), true));
  }

  /** An escaped ']' is lost in any state: the second '}' only sets the escape again. */
  lemma EscapedBracketIsLost(rest: seq<Byte>, out: seq<Byte>, sum: Byte)
    ensures EncodePiece(Esc(0x5d)) == [BRACE, BRACE]
    ensures Recv([BRACE, BRACE] + rest, out, sum, false) == Recv(rest, out, Plus(Plus(sum, BRACE), BRACE), true)
  {
    hide Reads;
    var input := [BRACE, BRACE] + rest;
    assert input[2..] == rest;
    ReadsEscaped(BRACE, rest, State(out, sum, false));
    ReadsOne(BRACE, rest, State(out, Plus(sum, BRACE), true));
    ReadsThenRecv(input, 2, State(out, sum, false));
  }

  /** So the encoding "}}a" of "]a" is received as "A", with its checksum accepted. */
  lemma EscapedBracketWitness(tail: seq<Byte>)
    ensures var ps := [Esc(0x5d), Raw(0x61)];
            && WellFormed(ps, true) && Encode(ps, true) == [BRACE, BRACE, 0x61] && Payload(ps, []) == [0x5d, 0x61]
            && RecvPacket([DOLLAR] + (Encode(ps, true) + ([HASH, 0x35, 0x42] + tail))) == Packet([0x41], true, tail)
  {
    var ps := [Esc(0x5d), Raw(0x61)];
    assert ps[1..] == [Raw(0x61)] && [Raw(0x61)][1..] == [];
    var ending := [HASH, 0x35, 0x42] + tail;
    var input := [DOLLAR] + ([BRACE, BRACE, 0x61] + ending);
    assert input[1..] == [BRACE, BRACE] + ([0x61] + ending);
    EscapedBracketIsLost([0x61] + ending, [], 0);
    assert ([0x61] + ending)[1..] == ending;
    assert ending[1..] == [0x35, 0x42] + tail && ([0x35, 0x42] + tail)[2..] == tail;
  }

  /**
   A packet with a piece that does not fit can still come out right by coincidence, so the exact condition
   speaks of the pieces: fifteen line feeds, the second one escaped and followed by thirteen repetitions.
   */
  lemma MisreadByLuck(tail: seq<Byte>)
    ensures var ps := [Raw(0x0a), Esc(0x0a), Run(13)];
            && WellFormed(ps, true) && !AllFit(ps, true, [HASH] + tail)
            && Recv(Encode(ps, true) + ([HASH] + tail), [], 0, false)
               == Recv([HASH] + tail, Payload(ps, []), Sum(Encode(ps, true)), false)
  {
    hide Recv, Sum;
    var ps, rest := [Raw(0x0a), Esc(0x0a), Run(13)], [HASH] + tail;
    LuckyEncoding(rest);
    LuckyReceived(tail);
    var code := [0x0a, BRACE, STAR, STAR, STAR];
    assert Sum(code) == 5 by {
      SumOne(0x0a);
      SumPair(BRACE, STAR);
      SumPair(STAR, STAR);
      SumConcat([0x0a], [BRACE, STAR]);
      SumConcat([0x0a] + [BRACE, STAR], [STAR, STAR]);
      assert [0x0a] + [BRACE, STAR] + [STAR, STAR] == code;
    }
  }

  lemma LuckyEncoding(rest: seq<Byte>)
    ensures var ps := [Raw(0x0a), Esc(0x0a), Run(13)];
            && WellFormed(ps, true) && !AllFit(ps, true, rest)
            && Encode(ps, true) == [0x0a, BRACE, STAR, STAR, STAR] && Payload(ps, []) == Repeat<Byte>(0x0a, 15)
  {
    var ps := [Raw(0x0a), Esc(0x0a), Run(13)];
    var ps1, ps2 := [Esc(0x0a), Run(13)], [Run(13)];
    assert ps[1..] == ps1 && ps1[1..] == ps2 && ps2[1..] == [];
    assert Encode(ps2, false) == [STAR, STAR];
    assert Encode(ps1, false) == [BRACE, STAR] + [STAR, STAR];
    assert Encode(ps, true) == [0x0a, BRACE, STAR, STAR, STAR];
    assert !AllFit(ps1, false, rest) by { assert Peek([STAR, STAR] + rest) == STAR; }
    var out, two: seq<Byte> := [0x0a], [0x0a, 0x0a];
    assert Payload(ps, []) == Payload(ps1, out) by { assert [] + [0x0a] == out; }
    assert Payload(ps1, out) == Payload(ps2, two) by { assert out + [0x0a] == two; }
    assert Payload(ps2, two) == two + Repeat<Byte>(0x0a, 13);
  }

  lemma LuckyReceived(tail: seq<Byte>)
    ensures Recv([0x0a, BRACE, STAR, STAR, STAR] + ([HASH] + tail), [], 0, false)
         == Recv([HASH] + tail, Repeat<Byte>(0x0a, 15), 5, false)
  {
    hide Recv, Reads;
    var rest, out: seq<Byte> := [HASH] + tail, [0x0a];
    var input, input1 := [0x0a, BRACE, STAR, STAR, STAR] + rest, [BRACE, STAR, STAR] + ([STAR] + rest);
    assert input == [0x0a] + input1 && input[1..] == input1 && [] + [0x0a] == out;
    ReadsOne(0x0a, input1, State([], 0, false));
    ReadsThenRecv(input, 1, State([], 0, false));
    EscapedStarIsARun(STAR, [STAR] + rest, out, 0x0a);
    var run := out + Repeat<Byte>(0x0a, 13);
    ReadsOne(STAR, rest, State(run, 219, true));
    ReadsThenRecv([STAR] + rest, 1, State(run, 219, true));
    assert ([STAR] + rest)[1..] == rest;
    assert run + [0x0a] == Repeat<Byte>(0x0a, 15);
  }

  lemma EncodeNext(ps: seq<Piece>, first: bool)
    requires ps != [] && WellFormed(ps, first)
    ensures Encode(ps, first) == EncodePiece(ps[0]) + Encode(ps[1..], false)
  {
  }

  /** The case of a whole packet. */
  lemma RecvWhole(ps: seq<Piece>, rest: seq<Byte>)
    requires WellFormed(ps, true) && AllFit(ps, true, rest)
    ensures Recv(Encode(ps, true) + rest, [], 0, false) == Recv(rest, Payload(ps, []), Sum(Encode(ps, true)), false)
  {
    hide Recv, Sum, Encode, Payload, AllFit;
    var out: seq<Byte> := [];
    RecvPieces(ps, rest, out, 0);
  }

  lemma SumEmpty()
    ensures Sum([]) == 0
  {
  }

  /** Anything without '#' before a '$' is discarded: a '$' starts a new packet in every state. */
  lemma {:induction false} Restart(prefix: seq<Byte>, rest: seq<Byte>, out: seq<Byte>, sum: Byte, escape: bool)
    requires HASH !in prefix
    ensures Recv(prefix + [DOLLAR] + rest, out, sum, escape) == Recv(rest, [], 0, false)
    decreases |prefix|
  {
    var s := prefix + [DOLLAR] + rest;
    if prefix == [] {
      assert s[0] == DOLLAR && s[1..] == rest;
    } else {
      var c, t := s[0], s[1..];
      assert c == prefix[0] && t == prefix[1..] + [DOLLAR] + rest;
      if c == STAR && out != [] && ValidCount(Peek(t)) {
        assert |prefix| >= 2;
        assert t[1..] == prefix[2..] + [DOLLAR] + rest;
        Restart(prefix[2..], rest, out + Repeat(out[|out| - 1], t[0] - 29), Plus(Plus(sum, c), t[0]), escape);
      } else if c == BRACE {
        Restart(prefix[1..], rest, out, Plus(sum, c), true);
      } else if c == DOLLAR {
        Restart(prefix[1..], rest, [], 0, false);
      } else {
        Restart(prefix[1..], rest, out + [if escape then Flip(c) else c], Plus(sum, c), false);
      }
    }
  }

  /** No packet ends in these bytes. */
  predicate NoPacket(junk: seq<Byte>)
  {
    forall i, j :: 0 <= i < j < |junk| && junk[i] == DOLLAR ==> junk[j] != HASH
  }

  lemma {:induction false} SkipJunk(junk: seq<Byte>, rest: seq<Byte>)
    requires NoPacket(junk)
    ensures RecvPacket(junk + [DOLLAR] + rest) == Recv(rest, [], 0, false)
    decreases |junk|
  {
    var s := junk + [DOLLAR] + rest;
    if junk == [] {
      assert s[0] == DOLLAR && s[1..] == rest;
    } else {
      assert s[0] == junk[0] && s[1..] == junk[1..] + [DOLLAR] + rest;
      if junk[0] == DOLLAR {
        assert forall j :: 0 < j < |junk| ==> junk[j] != HASH;
        Restart(junk[1..], rest, [], 0, false);
      } else {
        SkipJunk(junk[1..], rest);
      }
    }
  }

  /**
   The decoder inverts every encoding whose pieces fit, in a packet after any bytes in which no other packet
   ends: the payload is received, and the checksum is accepted exactly when the two digits decode to the byte sum.
   */
  lemma Decodes(junk: seq<Byte>, ps: seq<Piece>, msb: Byte, lsb: Byte, tail: seq<Byte>)
    requires NoPacket(junk) && WellFormed(ps, true) && AllFit(ps, true, [HASH, msb, lsb] + tail)
    ensures RecvPacket(junk + [DOLLAR] + (Encode(ps, true) + ([HASH, msb, lsb] + tail)))
         == Packet(Payload(ps, []), DecodeHex(msb, lsb) == Total(Encode(ps, true)) % 256, tail)
  {
    SumIsMod(Encode(ps, true));
    hide Recv, Sum, Total, DecodeHex, RecvPacket, Encode, Payload, AllFit;
    var ending := [HASH, msb, lsb] + tail;
    SkipJunk(junk, Encode(ps, true) + ending);
    RecvWhole(ps, ending);
    RecvEnd(msb, lsb, tail, Payload(ps, []), Sum(Encode(ps, true)));
  }

  lemma RecvEnd(msb: Byte, lsb: Byte, tail: seq<Byte>, out: seq<Byte>, sum: Byte)
    ensures Recv([HASH, msb, lsb] + tail, out, sum, false) == Packet(out, DecodeHex(msb, lsb) == sum, tail)
  {
    hide DecodeHex;
    var ending := [HASH, msb, lsb] + tail;
    assert ending[0] == HASH && ending[1..] == [msb, lsb] + tail;
    assert Drop(ending[1..], 2) == tail;
  }

  /** Every payload has an encoding that fits: escape the four special characters. */
  function Escaped(payload: seq<Byte>): (ps: seq<Piece>)
    ensures forall first :: WellFormed(ps, first)
  {
    if payload == [] then []
    else [if Special(payload[0]) then Esc(payload[0]) else Raw(payload[0])] + Escaped(payload[1..])
  }

  lemma {:induction false} EscapedFits(payload: seq<Byte>, first: bool, rest: seq<Byte>)
    ensures AllFit(Escaped(payload), first, rest)
    decreases |payload|
  {
    if payload != [] {
      var ps := Escaped(payload);
      assert ps[1..] == Escaped(payload[1..]);
      EscapedFits(payload[1..], false, rest);
    }
  }

  lemma {:induction false} EscapedPayload(payload: seq<Byte>, out: seq<Byte>)
    ensures Payload(Escaped(payload), out) == out + payload
    decreases |payload|
  {
    if payload != [] {
      EscapedPayload(payload[1..], out + [payload[0]]);
      assert Escaped(payload)[1..] == Escaped(payload[1..]);
      assert out + [payload[0]] + payload[1..] == out + payload;
    }
  }

  /** So every payload can be transmitted. */
  lemma EveryPayload(payload: seq<Byte>, tail: seq<Byte>)
    ensures var ps := Escaped(payload);
            RecvPacket([DOLLAR] + (Encode(ps, true) + ([HASH] + Digits(Sum(Encode(ps, true))) + tail)))
            == Packet(payload, true, tail)
  {
    var ps := Escaped(payload);
    var sum := Sum(Encode(ps, true));
    SumIsMod(Encode(ps, true));
    EscapedPayload(payload, []);
    EscapedFits(payload, true, [HASH, Digits(sum)[0], Digits(sum)[1]] + tail);
    Decodes([], ps, Digits(sum)[0], Digits(sum)[1], tail);
    assert [HASH] + Digits(sum) + tail == [HASH, Digits(sum)[0], Digits(sum)[1]] + tail;
    assert [] + [DOLLAR] == [DOLLAR];
    assert [] + payload == payload;
  }

  // ---------------------------------------------------------------- sending

  /** `%02X` of a byte. */
  function Digits(b: Byte): (d: seq<Byte>)
    ensures |d| == 2 && DecodeHex(d[0], d[1]) == b
  {
    [HexUpper(b / 16), HexUpper(b % 16)]
  }

  /** `send_packet`: the bytes written to the stream. */
  method SendPacket(command: seq<Byte>) returns (out: seq<Byte>)
    ensures out == [DOLLAR] + (command + ([HASH] + Digits(Sum(command))))
  {
    var sum: Byte := 0;
    var i := 0;
    while i < |command|
      invariant 0 <= i <= |command| && sum == Sum(command[..i])
    {
      assert command[..i + 1][..i] == command[..i];
      sum := Plus(sum, command[i]);
      i := i + 1;
    }
    assert command[..|command|] == command;
    out := [DOLLAR] + (command + ([HASH] + Digits(sum)));
  }

  function Plain(command: seq<Byte>): seq<Piece>
  {
    if command == [] then [] else [Raw(command[0])] + Plain(command[1..])
  }

  lemma {:induction false} PlainPieces(command: seq<Byte>, out: seq<Byte>)
    ensures WellFormed(Plain(command), out == []) && Encode(Plain(command), out == []) == command
    ensures Payload(Plain(command), out) == out + command
    decreases |command|
  {
    if command != [] {
      var c, t := command[0], command[1..];
      PlainPieces(t, out + [c]);
      var ps := Plain(command);
      assert ps[0] == Raw(c) && ps[1..] == Plain(t);
      EncodeNext(ps, out == []);
      assert Payload(ps, out) == Payload(ps[1..], out + [c]);
      hide Encode, Payload;
      assert out + [c] + t == out + command;
    } else {
      assert out + command == out;
    }
  }

  lemma {:induction false} PlainFits(command: seq<Byte>, first: bool, rest: seq<Byte>)
    requires (forall c :: c in command ==> !Special(c)) && WellFormed(Plain(command), first)
    ensures AllFit(Plain(command), first, rest)
    decreases |command|
  {
    if command != [] {
      assert Plain(command)[0] == Raw(command[0]) && Plain(command)[1..] == Plain(command[1..]);
      assert command[0] in command;
      PlainFits(command[1..], false, rest);
    }
  }

  /** `recv_packet` inverts `send_packet` on commands without special characters. */
  lemma SendReceive(command: seq<Byte>, tail: seq<Byte>)
    requires forall c :: c in command ==> !Special(c)
    ensures RecvPacket([DOLLAR] + (command + ([HASH] + Digits(Sum(command)))) + tail) == Packet(command, true, tail)
  {
    var d := Digits(Sum(command));
    PlainPieces(command, []);
    SumIsMod(command);
    PlainFits(command, true, [HASH, d[0], d[1]] + tail);
    Decodes([], Plain(command), d[0], d[1], tail);
    assert [DOLLAR] + (command + ([HASH] + d)) + tail == [] + [DOLLAR] + (command + ([HASH, d[0], d[1]] + tail));
    assert [] + command == command;
  }
}
