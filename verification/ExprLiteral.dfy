/**
 Integer constants: what a numeral means in C (section 6.4.4.1 of ISO C11) and what the debugger reads with
 `strtol`, and exactly when the two agree.
 */
module ExprLiteral {
  import opened Common
  import opened ExprEval

  // ---------------------------------------------------------------- constants of C

  function DigitOf(c: char): nat
  {
    if '0' <= c <= '9' then c as nat - '0' as nat
    else if 'a' <= c <= 'f' then c as nat - 'a' as nat + 10
    else if 'A' <= c <= 'F' then c as nat - 'A' as nat + 10
    else 99
  }

  /** The number that a digit string stands for; None when a character is no digit of the radix. */
  function Positional(s: string, radix: nat): Option<nat>
  {
    if s == [] then Some(0)
    else if DigitOf(s[|s| - 1]) >= radix then None
    else
      match Positional(s[..|s| - 1], radix)
      case None => None
      case Some(v) => Some(v * radix + DigitOf(s[|s| - 1]))
  }

  /** A decimal, octal or hexadecimal constant: a leading 0 means octal, 0x means hexadecimal. */
  function Constant(s: string): Option<nat>
  {
    if s == [] then None
    else if s[0] != '0' then Positional(s, 10)
    else if |s| >= 2 && (s[1] == 'x' || s[1] == 'X') then (if |s| == 2 then None else Positional(s[2..], 16))
    else Positional(s, 8)
  }

  /** The value of the constant with the suffix U when its type is `unsigned int`. */
  function UnsignedConstant(s: string): Option<Word>
  {
    match Constant(s)
    case None => None
    case Some(n) => if n < 0x1_0000_0000 then Some(n) else None
  }

  /** The meaning of an operand in C; `*` before an address reads the word there. */
  function CAtom(env: Env, t: Token): Option<Word>
  {
    match t.kind
    case Num => UnsignedConstant(t.text)
    case HexNum => UnsignedConstant(t.text)
    case Reg => env.reg(t.text)
    case Deref => (match UnsignedConstant(t.text) case None => None case Some(a) => Some(env.peek(a)))
    case _ => None
  }

  // ---------------------------------------------------------------- numerals

  predicate AllDigits(s: string)
  {
    forall i :: 0 <= i < |s| ==> IsDigit(s[i])
  }

  predicate AllZeros(s: string)
  {
    forall i :: 0 <= i < |s| ==> s[i] == '0'
  }

  /** No leading zero, except in numerals below 8. */
  predicate PlainNumeral(s: string)
  {
    s != [] && (s[0] != '0' || (AllZeros(s[..|s| - 1]) && s[|s| - 1] < '8'))
  }

  lemma {:induction false} DigitRun(ds: string, rest: string)
    requires AllDigits(ds) && (rest == [] || !IsDigit(rest[0]))
    ensures DigitPrefix(ds + rest) == |ds|
  {
    if ds == [] {
      assert ds + rest == rest;
    } else {
      assert (ds + rest)[1..] == ds[1..] + rest;
      DigitRun(ds[1..], rest);
    }
  }

  /** What `strtol` reads from a string of digits. */
  lemma StrtolDigits(s: string, v: nat)
    requires s != [] && AllDigits(s) && v == DigitsValue(s, 10)
    ensures Strtol(s, 10) == (if v > 0x7fff_ffff_ffff_ffff then 0x7fff_ffff_ffff_ffff else v) % 0x1_0000_0000
  {
    hide DigitsValue;
    DigitRun(s, "");
    assert s + "" == s && s[..|s|] == s;
  }

  /** A string of decimal digits in radix ten or sixteen. */
  lemma {:induction false} PositionalDigits(s: string, radix: nat)
    requires AllDigits(s) && radix >= 10
    ensures Positional(s, radix) == Some(DigitsValue(s, radix))
  {
    if s != [] {
      PositionalDigits(s[..|s| - 1], radix);
      assert IsDigit(s[|s| - 1]);
    }
  }

  lemma {:induction false} ZeroValue(s: string)
    requires AllDigits(s)
    ensures DigitsValue(s, 10) == 0 <==> AllZeros(s)
  {
    if s != [] {
      var init, c := s[..|s| - 1], s[|s| - 1];
      ZeroValue(init);
      assert AllZeros(s) <==> AllZeros(init) && c == '0';
    }
  }

  /** Read as octal, a numeral is smaller than read as decimal, unless only its last digit counts. */
  lemma {:induction false} OctalLess(s: string)
    requires AllDigits(s) && s != []
    ensures match Positional(s, 8)
            case None => exists i :: 0 <= i < |s| && s[i] >= '8'
            case Some(o) => s[|s| - 1] < '8' && o <= DigitsValue(s, 10) && (o == DigitsValue(s, 10) <==> AllZeros(s[..|s| - 1]))
  {
    var init, c := s[..|s| - 1], s[|s| - 1];
    assert IsDigit(c);
    ZeroValue(init);
    if init != [] {
      OctalLess(init);
      assert Positional(init, 8).None? ==> exists i :: 0 <= i < |s| && s[i] >= '8';
    }
  }

  /** Below 2^32, the debugger reads a numeral as C does if and only if it is plain. */
  lemma NumeralExact(s: string)
    requires s != [] && AllDigits(s) && DigitsValue(s, 10) < 0x1_0000_0000
    ensures UnsignedConstant(s) == Some(Strtol(s, 10)) <==> PlainNumeral(s)
  {
    var v := DigitsValue(s, 10);
    StrtolDigits(s, v);
    assert Strtol(s, 10) == v;
    assert s[0] == '0' && |s| >= 2 ==> IsDigit(s[1]);
    hide Strtol, DigitsValue, Positional;
    if s[0] != '0' {
      PositionalDigits(s, 10);
    } else {
      OctalLess(s);
    }
  }

  /** The debugger reads a numeral modulo 2^32 if and only if `strtol` does not saturate, or the cut hides it. */
  lemma SaturationExact(s: string)
    requires s != [] && AllDigits(s)
    ensures Strtol(s, 10) == DigitsValue(s, 10) % 0x1_0000_0000
       <==> DigitsValue(s, 10) < 0x8000_0000_0000_0000 || DigitsValue(s, 10) % 0x1_0000_0000 == 0xffff_ffff
  {
    var v := DigitsValue(s, 10);
    StrtolDigits(s, v);
    hide DigitsValue, Strtol;
    assert 0x7fff_ffff_ffff_ffff % 0x1_0000_0000 == 0xffff_ffff;
    CutSaturated(v);
  }

  lemma CutSaturated(v: nat)
    ensures (if v > 0x7fff_ffff_ffff_ffff then 0x7fff_ffff_ffff_ffff else v) % 0x1_0000_0000 == v % 0x1_0000_0000
       <==> v < 0x8000_0000_0000_0000 || v % 0x1_0000_0000 == 0xffff_ffff
  {
  }

  // ---------------------------------------------------------------- operands

  predicate HexText(s: string)
  {
    3 <= |s| && s[0] == '0' && (s[1] == 'x' || s[1] == 'X') && AllDigits(s[2..])
  }

  /** The operand is written so that the debugger and C agree on it. */
  predicate PlainAtom(t: Token)
  {
    match t.kind
    case Num => AllDigits(t.text) && PlainNumeral(t.text) && DigitsValue(t.text, 10) < 0x1_0000_0000
    case HexNum => HexText(t.text) && DigitsValue(t.text[2..], 16) < 0x1_0000_0000
    case Deref => HexText(t.text) && DigitsValue(t.text[2..], 16) < 0x1_0000_0000
    case _ => true
  }

  lemma HexAgrees(s: string)
    requires HexText(s) && DigitsValue(s[2..], 16) < 0x1_0000_0000
    ensures UnsignedConstant(s) == Some(Strtol(s, 16))
  {
    hide DigitsValue, Positional;
    var ds := s[2..];
    PositionalDigits(ds, 16);
    DigitRun(ds, "");
    assert ds + "" == ds && ds[..|ds|] == ds;
  }

  lemma PlainAgrees(env: Env, t: Token)
    requires PlainAtom(t)
    ensures AtomValue(env, t) == CAtom(env, t)
  {
    hide Strtol, UnsignedConstant, DigitsValue, PlainNumeral;
    match t.kind
    case Num => NumeralAgrees(t.text);
    case HexNum => HexAgrees(t.text);
    case Deref => HexAgrees(t.text);
    case _ =>
  }

  lemma NumeralAgrees(s: string)
    requires AllDigits(s) && PlainNumeral(s) && DigitsValue(s, 10) < 0x1_0000_0000
    ensures UnsignedConstant(s) == Some(Strtol(s, 10))
  {
    NumeralExact(s);
  }

  // ---------------------------------------------------------------- witnesses

  /** "010" is 8 in C and 10 to the debugger; "08" is no constant of C. */
  lemma LeadingZeroDiffers(env: Env)
    ensures CAtom(env, Token(Num, "010")) == Some(8) && AtomValue(env, Token(Num, "010")) == Some(10)
    ensures CAtom(env, Token(Num, "08")) == None && AtomValue(env, Token(Num, "08")) == Some(8)
  {
    ZeroTen();
    StrtolDigits("010", 10);
    StrtolDigits("08", 8);
    hide DigitsValue, Strtol, Positional;
    assert UnsignedConstant("010") == Some(8) && UnsignedConstant("08") == None;
  }

  lemma ZeroTen()
    ensures DigitsValue("010", 10) == 10 && DigitsValue("08", 10) == 8
    ensures Positional("010", 8) == Some(8) && Positional("08", 8) == None
  {
    assert "010"[..2] == "01" && "01"[..1] == "0" && "0"[..0] == "" && "08"[..1] == "0";
    assert DigitsValue("01", 10) == 1 && Positional("01", 8) == Some(1);
  }

  /** One more digit. */
  lemma NextDigit(s: string, k: nat, v: nat)
    requires k < |s| && IsDigit(s[k]) && DigitsValue(s[..k], 10) == v
    ensures DigitsValue(s[..k + 1], 10) == 10 * v + DigitOf(s[k])
  {
    assert s[..k + 1][..k] == s[..k];
  }

  /** Four more digits. */
  lemma NextFour(s: string, k: nat, v: nat)
    requires k + 4 <= |s| && AllDigits(s) && DigitsValue(s[..k], 10) == v
    ensures DigitsValue(s[..k + 4], 10)
         == 10000 * v + 1000 * DigitOf(s[k]) + 100 * DigitOf(s[k + 1]) + 10 * DigitOf(s[k + 2]) + DigitOf(s[k + 3])
  {
    hide DigitsValue, DigitOf;
    NextDigit(s, k, v);
    NextDigit(s, k + 1, 10 * v + DigitOf(s[k]));
    NextDigit(s, k + 2, 100 * v + 10 * DigitOf(s[k]) + DigitOf(s[k + 1]));
    NextDigit(s, k + 3, 1000 * v + 100 * DigitOf(s[k]) + 10 * DigitOf(s[k + 1]) + DigitOf(s[k + 2]));
  }

  lemma TwoTo63()
    ensures DigitsValue("9223372036854775808", 10) == 0x8000_0000_0000_0000
  {
    var s := "9223372036854775808";
    assert DigitsValue(s[..0], 10) == 0;
    hide DigitsValue;
    NextDigit(s, 0, 0);
    NextDigit(s, 1, 9);
    NextDigit(s, 2, 92);
    NextFour(s, 3, 922);
    NextFour(s, 7, 9223372);
    NextFour(s, 11, 92233720368);
    NextFour(s, 15, 922337203685477);
    assert s[..19] == s;
  }

  /** "9223372036854775808" is 2^63: modulo 2^32 that is 0, but `strtol` saturates and the debugger reads 2^32 - 1. */
  lemma SaturationDiffers(env: Env)
    ensures DigitsValue("9223372036854775808", 10) % 0x1_0000_0000 == 0
    ensures AtomValue(env, Token(Num, "9223372036854775808")) == Some(0xffff_ffff)
    ensures CAtom(env, Token(Num, "9223372036854775808")) == None
  {
    hide DigitsValue, Strtol, Positional;
    var s := "9223372036854775808";
    TwoTo63();
    StrtolDigits(s, 0x8000_0000_0000_0000);
    PositionalDigits(s, 10);
  }
}
