/**
 The tokenizer of the debugger (`make_token` in nemu/src/monitor/debug/expr.c). Every rule of the table
 is a fixed longest match at the current position; the rules are tried in table order.
 */
module ExprTokenizer {
  import opened Common
  import opened ExprEval

  datatype Rule = Space | Fixed(kind: Kind) | RegRule | HexRule | NumRule

  predicate IsLetter(c: char)
  {
    'A' <= c <= 'Z' || 'a' <= c <= 'z'
  }

  function SpacePrefix(s: string): (n: nat)
    ensures n <= |s|
  {
    if s != [] && s[0] == ' ' then 1 + SpacePrefix(s[1..]) else 0
  }

  function LetterPrefix(s: string): (n: nat)
    ensures n <= |s|
  {
    if s != [] && IsLetter(s[0]) then 1 + LetterPrefix(s[1..]) else 0
  }

  /** `[0-9]+U?` from position a, where a digit stands. */
  function NumberEnd(s: string, a: nat): (n: nat)
    requires a < |s| && IsDigit(s[a])
    ensures a < n <= |s|
  {
    DigitPrefixBound(s[a..]);
    var n := a + DigitPrefix(s[a..]);
    if n < |s| && s[n] == 'U' then n + 1 else n
  }

  /** The first rule that matches at the start of s, with the length of its match. */
  function MatchRule(s: string): (r: Option<(Rule, nat)>)
    requires s != []
    ensures r.Some? ==> 0 < r.value.1 <= |s|
  {
    var c := s[0];
    var d := if |s| > 1 then s[1] else ' ';
    if c == ' ' then Some((Space, SpacePrefix(s)))
    else if c == '+' then Some((Fixed(Plus), 1))
    else if c == '-' then Some((Fixed(Sub), 1))
    else if c == '*' then Some((Fixed(Mux), 1))
    else if c == '/' then Some((Fixed(Div), 1))
    else if c == '(' then Some((Fixed(Lbrkt), 1))
    else if c == ')' then Some((Fixed(Rbrkt), 1))
    else if c == '=' && d == '=' then Some((Fixed(Eq), 2))
    else if c == '!' && d == '=' then Some((Fixed(Neq), 2))
    else if c == '&' && d == '&' then Some((Fixed(And), 2))
    else if c == '$' && LetterPrefix(s[1..]) > 0 then Some((RegRule, 1 + LetterPrefix(s[1..])))
    else if c == '0' && (d == 'x' || d == 'X') && |s| > 2 && IsDigit(s[2]) then Some((HexRule, NumberEnd(s, 2)))
    else if IsDigit(c) then Some((NumRule, NumberEnd(s, 0)))
    else None
  }

  /** `memcpy` over the start of an existing string. */
  function Overlay(below: string, above: string): string
  {
    above + (if |below| > |above| then below[|above|..] else [])
  }

  function LastKind(ts: seq<Token>): Option<Kind>
  {
    if ts == [] then None else Some(ts[|ts| - 1].kind)
  }

  /** The text of a token has 32 bytes, with the terminating zero; a longer register name runs over them. */
  predicate Overruns(rule: Rule, lexeme: string)
  {
    rule.RegRule? && |lexeme| - 1 >= 32
  }

  /** The tokens after recording a match; None is the assertion on over-long numbers. */
  function Record(ts: seq<Token>, rule: Rule, lexeme: string): Option<seq<Token>>
    requires lexeme != [] && !Overruns(rule, lexeme)
  {
    match rule
    case Space => Some(ts)
    case Fixed(k) =>
      if k.Mux? then
        var last := LastKind(ts);
        var multiply := last == Some(Rbrkt) || last == Some(Num) || last == Some(HexNum);
        Some(ts + [Token(if multiply then Mux else Deref, "")])
      else
        Some(ts + [Token(k, "")])
    case RegRule => Some(ts + [Token(Reg, lexeme[1..])])
    case HexRule =>
      if |lexeme| >= 10 then None
      else if LastKind(ts) == Some(Deref) then
        Some(ts[..|ts| - 1] + [Token(Deref, Overlay(ts[|ts| - 1].text, lexeme))])
      else
        Some(ts + [Token(HexNum, lexeme)])
    case NumRule =>
      if |lexeme| >= 32 then None
      else Some(ts + [Token(Num, if lexeme[|lexeme| - 1] == 'U' then lexeme[..|lexeme| - 1] else lexeme)])
  }

  /** Overrun: a register name was written past its token; the model says nothing about what follows. */
  datatype Lexed = Tokens(ts: seq<Token>) | NoMatch | Abort | Overrun

  /** `make_token` on the rest of the string, with the tokens recorded so far. */
  function Lex(s: string, ts: seq<Token>): Lexed
    decreases |s|
  {
    if s == [] then Tokens(ts) else
    match MatchRule(s)
    case None => NoMatch
    case Some((rule, n)) =>
      if Overruns(rule, s[..n]) then Overrun else
      match Record(ts, rule, s[..n])
      case None => Abort
      case Some(ts') => Lex(s[n..], ts')
  }

  const TOKENS_MAX_SIZE: nat := 65536

  datatype Status = Accepted | Rejected | Stopped | Overran

  /** The static token array and its fill level. */
  class TokenArray {
    const tokens: array<Token>
    var nrToken: nat

    constructor ()
      ensures tokens.Length == TOKENS_MAX_SIZE && fresh(tokens)
    {
      tokens := new Token[TOKENS_MAX_SIZE](_ => Token(Num, ""));
      nrToken := 0;
    }

    /** `make_token`: the array holds exactly the tokens of the specification when the string is accepted. */
    method MakeToken(e: string) returns (r: Status)
      requires |e| < 63000 && tokens.Length == TOKENS_MAX_SIZE
      modifies this, tokens
      ensures match Lex(e, [])
              case Tokens(ts) => r == Accepted && nrToken == |ts| <= |e| && tokens[..nrToken] == ts
              case NoMatch => r == Rejected
              case Abort => r == Stopped
              case Overrun => r == Overran
    {
      nrToken := 0;
      var position: nat := 0;
      assert tokens[..0] == [] && e[0..] == e;
      while position < |e|
        invariant 0 <= nrToken <= position <= |e|
        invariant Lex(e, []) == Lex(e[position..], tokens[..nrToken])
        decreases |e| - position
      {
        var s := e[position..];
        var m := MatchRule(s);
        if m.None? {
          return Rejected;
        }
        var (rule, n) := m.value;
        if Overruns(rule, s[..n]) {
          return Overran;
        }
        var ok := RecordToken(rule, s[..n]);
        if !ok {
          return Stopped;
        }
        assert s[n..] == e[position + n..];
        position := position + n;
      }
      r := Accepted;
    }

    /** The `switch` that fills one slot. */
    method RecordToken(rule: Rule, lexeme: string) returns (ok: bool)
      requires lexeme != [] && !Overruns(rule, lexeme) && nrToken < 63000 && tokens.Length == TOKENS_MAX_SIZE
      modifies this, tokens
      ensures ok <==> Record(old(tokens[..nrToken]), rule, lexeme).Some?
      ensures ok ==> && nrToken <= old(nrToken) + 1
                     && Some(tokens[..nrToken]) == Record(old(tokens[..nrToken]), rule, lexeme)
    {
      ghost var ts := tokens[..nrToken];
      ok := true;
      match rule {
        case Space =>
        case Fixed(k) =>
          var kind := k;
          if k.Mux? {
            if nrToken == 0 {
              kind := Deref;
            } else {
              var last := tokens[nrToken - 1].kind;
              kind := if last.Rbrkt? || last.Num? || last.HexNum? then Mux else Deref;
            }
          }
          Append(Token(kind, ""));
        case RegRule =>
          Append(Token(Reg, lexeme[1..]));
        case HexRule =>
          if |lexeme| >= 10 {
            return false;
          }
          if nrToken != 0 && tokens[nrToken - 1].kind.Deref? {
            tokens[nrToken - 1] := Token(Deref, Overlay(tokens[nrToken - 1].text, lexeme));
            assert tokens[..nrToken - 1] == ts[..|ts| - 1];
            assert tokens[..nrToken] == tokens[..nrToken - 1] + [tokens[nrToken - 1]];
          } else {
            Append(Token(HexNum, lexeme));
          }
        case NumRule =>
          if |lexeme| >= 32 {
            return false;
          }
          Append(Token(Num, if lexeme[|lexeme| - 1] == 'U' then lexeme[..|lexeme| - 1] else lexeme));
      }
    }

    method Append(t: Token)
      requires nrToken < tokens.Length
      modifies this, tokens
      ensures nrToken == old(nrToken) + 1 && tokens[..nrToken] == old(tokens[..nrToken]) + [t]
    {
      tokens[nrToken] := t;
      nrToken := nrToken + 1;
    }

    /** `expr`: tokenize, then evaluate the whole range. */
    method Expr(env: Env, e: string) returns (success: bool, stopped: bool, overran: bool, value: Word)
      requires |e| < 63000 && tokens.Length == TOKENS_MAX_SIZE
      modifies this, tokens
      ensures match ExprSpec(env, e)
              case Value(v) => success && !stopped && !overran && value == v
              case Unrecognised => !success && !stopped && !overran
              case Stops => stopped && !overran
              case Corrupts => overran
    {
      var r := MakeToken(e);
      if r.Overran? {
        return false, false, true, 0;
      }
      if r.Rejected? {
        return false, false, false, 0;
      }
      if r.Stopped? {
        return false, true, false, 0;
      }
      var ts := tokens[..nrToken];
      assert ts[0..nrToken] == ts;
      var v := Eval(env, ts, 0, nrToken - 1);
      if v.None? {
        return false, true, false, 0;
      }
      return true, false, false, v.value;
    }
  }

  /**
   What becomes of a call of `expr`: a value, a text that is no expression, an assertion that stops the program,
   or a register name written past its token.
   */
  datatype Answer = Value(value: Word) | Unrecognised | Stops | Corrupts

  function ExprSpec(env: Env, e: string): Answer
  {
    match Lex(e, [])
    case NoMatch => Unrecognised
    case Abort => Stops
    case Overrun => Corrupts
    case Tokens(ts) =>
      match EvalSpec(env, ts)
      case None => Stops
      case Some(v) => Value(v)
  }
}
