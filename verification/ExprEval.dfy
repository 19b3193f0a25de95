/**
 The evaluator of the debugger (nemu/src/monitor/debug/expr.c): tokens, operator precedence,
 `check_parentheses` and the recursive `eval` that looks for the main operator.
 */
module ExprEval {

  import opened Common

  type Word = U32

  /** The token types; those from Plus to And lie between TK_OP_START and TK_OP_END. */
  datatype Kind = Plus | Sub | Mux | Div | Lbrkt | Rbrkt | Eq | Neq | And | Reg | Deref | Num | HexNum

  datatype Token = Token(kind: Kind, text: string)

  /** `token_is_vaild_op`: operators and parentheses. */
  predicate IsOp(k: Kind)
  {
    !(k.Reg? || k.Deref? || k.Num? || k.HexNum?)
  }

  predicate IsBinary(k: Kind)
  {
    IsOp(k) && !k.Lbrkt? && !k.Rbrkt?
  }

  /** `get_precedence`: the column of the rule table; smaller binds tighter. */
  function Precedence(k: Kind): nat
  {
    match k
    case Plus => 4
    case Sub => 4
    case Mux => 3
    case Div => 3
    case Lbrkt => 1
    case Rbrkt => 1
    case Eq => 7
    case Neq => 7
    case And => 11
    case _ => 255
  }

  // ---------------------------------------------------------------- values

  /** Registers by name, and the 32-bit word at a guest address. */
  datatype Env = Env(reg: string -> Option<Word>, peek: Word -> Word)

  predicate IsDigit(c: char)
  {
    '0' <= c <= '9'
  }

  function DigitsValue(s: string, radix: nat): nat
  {
    if s == [] then 0
    else radix * DigitsValue(s[..|s| - 1], radix) + (if IsDigit(s[|s| - 1]) then s[|s| - 1] as nat - '0' as nat else 0)
  }

  /** The longest prefix of digits. */
  function DigitPrefix(s: string): nat
  {
    if s != [] && IsDigit(s[0]) then 1 + DigitPrefix(s[1..]) else 0
  }

  lemma DigitPrefixBound(s: string)
    ensures DigitPrefix(s) <= |s|
  {
  }

  /** `(word_t)strtol(str, NULL, radix)`: the leading digits, saturating at LONG_MAX, cut to 32 bits. */
  function Strtol(s: string, radix: nat): Word
  {
    DigitPrefixBound(s);
    var body := if radix == 16 && |s| >= 2 && s[0] == '0' && (s[1] == 'x' || s[1] == 'X') then s[2..] else s;
    DigitPrefixBound(body);
    var v := DigitsValue(body[..DigitPrefix(body)], radix);
    (if v > 0x7fff_ffff_ffff_ffff then 0x7fff_ffff_ffff_ffff else v) % 0x1_0000_0000
  }

  /** The value of a single token; None when the program stops with an assertion. */
  function AtomValue(env: Env, t: Token): Option<Word>
  {
    match t.kind
    case Num => Some(Strtol(t.text, 10))
    case HexNum => Some(Strtol(t.text, 16))
    case Reg => env.reg(t.text)
    case Deref => Some(env.peek(Strtol(t.text, 16)))
    case _ => None
  }

  function Bool(b: bool): Word
  {
    if b then 1 else 0
  }

  /** The `switch` on the main operator, in unsigned 32-bit arithmetic. */
  function Apply(op: Kind, a: Word, b: Word): Option<Word>
  {
    match op
    case Plus => Some((a + b) % 0x1_0000_0000)
    case Sub => Some((a as int - b) % 0x1_0000_0000)
    case Mux => Some(a * b % 0x1_0000_0000)
    case Div => if b == 0 then None else Some(Quotient(a, b))
    case Eq => Some(Bool(a == b))
    case Neq => Some(Bool(a != b))
    case And => Some(Bool(a != 0 && b != 0))
    case _ => None
  }

  function Quotient(a: Word, b: Word): (q: Word)
    requires b != 0
    ensures q * b <= a < q * b + b
  {
    QuotientBound(a, b);
    a / b
  }

  lemma QuotientBound(a: Word, b: Word)
    requires b != 0
    ensures 0 <= a / b <= a && a / b * b <= a < a / b * b + b
  {
  }

  // ---------------------------------------------------------------- parentheses

  /** Opening minus closing parentheses among the first k tokens. */
  function Depth(ts: seq<Token>, k: nat): int
    requires k <= |ts|
  {
    if k == 0 then 0
    else Depth(ts, k - 1) + (if ts[k - 1].kind.Lbrkt? then 1 else if ts[k - 1].kind.Rbrkt? then -1 else 0)
  }

  predicate Balanced(ts: seq<Token>)
  {
    (forall k :: 0 <= k <= |ts| ==> Depth(ts, k) >= 0) && Depth(ts, |ts|) == 0
  }

  /** The first token is '(' and its matching ')' is the last token. */
  predicate Enclosed(ts: seq<Token>)
  {
    |ts| >= 2 && ts[0].kind.Lbrkt? && Balanced(ts) && forall k :: 0 < k < |ts| ==> Depth(ts, k) > 0
  }

  /** What `check_parentheses` computes on a range of at least three tokens. */
  predicate CheckSpec(ts: seq<Token>)
    requires |ts| >= 3
  {
    && (ts[0].kind.Lbrkt? || ts[|ts| - 1].kind.Rbrkt?)
    && Balanced(ts[1..|ts| - 1])
  }

  lemma {:induction false} DepthSlice(ts: seq<Token>, a: nat, b: nat, k: nat)
    requires a + k <= b <= |ts|
    ensures Depth(ts[a..b], k) == Depth(ts, a + k) - Depth(ts, a)
  {
    if k > 0 {
      DepthSlice(ts, a, b, k - 1);
    }
  }

  /** On balanced ranges the test is exact, although the guard lets one-sided ranges through. */
  lemma CheckOnBalanced(ts: seq<Token>)
    requires |ts| >= 3 && Balanced(ts)
    ensures CheckSpec(ts) <==> Enclosed(ts)
  {
    var n := |ts|;
    var inner := ts[1..n - 1];
    forall k | 0 <= k <= n - 2
      ensures Depth(inner, k) == Depth(ts, 1 + k) - Depth(ts, 1)
    {
      DepthSlice(ts, 1, n - 1, k);
    }
    assert Depth(ts, 0) == 0 && Depth(ts, 1) >= 0 && Depth(ts, n) == 0 && Depth(ts, n - 1) >= 0;
    if Enclosed(ts) {
      forall k | 0 <= k <= |inner|
        ensures Depth(inner, k) >= 0
      {
        assert Depth(ts, 1 + k) > 0;
      }
    }
    if CheckSpec(ts) {
      assert Depth(inner, n - 2) == 0;
      forall k | 0 < k < n
        ensures Depth(ts, k) > 0
      {
        assert Depth(inner, k - 1) >= 0;
      }
    }
  }

  /** Without balance it is not: "x + )" passes the test although it does not start with '('. */
  lemma CheckAcceptsOneSided()
    ensures var ts := [Token(Num, "1"), Token(Plus, ""), Token(Rbrkt, "")];
            CheckSpec(ts) && !ts[0].kind.Lbrkt?
  {
    var ts := [Token(Num, "1"), Token(Plus, ""), Token(Rbrkt, "")];
    assert ts[1..2] == [Token(Plus, "")];
    assert Depth([Token(Plus, "")], 1) == 0;
  }

  /** On every range, the answer is right exactly unless a balanced inside has a parenthesis on one side only. */
  lemma CheckExact(ts: seq<Token>)
    requires |ts| >= 3
    ensures (CheckSpec(ts) <==> Enclosed(ts))
       <==> !(Balanced(ts[1..|ts| - 1]) && ts[0].kind.Lbrkt? != ts[|ts| - 1].kind.Rbrkt?)
  {
    var n := |ts|;
    var inner := ts[1..n - 1];
    forall k | 0 <= k <= n - 2
      ensures Depth(inner, k) == Depth(ts, 1 + k) - Depth(ts, 1)
    {
      DepthSlice(ts, 1, n - 1, k);
    }
    if Balanced(ts) {
      CheckOnBalanced(ts);
      assert Depth(ts, 1) >= 0 && Depth(ts, n - 1) >= 0 && Depth(ts, n) == 0;
    }
    if Balanced(inner) && ts[0].kind.Lbrkt? && ts[n - 1].kind.Rbrkt? {
      assert Depth(ts, n - 1) == 1 && Depth(ts, n) == 0;
      forall k | 0 <= k <= n
        ensures Depth(ts, k) >= if 0 < k < n then 1 else 0
      {
        assert 0 < k < n ==> Depth(inner, k - 1) >= 0;
      }
      assert Enclosed(ts);
    }
  }

  /** `check_parentheses(p, q)`; None is the failed assertion on the length. */
  method CheckParentheses(tokens: seq<Token>, p: nat, q: int) returns (r: Option<bool>)
    requires p <= q + 1 <= |tokens|
    ensures r.None? <==> q - p + 1 < 3
    ensures r.Some? ==> (r.value <==> CheckSpec(tokens[p..q + 1]))
  {
    if q - p + 1 < 3 {
      return None;
    }
    ghost var ts := tokens[p..q + 1];
    ghost var inner := ts[1..|ts| - 1];
    if !tokens[p].kind.Lbrkt? && !tokens[q].kind.Rbrkt? {
      return Some(false);
    }
    var top := 0;
    var i := p + 1;
    while i <= q - 1
      invariant p + 1 <= i <= q
      invariant top == Depth(inner, i - p - 1)
      invariant forall k :: 0 <= k <= i - p - 1 ==> Depth(inner, k) >= 0
    {
      assert inner[i - p - 1] == tokens[i];
      var k := tokens[i].kind;
      if k.Lbrkt? {
        top := top + 1;
      } else if k.Rbrkt? {
        if top == 0 {
          assert Depth(inner, i - p) == -1;
          return Some(false);
        }
        top := top - 1;
      }
      i := i + 1;
    }
    r := Some(top == 0);
  }

  // ---------------------------------------------------------------- the main operator

  /**
   The right-to-left scan over ts[..n]: `need` closing parentheses are open, `best` is the position of
   the main operator found so far.
   */
  function Scan(ts: seq<Token>, n: nat, need: nat, best: Option<nat>): (r: Option<nat>)
    requires n <= |ts| && (best.Some? ==> best.value < |ts|)
    ensures r.Some? ==> r.value < |ts|
  {
    if n == 0 then best else
    var k := ts[n - 1].kind;
    if !IsOp(k) then Scan(ts, n - 1, need, best)
    else if k.Rbrkt? then Scan(ts, n - 1, need + 1, best)
    else if need != 0 then Scan(ts, n - 1, if k.Lbrkt? then need - 1 else need, best)
    else if best.None? || Precedence(ts[best.value].kind) < Precedence(k) then Scan(ts, n - 1, 0, Some(n - 1))
    else Scan(ts, n - 1, 0, best)
  }

  /** `eval` on a range of tokens. */
  function EvalSpec(env: Env, ts: seq<Token>): Option<Word>
    decreases |ts|
  {
    if |ts| == 0 || |ts| == 2 then None
    else if |ts| == 1 then AtomValue(env, ts[0])
    else if CheckSpec(ts) then EvalSpec(env, ts[1..|ts| - 1])
    else
      match Scan(ts, |ts|, 0, None)
      case None => None
      case Some(m) =>
        Combine(ts[m].kind, EvalSpec(env, ts[..m]), EvalSpec(env, ts[m + 1..]))
  }

  /** The scanning loop of `eval`. */
  method FindMainOp(tokens: seq<Token>, p: nat, q: nat) returns (pos: Option<nat>)
    requires p <= q < |tokens|
    ensures pos.Some? ==> p <= pos.value <= q
    ensures (match pos case None => None case Some(m) => Some(m - p)) == Scan(tokens[p..q + 1], q + 1 - p, 0, None)
  {
    ghost var ts := tokens[p..q + 1];
    pos := None;
    var need: nat := 0;
    var i: int := q;
    while i >= p
      invariant p - 1 <= i <= q
      invariant pos.Some? ==> p <= pos.value <= q
      invariant Scan(ts, |ts|, 0, None) ==
                Scan(ts, i + 1 - p, need, match pos case None => None case Some(m) => Some(m - p))
    {
      assert ts[i - p] == tokens[i];
      var k := tokens[i].kind;
      if !IsOp(k) {
      } else if k.Rbrkt? {
        need := need + 1;
      } else if need != 0 {
        if k.Lbrkt? {
          need := need - 1;
        }
      } else if pos.None? || Precedence(tokens[pos.value].kind) < Precedence(k) {
        assert pos.Some? ==> ts[pos.value - p] == tokens[pos.value];
        pos := Some(i);
      } else {
        assert ts[pos.value - p] == tokens[pos.value];
      }
      i := i - 1;
    }
  }

  lemma SliceOfSlice(s: seq<Token>, a: nat, b: nat, i: nat, j: nat)
    requires a <= b <= |s| && i <= j <= b - a
    ensures s[a..b][i..j] == s[a + i..a + j]
  {
    var l, r := s[a..b][i..j], s[a + i..a + j];
    assert |l| == |r|;
    assert forall k :: 0 <= k < |l| ==> l[k] == s[a + i + k] == r[k];
  }

  lemma EvalSlices(tokens: seq<Token>, p: nat, q: nat, m: nat)
    requires p <= m <= q < |tokens|
    ensures var ts := tokens[p..q + 1];
            ts[m - p] == tokens[m] && ts[..m - p] == tokens[p..m] && ts[m - p + 1..] == tokens[m + 1..q + 1]
  {
    var ts := tokens[p..q + 1];
    SliceOfSlice(tokens, p, q + 1, 0, m - p);
    SliceOfSlice(tokens, p, q + 1, m - p + 1, |ts|);
    assert ts[..m - p] == ts[0..m - p] && ts[m - p + 1..] == ts[m - p + 1..|ts|];
  }

  /** One step of `eval`, case by case. */
  lemma EvalStep(env: Env, ts: seq<Token>)
    ensures |ts| == 0 || |ts| == 2 ==> EvalSpec(env, ts) == None
    ensures |ts| == 1 ==> EvalSpec(env, ts) == AtomValue(env, ts[0])
    ensures |ts| >= 3 && CheckSpec(ts) ==> EvalSpec(env, ts) == EvalSpec(env, ts[1..|ts| - 1])
    ensures |ts| >= 3 && !CheckSpec(ts) ==>
              match Scan(ts, |ts|, 0, None)
              case None => EvalSpec(env, ts) == None
              case Some(m) => EvalSpec(env, ts) == Combine(ts[m].kind, EvalSpec(env, ts[..m]), EvalSpec(env, ts[m + 1..]))
  {
    hide Scan, CheckSpec, AtomValue, Apply;
  }

  function Combine(op: Kind, a: Option<Word>, b: Option<Word>): Option<Word>
  {
    if a.Some? && b.Some? then Apply(op, a.value, b.value) else None
  }

  /** `eval(p, q)`; None stands for every assertion that stops the program. */
  method Eval(env: Env, tokens: seq<Token>, p: nat, q: int) returns (r: Option<Word>)
    requires p <= q + 1 <= |tokens|
    ensures r == EvalSpec(env, tokens[p..q + 1])
    decreases q + 1 - p
  {
    hide EvalSpec, Scan, CheckSpec, AtomValue, Apply;
    ghost var ts := tokens[p..q + 1];
    EvalStep(env, ts);
    if p > q {
      return None;
    }
    if p == q {
      return AtomValue(env, tokens[p]);
    }
    var enclosed := CheckParentheses(tokens, p, q);
    if enclosed.None? {
      return None;
    }
    if enclosed.value {
      SliceOfSlice(tokens, p, q + 1, 1, |ts| - 1);
      r := Eval(env, tokens, p + 1, q - 1);
      return;
    }
    var main := FindMainOp(tokens, p, q);
    if main.None? {
      return None;
    }
    var m := main.value;
    EvalSlices(tokens, p, q, m);
    var a := Eval(env, tokens, p, m as int - 1);
    var b := Eval(env, tokens, m + 1, q);
    if a.None? || b.None? {
      return None;
    }
    r := Apply(tokens[m].kind, a.value, b.value);
  }
}
