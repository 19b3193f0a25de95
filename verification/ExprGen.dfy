/**
 The expression generator (nemu/tools/gen-expr/gen-expr.c) as a grammar, and the end-to-end theorem:
 whatever it writes into its buffer, the debugger tokenizes it and computes its C value.
 */
module ExprGen {
  import opened Common
  import opened ExprEval
  import opened ExprLiteral
  import opened ExprTree
  import opened ExprTokenizer
  import opened ExprText

  datatype Deriv =
    | Number(n: nat)
    | Group(d: Deriv)
    | Binary(l: Deriv, op: Kind, r: Deriv)
    | Blank(d: Deriv)

  predicate GenOp(k: Kind)
  {
    k.Plus? || k.Sub? || k.Mux? || k.Div?
  }

  predicate Derivable(d: Deriv)
  {
    match d
    case Number(n) => n < 1000
    case Group(x) => Derivable(x)
    case Binary(l, op, r) => Derivable(l) && GenOp(op) && Derivable(r)
    case Blank(x) => Derivable(x)
  }

  function OpChar(k: Kind): char
    requires GenOp(k)
  {
    match k
    case Plus => '+'
    case Sub => '-'
    case Mux => '*'
    case Div => '/'
  }

  /** `sprintf("%d", n)`. */
  function Decimal(n: nat): (s: string)
    ensures |s| >= 1
    ensures forall i :: 0 <= i < |s| ==> IsDigit(s[i])
    ensures DigitsValue(s, 10) == n
  {
    var d := [('0' as nat + n % 10) as char];
    if n < 10 then
      assert d[..0] == [];
      d
    else
      var s := Decimal(n / 10) + d;
      assert s[..|s| - 1] == Decimal(n / 10);
      s
  }

  lemma DecimalLength(n: nat)
    requires n < 1000
    ensures |Decimal(n)| <= 3
  {
    if n >= 10 {
      assert |Decimal(n)| == |Decimal(n / 10)| + 1;
      if n / 10 >= 10 {
        assert |Decimal(n / 10)| == |Decimal(n / 10 / 10)| + 1;
      }
    }
  }

  /** The text of a derivation. */
  function Text(d: Deriv): string
    requires Derivable(d)
  {
    match d
    case Number(n) => Decimal(n) + "U"
    case Group(x) => "(" + Text(x) + ")"
    case Binary(l, op, r) => Text(l) + [OpChar(op)] + Text(r)
    case Blank(x) => " " + Text(x)
  }

  /** The tokens of a derivation: blanks disappear and every '*' is a multiplication. */
  function Flat(d: Deriv): (ts: seq<Token>)
    ensures |ts| >= 1
  {
    match d
    case Number(n) => [Token(Num, Decimal(n))]
    case Group(x) => [LP] + Flat(x) + [RP]
    case Binary(l, op, r) => Flat(l) + [Token(op, "")] + Flat(r)
    case Blank(x) => Flat(x)
  }

  // ---------------------------------------------------------------- the generator

  const MAX_INDEX: nat := 65536

  datatype Outcome = Generated | BufferFull | NoMoreChoices

  /** The derivation that a sequence of random numbers selects, and the numbers left over. */
  function Select(choices: seq<nat>): (r: Option<(Deriv, seq<nat>)>)
    ensures r.Some? ==> Derivable(r.value.0) && |r.value.1| < |choices|
    decreases |choices|, 0
  {
    if choices == [] then None else
    var c, t := choices[0] % 4, choices[1..];
    if c == 0 then
      if t == [] then None else Some((Number(t[0] % 1000), t[1..]))
    else if c == 2 then SelectBinary(t)
    else SelectWith(c, t)
  }

  /** A parenthesis (1) or a blank (3) around the next derivation. */
  function SelectWith(c: nat, choices: seq<nat>): (r: Option<(Deriv, seq<nat>)>)
    ensures r.Some? ==> Derivable(r.value.0) && |r.value.1| < |choices|
    decreases |choices|, 1
  {
    match Select(choices)
    case None => None
    case Some((x, rest)) => Some((if c == 1 then Group(x) else Blank(x), rest))
  }

  function SelectBinary(choices: seq<nat>): (r: Option<(Deriv, seq<nat>)>)
    ensures r.Some? ==> Derivable(r.value.0) && |r.value.1| < |choices|
    decreases |choices|, 1
  {
    match Select(choices)
    case None => None
    case Some((x, rest)) =>
      if rest == [] then None else
      match Select(rest[1..])
      case None => None
      case Some((y, rest')) => Some((Binary(x, OpOf(rest[0]), y), rest'))
  }

  function OpOf(rand: nat): (k: Kind)
    ensures GenOp(k)
  {
    [Plus, Sub, Mux, Div][rand % 4]
  }

  /** The text fits behind n characters of the buffer; a number needs one place more than a character. */
  predicate Fits(d: Deriv, n: nat)
    requires Derivable(d)
  {
    match d
    case Number(_) => n + |Text(d)| < MAX_INDEX - 1
    case Group(x) => n < MAX_INDEX - 1 && Fits(x, n + 1) && n + 1 + |Text(x)| < MAX_INDEX - 1
    case Binary(l, _, r) => Fits(l, n) && n + |Text(l)| < MAX_INDEX - 1 && Fits(r, n + |Text(l)| + 1)
    case Blank(x) => n < MAX_INDEX - 1 && Fits(x, n + 1)
  }

  /**
   Exactly which texts fit: the buffer takes 65535 characters, and one less when the last one is that of a number,
   because a number is stored only if one more character could follow.
   */
  lemma {:induction false} FitsExactly(d: Deriv, n: nat)
    requires Derivable(d)
    ensures |Text(d)| >= 2 && (Text(d)[|Text(d)| - 1] == 'U' || Text(d)[|Text(d)| - 1] == ')')
    ensures Fits(d, n) <==> n + |Text(d)| <= if Text(d)[|Text(d)| - 1] == 'U' then 65534 else 65535
  {
    match d
    case Number(_) =>
    case Group(x) => FitsExactly(x, n + 1);
    case Binary(l, _, r) =>
      FitsExactly(l, n);
      FitsExactly(r, n + |Text(l)| + 1);
    case Blank(x) => FitsExactly(x, n + 1);
  }

  /** Random numbers that select a given derivation. */
  function Choices(d: Deriv): seq<nat>
    requires Derivable(d)
  {
    match d
    case Number(n) => [0, n]
    case Group(x) => [1] + Choices(x)
    case Binary(l, op, r) => [2] + Choices(l) + [OpIndex(op)] + Choices(r)
    case Blank(x) => [3] + Choices(x)
  }

  function OpIndex(op: Kind): (i: nat)
    requires GenOp(op)
    ensures OpOf(i) == op
  {
    match op
    case Plus => 0
    case Sub => 1
    case Mux => 2
    case Div => 3
  }

  /** Every derivation is selected by some random numbers. */
  lemma {:induction false} EverySelected(d: Deriv, rest: seq<nat>)
    requires Derivable(d)
    ensures Select(Choices(d) + rest) == Some((d, rest))
  {
    hide Select, SelectBinary, OpIndex;
    match d
    case Number(n) =>
      assert [0, n] + rest == [0] + ([n] + rest) && ([n] + rest)[1..] == rest;
      SelectFirst(0, [n] + rest);
    case Group(x) =>
      assert [1] + Choices(x) + rest == [1] + (Choices(x) + rest);
      SelectFirst(1, Choices(x) + rest);
      EverySelected(x, rest);
    case Binary(l, op, r) =>
      var tail := [OpIndex(op)] + (Choices(r) + rest);
      assert Choices(d) + rest == [2] + (Choices(l) + tail);
      SelectFirst(2, Choices(l) + tail);
      EverySelected(l, tail);
      assert tail[1..] == Choices(r) + rest && tail[0] == OpIndex(op);
      EverySelected(r, rest);
      BinarySelected(Choices(l) + tail, l, tail, r, rest);
    case Blank(x) =>
      assert [3] + Choices(x) + rest == [3] + (Choices(x) + rest);
      SelectFirst(3, Choices(x) + rest);
      EverySelected(x, rest);
  }

  lemma SelectFirst(c: nat, t: seq<nat>)
    requires c < 4
    ensures c == 0 && t != [] ==> Select([c] + t) == Some((Number(t[0] % 1000), t[1..]))
    ensures c == 2 ==> Select([c] + t) == SelectBinary(t)
    ensures c == 1 || c == 3 ==> Select([c] + t) == SelectWith(c, t)
  {
    hide SelectBinary, SelectWith;
    var choices := [c] + t;
    assert choices[0] == c && choices[1..] == t && c % 4 == c;
  }

  lemma BinarySelected(choices: seq<nat>, x: Deriv, tail: seq<nat>, y: Deriv, rest: seq<nat>)
    requires Select(choices) == Some((x, tail)) && tail != [] && Select(tail[1..]) == Some((y, rest))
    ensures SelectBinary(choices) == Some((Binary(x, OpOf(tail[0]), y), rest))
  {
    hide Select;
  }

  /** The static buffer; `buf_index` is its length. The results of `rand()` are given as a sequence. */
  class Generator {
    var buf: string

    /** `gen`. */
    method Gen(c: char) returns (ok: bool)
      requires |buf| < MAX_INDEX
      modifies this
      ensures ok <==> old(|buf|) < MAX_INDEX - 1
      ensures buf == if ok then old(buf) + [c] else old(buf)
    {
      if |buf| >= MAX_INDEX - 1 {
        return false;
      }
      buf := buf + [c];
      ok := true;
    }

    /** `gen_num`. */
    method GenNum(rand: nat) returns (ok: bool)
      requires |buf| < MAX_INDEX
      modifies this
      ensures |buf| < MAX_INDEX
      ensures ok <==> Fits(Number(rand % 1000), old(|buf|))
      ensures buf == old(buf) + if ok then Text(Number(rand % 1000)) else ""
    {
      var s := Decimal(rand % 1000) + "U";
      if |buf| + |s| >= MAX_INDEX - 1 {
        return false;
      }
      buf := buf + s;
      ok := true;
    }

    /** `gen_rand_op`. */
    method GenRandOp(rand: nat) returns (ok: bool)
      requires |buf| < MAX_INDEX
      modifies this
      ensures ok <==> old(|buf|) < MAX_INDEX - 1
      ensures buf == old(buf) + if ok then [OpChar(OpOf(rand))] else ""
    {
      if |buf| >= MAX_INDEX - 1 {
        return false;
      }
      buf := buf + [OpChar([Plus, Sub, Mux, Div][rand % 4])];
      ok := true;
    }

    /** What a call with the given selection does: success exactly when the selected text fits. */
    twostate predicate Produces(selected: Option<(Deriv, seq<nat>)>, r: Outcome, rest: seq<nat>)
      requires selected.Some? ==> Derivable(selected.value.0)
      reads this
    {
      && |buf| < MAX_INDEX
      && (r.Generated? <==> selected.Some? && Fits(selected.value.0, old(|buf|)))
      && (r.Generated? ==> rest == selected.value.1 && buf == old(buf) + Text(selected.value.0))
      && (selected.Some? && !r.Generated? ==> r.BufferFull?)
    }

    /** The operator case of `gen_rand_expr`. */
    method GenBinary(choices: seq<nat>) returns (r: Outcome, rest: seq<nat>)
      requires |buf| < MAX_INDEX
      modifies this
      ensures Produces(SelectBinary(choices), r, rest)
      decreases |choices|, 1
    {
      hide Decimal, Text;
      ghost var left := Select(choices);
      r, rest := GenRandExpr(choices);
      if !r.Generated? {
        return;
      }
      if rest == [] {
        return NoMoreChoices, rest;
      }
      var ok := GenRandOp(rest[0]);
      if !ok {
        return BufferFull, rest[1..];
      }
      ghost var op, right := OpOf(rest[0]), Select(rest[1..]);
      r, rest := GenRandExpr(rest[1..]);
      if right.Some? {
        TextBinary(left.value.0, op, right.value.0);
      }
    }

    /** The parenthesis case. */
    method GenGroup(choices: seq<nat>) returns (r: Outcome, rest: seq<nat>)
      requires |buf| < MAX_INDEX
      modifies this
      ensures Produces(SelectWith(1, choices), r, rest)
      decreases |choices|, 1
    {
      hide Decimal, Text, Select;
      var ok := Gen('(');
      if !ok {
        return BufferFull, choices;
      }
      r, rest := GenRandExpr(choices);
      if !r.Generated? {
        return;
      }
      TextWrapped(Select(choices).value.0);
      ok := Gen(')');
      r := if ok then Generated else BufferFull;
    }

    /** The blank case. */
    method GenBlank(choices: seq<nat>) returns (r: Outcome, rest: seq<nat>)
      requires |buf| < MAX_INDEX
      modifies this
      ensures Produces(SelectWith(3, choices), r, rest)
      decreases |choices|, 1
    {
      hide Decimal, Text, Select;
      var ok := Gen(' ');
      if !ok {
        return BufferFull, choices;
      }
      r, rest := GenRandExpr(choices);
      if r.Generated? {
        TextWrapped(Select(choices).value.0);
      }
    }

    /**
     `gen_rand_expr`: appends exactly the text of the derivation that the random numbers select, if it fits,
     and never writes past the buffer.
     */
    method GenRandExpr(choices: seq<nat>) returns (r: Outcome, rest: seq<nat>)
      requires |buf| < MAX_INDEX
      modifies this
      ensures Produces(Select(choices), r, rest)
      decreases |choices|, 0
    {
      hide Decimal, SelectBinary, SelectWith, Fits, Text;
      rest := choices;
      if choices == [] {
        return NoMoreChoices, rest;
      }
      var c := choices[0] % 4;
      rest := choices[1..];
      if c == 0 {
        if rest == [] {
          return NoMoreChoices, rest;
        }
        var ok := GenNum(rest[0]);
        return if ok then Generated else BufferFull, rest[1..];
      }
      if c == 1 {
        r, rest := GenGroup(rest);
      } else if c == 2 {
        r, rest := GenBinary(rest);
      } else {
        r, rest := GenBlank(rest);
      }
    }

    /** Every derivation that fits is produced by some random numbers. */
    method GenChosen(d: Deriv) returns (r: Outcome)
      requires Derivable(d) && |buf| < MAX_INDEX
      modifies this
      ensures r.Generated? <==> Fits(d, old(|buf|))
      ensures r.Generated? ==> buf == old(buf) + Text(d)
    {
      EverySelected(d, []);
      assert Choices(d) + [] == Choices(d);
      var rest;
      r, rest := GenRandExpr(Choices(d));
    }
  }

  lemma TextWrapped(x: Deriv)
    requires Derivable(x)
    ensures Text(Group(x)) == "(" + Text(x) + ")" && Text(Blank(x)) == " " + Text(x)
  {
  }

  lemma TextBinary(l: Deriv, op: Kind, r: Deriv)
    requires Derivable(l) && Derivable(r) && GenOp(op)
    ensures Text(Binary(l, op, r)) == Text(l) + [OpChar(op)] + Text(r)
  {
  }

  // ---------------------------------------------------------------- tokenizing a derivation

  /** A generated number is one token, whatever follows. */
  lemma LexNumber(n: nat, rest: string, ts: seq<Token>)
    requires n < 1000
    ensures Lex(Decimal(n) + "U" + rest, ts) == Lex(rest, ts + [Token(Num, Decimal(n))])
  {
    hide Decimal, MatchRule;
    var ds := Decimal(n);
    var s := ds + "U" + rest;
    DecimalLength(n);
    NumberMatch(ds, rest);
    assert s[..|ds| + 1] == ds + "U" && s[|ds| + 1..] == rest;
    assert (ds + "U")[..|ds|] == ds;
  }

  lemma NumberMatch(ds: string, rest: string)
    requires |ds| >= 1 && forall i :: 0 <= i < |ds| ==> IsDigit(ds[i])
    ensures MatchRule(ds + "U" + rest) == Some((NumRule, |ds| + 1))
  {
    hide DigitPrefix;
    var s := ds + "U" + rest;
    assert s == ds + ("U" + rest);
    DigitRun(ds, "U" + rest);
    assert s[0] == ds[0] && IsDigit(s[0]);
    assert |s| > 1 && s[1] != 'x' && s[1] != 'X' by { assert |ds| > 1 ==> s[1] == ds[1] && IsDigit(ds[1]); }
    assert s[0..] == s;
    assert NumberEnd(s, 0) == |ds| + 1;
  }

  lemma {:induction false} FlatEnds(d: Deriv)
    ensures LastKind(Flat(d)) == Some(Num) || LastKind(Flat(d)) == Some(Rbrkt)
  {
    match d
    case Number(_) =>
    case Group(_) =>
    case Binary(_, _, r) => FlatEnds(r);
    case Blank(x) => FlatEnds(x);
  }

  lemma LastOfFlat(ts: seq<Token>, d: Deriv)
    ensures StarMultiplies(LastKind(ts + Flat(d)))
  {
    FlatEnds(d);
  }

  lemma OpSymbols()
    ensures Symbol(Lbrkt) == ['('] && Symbol(Rbrkt) == [')']
    ensures forall op :: GenOp(op) ==> Symbol(op) == [OpChar(op)]
  {
  }

  lemma LexBrackets(rest: string, ts: seq<Token>)
    ensures Lex(['('] + rest, ts) == Lex(rest, ts + [LP])
    ensures Lex([')'] + rest, ts) == Lex(rest, ts + [RP])
  {
    OpSymbols();
    hide Lex, Symbol;
    LexFixed(Lbrkt, rest, ts);
    LexFixed(Rbrkt, rest, ts);
  }

  /** After a derivation every operator is read as such, also '*'. */
  lemma LexOp(op: Kind, rest: string, ts: seq<Token>, l: Deriv)
    requires GenOp(op)
    ensures Lex([OpChar(op)] + rest, ts + Flat(l)) == Lex(rest, ts + Flat(l) + [Token(op, "")])
  {
    OpSymbols();
    hide Lex, Symbol, Flat, StarMultiplies;
    if op.Mux? {
      LastOfFlat(ts, l);
      LexStar(rest, ts + Flat(l));
    } else {
      LexFixed(op, rest, ts + Flat(l));
    }
  }

  /** The text of a derivation is accepted, in any context, and yields its tokens. */
  lemma {:induction false} LexText(d: Deriv, rest: string, ts: seq<Token>)
    requires Derivable(d)
    ensures Lex(Text(d) + rest, ts) == Lex(rest, ts + Flat(d))
  {
    hide Lex, Decimal, Symbol, StarMultiplies;
    match d
    case Number(n) =>
      LexNumber(n, rest, ts);
    case Group(x) =>
      assert Text(d) + rest == ['('] + (Text(x) + ([')'] + rest));
      LexBrackets(Text(x) + ([')'] + rest), ts);
      LexText(x, [')'] + rest, ts + [LP]);
      LexBrackets(rest, ts + [LP] + Flat(x));
      assert ts + Flat(d) == ts + [LP] + Flat(x) + [RP];
    case Binary(l, op, r) =>
      var c := OpChar(op);
      assert Text(d) + rest == Text(l) + ([c] + (Text(r) + rest));
      LexText(l, [c] + (Text(r) + rest), ts);
      LexOp(op, Text(r) + rest, ts, l);
      LexText(r, rest, ts + Flat(l) + [Token(op, "")]);
      assert ts + Flat(d) == ts + Flat(l) + [Token(op, "")] + Flat(r);
    case Blank(x) =>
      assert Text(d) + rest == " " + (Text(x) + rest);
      LexBlank(Text(x) + rest, ts);
      LexText(x, rest, ts);
  }

  // ---------------------------------------------------------------- the C tree of a derivation

  function Max(a: nat, b: nat): nat
  {
    if a >= b then a else b
  }

  /** The C tree of "l op r" without parentheses: the loosest operator becomes the root, the rightmost among equals. */
  function Join(l: Expr, op: Kind, r: Expr): (e: Expr)
    requires Grammatical(l) && Grammatical(r) && IsBinary(op)
    ensures Grammatical(e)
    ensures Rank(e) == Max(Rank(l), Max(Precedence(op), Rank(r)))
    decreases l, r
  {
    var pl, po, pr := Rank(l), Precedence(op), Rank(r);
    if r.Bin? && pr >= po && pr >= pl then Bin(r.op, Join(l, op, r.l), r.r)
    else if po >= pl then Bin(op, l, r)
    else Bin(l.op, l.l, Join(l.r, op, r))
  }

  lemma {:induction false} JoinPrint(l: Expr, op: Kind, r: Expr)
    requires Grammatical(l) && Grammatical(r) && IsBinary(op)
    ensures Print(Join(l, op, r)) == Print(l) + [Token(op, "")] + Print(r)
    decreases l, r
  {
    var pl, po, pr := Rank(l), Precedence(op), Rank(r);
    if r.Bin? && pr >= po && pr >= pl {
      JoinPrint(l, op, r.l);
      Reassociate(Print(l) + [Token(op, "")], Print(r.l), [Token(r.op, "")], Print(r.r));
    } else if po >= pl {
    } else {
      JoinPrint(l.r, op, r);
      Reassociate(Print(l.l) + [Token(l.op, "")], Print(l.r), [Token(op, "")], Print(r));
    }
  }

  lemma Reassociate(a: seq<Token>, b: seq<Token>, c: seq<Token>, d: seq<Token>)
    ensures a + (b + c + d) == a + b + c + d
  {
  }

  function Tree(d: Deriv): (e: Expr)
    requires Derivable(d)
    ensures Grammatical(e)
  {
    match d
    case Number(n) => Atom(Token(Num, Decimal(n)))
    case Group(x) => Paren(Tree(x))
    case Binary(l, op, r) => Join(Tree(l), op, Tree(r))
    case Blank(x) => Tree(x)
  }

  lemma {:induction false} TreePrint(d: Deriv)
    requires Derivable(d)
    ensures Print(Tree(d)) == Flat(d)
  {
    match d
    case Number(_) =>
    case Group(x) => TreePrint(x);
    case Binary(l, op, r) =>
      TreePrint(l);
      TreePrint(r);
      JoinPrint(Tree(l), op, Tree(r));
    case Blank(x) => TreePrint(x);
  }

  // ---------------------------------------------------------------- end to end

  /** A generated number has the value that was printed. */
  lemma NumberValue(env: Env, n: nat)
    requires n < 1000
    ensures AtomValue(env, Token(Num, Decimal(n))) == Some(n)
  {
    hide Decimal, DigitsValue, DigitPrefix;
    var ds := Decimal(n);
    DigitRun(ds, []);
    assert ds + [] == ds && ds[..|ds|] == ds;
  }

  /**
   Every generated text is accepted, its tokens are the printing of exactly one C tree, and `expr`
   returns the value of that tree; it stops exactly when the tree divides by zero.
   */
  lemma GeneratedTextEvaluates(env: Env, d: Deriv)
    requires Derivable(d)
    ensures Lex(Text(d), []) == Tokens(Flat(d))
    ensures Grammatical(Tree(d)) && Print(Tree(d)) == Flat(d)
    ensures forall e :: Grammatical(e) && Print(e) == Flat(d) ==> e == Tree(d)
    ensures ExprSpec(env, Text(d)) == match ExprTree.Value(env, Tree(d)) { case None => Stops case Some(v) => ExprTokenizer.Value(v) }
  {
    hide EvalSpec, Scan;
    LexText(d, [], []);
    assert Text(d) + [] == Text(d) && [] + Flat(d) == Flat(d);
    assert Lex([], Flat(d)) == Tokens(Flat(d));
    TreePrint(d);
    forall e | Grammatical(e) && Print(e) == Flat(d)
      ensures e == Tree(d)
    {
      PrintInjective(e, Tree(d));
    }
    EvalTree(env, Tree(d));
  }

  /** A generated number has no superfluous zero. */
  lemma {:induction false} DecimalPlain(n: nat)
    ensures n > 0 ==> Decimal(n)[0] != '0'
    ensures n == 0 ==> Decimal(n) == "0"
  {
    if n >= 10 {
      DecimalPlain(n / 10);
      assert Decimal(n)[0] == Decimal(n / 10)[0];
    }
  }

  lemma {:induction false} FlatPlain(d: Deriv)
    requires Derivable(d)
    ensures forall t <- Flat(d) :: AtomKind(t.kind) ==> PlainAtom(t)
  {
    match d
    case Number(n) => DecimalPlain(n);
    case Group(x) => FlatPlain(x);
    case Binary(l, _, r) =>
      FlatPlain(l);
      FlatPlain(r);
      hide PlainAtom;
    case Blank(x) => FlatPlain(x);
  }

  /** In terms of C: the value of the text as a C expression, unless some divisor in it is zero. */
  lemma GeneratedTextMeansC(env: Env, d: Deriv, v: Word)
    requires Derivable(d)
    ensures WellSorted(Tree(d))
    ensures ExprSpec(env, Text(d)) == ExprTokenizer.Value(v) <==> AllDefined(env, Tree(d)) && CValue(env, Tree(d)) == Some(v)
    ensures ExprSpec(env, Text(d)) == Stops <==> !AllDefined(env, Tree(d))
  {
    GeneratedTextEvaluates(env, d);
    GrammaticalSorted(Tree(d));
    FlatPlain(d);
    PlainPrint(Tree(d));
    hide Lex, EvalSpec, Decimal, Print, CValue, AllDefined, ExprTree.Value;
    EagerValue(env, Tree(d));
  }
}
