/**
 The expression grammar of C, level by level as in sections 6.5.5, 6.5.6, 6.5.9 and 6.5.13 of ISO C11 and without
 any numbers, and the proof that the precedences in the debugger's rule table describe exactly this grammar.
 */
module ExprGrammar {
  import opened Common
  import opened ExprEval
  import opened ExprLiteral
  import opened ExprTree
  import opened ExprTokenizer
  import opened ExprText

  /** A constant, a register, a dereferenced address, or an expression in parentheses. */
  predicate Operand(e: Expr)
    decreases e, 0
  {
    match e
    case Atom(t) => AtomKind(t.kind)
    case Paren(x) => Conjunction(x)
    case Bin(_, _, _) => false
  }

  predicate Multiplicative(e: Expr)
    decreases e, 1
  {
    || Operand(e)
    || (e.Bin? && (e.op.Mux? || e.op.Div?) && Multiplicative(e.l) && Operand(e.r))
  }

  predicate Additive(e: Expr)
    decreases e, 2
  {
    || Multiplicative(e)
    || (e.Bin? && (e.op.Plus? || e.op.Sub?) && Additive(e.l) && Multiplicative(e.r))
  }

  predicate Equality(e: Expr)
    decreases e, 3
  {
    || Additive(e)
    || (e.Bin? && (e.op.Eq? || e.op.Neq?) && Equality(e.l) && Additive(e.r))
  }

  predicate Conjunction(e: Expr)
    decreases e, 4
  {
    || Equality(e)
    || (e.Bin? && e.op.And? && Conjunction(e.l) && Equality(e.r))
  }

  lemma NoOperator(e: Expr)
    requires !e.Bin?
    ensures Conjunction(e) == Equality(e) == Additive(e) == Multiplicative(e) == Operand(e)
  {
    assert Multiplicative(e) == Operand(e);
    assert Additive(e) == Multiplicative(e);
    assert Equality(e) == Additive(e);
  }

  /** The trees that the precedences admit are those of the C grammar. */
  lemma {:induction false} GrammarOfC(e: Expr)
    ensures Grammatical(e) <==> Conjunction(e)
    ensures Equality(e) <==> Conjunction(e) && (e.Bin? ==> !e.op.And?)
    ensures Additive(e) <==> Equality(e) && (e.Bin? ==> !e.op.Eq? && !e.op.Neq?)
    ensures Multiplicative(e) <==> Additive(e) && (e.Bin? ==> !e.op.Plus? && !e.op.Sub?)
    ensures Operand(e) <==> Multiplicative(e) && !e.Bin?
  {
    match e
    case Atom(_) => NoOperator(e);
    case Paren(x) =>
      GrammarOfC(x);
      NoOperator(e);
    case Bin(_, l, r) =>
      GrammarOfC(l);
      GrammarOfC(r);
      assert Multiplicative(e) <==> (e.op.Mux? || e.op.Div?) && Multiplicative(l) && Operand(r);
      assert Additive(e) <==> Multiplicative(e) || ((e.op.Plus? || e.op.Sub?) && Additive(l) && Multiplicative(r));
      assert Equality(e) <==> Additive(e) || ((e.op.Eq? || e.op.Neq?) && Equality(l) && Additive(r));
  }

  /** The parentheses that are put into a tree are those that the grammar asks for. */
  lemma {:induction false} ParenthesizedIsC(env: Env, e: Expr)
    requires WellSorted(e)
    ensures Conjunction(Parenthesize(e))
    ensures Conjunction(e) ==> Parenthesize(e) == e
  {
    hide Conjunction, ExprTree.Value;
    ParenthesizeGood(env, e);
    GrammarOfC(Parenthesize(e));
    GrammarOfC(e);
    if Grammatical(e) { NoneNeeded(e); }
  }

  lemma {:induction false} NoneNeeded(e: Expr)
    requires Grammatical(e)
    ensures Parenthesize(e) == e
  {
    match e
    case Atom(_) =>
    case Paren(x) => NoneNeeded(x);
    case Bin(_, l, r) =>
      NoneNeeded(l);
      NoneNeeded(r);
  }

  /**
   Every text of an expression of C with plain operands: `expr` returns its C value if and only if everything in it
   is defined and no '*' is misread, and stops the program otherwise.
   */
  lemma ExpressionOfC(env: Env, e: Expr, gaps: seq<nat>)
    requires Conjunction(e) && WritableTree(e) && PlainTree(e) && |gaps| == |Print(e)|
    ensures WellSorted(e)
    ensures AllDefined(env, e) ==> CValue(env, e).Some?
    ensures var answer := ExprSpec(env, Written(Print(e), gaps));
            if StarsMultiply(None, Print(e)) && AllDefined(env, e) then answer == ExprTokenizer.Value(CValue(env, e).value)
            else answer == Stops
  {
    GrammarOfC(e);
    hide ExprSpec, Written, Print, CValue, AllDefined, StarsMultiply, PlainTree, Conjunction, Grammatical;
    TextMeansC(env, e, gaps);
    EagerValue(env, e);
  }

  // ---------------------------------------------------------------- what binds tighter

  /** Multiplication before addition before comparison before conjunction. */
  predicate Tighter(a: Kind, b: Kind)
  {
    match a
    case Mux => b.Plus? || b.Sub? || b.Eq? || b.Neq? || b.And?
    case Div => b.Plus? || b.Sub? || b.Eq? || b.Neq? || b.And?
    case Plus => b.Eq? || b.Neq? || b.And?
    case Sub => b.Eq? || b.Neq? || b.And?
    case Eq => b.And?
    case Neq => b.And?
    case _ => false
  }

  /**
   For all operands a, b, c and all operators: "a op1 b op2 c" is a op1 (b op2 c) when op2 binds tighter, and
   (a op1 b) op2 c otherwise. It is the printing of that tree and of no other, and `eval` returns its value.
   */
  lemma Associates(env: Env, a: Expr, op1: Kind, b: Expr, op2: Kind, c: Expr)
    requires Operand(a) && Operand(b) && Operand(c) && IsBinary(op1) && IsBinary(op2)
    ensures var ts := Print(a) + [Token(op1, "")] + Print(b) + [Token(op2, "")] + Print(c);
            var e := if Tighter(op2, op1) then Bin(op1, a, Bin(op2, b, c)) else Bin(op2, Bin(op1, a, b), c);
            && (forall d :: Grammatical(d) && Print(d) == ts <==> d == e)
            && EvalSpec(env, ts) == if Tighter(op2, op1)
                 then Combine(op1, ExprTree.Value(env, a), Combine(op2, ExprTree.Value(env, b), ExprTree.Value(env, c)))
                 else Combine(op2, Combine(op1, ExprTree.Value(env, a), ExprTree.Value(env, b)), ExprTree.Value(env, c))
  {
    var ts := Print(a) + [Token(op1, "")] + Print(b) + [Token(op2, "")] + Print(c);
    var e := if Tighter(op2, op1) then Bin(op1, a, Bin(op2, b, c)) else Bin(op2, Bin(op1, a, b), c);
    GrammarOfC(a);
    GrammarOfC(b);
    GrammarOfC(c);
    assert Grammatical(e);
    assert Print(e) == ts by { PrintThree(a, op1, b, op2, c); }
    assert ExprTree.Value(env, e) == if Tighter(op2, op1)
      then Combine(op1, ExprTree.Value(env, a), Combine(op2, ExprTree.Value(env, b), ExprTree.Value(env, c)))
      else Combine(op2, Combine(op1, ExprTree.Value(env, a), ExprTree.Value(env, b)), ExprTree.Value(env, c));
    hide ExprTree.Value, Print, Grammatical, EvalSpec, Combine;
    forall d | Grammatical(d) && Print(d) == ts ensures d == e {
      PrintInjective(d, e);
    }
    EvalTree(env, e);
  }

  lemma PrintThree(a: Expr, op1: Kind, b: Expr, op2: Kind, c: Expr)
    ensures Print(Bin(op1, a, Bin(op2, b, c)))
         == Print(Bin(op2, Bin(op1, a, b), c))
         == Print(a) + [Token(op1, "")] + Print(b) + [Token(op2, "")] + Print(c)
  {
    var x, y, z, o1, o2 := Print(a), Print(b), Print(c), [Token(op1, "")], [Token(op2, "")];
    assert Print(Bin(op2, b, c)) == y + o2 + z;
    assert Print(Bin(op1, a, b)) == x + o1 + y;
    assert Print(Bin(op1, a, Bin(op2, b, c))) == x + o1 + (y + o2 + z);
    hide Print;
    FlatTokens(x, o1, y, o2, z);
  }

  lemma FlatTokens(x: seq<Token>, o1: seq<Token>, y: seq<Token>, o2: seq<Token>, z: seq<Token>)
    ensures x + o1 + (y + o2 + z) == x + o1 + y + o2 + z
  {
  }

  // ---------------------------------------------------------------- texts

  /** A numeral that fits its token and 32 bits. */
  predicate Numeral(s: string)
  {
    1 <= |s| < 32 && AllDigits(s) && DigitsValue(s, 10) < 0x1_0000_0000
  }

  function NumberOf(s: string): Word
    requires Numeral(s)
  {
    DigitsValue(s, 10)
  }

  /** The tree of "x op1 y op2 z". */
  function ThreeTree(x: string, op1: Kind, y: string, op2: Kind, z: string): Expr
  {
    var a, b, c := Atom(Token(Num, x)), Atom(Token(Num, y)), Atom(Token(Num, z));
    if Tighter(op2, op1) then Bin(op1, a, Bin(op2, b, c)) else Bin(op2, Bin(op1, a, b), c)
  }

  lemma OneMore(t: Token, spelling: string, ts: seq<Token>, gaps: seq<nat>, text: string, last: Option<Kind>)
    requires |gaps| == |ts| && Written(ts, gaps) == text && Spell(t) == spelling
    requires StarsMultiply(Some(t.kind), ts) && (t.kind.Mux? ==> StarMultiplies(last))
    ensures Written([t] + ts, [0] + gaps) == spelling + text && StarsMultiply(last, [t] + ts)
  {
    assert ([t] + ts)[1..] == ts && ([0] + gaps)[1..] == gaps;
    hide Spell;
    assert Blanks(0) + (spelling + text) == spelling + text;
  }

  lemma ThreeTexts(x: string, op1: Kind, y: string, op2: Kind, z: string)
    requires Numeral(x) && Numeral(y) && Numeral(z) && IsBinary(op1) && IsBinary(op2)
    ensures var e, ts := ThreeTree(x, op1, y, op2, z), [Token(Num, x), Token(op1, ""), Token(Num, y), Token(op2, ""), Token(Num, z)];
            && Print(e) == ts && WritableTree(e) && WellSorted(e) && StarsMultiply(None, ts)
            && Written(ts, [0, 0, 0, 0, 0]) == x + Symbol(op1) + y + Symbol(op2) + z
  {
    var a, b, c := Atom(Token(Num, x)), Atom(Token(Num, y)), Atom(Token(Num, z));
    var ts := [Token(Num, x), Token(op1, ""), Token(Num, y), Token(op2, ""), Token(Num, z)];
    assert Print(a) + [Token(op1, "")] + Print(b) + [Token(op2, "")] + Print(c) == ts;
    PrintThree(a, op1, b, op2, c);
    assert WritableTree(a) && WritableTree(b) && WritableTree(c);
    assert WritableTree(Bin(op1, a, b)) && WellSorted(Bin(op1, a, b)) && WritableTree(Bin(op2, b, c)) && WellSorted(Bin(op2, b, c));
    hide Print, Symbol, Spell, Written, StarsMultiply, Numeral;
    ThreeWritten(x, op1, y, op2, z);
  }

  lemma ThreeWritten(x: string, op1: Kind, y: string, op2: Kind, z: string)
    requires IsBinary(op1) && IsBinary(op2)
    ensures var ts := [Token(Num, x), Token(op1, ""), Token(Num, y), Token(op2, ""), Token(Num, z)];
            StarsMultiply(None, ts) && Written(ts, [0, 0, 0, 0, 0]) == x + Symbol(op1) + y + Symbol(op2) + z
  {
    var a, o, b, p, c := Token(Num, x), Token(op1, ""), Token(Num, y), Token(op2, ""), Token(Num, z);
    assert Spell(a) == x && Spell(b) == y && Spell(c) == z && Spell(o) == Symbol(op1) && Spell(p) == Symbol(op2);
    var ts: seq<Token>, gaps: seq<nat> := [], [];
    assert Written(ts, gaps) == "" && StarsMultiply(Some(Num), ts) && z + "" == z;
    hide Spell, Written, StarsMultiply, Symbol;
    var s1, s2 := Symbol(op1), Symbol(op2);
    OneMore(c, z, ts, gaps, "", Some(op2));
    assert [c] + ts == [c] && [0] + gaps == [0];
    OneMore(p, s2, [c], [0], z, Some(Num));
    assert [p] + [c] == [p, c] && [0] + [0] == [0, 0];
    OneMore(b, y, [p, c], [0, 0], s2 + z, Some(op1));
    assert [b] + [p, c] == [b, p, c] && [0] + [0, 0] == [0, 0, 0];
    ThreeFront(x, op1, [b, p, c], [0, 0, 0], y + (s2 + z));
    assert [a, o] + [b, p, c] == [a, o, b, p, c] && [0, 0] + [0, 0, 0] == [0, 0, 0, 0, 0];
    FlatFive(x, s1, y, s2, z);
  }

  lemma ThreeFront(x: string, op: Kind, ts: seq<Token>, gaps: seq<nat>, text: string)
    requires IsBinary(op) && |gaps| == |ts| && Written(ts, gaps) == text && StarsMultiply(Some(op), ts)
    ensures Written([Token(Num, x), Token(op, "")] + ts, [0, 0] + gaps) == x + (Symbol(op) + text)
    ensures StarsMultiply(None, [Token(Num, x), Token(op, "")] + ts)
  {
    var a, o := Token(Num, x), Token(op, "");
    assert Spell(a) == x && Spell(o) == Symbol(op);
    hide Spell, Written, StarsMultiply, Symbol;
    OneMore(o, Symbol(op), ts, gaps, text, Some(Num));
    OneMore(a, x, [o] + ts, [0] + gaps, Symbol(op) + text, None);
    assert [a] + ([o] + ts) == [a, o] + ts && [0] + ([0] + gaps) == [0, 0] + gaps;
  }

  lemma FlatFive(a: string, b: string, c: string, d: string, e: string)
    ensures a + b + c + d + e == a + (b + (c + (d + e)))
  {
    assert a + b + c + d + e == a + b + c + (d + e);
    assert a + b + c + (d + e) == a + b + (c + (d + e));
  }

  /** `expr` on "x op1 y op2 z" with numerals x, y and z. */
  lemma ThreeNumbers(env: Env, x: string, op1: Kind, y: string, op2: Kind, z: string)
    requires Numeral(x) && Numeral(y) && Numeral(z) && IsBinary(op1) && IsBinary(op2)
    ensures var v := if Tighter(op2, op1)
                 then Combine(op1, Some(NumberOf(x)), Apply(op2, NumberOf(y), NumberOf(z)))
                 else Combine(op2, Apply(op1, NumberOf(x), NumberOf(y)), Some(NumberOf(z)));
            ExprSpec(env, x + Symbol(op1) + y + Symbol(op2) + z) == if v.None? then Stops else ExprTokenizer.Value(v.value)
  {
    var e := ThreeTree(x, op1, y, op2, z);
    ThreeTexts(x, op1, y, op2, z);
    ThreeValue(env, x, op1, y, op2, z);
    hide Lex, EvalSpec, Print, Symbol, Apply, Written, ExprTree.Value, WritableTree, WellSorted, StarsMultiply, ThreeTree, NumberOf, Numeral;
    TextIsRead(e, [0, 0, 0, 0, 0]);
  }

  lemma ThreeValue(env: Env, x: string, op1: Kind, y: string, op2: Kind, z: string)
    requires Numeral(x) && Numeral(y) && Numeral(z) && IsBinary(op1) && IsBinary(op2)
    ensures EvalSpec(env, Print(ThreeTree(x, op1, y, op2, z))) == if Tighter(op2, op1)
              then Combine(op1, Some(NumberOf(x)), Apply(op2, NumberOf(y), NumberOf(z)))
              else Combine(op2, Apply(op1, NumberOf(x), NumberOf(y)), Some(NumberOf(z)))
  {
    var a, b, c := Atom(Token(Num, x)), Atom(Token(Num, y)), Atom(Token(Num, z));
    NumberAtom(env, x);
    NumberAtom(env, y);
    NumberAtom(env, z);
    PrintThree(a, op1, b, op2, c);
    assert ExprTree.Value(env, a) == Some(NumberOf(x)) && ExprTree.Value(env, b) == Some(NumberOf(y))
        && ExprTree.Value(env, c) == Some(NumberOf(z));
    hide EvalSpec, Print, Apply, ExprTree.Value, NumberOf, Numeral;
    Associates(env, a, op1, b, op2, c);
  }

  lemma NumberAtom(env: Env, s: string)
    requires Numeral(s)
    ensures AtomValue(env, Token(Num, s)) == Some(NumberOf(s)) && Writable(Token(Num, s))
  {
    StrtolDigits(s, DigitsValue(s, 10));
    hide Strtol, DigitsValue;
  }

  lemma Spelled(env: Env, x: string, op1: Kind, s1: string, y: string, op2: Kind, s2: string, z: string, v: Option<Word>)
    requires Numeral(x) && Numeral(y) && Numeral(z) && IsBinary(op1) && IsBinary(op2) && s1 == Symbol(op1) && s2 == Symbol(op2)
    requires v == if Tighter(op2, op1)
                  then Combine(op1, Some(NumberOf(x)), Apply(op2, NumberOf(y), NumberOf(z)))
                  else Combine(op2, Apply(op1, NumberOf(x), NumberOf(y)), Some(NumberOf(z)))
    ensures ExprSpec(env, x + s1 + y + s2 + z) == if v.None? then Stops else ExprTokenizer.Value(v.value)
  {
    hide ExprSpec, Symbol, Apply, NumberOf, Numeral;
    ThreeNumbers(env, x, op1, y, op2, z);
  }

  /** "x+y*z" adds the product. */
  lemma ProductFirst(env: Env, x: string, y: string, z: string)
    requires Numeral(x) && Numeral(y) && Numeral(z)
    ensures ExprSpec(env, x + "+" + y + "*" + z)
         == ExprTokenizer.Value((NumberOf(x) + NumberOf(y) * NumberOf(z)) % 0x1_0000_0000)
  {
    hide ExprSpec, NumberOf, Numeral;
    SumOfProduct(NumberOf(x), NumberOf(y), NumberOf(z));
    hide Apply;
    Spelled(env, x, Plus, "+", y, Mux, "*", z, Some((NumberOf(x) + NumberOf(y) * NumberOf(z)) % 0x1_0000_0000));
  }

  /** "x*y-z" subtracts from the product. */
  lemma ProductThenLess(env: Env, x: string, y: string, z: string)
    requires Numeral(x) && Numeral(y) && Numeral(z)
    ensures ExprSpec(env, x + "*" + y + "-" + z)
         == ExprTokenizer.Value((NumberOf(x) * NumberOf(y) - NumberOf(z)) % 0x1_0000_0000)
  {
    hide ExprSpec, NumberOf, Numeral;
    ProductLess(NumberOf(x), NumberOf(y), NumberOf(z));
    hide Apply;
    Spelled(env, x, Mux, "*", y, Sub, "-", z, Some((NumberOf(x) * NumberOf(y) - NumberOf(z)) % 0x1_0000_0000));
  }

  lemma SumOfProduct(a: Word, b: Word, c: Word)
    ensures Combine(Plus, Some(a), Apply(Mux, b, c)) == Some((a + b * c) % 0x1_0000_0000)
  {
    var p: int := b * c;
    ModAdd(a, p);
  }

  lemma ProductLess(a: Word, b: Word, c: Word)
    ensures Combine(Sub, Apply(Mux, a, b), Some(c)) == Some((a * b - c) % 0x1_0000_0000)
  {
    var p, m: int := a * b, 0 - c;
    ModAdd(m, p);
  }

  lemma TwiceLess(a: Word, b: Word, c: Word)
    ensures Combine(Sub, Apply(Sub, a, b), Some(c)) == Some((a as int - b - c) % 0x1_0000_0000)
  {
    var d, m: int := a as int - b, 0 - c;
    ModAdd(m, d);
  }

  lemma ModAdd(a: int, b: int)
    ensures (a + b % 0x1_0000_0000) % 0x1_0000_0000 == (a + b) % 0x1_0000_0000
  {
  }

  /** "x-y-z" subtracts from the left. */
  lemma MinusFromLeft(env: Env, x: string, y: string, z: string)
    requires Numeral(x) && Numeral(y) && Numeral(z)
    ensures ExprSpec(env, x + "-" + y + "-" + z)
         == ExprTokenizer.Value((NumberOf(x) as int - NumberOf(y) - NumberOf(z)) % 0x1_0000_0000)
  {
    hide ExprSpec, NumberOf, Numeral;
    TwiceLess(NumberOf(x), NumberOf(y), NumberOf(z));
    hide Apply;
    Spelled(env, x, Sub, "-", y, Sub, "-", z, Some((NumberOf(x) as int - NumberOf(y) - NumberOf(z)) % 0x1_0000_0000));
  }

  /** "x/y/z" divides from the left. */
  lemma DivideFromLeft(env: Env, x: string, y: string, z: string)
    requires Numeral(x) && Numeral(y) && Numeral(z)
    ensures ExprSpec(env, x + "/" + y + "/" + z)
         == if NumberOf(y) == 0 || NumberOf(z) == 0 then Stops
            else ExprTokenizer.Value(Quotient(Quotient(NumberOf(x), NumberOf(y)), NumberOf(z)))
  {
    hide ExprSpec, NumberOf, Numeral, Quotient;
    var v := if NumberOf(y) == 0 || NumberOf(z) == 0 then None
             else Some(Quotient(Quotient(NumberOf(x), NumberOf(y)), NumberOf(z)));
    Spelled(env, x, Div, "/", y, Div, "/", z, v);
  }

  /** "x==y+z" compares with the sum. */
  lemma SumBeforeEqual(env: Env, x: string, y: string, z: string)
    requires Numeral(x) && Numeral(y) && Numeral(z)
    ensures ExprSpec(env, x + "==" + y + "+" + z)
         == ExprTokenizer.Value(if NumberOf(x) == (NumberOf(y) + NumberOf(z)) % 0x1_0000_0000 then 1 else 0)
  {
    hide ExprSpec, NumberOf, Numeral;
    var v: Word := if NumberOf(x) == (NumberOf(y) + NumberOf(z)) % 0x1_0000_0000 then 1 else 0;
    Spelled(env, x, Eq, "==", y, Plus, "+", z, Some(v));
  }

  /** "x&&y==z" is true when x is not zero and y equals z. */
  lemma EqualBeforeAnd(env: Env, x: string, y: string, z: string)
    requires Numeral(x) && Numeral(y) && Numeral(z)
    ensures ExprSpec(env, x + "&&" + y + "==" + z)
         == ExprTokenizer.Value(if NumberOf(x) != 0 && NumberOf(y) == NumberOf(z) then 1 else 0)
  {
    hide ExprSpec, NumberOf, Numeral;
    var v: Word := if NumberOf(x) != 0 && NumberOf(y) == NumberOf(z) then 1 else 0;
    Spelled(env, x, And, "&&", y, Eq, "==", z, Some(v));
  }

  /** "x!=y&&z" is true when x differs from y and z is not zero. */
  lemma UnequalBeforeAnd(env: Env, x: string, y: string, z: string)
    requires Numeral(x) && Numeral(y) && Numeral(z)
    ensures ExprSpec(env, x + "!=" + y + "&&" + z)
         == ExprTokenizer.Value(if NumberOf(x) != NumberOf(y) && NumberOf(z) != 0 then 1 else 0)
  {
    hide ExprSpec, NumberOf, Numeral;
    var v: Word := if NumberOf(x) != NumberOf(y) && NumberOf(z) != 0 then 1 else 0;
    Spelled(env, x, Neq, "!=", y, And, "&&", z, Some(v));
  }

  /** "(x+y)*z" multiplies the sum. */
  lemma GroupFirst(env: Env, x: string, y: string, z: string)
    requires Numeral(x) && Numeral(y) && Numeral(z)
    ensures ExprSpec(env, "(" + x + "+" + y + ")" + "*" + z)
         == ExprTokenizer.Value(((NumberOf(x) + NumberOf(y)) % 0x1_0000_0000) * NumberOf(z) % 0x1_0000_0000)
  {
    hide ExprSpec, NumberOf, Numeral;
    FlatSum("(", x, "+", y, ")", "*", z);
    GroupSpec(env, x, y, z);
  }

  lemma FlatSum(a: string, b: string, c: string, d: string, e: string, f: string, g: string)
    ensures a + b + c + d + e + f + g == a + (b + (c + (d + (e + (f + g)))))
  {
    assert a + b + c + d + e + f + g == a + b + c + d + e + (f + g);
    assert a + b + c + d + e + (f + g) == a + b + c + d + (e + (f + g));
    assert a + b + c + d + (e + (f + g)) == a + b + c + (d + (e + (f + g)));
    assert a + b + c + (d + (e + (f + g))) == a + b + (c + (d + (e + (f + g))));
  }

  lemma GroupSpec(env: Env, x: string, y: string, z: string)
    requires Numeral(x) && Numeral(y) && Numeral(z)
    ensures ExprSpec(env, "(" + (x + ("+" + (y + (")" + ("*" + z))))))
         == ExprTokenizer.Value(((NumberOf(x) + NumberOf(y)) % 0x1_0000_0000) * NumberOf(z) % 0x1_0000_0000)
  {
    var a, b, c := Token(Num, x), Token(Num, y), Token(Num, z);
    NumberAtom(env, x);
    NumberAtom(env, y);
    NumberAtom(env, z);
    hide ExprSpec, Print, Written, Spell, ExprTree.Value, StarsMultiply, Numeral, NumberOf, AtomValue, Writable;
    GroupText(a, b, c);
    GroupValue(env, a, b, c, NumberOf(x), NumberOf(y), NumberOf(z));
    GroupRead(env, a, b, c);
  }

  /** Two operands joined by an operator. */
  lemma Joined(op: Kind, l: Expr, r: Expr)
    requires IsBinary(op) && !l.Bin? && !r.Bin?
    requires Grammatical(l) && Grammatical(r) && WellSorted(l) && WellSorted(r) && WritableTree(l) && WritableTree(r)
    ensures Grammatical(Bin(op, l, r)) && WellSorted(Bin(op, l, r)) && WritableTree(Bin(op, l, r))
  {
  }

  lemma GroupRead(env: Env, a: Token, b: Token, c: Token)
    requires a.kind.Num? && b.kind.Num? && c.kind.Num? && Writable(a) && Writable(b) && Writable(c)
    requires StarsMultiply(None, [LP, a, Token(Plus, ""), b, RP, Token(Mux, ""), c])
    ensures ExprSpec(env, Written([LP, a, Token(Plus, ""), b, RP, Token(Mux, ""), c], [0, 0, 0, 0, 0, 0, 0]))
         == match ExprTree.Value(env, Bin(Mux, Paren(Bin(Plus, Atom(a), Atom(b))), Atom(c)))
            case None => Stops
            case Some(v) => ExprTokenizer.Value(v)
  {
    var e := Bin(Mux, Paren(Bin(Plus, Atom(a), Atom(b))), Atom(c));
    hide Writable;
    var sum := Bin(Plus, Atom(a), Atom(b));
    Joined(Plus, Atom(a), Atom(b));
    Joined(Mux, Paren(sum), Atom(c));
    hide Lex, EvalSpec, Print, Written, ExprTree.Value, WritableTree, WellSorted, Grammatical, StarsMultiply;
    GroupTokens(a, b, c);
    TextIsRead(e, [0, 0, 0, 0, 0, 0, 0]);
    EvalTree(env, e);
  }

  lemma GroupTokens(a: Token, b: Token, c: Token)
    ensures Print(Bin(Mux, Paren(Bin(Plus, Atom(a), Atom(b))), Atom(c)))
         == [LP, a, Token(Plus, ""), b, RP, Token(Mux, ""), c]
  {
    assert Print(Bin(Plus, Atom(a), Atom(b))) == [a, Token(Plus, ""), b];
    assert Print(Paren(Bin(Plus, Atom(a), Atom(b)))) == [LP, a, Token(Plus, ""), b, RP];
  }

  lemma GroupValue(env: Env, a: Token, b: Token, c: Token, x: Word, y: Word, z: Word)
    requires AtomValue(env, a) == Some(x) && AtomValue(env, b) == Some(y) && AtomValue(env, c) == Some(z)
    ensures ExprTree.Value(env, Bin(Mux, Paren(Bin(Plus, Atom(a), Atom(b))), Atom(c)))
         == Some((x + y) % 0x1_0000_0000 * z % 0x1_0000_0000)
  {
    hide AtomValue;
    assert ExprTree.Value(env, Bin(Plus, Atom(a), Atom(b))) == Some((x + y) % 0x1_0000_0000);
  }

  lemma GroupEnd(b: Token, c: Token)
    requires b.kind.Num? && c.kind.Num?
    ensures var ts := [b, RP, Token(Mux, ""), c];
            && Written(ts, [0, 0, 0, 0]) == b.text + (")" + ("*" + c.text))
            && StarsMultiply(Some(Plus), ts)
  {
    var star := Token(Mux, "");
    assert Spell(RP) == ")" && Spell(star) == "*" && Spell(b) == b.text && Spell(c) == c.text;
    var ts: seq<Token>, gaps: seq<nat> := [], [];
    assert Written(ts, gaps) == "" && StarsMultiply(Some(Num), ts) && c.text + "" == c.text;
    hide Spell, Written, StarsMultiply;
    OneMore(c, c.text, ts, gaps, "", Some(Mux));
    assert [c] + ts == [c] && [0] + gaps == [0];
    OneMore(star, "*", [c], [0], c.text, Some(Rbrkt));
    assert [star] + [c] == [star, c] && [0] + [0] == [0, 0];
    OneMore(RP, ")", [star, c], [0, 0], "*" + c.text, Some(Num));
    assert [RP] + [star, c] == [RP, star, c] && [0] + [0, 0] == [0, 0, 0];
    OneMore(b, b.text, [RP, star, c], [0, 0, 0], ")" + ("*" + c.text), Some(Plus));
    assert [b] + [RP, star, c] == [b, RP, star, c] && [0] + [0, 0, 0] == [0, 0, 0, 0];
  }

  lemma GroupText(a: Token, b: Token, c: Token)
    requires a.kind.Num? && b.kind.Num? && c.kind.Num?
    ensures var ts := [LP, a, Token(Plus, ""), b, RP, Token(Mux, ""), c];
            && Written(ts, [0, 0, 0, 0, 0, 0, 0]) == "(" + (a.text + ("+" + (b.text + (")" + ("*" + c.text)))))
            && StarsMultiply(None, ts)
  {
    assert Spell(LP) == "(" && Symbol(Plus) == "+" && a == Token(Num, a.text);
    hide Spell, Written, StarsMultiply, Symbol;
    var plus, ts, text := Token(Plus, ""), [b, RP, Token(Mux, ""), c], b.text + (")" + ("*" + c.text));
    GroupEnd(b, c);
    ThreeFront(a.text, Plus, ts, [0, 0, 0, 0], text);
    assert [a] + ([plus] + ts) == [a, plus] + ts;
    StarsAfter(a, [plus] + ts);
    OneMore(LP, "(", [a, plus] + ts, [0, 0] + [0, 0, 0, 0], a.text + ("+" + text), None);
    assert [LP] + ([a, plus] + ts) == [LP, a, plus, b, RP, Token(Mux, ""), c]
        && [0] + ([0, 0] + [0, 0, 0, 0]) == [0, 0, 0, 0, 0, 0, 0];
  }

  /** In front of a number it does not matter what came before. */
  lemma StarsAfter(a: Token, ts: seq<Token>)
    requires a.kind.Num? && StarsMultiply(None, [a] + ts)
    ensures StarsMultiply(Some(Lbrkt), [a] + ts)
  {
  }

  lemma SumText(env: Env, x: string, y: string, z: string, text: string, v: Word)
    requires Numeral(x) && Numeral(y) && Numeral(z) && text == x + "+" + y + "*" + z
    requires v == (NumberOf(x) + NumberOf(y) * NumberOf(z)) % 0x1_0000_0000
    ensures ExprSpec(env, text) == ExprTokenizer.Value(v)
  {
    hide ExprSpec, NumberOf, Numeral;
    ProductFirst(env, x, y, z);
  }

  /** "1+2*3" is 7. */
  lemma SevenNotNine(env: Env)
    ensures ExprSpec(env, "1+2*3") == ExprTokenizer.Value(7)
  {
    hide ExprSpec, DigitsValue;
    var x, y, z := "1", "2", "3";
    OneDigitNumeral(x);
    OneDigitNumeral(y);
    OneDigitNumeral(z);
    hide NumberOf, Numeral;
    var text := x + "+" + y + "*" + z;
    assert text == "1+2*3";
    SumText(env, x, y, z, text, 7);
  }

  lemma OneDigitNumeral(s: string)
    requires |s| == 1 && '0' <= s[0] <= '9'
    ensures Numeral(s) && NumberOf(s) == s[0] as int - '0' as int
  {
    assert s[..0] == "" && DigitsValue("", 10) == 0;
  }
}
