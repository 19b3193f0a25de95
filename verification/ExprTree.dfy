/**
 Expression trees of C, restricted to the operators of the debugger, and the proof that `eval` on the
 printed tokens of a tree returns the tree's value.
 */
module ExprTree {
  import opened Common
  import opened ExprEval
  import opened ExprLiteral

  datatype Expr =
    | Atom(tok: Token)
    | Paren(e: Expr)
    | Bin(op: Kind, l: Expr, r: Expr)

  function Rank(e: Expr): nat
  {
    if e.Bin? then Precedence(e.op) else 0
  }

  predicate AtomKind(k: Kind)
  {
    k.Num? || k.HexNum? || k.Reg? || k.Deref?
  }

  /**
   The trees of the C grammar: an operand binds tighter than its operator, and only the left operand may
   have the operator's own precedence (all these operators associate to the left).
   */
  predicate Grammatical(e: Expr)
  {
    match e
    case Atom(t) => AtomKind(t.kind)
    case Paren(x) => Grammatical(x)
    case Bin(op, l, r) =>
      IsBinary(op) && Grammatical(l) && Grammatical(r) && Rank(l) <= Precedence(op) && Rank(r) < Precedence(op)
  }

  const LP := Token(Lbrkt, "")
  const RP := Token(Rbrkt, "")

  function Print(e: Expr): (ts: seq<Token>)
    ensures |ts| >= 1
  {
    match e
    case Atom(t) => [t]
    case Paren(x) => [LP] + Print(x) + [RP]
    case Bin(op, l, r) => Print(l) + [Token(op, "")] + Print(r)
  }

  /** The unsigned value of a tree when every operand is evaluated; None when a divisor is zero. */
  function Value(env: Env, e: Expr): Option<Word>
  {
    match e
    case Atom(t) => AtomValue(env, t)
    case Paren(x) => Value(env, x)
    case Bin(op, l, r) => Combine(op, Value(env, l), Value(env, r))
  }

  // ---------------------------------------------------------------- printed trees are balanced

  lemma {:induction false} DepthConcat(a: seq<Token>, b: seq<Token>, k: nat)
    requires k <= |a| + |b|
    ensures Depth(a + b, k) == if k <= |a| then Depth(a, k) else Depth(a, |a|) + Depth(b, k - |a|)
  {
    if k > 0 {
      DepthConcat(a, b, k - 1);
    }
  }

  lemma BalancedConcat(a: seq<Token>, b: seq<Token>)
    requires Balanced(a) && Balanced(b)
    ensures Balanced(a + b) && Depth(a + b, |a|) == 0
  {
    forall k | 0 <= k <= |a + b|
      ensures Depth(a + b, k) >= 0
    {
      DepthConcat(a, b, k);
    }
    DepthConcat(a, b, |a + b|);
    DepthConcat(a, b, |a|);
  }

  /** A balanced sequence between parentheses is enclosed. */
  lemma EnclosedParen(a: seq<Token>)
    requires Balanced(a)
    ensures Enclosed([LP] + a + [RP])
  {
    var ts := [LP] + a + [RP];
    assert Depth([LP], 1) == 1;
    forall k | 0 <= k <= |ts|
      ensures Depth(ts, k) >= if 0 < k < |ts| then 1 else 0
      ensures k == |ts| ==> Depth(ts, k) == 0
    {
      DepthConcat([LP] + a, [RP], k);
      if 0 < k < |ts| {
        DepthConcat([LP], a, k);
      } else if k == |ts| {
        DepthConcat([LP], a, |a| + 1);
        assert Depth([RP], 1) == -1;
      }
    }
  }

  lemma {:induction false} PrintBalanced(e: Expr)
    requires Grammatical(e)
    ensures Balanced(Print(e))
  {
    match e
    case Atom(t) =>
      assert Depth([t], 1) == 0;
    case Paren(x) =>
      PrintBalanced(x);
      EnclosedParen(Print(x));
    case Bin(op, l, r) =>
      PrintBalanced(l);
      PrintBalanced(r);
      assert Depth([Token(op, "")], 1) == 0;
      BalancedConcat(Print(l), [Token(op, "")]);
      BalancedConcat(Print(l) + [Token(op, "")], Print(r));
  }

  /** `check_parentheses` recognises exactly the trees that are one parenthesised tree. */
  lemma CheckOnTree(e: Expr)
    requires Grammatical(e) && |Print(e)| >= 3
    ensures CheckSpec(Print(e)) <==> e.Paren?
  {
    PrintBalanced(e);
    CheckOnBalanced(Print(e));
    hide CheckSpec, Depth;
    match e
    case Atom(_) =>
    case Paren(x) =>
      PrintBalanced(x);
      EnclosedParen(Print(x));
    case Bin(op, l, r) =>
      var rest := [Token(op, "")] + Print(r);
      assert Print(e) == Print(l) + rest;
      PrintBalanced(l);
      NotEnclosed(Print(l), rest);
  }

  /** A balanced beginning that is not everything ends at depth zero. */
  lemma NotEnclosed(a: seq<Token>, b: seq<Token>)
    requires Balanced(a) && a != [] && b != []
    ensures !Enclosed(a + b)
  {
    DepthConcat(a, b, |a|);
    assert 0 < |a| < |a + b| && Depth(a + b, |a|) == 0;
  }

  // ---------------------------------------------------------------- the scan finds the root

  /** Where the root operator of a printed tree stands, when the tree starts at position a. */
  function RootPos(e: Expr, a: nat): nat
    requires e.Bin?
  {
    a + |Print(e.l)|
  }

  /** The best main operator after scanning a whole tree at depth zero. */
  function Better(ts: seq<Token>, best: Option<nat>, e: Expr, a: nat): (b: Option<nat>)
    requires best.Some? ==> best.value < |ts|
    ensures b == best || (e.Bin? && b == Some(RootPos(e, a)))
  {
    if e.Bin? && (best.None? || Precedence(ts[best.value].kind) < Rank(e)) then Some(RootPos(e, a)) else best
  }

  /**
   Scanning a printed tree from the right: inside parentheses it changes nothing, outside it leaves the
   root of the tree as main operator unless one of lower precedence was seen further right.
   */
  lemma {:induction false} ScanTree(ts: seq<Token>, a: nat, e: Expr, need: nat, best: Option<nat>)
    requires Grammatical(e)
    requires a + |Print(e)| <= |ts| && ts[a..a + |Print(e)|] == Print(e)
    requires best.Some? ==> best.value < |ts|
    ensures e.Bin? ==> RootPos(e, a) < |ts| && ts[RootPos(e, a)].kind == e.op
    ensures Scan(ts, a + |Print(e)|, need, best)
         == Scan(ts, a, need, if need > 0 then best else Better(ts, best, e, a))
    decreases e, 1
  {
    hide Scan, Print, Precedence, Better;
    if !e.Bin? { NoBetter(ts, best, e, a); }
    match e
    case Atom(t) =>
      ScanLeaf(ts, a, t, need, best);
    case Paren(x) =>
      ScanParen(ts, a, x, need, best);
      ScanTree(ts, a + 1, x, need + 1, best);
    case Bin(op, l, r) =>
      if need > 0 {
        ScanBinInside(ts, a, op, l, r, need, best);
      } else {
        ScanBin(ts, a, op, l, r, best);
      }
  }

  lemma ScanLeaf(ts: seq<Token>, a: nat, t: Token, need: nat, best: Option<nat>)
    requires AtomKind(t.kind) && a + |Print(Atom(t))| <= |ts| && ts[a..a + |Print(Atom(t))|] == Print(Atom(t))
    requires best.Some? ==> best.value < |ts|
    ensures Scan(ts, a + |Print(Atom(t))|, need, best) == Scan(ts, a, need, best)
  {
    assert Print(Atom(t)) == [t];
    assert ts[a] == ts[a..a + 1][0] == t;
    hide Scan;
    ScanAtom(ts, a, need, best);
  }

  lemma NoBetter(ts: seq<Token>, best: Option<nat>, e: Expr, a: nat)
    requires (best.Some? ==> best.value < |ts|) && !e.Bin?
    ensures Better(ts, best, e, a) == best
  {
  }

  lemma {:induction false} ScanBinInside(ts: seq<Token>, a: nat, op: Kind, l: Expr, r: Expr, need: nat, best: Option<nat>)
    requires Grammatical(Bin(op, l, r)) && need > 0
    requires var n := |Print(Bin(op, l, r))|; a + n <= |ts| && ts[a..a + n] == Print(Bin(op, l, r))
    requires best.Some? ==> best.value < |ts|
    ensures a + |Print(l)| < |ts| && ts[a + |Print(l)|].kind == op
    ensures Scan(ts, a + |Print(Bin(op, l, r))|, need, best) == Scan(ts, a, need, best)
    decreases Bin(op, l, r), 0
  {
    hide Scan, Print, Precedence;
    var m := a + |Print(l)|;
    BinSlices(ts, a, op, l, r);
    ScanTree(ts, m + 1, r, need, best);
    ScanOp(ts, m, op, need, best);
    ScanTree(ts, a, l, need, best);
  }

  lemma {:induction false} ScanBin(ts: seq<Token>, a: nat, op: Kind, l: Expr, r: Expr, best: Option<nat>)
    requires Grammatical(Bin(op, l, r))
    requires var n := |Print(Bin(op, l, r))|; a + n <= |ts| && ts[a..a + n] == Print(Bin(op, l, r))
    requires best.Some? ==> best.value < |ts|
    ensures a + |Print(l)| < |ts| && ts[a + |Print(l)|].kind == op
    ensures Scan(ts, a + |Print(Bin(op, l, r))|, 0, best) == Scan(ts, a, 0, Better(ts, best, Bin(op, l, r), a))
    decreases Bin(op, l, r), 0
  {
    hide Scan, Print, Precedence, Better;
    var m := a + |Print(l)|;
    BinSlices(ts, a, op, l, r);
    ScanTree(ts, m + 1, r, 0, best);
    RootWins(ts, best, op, l, r, a);
    ScanOp(ts, m, op, 0, Better(ts, best, r, m + 1));
    ScanTree(ts, a, l, 0, Better(ts, best, Bin(op, l, r), a));
  }

  /** The loosest operator wins, and among equals the one further right. */
  lemma RootWins(ts: seq<Token>, best: Option<nat>, op: Kind, l: Expr, r: Expr, a: nat)
    requires best.Some? ==> best.value < |ts|
    requires Rank(l) <= Precedence(op) && Rank(r) < Precedence(op)
    requires var m := a + |Print(l)|; m < |ts| && ts[m].kind == op
    requires var m := a + |Print(l)|; r.Bin? ==> RootPos(r, m + 1) < |ts| && ts[RootPos(r, m + 1)].kind == r.op
    ensures var m := a + |Print(l)|;
            var best1 := Better(ts, best, r, m + 1);
            var best2 := Better(ts, best, Bin(op, l, r), a);
            && best2 == (if best1.None? || Precedence(ts[best1.value].kind) < Precedence(op) then Some(m) else best1)
            && Better(ts, best2, l, a) == best2
  {
    hide Print, Precedence;
  }

  lemma ScanAtom(ts: seq<Token>, m: nat, need: nat, best: Option<nat>)
    requires m < |ts| && AtomKind(ts[m].kind)
    requires best.Some? ==> best.value < |ts|
    ensures Scan(ts, m + 1, need, best) == Scan(ts, m, need, best)
  {
  }

  /** Scanning one binary operator. */
  lemma ScanOp(ts: seq<Token>, m: nat, op: Kind, need: nat, best: Option<nat>)
    requires m < |ts| && ts[m].kind == op && IsBinary(op)
    requires best.Some? ==> best.value < |ts|
    ensures Scan(ts, m + 1, need, best) == Scan(ts, m, need,
              if need == 0 && (best.None? || Precedence(ts[best.value].kind) < Precedence(op)) then Some(m) else best)
  {
  }

  lemma BinSlices(ts: seq<Token>, a: nat, op: Kind, l: Expr, r: Expr)
    requires a + |Print(Bin(op, l, r))| <= |ts| && ts[a..a + |Print(Bin(op, l, r))|] == Print(Bin(op, l, r))
    ensures var m := a + |Print(l)|;
            && ts[a..m] == Print(l) && ts[m].kind == op
            && m + 1 + |Print(r)| == a + |Print(Bin(op, l, r))|
            && ts[m + 1..m + 1 + |Print(r)|] == Print(r)
  {
    Slices(ts, a, Print(l), Token(op, ""), Print(r));
  }

  lemma Slices(ts: seq<Token>, a: nat, x: seq<Token>, t: Token, y: seq<Token>)
    requires a + |x| + 1 + |y| <= |ts| && ts[a..a + |x| + 1 + |y|] == x + [t] + y
    ensures var m := a + |x|;
            ts[a..m] == x && ts[m] == t && ts[m + 1..m + 1 + |y|] == y
  {
    var whole := ts[a..a + |x| + 1 + |y|];
    var m := a + |x|;
    assert ts[a..m] == x by {
      SliceOfSlice(ts, a, a + |whole|, 0, |x|);
      assert whole[0..|x|] == x;
    }
    assert ts[m] == t by { assert ts[m] == whole[|x|]; }
    assert ts[m + 1..m + 1 + |y|] == y by {
      SliceOfSlice(ts, a, a + |whole|, |x| + 1, |whole|);
      assert whole[|x| + 1..|whole|] == y;
    }
  }

  lemma ScanParen(ts: seq<Token>, a: nat, x: Expr, need: nat, best: Option<nat>)
    requires a + |Print(Paren(x))| <= |ts| && ts[a..a + |Print(Paren(x))|] == Print(Paren(x))
    requires best.Some? ==> best.value < |ts|
    ensures a + 1 + |Print(x)| <= |ts| && ts[a + 1..a + 1 + |Print(x)|] == Print(x)
    ensures Scan(ts, a + |Print(Paren(x))|, need, best) == Scan(ts, a + 1 + |Print(x)|, need + 1, best)
    ensures Scan(ts, a + 1, need + 1, best) == Scan(ts, a, need, best)
  {
    ParenSlices(ts, a, Print(x));
  }

  lemma ParenSlices(ts: seq<Token>, a: nat, x: seq<Token>)
    requires a + |x| + 2 <= |ts| && ts[a..a + |x| + 2] == [LP] + x + [RP]
    ensures ts[a] == LP && ts[a + |x| + 1] == RP && ts[a + 1..a + 1 + |x|] == x
  {
    var whole := ts[a..a + |x| + 2];
    assert ts[a] == whole[0];
    assert ts[a + |x| + 1] == whole[|x| + 1];
    assert ts[a + 1..a + 1 + |x|] == x by {
      SliceOfSlice(ts, a, a + |whole|, 1, |x| + 1);
      assert whole[1..|x| + 1] == x;
    }
  }

  // ---------------------------------------------------------------- the theorem

  /** The printed tokens of a tree tell its root and its parts, by the tests that `eval` makes. */
  lemma TreeShape(e: Expr)
    requires Grammatical(e)
    ensures var ts := Print(e);
            && (e.Atom? <==> |ts| == 1) && |ts| != 2
            && (e.Atom? ==> ts[0] == e.tok)
            && (|ts| >= 3 ==> (CheckSpec(ts) <==> e.Paren?))
            && (e.Paren? ==> ts[1..|ts| - 1] == Print(e.e))
            && (e.Bin? ==>
                  && Scan(ts, |ts|, 0, None) == Some(|Print(e.l)|) && |Print(e.l)| < |ts|
                  && ts[|Print(e.l)|].kind == e.op
                  && ts[..|Print(e.l)|] == Print(e.l) && ts[|Print(e.l)| + 1..] == Print(e.r))
  {
    hide Scan, CheckSpec, Precedence;
    PrintShape(e);
    if |Print(e)| >= 3 { CheckOnTree(e); }
    if e.Bin? { BinShape(e); }
    hide Print;
  }

  lemma PrintShape(e: Expr)
    requires Grammatical(e)
    ensures var ts := Print(e);
            && (e.Atom? <==> |ts| == 1) && |ts| != 2
            && (e.Atom? ==> ts[0] == e.tok)
            && (e.Paren? ==> ts[1..|ts| - 1] == Print(e.e))
  {
  }

  lemma BinShape(e: Expr)
    requires Grammatical(e) && e.Bin?
    ensures var ts, m := Print(e), |Print(e.l)|;
            && Scan(ts, |ts|, 0, None) == Some(m) && m < |ts| && ts[m].kind == e.op
            && ts[..m] == Print(e.l) && ts[m + 1..] == Print(e.r)
  {
    hide Scan, Print, Precedence;
    var ts, m := Print(e), |Print(e.l)|;
    assert ts[0..|ts|] == ts;
    ScanTree(ts, 0, e, 0, None);
    ScanEnd(ts, Some(m));
    BinSlices(ts, 0, e.op, e.l, e.r);
    assert ts[..m] == ts[0..m] && ts[m + 1..] == ts[m + 1..|ts|];
  }

  /** `eval` on the printed tokens of any grammatical tree returns its value, or stops exactly when a divisor is zero. */
  lemma {:induction false} EvalTree(env: Env, e: Expr)
    requires Grammatical(e)
    ensures EvalSpec(env, Print(e)) == Value(env, e)
  {
    hide EvalSpec, Scan, CheckSpec, AtomValue, Apply, Print, Precedence;
    EvalStep(env, Print(e));
    TreeShape(e);
    match e
    case Atom(_) =>
    case Paren(x) => EvalTree(env, x);
    case Bin(_, l, r) =>
      EvalTree(env, l);
      EvalTree(env, r);
  }

  /** Unsigned 32-bit arithmetic of C. */
  function COperator(op: Kind, a: Word, b: Word): (r: Word)
    requires IsBinary(op) && (op.Div? ==> b != 0)
  {
    match op
    case Plus => if a + b < 0x1_0000_0000 then a + b else a + b - 0x1_0000_0000
    case Sub => if b <= a then a - b else a + 0x1_0000_0000 - b
    case Mux => a * b % 0x1_0000_0000
    case Div => Quotient(a, b)
    case Eq => if a == b then 1 else 0
    case Neq => if a == b then 0 else 1
    case And => if a == 0 || b == 0 then 0 else 1
  }

  /** The meaning of a tree in C, all constants being unsigned, where `&&` does not evaluate its right operand when the left one is zero. */
  function CValue(env: Env, e: Expr): Option<Word>
    requires WellSorted(e)
  {
    match e
    case Atom(t) => CAtom(env, t)
    case Paren(x) => CValue(env, x)
    case Bin(op, l, r) =>
      var a := CValue(env, l);
      if a.None? then None
      else if op.And? && a.value == 0 then Some(0)
      else
        var b := CValue(env, r);
        if b.None? || (op.Div? && b.value == 0) then None else Some(COperator(op, a.value, b.value))
  }

  /** No divisor anywhere in the tree is zero and every operand has a value, also where C would skip it. */
  predicate AllDefined(env: Env, e: Expr)
    requires WellSorted(e)
  {
    match e
    case Atom(t) => CAtom(env, t).Some?
    case Paren(x) => AllDefined(env, x)
    case Bin(op, l, r) => AllDefined(env, l) && AllDefined(env, r) && (op.Div? ==> CValue(env, r) != Some(0))
  }

  /** All operands are written so that the debugger and C agree on them. */
  predicate PlainTree(e: Expr)
  {
    match e
    case Atom(t) => PlainAtom(t)
    case Paren(x) => PlainTree(x)
    case Bin(_, l, r) => PlainTree(l) && PlainTree(r)
  }

  /** It is enough to look at the printed tokens. */
  lemma {:induction false} PlainPrint(e: Expr)
    requires WellSorted(e) && forall t <- Print(e) :: AtomKind(t.kind) ==> PlainAtom(t)
    ensures PlainTree(e)
  {
    hide PlainAtom;
    match e
    case Atom(t) => assert t in Print(e);
    case Paren(x) => PlainPrint(x);
    case Bin(_, l, r) =>
      PlainPrint(l);
      PlainPrint(r);
  }

  lemma {:induction false} EagerValue(env: Env, e: Expr)
    requires WellSorted(e) && PlainTree(e)
    ensures Value(env, e) == if AllDefined(env, e) then CValue(env, e) else None
    ensures AllDefined(env, e) ==> CValue(env, e).Some?
  {
    match e
    case Atom(t) =>
      PlainAgrees(env, t);
      hide AtomValue, CAtom;
    case Paren(x) => EagerValue(env, x);
    case Bin(op, l, r) =>
      EagerValue(env, l);
      EagerValue(env, r);
      hide AtomValue, CAtom, PlainAtom, Apply, COperator;
      var a, b := Value(env, l), Value(env, r);
      if a.Some? && b.Some? {
        ApplyIsC(op, a.value, b.value);
      }
  }

  lemma ApplyIsC(op: Kind, a: Word, b: Word)
    requires IsBinary(op)
    ensures Apply(op, a, b) == if op.Div? && b == 0 then None else Some(COperator(op, a, b))
    ensures op.And? && a == 0 ==> COperator(op, a, b) == 0
  {
    match op
    case Plus => assert (a + b) % 0x1_0000_0000 == if a + b < 0x1_0000_0000 then a + b else a + b - 0x1_0000_0000;
    case _ =>
  }

  /**
   With plain operands, `eval` returns the C value of the tree if and only if everything in it is defined, and
   stops otherwise.
   */
  lemma EvalMeansC(env: Env, e: Expr)
    requires Grammatical(e) && PlainTree(e)
    ensures WellSorted(e)
    ensures EvalSpec(env, Print(e)) == if AllDefined(env, e) then CValue(env, e) else None
    ensures EvalSpec(env, Print(e)).Some? <==> AllDefined(env, e)
  {
    GrammaticalSorted(e);
    EvalTree(env, e);
    EagerValue(env, e);
  }

  lemma {:induction false} GrammaticalSorted(e: Expr)
    requires Grammatical(e)
    ensures WellSorted(e)
  {
    match e
    case Atom(_) =>
    case Paren(x) => GrammaticalSorted(x);
    case Bin(_, l, r) =>
      GrammaticalSorted(l);
      GrammaticalSorted(r);
  }

  lemma ScanEnd(ts: seq<Token>, best: Option<nat>)
    requires best.Some? ==> best.value < |ts|
    ensures Scan(ts, 0, 0, best) == best
  {
  }

  /** The grammar is unambiguous: a token sequence is the printing of at most one grammatical tree. */
  lemma {:induction false} PrintInjective(d: Expr, e: Expr)
    requires Grammatical(d) && Grammatical(e) && Print(d) == Print(e)
    ensures d == e
  {
    hide Scan, CheckSpec, Print, Precedence;
    TreeShape(d);
    TreeShape(e);
    match d
    case Atom(_) =>
    case Paren(x) => PrintInjective(x, e.e);
    case Bin(_, l, r) =>
      PrintInjective(l, e.l);
      PrintInjective(r, e.r);
  }

  // ---------------------------------------------------------------- arbitrary trees

  /** Puts parentheses around the operands that need them. */
  function Parenthesize(e: Expr): (p: Expr)
  {
    match e
    case Atom(_) => e
    case Paren(x) => Paren(Parenthesize(x))
    case Bin(op, l, r) =>
      var l', r' := Parenthesize(l), Parenthesize(r);
      Bin(op, if Rank(l') <= Precedence(op) then l' else Paren(l'), if Rank(r') < Precedence(op) then r' else Paren(r'))
  }

  predicate WellSorted(e: Expr)
  {
    match e
    case Atom(t) => AtomKind(t.kind)
    case Paren(x) => WellSorted(x)
    case Bin(op, l, r) => IsBinary(op) && WellSorted(l) && WellSorted(r)
  }

  /**
   Every tree with plain operands, grammatical or not, printed with the parentheses it needs: `eval` returns its
   C value if and only if everything in it is defined.
   */
  lemma EvalAnyTree(env: Env, e: Expr)
    requires WellSorted(e) && PlainTree(e)
    ensures EvalSpec(env, Print(Parenthesize(e))) == if AllDefined(env, e) then CValue(env, e) else None
    ensures EvalSpec(env, Print(Parenthesize(e))).Some? <==> AllDefined(env, e)
  {
    ParenthesizeGood(env, e);
    EvalTree(env, Parenthesize(e));
    EagerValue(env, e);
  }

  /** "0 && 1 / 0" is 0 in C, but `eval` stops. */
  lemma ShortCircuitDiffers(env: Env)
    ensures var zero, one := Atom(Token(Num, "0")), Atom(Token(Num, "1"));
            var e := Bin(And, zero, Bin(Div, one, zero));
            Grammatical(e) && WellSorted(e) && CValue(env, e) == Some(0) && EvalSpec(env, Print(e)) == None
  {
    var zero, one := Token(Num, "0"), Token(Num, "1");
    var e := Bin(And, Atom(zero), Bin(Div, Atom(one), Atom(zero)));
    OneDigit(env, "0");
    OneDigit(env, "1");
    hide CAtom, PlainAtom;
    EvalMeansC(env, e);
  }

  lemma OneDigit(env: Env, s: string)
    requires |s| == 1 && '0' <= s[0] < '8'
    ensures PlainAtom(Token(Num, s)) && CAtom(env, Token(Num, s)) == Some(DigitOf(s[0]))
  {
    assert s[..|s| - 1] == "";
    assert Positional("", 8) == Some(0) && Positional("", 10) == Some(0) && DigitsValue("", 10) == 0;
    assert Positional(s, 8) == Some(DigitOf(s[0]));
    assert Positional(s, 10) == Some(DigitOf(s[0]));
  }

  lemma {:induction false} ParenthesizeGood(env: Env, e: Expr)
    requires WellSorted(e)
    ensures Grammatical(Parenthesize(e)) && Value(env, Parenthesize(e)) == Value(env, e)
  {
    match e
    case Atom(_) =>
    case Paren(x) => ParenthesizeGood(env, x);
    case Bin(op, l, r) =>
      ParenthesizeGood(env, l);
      ParenthesizeGood(env, r);
  }
}
