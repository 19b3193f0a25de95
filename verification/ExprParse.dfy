/**
 The converse of the evaluation theorem: a balanced token sequence gets a value only when it is the printing
 of a tree. What `eval` does with sequences that are not balanced is shown at the end.
 */
module ExprParse {
  import opened Common
  import opened ExprEval
  import opened ExprTree

  /** Tokens as the tokenizer records them: only operands have a text. */
  predicate Clean(ts: seq<Token>)
  {
    forall t <- ts :: IsOp(t.kind) ==> t.text == ""
  }

  /** The sequence is the printing of a grammatical tree with this value. */
  ghost predicate Means(env: Env, ts: seq<Token>, v: Word)
  {
    exists e :: Grammatical(e) && Print(e) == ts && Value(env, e) == Some(v)
  }

  // ---------------------------------------------------------------- the main operator of a balanced sequence

  /** In a balanced sequence the scan keeps count of the depth, so it finds a binary operator at depth zero. */
  lemma {:induction false} ScanDepth(ts: seq<Token>, n: nat, need: nat, best: Option<nat>)
    requires Balanced(ts) && n <= |ts| && need == Depth(ts, n)
    requires best.Some? ==> best.value < |ts| && IsBinary(ts[best.value].kind) && Depth(ts, best.value) == 0
    ensures match Scan(ts, n, need, best)
            case None => true
            case Some(m) => IsBinary(ts[m].kind) && Depth(ts, m) == 0
  {
    if n > 0 {
      var k := ts[n - 1].kind;
      assert Depth(ts, n - 1) >= 0;
      if !IsOp(k) {
        ScanDepth(ts, n - 1, need, best);
      } else if k.Rbrkt? {
        ScanDepth(ts, n - 1, need + 1, best);
      } else if need != 0 {
        ScanDepth(ts, n - 1, if k.Lbrkt? then need - 1 else need, best);
      } else if best.None? || Precedence(ts[best.value].kind) < Precedence(k) {
        ScanDepth(ts, n - 1, 0, Some(n - 1));
      } else {
        ScanDepth(ts, n - 1, 0, best);
      }
    }
  }

  /** A piece of a balanced sequence between two places of depth zero is balanced. */
  lemma BalancedSlice(ts: seq<Token>, a: nat, b: nat)
    requires Balanced(ts) && a <= b <= |ts| && Depth(ts, a) == 0 && Depth(ts, b) == 0
    ensures Balanced(ts[a..b])
  {
    var piece := ts[a..b];
    forall k: nat | k <= b - a
      ensures Depth(piece, k) >= 0
    {
      DepthSlice(ts, a, b, k);
    }
    DepthSlice(ts, a, b, b - a);
  }

  /** What stands on both sides of an operator at depth zero is balanced. */
  lemma BalancedSides(ts: seq<Token>, m: nat)
    requires Balanced(ts) && m < |ts| && IsBinary(ts[m].kind) && Depth(ts, m) == 0
    ensures Balanced(ts[..m]) && Balanced(ts[m + 1..])
  {
    assert Depth(ts, m + 1) == 0 && Depth(ts, 0) == 0;
    hide Depth;
    BalancedSlice(ts, 0, m);
    BalancedSlice(ts, m + 1, |ts|);
    assert ts[0..m] == ts[..m] && ts[m + 1..|ts|] == ts[m + 1..];
  }

  /** Two trees around the operator that the scan selects form a grammatical tree. */
  lemma JoinedByScan(ts: seq<Token>, m: nat, l: Expr, r: Expr)
    requires m < |ts| && IsBinary(ts[m].kind) && Grammatical(l) && Grammatical(r)
    requires ts[..m] == Print(l) && ts[m + 1..] == Print(r)
    requires Scan(ts, |ts|, 0, None) == Some(m)
    ensures Grammatical(Bin(ts[m].kind, l, r))
  {
    hide Scan, Print, Precedence, Better;
    var op := ts[m].kind;
    assert ts[m + 1..m + 1 + |Print(r)|] == Print(r);
    ScanTree(ts, m + 1, r, 0, None);
    var best1 := Better(ts, None, r, m + 1);
    ScanOp(ts, m, op, 0, best1);
    var best2 := if best1.None? || Precedence(ts[best1.value].kind) < Precedence(op) then Some(m) else best1;
    assert ts[0..0 + |Print(l)|] == Print(l);
    ScanTree(ts, 0, l, 0, best2);
    ScanEnd(ts, Better(ts, best2, l, 0));
    OnlyRoot(ts, m, l, r, best1, best2);
  }

  lemma OnlyRoot(ts: seq<Token>, m: nat, l: Expr, r: Expr, best1: Option<nat>, best2: Option<nat>)
    requires m < |ts| && |Print(l)| == m
    requires r.Bin? ==> RootPos(r, m + 1) < |ts| && ts[RootPos(r, m + 1)].kind == r.op
    requires l.Bin? ==> RootPos(l, 0) < |ts| && ts[RootPos(l, 0)].kind == l.op
    requires best1 == Better(ts, None, r, m + 1)
    requires best2 == if best1.None? || Precedence(ts[best1.value].kind) < Precedence(ts[m].kind) then Some(m) else best1
    requires Better(ts, best2, l, 0) == Some(m)
    ensures Rank(l) <= Precedence(ts[m].kind) && Rank(r) < Precedence(ts[m].kind)
  {
    assert Precedence(ts[m].kind) > 0;
    hide Precedence;
    assert l.Bin? ==> RootPos(l, 0) < m by { if l.Bin? { PrintLonger(l); } }
  }

  lemma PrintLonger(e: Expr)
    requires e.Bin?
    ensures |Print(e.l)| < |Print(e)|
  {
  }

  // ---------------------------------------------------------------- the converse

  lemma {:induction false} ValueIsMeant(env: Env, ts: seq<Token>, v: Word)
    requires Clean(ts) && Balanced(ts) && EvalSpec(env, ts) == Some(v)
    ensures Means(env, ts, v)
    decreases |ts|
  {
    hide EvalSpec, Scan, AtomValue, Apply, Means;
    EvalStep(env, ts);
    if |ts| == 1 {
      SingleAtom(env, ts, v);
    } else if CheckSpec(ts) {
      CheckOnBalanced(ts);
      var inner := ts[1..|ts| - 1];
      EnclosedEnds(ts);
      assert forall t <- inner :: t in ts;
      ValueIsMeant(env, inner, v);
      MeansParen(env, ts, inner, v);
    } else {
      var m := Scan(ts, |ts|, 0, None).value;
      ScanDepth(ts, |ts|, 0, None);
      BalancedSides(ts, m);
      assert forall t <- ts[..m] :: t in ts;
      assert forall t <- ts[m + 1..] :: t in ts;
      var a, b := EvalSpec(env, ts[..m]), EvalSpec(env, ts[m + 1..]);
      ValueIsMeant(env, ts[..m], a.value);
      ValueIsMeant(env, ts[m + 1..], b.value);
      assert ts[m] in ts;
      MeansBin(env, ts, m, a.value, b.value, v);
    }
  }

  lemma SingleAtom(env: Env, ts: seq<Token>, v: Word)
    requires |ts| == 1 && AtomValue(env, ts[0]) == Some(v)
    ensures Means(env, ts, v)
  {
    var e := Atom(ts[0]);
    assert Print(e) == ts;
  }

  lemma EnclosedEnds(ts: seq<Token>)
    requires |ts| >= 3 && Enclosed(ts) && Clean(ts) && Balanced(ts[1..|ts| - 1])
    ensures ts == [LP] + ts[1..|ts| - 1] + [RP]
  {
    var n := |ts|;
    assert ts[0] in ts && ts[n - 1] in ts;
    assert Depth(ts, n) == 0 && Depth(ts, n - 1) > 0;
  }

  lemma MeansParen(env: Env, ts: seq<Token>, inner: seq<Token>, v: Word)
    requires ts == [LP] + inner + [RP] && Means(env, inner, v)
    ensures Means(env, ts, v)
  {
    var x :| Grammatical(x) && Print(x) == inner && Value(env, x) == Some(v);
    assert Print(Paren(x)) == ts;
  }

  lemma MeansBin(env: Env, ts: seq<Token>, m: nat, a: Word, b: Word, v: Word)
    requires m < |ts| && IsBinary(ts[m].kind) && ts[m].text == "" && Scan(ts, |ts|, 0, None) == Some(m)
    requires Means(env, ts[..m], a) && Means(env, ts[m + 1..], b) && Apply(ts[m].kind, a, b) == Some(v)
    ensures Means(env, ts, v)
  {
    hide Scan, Apply, Print, Grammatical, Precedence;
    var l :| Grammatical(l) && Print(l) == ts[..m] && Value(env, l) == Some(a);
    var r :| Grammatical(r) && Print(r) == ts[m + 1..] && Value(env, r) == Some(b);
    JoinedByScan(ts, m, l, r);
    JoinedTree(env, ts, m, l, r, v);
  }

  lemma JoinedTree(env: Env, ts: seq<Token>, m: nat, l: Expr, r: Expr, v: Word)
    requires m < |ts| && ts[m].text == "" && Print(l) == ts[..m] && Print(r) == ts[m + 1..]
    requires Grammatical(Bin(ts[m].kind, l, r)) && Combine(ts[m].kind, Value(env, l), Value(env, r)) == Some(v)
    ensures Means(env, ts, v)
  {
    hide Apply, Precedence, Grammatical, AtomValue;
    var e := Bin(ts[m].kind, l, r);
    assert Value(env, e) == Some(v);
    assert Print(e) == ts[..m] + [ts[m]] + ts[m + 1..];
    hide Print, Value, Combine;
    assert ts[..m] + [ts[m]] + ts[m + 1..] == ts;
  }

  /**
   On balanced sequences `eval` is exact: it returns v if and only if the sequence is the printing of a
   grammatical tree, and v is the value of that tree.
   */
  lemma EvalExact(env: Env, ts: seq<Token>, v: Word)
    requires Clean(ts) && Balanced(ts)
    ensures EvalSpec(env, ts) == Some(v) <==> Means(env, ts, v)
  {
    hide EvalSpec;
    if EvalSpec(env, ts) == Some(v) {
      ValueIsMeant(env, ts, v);
    }
    if Means(env, ts, v) {
      var e :| Grammatical(e) && Print(e) == ts && Value(env, e) == Some(v);
      EvalTree(env, e);
    }
  }

  // ---------------------------------------------------------------- one-sided ranges

  /**
   Where `check_parentheses` errs, `eval` drops the tokens at both ends, only one of which is a parenthesis, and
   returns the value of what is left, if that is the printing of a tree.
   */
  lemma OneSidedRange(env: Env, ts: seq<Token>, v: Word)
    requires |ts| >= 3 && Clean(ts) && Balanced(ts[1..|ts| - 1])
    requires ts[0].kind.Lbrkt? != ts[|ts| - 1].kind.Rbrkt?
    ensures !Balanced(ts)
    ensures EvalSpec(env, ts) == Some(v) <==> Means(env, ts[1..|ts| - 1], v)
  {
    hide EvalSpec, Means;
    var inner := ts[1..|ts| - 1];
    assert forall t <- inner :: t in ts;
    EvalStep(env, ts);
    EvalExact(env, inner, v);
    OneSidedUnbalanced(ts);
  }

  lemma OneSidedUnbalanced(ts: seq<Token>)
    requires |ts| >= 3 && Balanced(ts[1..|ts| - 1]) && ts[0].kind.Lbrkt? != ts[|ts| - 1].kind.Rbrkt?
    ensures !Balanced(ts)
  {
    var n := |ts|;
    DepthSlice(ts, 1, n - 1, n - 2);
    assert Depth(ts, 0) == 0;
    assert Depth(ts, n - 1) == Depth(ts, 1);
  }

  /** "(5 7" is no expression, and `eval` returns 5. */
  lemma OneSidedWitness(env: Env)
    ensures var ts := [LP, Token(Num, "5"), Token(Num, "7")];
            EvalSpec(env, ts) == AtomValue(env, Token(Num, "5")) && !exists e :: Grammatical(e) && Print(e) == ts
  {
    var five := Token(Num, "5");
    var ts := [LP, five, Token(Num, "7")];
    var inner := ts[1..2];
    assert inner == [five];
    assert Depth(inner, 0) == 0 && Depth(inner, 1) == 0;
    assert Balanced(inner);
    assert CheckSpec(ts);
    EvalStep(env, ts);
    EvalStep(env, inner);
    hide EvalSpec, AtomValue, CheckSpec;
    OneSidedUnbalanced(ts);
    forall e | Grammatical(e) ensures Print(e) != ts {
      PrintBalanced(e);
    }
  }
}
