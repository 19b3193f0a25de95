/**
 Expressions as text: which texts of a tree `make_token` turns into the printed tokens of that tree, and
 what `expr` then returns. Any number of blanks may stand before a token.
 */
module ExprText {
  import opened Common
  import opened ExprEval
  import opened ExprLiteral
  import opened ExprTree
  import opened ExprParse
  import opened ExprTokenizer

  // ---------------------------------------------------------------- spelling

  predicate AllLetters(s: string)
  {
    forall i :: 0 <= i < |s| ==> IsLetter(s[i])
  }

  /** The token can be written: numbers and names have the characters and lengths that the rules admit. */
  predicate Writable(t: Token)
  {
    match t.kind
    case Num => 1 <= |t.text| < 32 && AllDigits(t.text)
    case HexNum => HexText(t.text) && |t.text| < 10
    case Deref => HexText(t.text) && |t.text| < 10
    case Reg => 1 <= |t.text| < 32 && AllLetters(t.text)
    case _ => t.text == ""
  }

  function Symbol(k: Kind): (s: string)
    requires IsOp(k)
    ensures s != [] && !IsDigit(s[0]) && !IsLetter(s[0])
  {
    match k
    case Plus => "+"
    case Sub => "-"
    case Mux => "*"
    case Div => "/"
    case Lbrkt => "("
    case Rbrkt => ")"
    case Eq => "=="
    case Neq => "!="
    case And => "&&"
  }

  function Spell(t: Token): string
  {
    match t.kind
    case Num => t.text
    case HexNum => t.text
    case Deref => "*" + t.text
    case Reg => "$" + t.text
    case _ => Symbol(t.kind)
  }

  function Blanks(n: nat): string
  {
    if n == 0 then "" else " " + Blanks(n - 1)
  }

  /** The text of a token sequence, with so many blanks before each token. */
  function Written(ts: seq<Token>, gaps: seq<nat>): string
    requires |gaps| == |ts|
  {
    if ts == [] then "" else Blanks(gaps[0]) + (Spell(ts[0]) + Written(ts[1..], gaps[1..]))
  }

  // ---------------------------------------------------------------- one token

  /** The text ends here or goes on with a character that continues neither a number nor a name. */
  predicate Ends(rest: string)
  {
    rest == [] || (!IsDigit(rest[0]) && !IsLetter(rest[0]))
  }

  lemma {:induction false} LetterRun(ds: string, rest: string)
    requires AllLetters(ds) && (rest == [] || !IsLetter(rest[0]))
    ensures LetterPrefix(ds + rest) == |ds|
  {
    if ds == [] {
      assert ds + rest == rest;
    } else {
      assert (ds + rest)[1..] == ds[1..] + rest;
      LetterRun(ds[1..], rest);
    }
  }

  /** A blank is skipped, also when more blanks follow. */
  lemma LexBlank(s: string, ts: seq<Token>)
    ensures Lex(" " + s, ts) == Lex(s, ts)
  {
    var t := " " + s;
    assert t[1..] == s;
    assert MatchRule(t) == Some((Space, 1 + SpacePrefix(s)));
    assert t[1 + SpacePrefix(s)..] == s[SpacePrefix(s)..];
    if s != [] && s[0] == ' ' {
      assert MatchRule(s) == Some((Space, SpacePrefix(s)));
    } else {
      assert s[0..] == s;
    }
  }

  lemma {:induction false} LexBlanks(n: nat, rest: string, ts: seq<Token>)
    ensures Lex(Blanks(n) + rest, ts) == Lex(rest, ts)
  {
    hide Lex;
    if n == 0 {
      assert Blanks(n) + rest == rest;
    } else {
      assert Blanks(n) + rest == " " + (Blanks(n - 1) + rest);
      LexBlank(Blanks(n - 1) + rest, ts);
      LexBlanks(n - 1, rest, ts);
    }
  }

  /** One match of a rule. */
  lemma LexMatch(s: string, ts: seq<Token>, rule: Rule, n: nat)
    requires s != [] && MatchRule(s) == Some((rule, n)) && !Overruns(rule, s[..n])
    ensures Lex(s, ts) == match Record(ts, rule, s[..n]) case None => Abort case Some(r) => Lex(s[n..], r)
  {
    hide MatchRule;
  }

  /** A symbol other than '*'. */
  lemma LexFixed(k: Kind, rest: string, ts: seq<Token>)
    requires IsOp(k) && !k.Mux?
    ensures Lex(Symbol(k) + rest, ts) == Lex(rest, ts + [Token(k, "")])
  {
    hide Lex;
    var n := |Symbol(k)|;
    var s := Symbol(k) + rest;
    assert s[n..] == rest;
    assert MatchRule(s) == Some((Fixed(k), n));
    LexMatch(s, ts, Fixed(k), n);
  }

  /** A '*' is a multiplication after a number or a closing parenthesis, and a dereference everywhere else. */
  lemma LexStar(rest: string, ts: seq<Token>)
    ensures var last := LastKind(ts);
            var multiply := last == Some(Num) || last == Some(HexNum) || last == Some(Rbrkt);
            Lex("*" + rest, ts) == Lex(rest, ts + [Token(if multiply then Mux else Deref, "")])
  {
    hide Lex;
    var s := "*" + rest;
    assert s[1..] == rest;
    assert MatchRule(s) == Some((Fixed(Mux), 1));
    LexMatch(s, ts, Fixed(Mux), 1);
  }

  predicate StarMultiplies(last: Option<Kind>)
  {
    last == Some(Rbrkt) || last == Some(Num) || last == Some(HexNum)
  }

  lemma NumMatch(ds: string, rest: string)
    requires 1 <= |ds| && AllDigits(ds) && Ends(rest)
    ensures MatchRule(ds + rest) == Some((NumRule, |ds|))
  {
    hide DigitPrefix;
    var s := ds + rest;
    DigitRun(ds, rest);
    assert s[0] == ds[0] && s[0..] == s;
    assert |s| > 1 ==> s[1] != 'x' && s[1] != 'X' by { assert |ds| > 1 ==> s[1] == ds[1] && IsDigit(ds[1]); }
    assert NumberEnd(s, 0) == |ds|;
  }

  lemma LexNum(ds: string, rest: string, ts: seq<Token>)
    requires 1 <= |ds| < 32 && AllDigits(ds) && Ends(rest)
    ensures Lex(ds + rest, ts) == Lex(rest, ts + [Token(Num, ds)])
  {
    hide Lex, MatchRule;
    var s := ds + rest;
    NumMatch(ds, rest);
    assert s[..|ds|] == ds && s[|ds|..] == rest;
    assert ds[|ds| - 1] != 'U' by { assert IsDigit(ds[|ds| - 1]); }
    LexMatch(s, ts, NumRule, |ds|);
  }

  lemma HexMatch(h: string, rest: string)
    requires HexText(h) && Ends(rest)
    ensures MatchRule(h + rest) == Some((HexRule, |h|))
  {
    hide DigitPrefix;
    var s := h + rest;
    assert s[2..] == h[2..] + rest;
    DigitRun(h[2..], rest);
    assert s[2] == h[2..][0];
    assert NumberEnd(s, 2) == |h|;
  }

  /** A hexadecimal number, or the address of a dereference when a '*' that is one stands before it. */
  lemma LexHex(h: string, rest: string, ts: seq<Token>)
    requires HexText(h) && |h| < 10 && Ends(rest)
    requires LastKind(ts) == Some(Deref) ==> ts[|ts| - 1].text == ""
    ensures Lex(h + rest, ts) ==
            Lex(rest, if LastKind(ts) == Some(Deref) then ts[..|ts| - 1] + [Token(Deref, h)] else ts + [Token(HexNum, h)])
  {
    hide Lex, MatchRule;
    var s := h + rest;
    HexMatch(h, rest);
    assert s[..|h|] == h && s[|h|..] == rest;
    assert Overlay("", h) == h;
    LexMatch(s, ts, HexRule, |h|);
  }

  lemma LexReg(name: string, rest: string, ts: seq<Token>)
    requires 1 <= |name| < 32 && AllLetters(name) && Ends(rest)
    ensures Lex("$" + name + rest, ts) == Lex(rest, ts + [Token(Reg, name)])
  {
    hide Lex, LetterPrefix;
    var s := "$" + name + rest;
    assert s[1..] == name + rest;
    LetterRun(name, rest);
    var n := 1 + |name|;
    assert MatchRule(s) == Some((RegRule, n));
    assert s[..n] == "$" + name && s[n..] == rest && ("$" + name)[1..] == name;
    LexMatch(s, ts, RegRule, n);
  }

  // ---------------------------------------------------------------- token sequences

  /** An operand does not follow an operand or a closing parenthesis. */
  predicate Placed(last: Option<Kind>, k: Kind)
  {
    AtomKind(k) ==> last.None? || !(AtomKind(last.value) || last.value.Rbrkt?)
  }

  predicate AllPlaced(last: Option<Kind>, ts: seq<Token>)
    decreases |ts|
  {
    ts == [] || (Placed(last, ts[0].kind) && AllPlaced(Some(ts[0].kind), ts[1..]))
  }

  predicate AllWritable(ts: seq<Token>)
  {
    forall t <- ts :: Writable(t)
  }

  /** Every multiplication follows a number or a closing parenthesis, not a register or a dereference. */
  predicate StarsMultiply(last: Option<Kind>, ts: seq<Token>)
    decreases |ts|
  {
    ts == [] || ((ts[0].kind.Mux? ==> StarMultiplies(last)) && StarsMultiply(Some(ts[0].kind), ts[1..]))
  }

  /** If token i is a multiplication, it stands after a number or a closing parenthesis. */
  predicate StarAt(last: Option<Kind>, ts: seq<Token>, i: nat)
    requires i < |ts|
  {
    var k := if i == 0 then last else Some(ts[i - 1].kind);
    ts[i].kind.Mux? ==> k == Some(Num) || k == Some(HexNum) || k == Some(Rbrkt)
  }

  /** The condition token by token. */
  lemma {:induction false} StarsExactly(last: Option<Kind>, ts: seq<Token>)
    ensures StarsMultiply(last, ts) <==> forall i: nat :: i < |ts| ==> StarAt(last, ts, i)
    decreases |ts|
  {
    if ts != [] {
      var rest, k := ts[1..], Some(ts[0].kind);
      StarsExactly(k, rest);
      assert forall j: nat :: j < |rest| ==> (StarAt(k, rest, j) <==> StarAt(last, ts, j + 1));
      if forall i: nat :: i < |ts| ==> StarAt(last, ts, i) {
        assert StarAt(last, ts, 0);
      }
      if StarsMultiply(last, ts) {
        forall i: nat | i < |ts| ensures StarAt(last, ts, i) {
          if i > 0 { assert StarAt(k, rest, i - 1); }
        }
      }
    }
  }

  /** One token is read as it was written, wherever the token before it leaves it its meaning. */
  lemma LexToken(t: Token, rest: string, ts: seq<Token>)
    requires Writable(t) && (AtomKind(t.kind) ==> Ends(rest))
    requires t.kind.Mux? ==> StarMultiplies(LastKind(ts))
    requires t.kind.Deref? ==> !StarMultiplies(LastKind(ts))
    requires t.kind.HexNum? ==> LastKind(ts) != Some(Deref)
    ensures Lex(Spell(t) + rest, ts) == Lex(rest, ts + [t])
  {
    hide Lex;
    match t.kind
    case Num => LexNum(t.text, rest, ts);
    case HexNum => LexHex(t.text, rest, ts);
    case Reg => LexReg(t.text, rest, ts);
    case Deref =>
      assert Spell(t) + rest == "*" + (t.text + rest);
      LexStar(t.text + rest, ts);
      var more := ts + [Token(Deref, "")];
      LexHex(t.text, rest, more);
      assert more[..|more| - 1] == ts;
    case Mux => LexStar(rest, ts);
    case _ => LexFixed(t.kind, rest, ts);
  }

  /** After an operand a text goes on with a blank or a symbol. */
  lemma WrittenEnds(ts: seq<Token>, gaps: seq<nat>, last: Kind)
    requires |gaps| == |ts| && AllPlaced(Some(last), ts) && AtomKind(last)
    ensures Ends(Written(ts, gaps))
  {
  }

  /**
   The tokens that are read from the text of a sequence: a '*' that does not multiply becomes a dereference, and
   a hexadecimal number behind it becomes its address.
   */
  function AsRead(last: Option<Kind>, ts: seq<Token>): seq<Token>
    decreases |ts|
  {
    if ts == [] then []
    else if ts[0].kind.Mux? && !StarMultiplies(last) then
      if |ts| > 1 && ts[1].kind.HexNum? then [Token(Deref, ts[1].text)] + AsRead(Some(Deref), ts[2..])
      else [Token(Deref, "")] + AsRead(Some(Deref), ts[1..])
    else [ts[0]] + AsRead(Some(ts[0].kind), ts[1..])
  }

  /** What the token read last may be, given the token written last. */
  predicate Tracks(read: Option<Kind>, written: Option<Kind>, ts: seq<Token>)
  {
    || read == written
    || (read == Some(Deref) && written == Some(HexNum))
    || (read == Some(Deref) && written == Some(Mux) && (ts == [] || !ts[0].kind.HexNum?))
  }

  /** Every text is accepted, and read like this. */
  lemma {:induction false} LexAsRead(ts: seq<Token>, gaps: seq<nat>, before: seq<Token>, written: Option<Kind>)
    requires |gaps| == |ts| && AllWritable(ts) && AllPlaced(written, ts) && Tracks(LastKind(before), written, ts)
    ensures Lex(Written(ts, gaps), before) == Tokens(before + AsRead(LastKind(before), ts))
    decreases |ts|
  {
    hide Lex, Spell, Writable;
    if ts == [] {
      assert before + [] == before;
      LexNothing(before);
    } else {
      var t, rest := ts[0], Written(ts[1..], gaps[1..]);
      assert t in ts;
      LexBlanks(gaps[0], Spell(t) + rest, before);
      if t.kind.Mux? && !StarMultiplies(LastKind(before)) {
        SpellStar(t);
        LexStar(rest, before);
        LexMisread(ts, gaps, before);
      } else {
        if AtomKind(t.kind) { WrittenEnds(ts[1..], gaps[1..], t.kind); }
        LexToken(t, rest, before);
        LexAsRead(ts[1..], gaps[1..], before + [t], Some(t.kind));
        assert before + ([t] + AsRead(Some(t.kind), ts[1..])) == before + [t] + AsRead(Some(t.kind), ts[1..]);
      }
    }
  }

  /** What follows a '*' that was read as a dereference. */
  lemma {:induction false} LexMisread(ts: seq<Token>, gaps: seq<nat>, before: seq<Token>)
    requires ts != [] && |gaps| == |ts| && AllWritable(ts) && ts[0].kind.Mux? && AllPlaced(Some(Mux), ts[1..])
    requires !StarMultiplies(LastKind(before))
    ensures Lex(Written(ts[1..], gaps[1..]), before + [Token(Deref, "")]) == Tokens(before + AsRead(LastKind(before), ts))
    decreases |ts|, 0
  {
    hide Lex, Spell, Writable;
    var more := before + [Token(Deref, "")];
    if |ts| > 1 && ts[1].kind.HexNum? {
      var h, rest := ts[1], Written(ts[2..], gaps[2..]);
      assert h in ts;
      assert ts[1..][1..] == ts[2..] && gaps[1..][1..] == gaps[2..];
      LexBlanks(gaps[1], Spell(h) + rest, more);
      WrittenEnds(ts[2..], gaps[2..], HexNum);
      HexSpelling(h);
      LexHex(h.text, rest, more);
      var read := before + [Token(Deref, h.text)];
      assert more[..|more| - 1] + [Token(Deref, h.text)] == read;
      LexAsRead(ts[2..], gaps[2..], read, Some(HexNum));
      assert before + ([Token(Deref, h.text)] + AsRead(Some(Deref), ts[2..])) == read + AsRead(Some(Deref), ts[2..]);
    } else {
      LexAsRead(ts[1..], gaps[1..], more, Some(Mux));
      assert before + ([Token(Deref, "")] + AsRead(Some(Deref), ts[1..])) == more + AsRead(Some(Deref), ts[1..]);
    }
  }

  lemma HexSpelling(t: Token)
    requires Writable(t) && t.kind.HexNum?
    ensures Spell(t) == t.text && HexText(t.text) && |t.text| < 10
  {
  }

  lemma {:induction false} AsReadSame(last: Option<Kind>, ts: seq<Token>)
    ensures AsRead(last, ts) == ts <==> StarsMultiply(last, ts)
    decreases |ts|
  {
    if ts != [] {
      if ts[0].kind.Mux? && !StarMultiplies(last) {
        assert AsRead(last, ts)[0].kind.Deref?;
      } else {
        AsReadSame(Some(ts[0].kind), ts[1..]);
        assert AsRead(last, ts)[1..] == AsRead(Some(ts[0].kind), ts[1..]);
        assert ts == [ts[0]] + ts[1..];
      }
    }
  }

  /** A text is read back as the tokens it was written from if and only if its multiplications are read as such. */
  lemma LexWritten(ts: seq<Token>, gaps: seq<nat>, before: seq<Token>)
    requires |gaps| == |ts| && AllWritable(ts) && AllPlaced(LastKind(before), ts)
    ensures Lex(Written(ts, gaps), before) == Tokens(before + ts) <==> StarsMultiply(LastKind(before), ts)
  {
    hide Lex;
    var read := AsRead(LastKind(before), ts);
    LexAsRead(ts, gaps, before, LastKind(before));
    AsReadSame(LastKind(before), ts);
    if before + read == before + ts {
      assert read == (before + read)[|before|..] == (before + ts)[|before|..] == ts;
    }
  }

  lemma SpellStar(t: Token)
    requires t.kind.Mux?
    ensures Spell(t) == "*"
  {
  }

  lemma LexNothing(ts: seq<Token>)
    ensures Lex("", ts) == Tokens(ts)
  {
  }

  // ---------------------------------------------------------------- trees

  lemma {:induction false} PlacedConcat(last: Option<Kind>, a: seq<Token>, b: seq<Token>)
    requires a != [] && AllPlaced(last, a) && AllPlaced(Some(a[|a| - 1].kind), b)
    ensures AllPlaced(last, a + b)
    decreases |a|
  {
    assert (a + b)[1..] == a[1..] + b;
    if |a| > 1 {
      PlacedConcat(Some(a[0].kind), a[1..], b);
    } else {
      assert a[1..] + b == b;
    }
  }

  lemma {:induction false} PrintPlaced(e: Expr, last: Option<Kind>)
    requires WellSorted(e) && (last.None? || !(AtomKind(last.value) || last.value.Rbrkt?))
    ensures AllPlaced(last, Print(e))
  {
    match e
    case Atom(t) =>
    case Paren(x) =>
      PrintPlaced(x, Some(Lbrkt));
      PlacedConcat(last, [LP], Print(x));
      PlacedConcat(last, [LP] + Print(x), [RP]);
    case Bin(op, l, r) =>
      PrintPlaced(l, last);
      PrintPlaced(r, Some(op));
      var o := [Token(op, "")];
      PlacedConcat(last, Print(l), o);
      PlacedConcat(last, Print(l) + o, Print(r));
  }

  /** All atoms of the tree can be written. */
  predicate WritableTree(e: Expr)
  {
    match e
    case Atom(t) => Writable(t)
    case Paren(x) => WritableTree(x)
    case Bin(_, l, r) => WritableTree(l) && WritableTree(r)
  }

  lemma {:induction false} PrintWritable(e: Expr)
    requires WellSorted(e) && WritableTree(e)
    ensures AllWritable(Print(e))
  {
    match e
    case Atom(t) =>
    case Paren(x) => PrintWritable(x);
    case Bin(op, l, r) =>
      PrintWritable(l);
      PrintWritable(r);
  }

  /**
   For every tree with registers, hexadecimal numbers, dereferences and all operators, and every spacing: the text
   is read as the printed tokens of the tree if and only if no '*' follows a register or a dereference.
   */
  lemma TextIsRead(e: Expr, gaps: seq<nat>)
    requires WellSorted(e) && WritableTree(e) && |gaps| == |Print(e)|
    ensures Lex(Written(Print(e), gaps), []) == Tokens(Print(e)) <==> StarsMultiply(None, Print(e))
  {
    hide Lex;
    PrintWritable(e);
    PrintPlaced(e, None);
    LexWritten(Print(e), gaps, []);
    assert [] + Print(e) == Print(e);
  }

  // ---------------------------------------------------------------- misread texts

  function Turn(t: Token): int
  {
    if t.kind.Lbrkt? then 1 else if t.kind.Rbrkt? then -1 else 0
  }

  /** Balanced from the front, with d parentheses open. */
  predicate Nests(d: int, ts: seq<Token>)
    decreases |ts|
  {
    d >= 0 && if ts == [] then d == 0 else Nests(d + Turn(ts[0]), ts[1..])
  }

  /** The depth never falls below -d. */
  predicate Above(d: int, ts: seq<Token>)
  {
    forall k: nat {:trigger Depth(ts, k)} :: k <= |ts| ==> d + Depth(ts, k) >= 0
  }

  lemma TailDepth(ts: seq<Token>, k: nat)
    requires ts != [] && k < |ts|
    ensures Depth(ts, k + 1) == Turn(ts[0]) + Depth(ts[1..], k)
  {
    DepthSlice(ts, 1, |ts|, k);
    assert ts[1..|ts|] == ts[1..];
    assert Depth(ts, 1) == Turn(ts[0]);
  }

  lemma AboveTail(d: int, ts: seq<Token>)
    requires ts != []
    ensures Above(d, ts) <==> d >= 0 && Above(d + Turn(ts[0]), ts[1..])
  {
    var tail := ts[1..];
    assert Depth(ts, 0) == 0;
    if Above(d, ts) {
      forall k: nat | k <= |tail| ensures d + Turn(ts[0]) + Depth(tail, k) >= 0 {
        TailDepth(ts, k);
        assert d + Depth(ts, k + 1) >= 0;
      }
    }
    if d >= 0 && Above(d + Turn(ts[0]), tail) {
      forall k: nat | k <= |ts| ensures d + Depth(ts, k) >= 0 {
        if k > 0 {
          TailDepth(ts, k - 1);
          assert d + Turn(ts[0]) + Depth(tail, k - 1) >= 0;
        }
      }
    }
  }

  lemma {:induction false} NestsIsBalanced(d: int, ts: seq<Token>)
    ensures Nests(d, ts) <==> Above(d, ts) && d + Depth(ts, |ts|) == 0
    decreases |ts|
  {
    if ts == [] {
      assert Depth(ts, 0) == 0;
    } else {
      hide Above, Depth;
      AboveTail(d, ts);
      TailDepth(ts, |ts| - 1);
      NestsIsBalanced(d + Turn(ts[0]), ts[1..]);
    }
  }

  lemma NestsFromZero(ts: seq<Token>)
    ensures Nests(0, ts) <==> Balanced(ts)
  {
    NestsIsBalanced(0, ts);
    hide Depth, Nests;
    if Above(0, ts) {
      forall k | 0 <= k <= |ts| ensures Depth(ts, k) >= 0 {
        assert 0 + Depth(ts, k) >= 0;
      }
    }
  }

  lemma NestsCons(d: int, t: Token, ts: seq<Token>)
    ensures Nests(d, [t] + ts) <==> d >= 0 && Nests(d + Turn(t), ts)
  {
    assert ([t] + ts)[1..] == ts;
  }

  /** A star, however it is read, turns nothing. */
  lemma NestsStar(d: int, t: Token, u: Token, read: seq<Token>, ts: seq<Token>)
    requires t.kind.Deref? && (u.kind.Mux? || u.kind.HexNum?) && (Nests(d, read) <==> Nests(d, ts))
    ensures Nests(d, [t] + read) <==> Nests(d, [u] + ts)
  {
    hide Nests;
    NestsCons(d, t, read);
    NestsCons(d, u, ts);
    assert Turn(t) == Turn(u) == 0;
  }

  /** Misreading stars does not change the parentheses. */
  lemma {:induction false} AsReadNests(d: int, last: Option<Kind>, ts: seq<Token>)
    ensures Nests(d, AsRead(last, ts)) <==> Nests(d, ts)
    decreases |ts|
  {
    hide Nests, StarMultiplies;
    if ts != [] {
      assert ts == [ts[0]] + ts[1..];
      if ts[0].kind.Mux? && !StarMultiplies(last) {
        if |ts| > 1 && ts[1].kind.HexNum? {
          AsReadNests(d, Some(Deref), ts[2..]);
          assert ts[1..] == [ts[1]] + ts[2..];
          NestsStar(d, Token(Deref, ts[1].text), ts[1], AsRead(Some(Deref), ts[2..]), ts[2..]);
          NestsZero(d, ts[0], ts[1..]);
        } else {
          AsReadNests(d, Some(Deref), ts[1..]);
          NestsStar(d, Token(Deref, ""), ts[0], AsRead(Some(Deref), ts[1..]), ts[1..]);
        }
      } else {
        AsReadNests(d + Turn(ts[0]), Some(ts[0].kind), ts[1..]);
        NestsCons(d, ts[0], ts[1..]);
        NestsCons(d, ts[0], AsRead(Some(ts[0].kind), ts[1..]));
      }
    }
  }

  lemma NestsZero(d: int, t: Token, ts: seq<Token>)
    requires t.kind.Mux?
    ensures Nests(d, [t] + ts) <==> Nests(d, ts)
  {
    NestsCons(d, t, ts);
  }

  /** Nor does it change the form of the tokens. */
  lemma {:induction false} AsReadClean(last: Option<Kind>, ts: seq<Token>)
    requires Clean(ts)
    ensures Clean(AsRead(last, ts))
    decreases |ts|
  {
    hide StarMultiplies;
    if ts != [] {
      AsReadClean(Some(ts[0].kind), ts[1..]);
      AsReadClean(Some(Deref), ts[1..]);
      if |ts| > 1 { AsReadClean(Some(Deref), ts[2..]); }
    }
  }

  /** Every multiplication stands behind an operand or a closing parenthesis. */
  predicate StarsFollow(last: Option<Kind>, ts: seq<Token>)
    decreases |ts|
  {
    ts == [] ||
    ((ts[0].kind.Mux? ==> last.Some? && (AtomKind(last.value) || last.value.Rbrkt?)) && StarsFollow(Some(ts[0].kind), ts[1..]))
  }

  lemma {:induction false} FollowConcat(last: Option<Kind>, a: seq<Token>, b: seq<Token>)
    requires a != [] && StarsFollow(last, a) && StarsFollow(Some(a[|a| - 1].kind), b)
    ensures StarsFollow(last, a + b)
    decreases |a|
  {
    assert (a + b)[1..] == a[1..] + b;
    if |a| > 1 {
      FollowConcat(Some(a[0].kind), a[1..], b);
    } else {
      assert a[1..] + b == b;
    }
  }

  lemma FollowOne(last: Option<Kind>, t: Token)
    requires t.kind.Mux? ==> last.Some? && (AtomKind(last.value) || last.value.Rbrkt?)
    ensures StarsFollow(last, [t])
  {
    assert StarsFollow(Some(t.kind), [t][1..]);
  }

  /** An expression ends with an operand or a closing parenthesis. */
  lemma {:induction false} PrintLast(e: Expr)
    requires WellSorted(e)
    ensures var k := Print(e)[|Print(e)| - 1].kind; AtomKind(k) || k.Rbrkt?
  {
    if e.Bin? { PrintLast(e.r); }
  }

  lemma {:induction false} PrintFollows(e: Expr, last: Option<Kind>)
    requires WellSorted(e)
    ensures StarsFollow(last, Print(e))
  {
    PrintLast(e);
    if e.Bin? { PrintLast(e.l); }
    hide StarsFollow;
    match e
    case Atom(t) => FollowOne(last, t);
    case Paren(x) =>
      FollowOne(last, LP);
      FollowOne(Some(Print(x)[|Print(x)| - 1].kind), RP);
      PrintFollows(x, Some(Lbrkt));
      FollowConcat(last, [LP], Print(x));
      FollowConcat(last, [LP] + Print(x), [RP]);
    case Bin(op, l, r) =>
      PrintFollows(l, last);
      PrintFollows(r, Some(op));
      var o := [Token(op, "")];
      FollowOne(Some(Print(l)[|Print(l)| - 1].kind), o[0]);
      FollowConcat(last, Print(l), o);
      FollowConcat(last, Print(l) + o, Print(r));
  }

  /** A misread star stands directly behind an operand, as an operand. */
  lemma {:induction false} MisreadIsMisplaced(last: Option<Kind>, ts: seq<Token>)
    requires StarsFollow(last, ts) && !StarsMultiply(last, ts)
    ensures !AllPlaced(last, AsRead(last, ts))
    decreases |ts|
  {
    var read := AsRead(last, ts);
    if ts[0].kind.Mux? && !StarMultiplies(last) {
      assert read[0].kind.Deref? && AtomKind(last.value);
    } else {
      MisreadIsMisplaced(Some(ts[0].kind), ts[1..]);
      assert read[1..] == AsRead(Some(ts[0].kind), ts[1..]);
    }
  }

  lemma WritableClean(ts: seq<Token>)
    requires AllWritable(ts)
    ensures Clean(ts)
  {
  }

  /** A misread text is the printing of no tree, so `eval` never returns a value for it. */
  lemma MisreadHasNoValue(env: Env, e: Expr)
    requires Grammatical(e) && AllWritable(Print(e)) && !StarsMultiply(None, Print(e))
    ensures EvalSpec(env, AsRead(None, Print(e))) == None
  {
    hide EvalSpec, Print, AsRead, StarsMultiply, StarsFollow, AllPlaced, Nests, Balanced, Precedence, Writable;
    var ts, read := Print(e), AsRead(None, Print(e));
    GrammaticalSorted(e);
    PrintFollows(e, None);
    MisreadIsMisplaced(None, ts);
    PrintBalanced(e);
    NestsFromZero(ts);
    AsReadNests(0, None, ts);
    NestsFromZero(read);
    WritableClean(ts);
    AsReadClean(None, ts);
    if EvalSpec(env, read).Some? {
      ValueIsPlaced(env, read, EvalSpec(env, read).value);
    }
  }

  lemma ValueIsPlaced(env: Env, ts: seq<Token>, v: Word)
    requires Clean(ts) && Balanced(ts) && EvalSpec(env, ts) == Some(v)
    ensures AllPlaced(None, ts)
  {
    hide EvalSpec, Balanced, Precedence;
    EvalExact(env, ts, v);
    var d :| Grammatical(d) && Print(d) == ts;
    GrammaticalSorted(d);
    PrintPlaced(d, None);
  }

  /**
   `expr` on the text of any grammatical tree with plain operands, with any blanks: it returns v if and only if no '*'
   is misread, everything in the tree is defined and v is its C value; in all other cases it stops.
   */
  lemma TextMeansC(env: Env, e: Expr, gaps: seq<nat>)
    requires Grammatical(e) && WritableTree(e) && PlainTree(e) && |gaps| == |Print(e)|
    ensures WellSorted(e)
    ensures ExprSpec(env, Written(Print(e), gaps)) == Stops <==> !(StarsMultiply(None, Print(e)) && AllDefined(env, e))
    ensures forall v: Word :: ExprSpec(env, Written(Print(e), gaps)) == ExprTokenizer.Value(v)
                   <==> StarsMultiply(None, Print(e)) && AllDefined(env, e) && CValue(env, e) == Some(v)
  {
    EvalMeansC(env, e);
    GrammaticalSorted(e);
    hide Lex, EvalSpec, Print, Written, CValue, AllDefined, StarsMultiply, AsRead, AllPlaced, Writable, WellSorted, Grammatical, PlainTree;
    var ts := Print(e);
    PrintWritable(e);
    PrintPlaced(e, None);
    LexAsRead(ts, gaps, [], None);
    AsReadSame(None, ts);
    assert [] + AsRead(None, ts) == AsRead(None, ts);
    if !StarsMultiply(None, ts) {
      MisreadHasNoValue(env, e);
    }
  }

  /** Whatever is read, only operands have a text. */
  lemma {:induction false} LexClean(s: string, ts: seq<Token>)
    requires Clean(ts)
    ensures match Lex(s, ts) case Tokens(r) => Clean(r) case _ => true
    decreases |s|
  {
    if s != [] && MatchRule(s).Some? {
      var (rule, n) := MatchRule(s).value;
      hide MatchRule, Overruns;
      if !Overruns(rule, s[..n]) && Record(ts, rule, s[..n]).Some? {
        LexClean(s[n..], Record(ts, rule, s[..n]).value);
      }
    }
  }

  /**
   For every text whatsoever whose parentheses are balanced: `expr` returns v if and only if the tokens it reads
   are the printing of a tree with value v.
   */
  lemma TextExact(env: Env, s: string, ts: seq<Token>, v: Word)
    requires Lex(s, []) == Tokens(ts) && Balanced(ts)
    ensures ExprSpec(env, s) == ExprTokenizer.Value(v) <==> Means(env, ts, v)
  {
    LexClean(s, []);
    EvalExact(env, ts, v);
    hide Lex, EvalSpec, Means;
  }

  /** "$eax*2" is read as a register and a dereference, and stops the program. */
  lemma StarAfterRegister(env: Env)
    ensures ExprSpec(env, "$eax*2") == Stops
  {
    var eax, star, two := Token(Reg, "eax"), Token(Mux, ""), Token(Num, "2");
    var e, gaps: seq<nat> := Bin(Mux, Atom(eax), Atom(two)), [0, 0, 0];
    assert Print(e) == [eax, star, two];
    WrittenPlain(eax, star, two);
    assert Spell(eax) + Spell(star) + Spell(two) == "$eax*2";
    OneDigit(env, "2");
    assert Grammatical(e) && WritableTree(e) && PlainTree(e);
    hide Lex, EvalSpec, Written, Print, StarsMultiply, AllDefined, CValue, Spell;
    TextMeansC(env, e, gaps);
  }

  /** A watched division stops the program when its divisor becomes zero: the text "1/$eax". */
  lemma DivisionByRegister(env: Env)
    ensures ExprSpec(env, "1/$eax") == Stops <==> env.reg("eax") == None || env.reg("eax") == Some(0)
  {
    var one, over, eax := Token(Num, "1"), Token(Div, ""), Token(Reg, "eax");
    var e, gaps: seq<nat> := Bin(Div, Atom(one), Atom(eax)), [0, 0, 0];
    assert Print(e) == [one, over, eax];
    WrittenPlain(one, over, eax);
    assert Spell(one) + Spell(over) + Spell(eax) == "1/$eax";
    QuotientDefined(env, one, eax);
    hide Lex, EvalSpec, Written, Print, StarsMultiply, AllDefined, CValue, AtomValue, Spell;
    TextMeansC(env, e, gaps);
  }

  lemma QuotientDefined(env: Env, one: Token, eax: Token)
    requires one == Token(Num, "1") && eax == Token(Reg, "eax")
    ensures var e := Bin(Div, Atom(one), Atom(eax));
            && Grammatical(e) && WellSorted(e) && WritableTree(e) && PlainTree(e)
            && (AllDefined(env, e) <==> env.reg("eax") != None && env.reg("eax") != Some(0))
  {
    OneDigit(env, "1");
    hide UnsignedConstant, DigitsValue;
  }

  lemma WrittenPlain(a: Token, b: Token, c: Token)
    ensures Written([a, b, c], [0, 0, 0]) == Spell(a) + Spell(b) + Spell(c)
    ensures StarsMultiply(None, [a, b, c]) <==>
              !a.kind.Mux? && (b.kind.Mux? ==> StarMultiplies(Some(a.kind))) && (c.kind.Mux? ==> StarMultiplies(Some(b.kind)))
  {
    hide Spell;
    var gaps, gaps1, gaps2: seq<nat> := [0, 0, 0], [0, 0], [0];
    assert gaps[1..] == gaps1 && gaps1[1..] == gaps2 && gaps2[1..] == [];
    assert [a, b, c][1..] == [b, c] && [b, c][1..] == [c] && [c][1..] == [];
    assert Written([c], gaps2) == Spell(c);
    assert Written([b, c], gaps1) == Spell(b) + Spell(c);
    assert StarsMultiply(Some(b.kind), [c]) <==> (c.kind.Mux? ==> StarMultiplies(Some(b.kind)));
  }
}
