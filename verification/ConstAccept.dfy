/**
 Which token sequences the constant parser accepts.  An error is forgotten as soon as a later
 operand of the same chain is parsed, so some ill-formed sequences get through; the grammar
 below has exactly the sequences that do.
 */
module ConstAccept {
  import opened Wrappers
  import opened ConstExpr

  // ---------- the accepted language ----------

  /** An operand of a chain.  The last three are errors after which parsing goes on: a token
      that starts no expression, a parenthesis before such a token, and a parenthesised chain
      that ends with a token other than a closing parenthesis or an operator. */
  datatype Operand =
    | Literal(text: string)
    | Group(chain: Chain)
    | Negated(x: Operand)
    | Junk(t: Token)
    | JunkGroup(t: Token)
    | OpenGroup(chain: Chain, t: Token)

  /** Operands with binary operators between them, in any order of precedence. */
  datatype Chain = One(x: Operand) | More(front: Chain, op: BinOp, x: Operand)

  predicate IsJunk(t: Token) {
    !StartsExpr(t) && t != EOF
  }

  /** An operand without an error at its end. */
  predicate Good(x: Operand) {
    x.Literal? || x.Group? || (x.Negated? && Good(x.x))
  }

  predicate Allowed(x: Operand)
    decreases x
  {
    match x
    case Literal(_) => true
    case Group(c) => AllowedChain(c) && Good(c.x)
    case Negated(y) => Allowed(y)
    case Junk(t) => IsJunk(t)
    case JunkGroup(t) => IsJunk(t)
    case OpenGroup(c, t) => AllowedChain(c) && Good(c.x) && !t.Op? && !t.RParen? && t != EOF
  }

  /** The first operand has to start an expression; later ones need not. */
  predicate AllowedChain(c: Chain)
    decreases c
  {
    match c
    case One(x) => Allowed(x) && !x.Junk?
    case More(front, _, x) => AllowedChain(front) && Allowed(x)
  }

  function OperandTokens(x: Operand): (r: seq<Token>)
    ensures |r| > 0
    decreases x
  {
    match x
    case Literal(text) => [Atom(text)]
    case Group(c) => [LParen] + ChainTokens(c) + [RParen]
    case Negated(y) => [Op(Sub)] + OperandTokens(y)
    case Junk(t) => [t]
    case JunkGroup(t) => [LParen, t]
    case OpenGroup(c, t) => [LParen] + ChainTokens(c) + [t]
  }

  function ChainTokens(c: Chain): (r: seq<Token>)
    ensures |r| > 0
    decreases c
  {
    match c
    case One(x) => OperandTokens(x)
    case More(front, op, x) => ChainTokens(front) + [Op(op)] + OperandTokens(x)
  }

  /** A chain whose last operand is good. */
  predicate Accepted(c: Chain) {
    AllowedChain(c) && Good(c.x)
  }

  ghost predicate Sloppy(ts: seq<Token>) {
    exists c :: Accepted(c) && ChainTokens(c) == ts
  }

  /** No operand, at any depth, is an error. */
  predicate CleanOperand(x: Operand)
    decreases x
  {
    match x
    case Literal(_) => true
    case Group(c) => Clean(c)
    case Negated(y) => CleanOperand(y)
    case _ => false
  }

  predicate Clean(c: Chain)
    decreases c
  {
    match c
    case One(x) => CleanOperand(x)
    case More(front, _, x) => Clean(front) && CleanOperand(x)
  }

  // ---------- the parse without its trees ----------

  /** What a parse leaves, of its tree only whether it has no hole. */
  datatype State = State(full: bool, ok: bool, rest: seq<Token>)

  function StateOf(r: Parsed): State {
    State(Complete(r.expr), r.ok, r.rest)
  }

  /** An operand: a prefix parse, or one token that starts no expression. */
  function ParseOperand(ts: seq<Token>): (r: State)
    ensures |r.rest| <= |ts|
  {
    if StartsExpr(Cur(ts)) then StateOf(ParsePrefix(ts)) else State(false, false, ts)
  }

  /** Go on from a state with all operators that follow, whatever their precedence. */
  function Flat(s: State): (r: State)
    ensures |r.rest| <= |s.rest|
    decreases |s.rest|
  {
    if Peek(s.rest).Op? then
      var right := ParseOperand(s.rest[2..]);
      Flat(State(s.full && right.full, right.ok, right.rest))
    else s
  }

  lemma {:induction false} FlatFull(full: bool, s: State)
    ensures Flat(State(full && s.full, s.ok, s.rest))
         == State(full && Flat(s).full, Flat(s).ok, Flat(s).rest)
    decreases |s.rest|
  {
    hide ParseOperand;
    if Peek(s.rest).Op? {
      var right := ParseOperand(s.rest[2..]);
      var next := State(s.full && right.full, right.ok, right.rest);
      FlatFull(full, next);
      assert State(full && next.full, next.ok, next.rest) == State((full && s.full) && right.full, right.ok, right.rest);
    }
  }

  /** Climbing by precedence is going through the chain: both end in the same state. */
  lemma {:induction false} FlatClimb(l: Parsed, prec: nat)
    ensures Flat(StateOf(Climb(l, prec))) == Flat(StateOf(l))
    decreases |l.rest|, 0
  {
    hide ParseExpr, Complete, Flat, ParseOperand;
    if prec < TokenPrec(Peek(l.rest)) {
      var op := Peek(l.rest).op;
      var right := ParseExpr(l.rest[2..], Prec(op));
      var next := Parsed(Bin(op, l.expr, right.expr), right.ok, right.rest);
      FlatExpr(l.rest[2..], Prec(op));
      FlatClimb(next, prec);
      FlatStep(l, op, right, ParseOperand(l.rest[2..]));
    }
  }

  lemma FlatStep(l: Parsed, op: BinOp, right: Parsed, operand: State)
    requires Peek(l.rest) == Op(op) && operand == ParseOperand(l.rest[2..])
    requires Flat(StateOf(right)) == Flat(operand)
    ensures Flat(StateOf(Parsed(Bin(op, l.expr, right.expr), right.ok, right.rest))) == Flat(StateOf(l))
  {
    hide ParseOperand;
    FlatFull(Complete(l.expr), StateOf(right));
    FlatFull(Complete(l.expr), operand);
  }

  lemma {:induction false} FlatExpr(ts: seq<Token>, prec: nat)
    ensures Flat(StateOf(ParseExpr(ts, prec))) == Flat(ParseOperand(ts))
    decreases |ts|, 1
  {
    hide Flat, Climb, ParsePrefix;
    if StartsExpr(Cur(ts)) {
      FlatClimb(ParsePrefix(ts), prec);
    }
  }

  /** At the lowest precedence climbing goes through the whole chain. */
  lemma {:induction false} ClimbAll(l: Parsed)
    ensures !Peek(Climb(l, LOWEST).rest).Op?
    decreases |l.rest|
  {
    hide ParseExpr;
    if LOWEST < TokenPrec(Peek(l.rest)) {
      var op := Peek(l.rest).op;
      var right := ParseExpr(l.rest[2..], Prec(op));
      ClimbAll(Parsed(Bin(op, l.expr, right.expr), right.ok, right.rest));
    }
  }

  lemma FlatParse(ts: seq<Token>)
    requires StartsExpr(Cur(ts))
    ensures StateOf(ParseExpr(ts, LOWEST)) == Flat(ParseOperand(ts))
  {
    hide Climb, ParsePrefix, Complete;
    FlatExpr(ts, LOWEST);
    ClimbAll(ParsePrefix(ts));
  }

  // ---------- every chain of the grammar is parsed as one ----------

  /** The stream at the last token of what was parsed. */
  function At(tokens: seq<Token>, s: seq<Token>): seq<Token>
    requires |tokens| > 0
  {
    [tokens[|tokens| - 1]] + s
  }

  /** The tokens of an operand are parsed as that operand, with an error unless it is good. */
  lemma {:induction false} OperandParses(x: Operand, s: seq<Token>)
    requires Allowed(x)
    ensures ParseOperand(OperandTokens(x) + s) == State(CleanOperand(x), Good(x), At(OperandTokens(x), s))
    ensures !x.Junk? ==> StartsExpr(Cur(OperandTokens(x) + s))
    decreases x, 1
  {
    var ts := OperandTokens(x) + s;
    match x
    case Literal(_) => assert ts == [ts[0]] + s;
    case Junk(_) => assert ts == [ts[0]] + s;
    case Negated(y) => NegatedParses(y, s);
    case Group(c) => GroupParses(c, RParen, s);
    case OpenGroup(c, t) => GroupParses(c, t, s);
    case JunkGroup(t) => JunkGroupParses(t, s);
  }

  lemma JunkGroupParses(t: Token, s: seq<Token>)
    requires IsJunk(t)
    ensures ParseOperand([LParen, t] + s) == State(false, false, [t] + s)
  {
    var ts := [LParen, t] + s;
    assert ts[1..] == [t] + s;
    assert ParseExpr(ts[1..], LOWEST) == Parsed(Missing, false, ts[1..]);
    assert ParsePrefix(ts) == Parsed(Missing, false, ts[1..]);
  }

  lemma {:induction false} NegatedParses(y: Operand, s: seq<Token>)
    requires Allowed(y)
    ensures var x := Negated(y);
            ParseOperand(OperandTokens(x) + s) == State(CleanOperand(x), Good(x), At(OperandTokens(x), s))
    decreases y, 2
  {
    hide Climb;
    var tokens := OperandTokens(y);
    var ts := [Op(Sub)] + tokens + s;
    assert ts[1..] == tokens + s;
    OperandParses(y, s);
    PrefixStops(tokens + s);
    assert ([Op(Sub)] + tokens)[|tokens|] == tokens[|tokens| - 1];
  }

  /** Nothing binds tighter than a prefix. */
  lemma PrefixStops(ts: seq<Token>)
    ensures StateOf(ParseExpr(ts, PREFIX)) == ParseOperand(ts)
  {
    if StartsExpr(Cur(ts)) {
      ClimbStops(ParsePrefix(ts), PREFIX);
    }
  }

  lemma {:induction false} GroupParses(c: Chain, t: Token, s: seq<Token>)
    requires Accepted(c) && !t.Op? && t != EOF
    ensures var tokens := [LParen] + ChainTokens(c) + [t];
            ParseOperand(tokens + s) == State(t.RParen? && Clean(c), t.RParen?, [t] + s)
    decreases c, 3
  {
    hide ParseExpr, Flat, ParseOperand;
    var inner := ChainTokens(c) + ([t] + s);
    var ts := [LParen] + ChainTokens(c) + [t] + s;
    assert ts[1..] == inner;
    ChainParses(c, [t] + s);
    FlatParse(inner);
    var at := At(ChainTokens(c), [t] + s);
    FlatStops(State(Clean(c), true, at));
    assert at[1..] == [t] + s;
    GroupPrefix(ts, ParseExpr(inner, LOWEST), t, s);
  }

  lemma FlatStops(s: State)
    requires !Peek(s.rest).Op?
    ensures Flat(s) == s
  {
  }

  lemma GroupPrefix(ts: seq<Token>, inner: Parsed, t: Token, s: seq<Token>)
    requires Cur(ts) == LParen && inner == ParseExpr(ts[1..], LOWEST)
    requires inner.ok && |inner.rest| > 0 && inner.rest[1..] == [t] + s
    ensures ParseOperand(ts) == State(t.RParen? && Complete(inner.expr), t.RParen?, [t] + s)
  {
    hide ParseExpr;
  }

  lemma {:induction false} ChainParses(c: Chain, s: seq<Token>)
    requires AllowedChain(c)
    ensures StartsExpr(Cur(ChainTokens(c) + s))
    ensures Flat(ParseOperand(ChainTokens(c) + s)) == Flat(State(Clean(c), Good(c.x), At(ChainTokens(c), s)))
    decreases c, 2
  {
    match c
    case One(x) => OperandParses(x, s);
    case More(front, op, x) => MoreParses(front, op, x, s);
  }

  lemma {:induction false} MoreParses(front: Chain, op: BinOp, x: Operand, s: seq<Token>)
    requires AllowedChain(front) && Allowed(x)
    ensures var c := More(front, op, x);
            && StartsExpr(Cur(ChainTokens(c) + s))
            && Flat(ParseOperand(ChainTokens(c) + s)) == Flat(State(Clean(c), Good(x), At(ChainTokens(c), s)))
    decreases More(front, op, x), 0
  {
    hide ParseOperand, Good, ChainTokens, OperandTokens, Flat, StartsExpr, AllowedChain, Allowed;
    var c := More(front, op, x);
    var f, y := ChainTokens(front), OperandTokens(x);
    var s1 := [Op(op)] + y + s;
    ChainParses(front, s1);
    OperandParses(x, s);
    BinTokens(f, Op(op), y, s);
    MoreTokens(front, op, x);
    FlatOperator(State(Clean(front), Good(front.x), At(f, s1)), State(CleanOperand(x), Good(x), At(y, s)));
  }

  lemma MoreTokens(front: Chain, op: BinOp, x: Operand)
    ensures ChainTokens(More(front, op, x)) == ChainTokens(front) + [Op(op)] + OperandTokens(x)
  {
  }

  lemma FlatOperator(s: State, right: State)
    requires Peek(s.rest).Op? && right == ParseOperand(s.rest[2..])
    ensures Flat(s) == Flat(State(s.full && right.full, right.ok, right.rest))
  {
    hide ParseOperand;
  }

  /** Every sequence of the grammar is accepted, and the tree has no hole exactly when no
      operand is an error. */
  lemma AcceptsChain(c: Chain)
    requires Accepted(c)
    ensures ParseConst(ChainTokens(c)).Some?
    ensures Complete(ParseConst(ChainTokens(c)).value) <==> Clean(c)
  {
    hide ParseExpr, Flat, ParseOperand, Complete;
    var ts := ChainTokens(c);
    assert ts + [] == ts;
    ChainParses(c, []);
    FlatParse(ts);
    FlatStops(State(Clean(c), true, At(ts, [])));
  }

  // ---------- every accepted sequence is a chain of the grammar ----------

  /** The state is that after an operand, or an error that no operator follows. */
  ghost predicate OperandState(ts: seq<Token>, s: State) {
    || (!s.ok && !Peek(s.rest).Op?)
    || (|s.rest| > 0 && exists x :: IsOperand(ts, s, x))
  }

  ghost predicate IsOperand(ts: seq<Token>, s: State, x: Operand)
    requires |s.rest| > 0
  {
    Allowed(x) && Good(x) == s.ok && ts == OperandTokens(x) + s.rest[1..] && (x.Junk? <==> !StartsExpr(Cur(ts)))
  }

  ghost predicate ChainState(ts: seq<Token>, s: State) {
    || (!s.ok && !Peek(s.rest).Op?)
    || (|s.rest| > 0 && exists c :: IsChain(ts, s, c))
  }

  ghost predicate IsChain(ts: seq<Token>, s: State, c: Chain)
    requires |s.rest| > 0
  {
    AllowedChain(c) && Good(c.x) == s.ok && ts == ChainTokens(c) + s.rest[1..]
  }

  lemma {:induction false} OperandFound(ts: seq<Token>)
    requires EOF !in ts
    ensures OperandState(ts, ParseOperand(ts))
    decreases |ts|, 0
  {
    hide ParsePrefix;
    if ts != [] {
      if ts[0].Atom? {
        LiteralFound(ts);
      } else if ts[0].LParen? {
        if StartsExpr(Cur(ts[1..])) {
          ChainFound(ts[1..]);
        }
        GroupFound(ts);
      } else if ts[0] == Op(Sub) {
        OperandFound(ts[1..]);
        NegatedFound(ts);
      } else {
        JunkFound(ts);
      }
    }
  }

  lemma LiteralFound(ts: seq<Token>)
    requires ts != [] && ts[0].Atom?
    ensures OperandState(ts, ParseOperand(ts))
  {
    assert ts == [ts[0]] + ts[1..];
    assert IsOperand(ts, ParseOperand(ts), Literal(ts[0].text));
  }

  lemma JunkFound(ts: seq<Token>)
    requires ts != [] && IsJunk(ts[0])
    ensures OperandState(ts, ParseOperand(ts))
  {
    assert ts == [ts[0]] + ts[1..];
    assert IsOperand(ts, ParseOperand(ts), Junk(ts[0]));
  }

  lemma NegatedFound(ts: seq<Token>)
    requires ts != [] && ts[0] == Op(Sub) && OperandState(ts[1..], ParseOperand(ts[1..]))
    ensures OperandState(ts, ParseOperand(ts))
  {
    hide ParseExpr;
    PrefixStops(ts[1..]);
    var inner := ParseOperand(ts[1..]);
    assert ParseOperand(ts) == inner;
    if !(!inner.ok && !Peek(inner.rest).Op?) {
      var x :| IsOperand(ts[1..], inner, x);
      assert ts == [Op(Sub)] + ts[1..];
      assert ts == OperandTokens(Negated(x)) + inner.rest[1..];
      assert IsOperand(ts, inner, Negated(x));
    }
  }

  /** The outcome of a parenthesis, by what follows it. */
  lemma GroupFound(ts: seq<Token>)
    requires ts != [] && ts[0].LParen? && EOF !in ts
    requires StartsExpr(Cur(ts[1..])) ==> ChainState(ts[1..], StateOf(ParseExpr(ts[1..], LOWEST)))
    requires StartsExpr(Cur(ts[1..])) ==> !Peek(ParseExpr(ts[1..], LOWEST).rest).Op?
    ensures OperandState(ts, ParseOperand(ts))
  {
    hide ParseExpr, Good, Allowed, AllowedChain, ChainTokens;
    var inner := ParseExpr(ts[1..], LOWEST);
    if !StartsExpr(Cur(ts[1..])) {
      JunkGroupFound(ts);
    } else if inner.ok {
      var c :| IsChain(ts[1..], StateOf(inner), c);
      ClosedGroupFound(ts, inner, c);
    } else {
      assert ParseOperand(ts).rest == inner.rest && !ParseOperand(ts).ok;
    }
  }

  lemma JunkGroupFound(ts: seq<Token>)
    requires ts != [] && ts[0].LParen? && EOF !in ts && !StartsExpr(Cur(ts[1..]))
    ensures OperandState(ts, ParseOperand(ts))
  {
    var s := ParseOperand(ts);
    assert ParseExpr(ts[1..], LOWEST) == Parsed(Missing, false, ts[1..]);
    assert ParsePrefix(ts) == Parsed(Missing, false, ts[1..]);
    if |ts| > 1 {
      assert ts[1] in ts;
      assert ts == [LParen, ts[1]] + ts[2..];
      assert ts[1..][1..] == ts[2..];
      assert IsOperand(ts, s, JunkGroup(ts[1]));
    }
  }

  lemma ClosedGroupFound(ts: seq<Token>, inner: Parsed, c: Chain)
    requires ts != [] && ts[0].LParen? && EOF !in ts && inner == ParseExpr(ts[1..], LOWEST) && inner.ok
    requires |inner.rest| > 0 && IsChain(ts[1..], StateOf(inner), c) && !Peek(inner.rest).Op?
    ensures OperandState(ts, ParseOperand(ts))
  {
    hide ParseExpr, Complete;
    var s := ParseOperand(ts);
    assert s.rest == inner.rest[1..];
    if |inner.rest| > 1 {
      var t := inner.rest[1];
      var x := if t.RParen? then Group(c) else OpenGroup(c, t);
      assert inner.rest[1..] == [t] + s.rest[1..];
      assert ts == [LParen] + ts[1..];
      assert ts == OperandTokens(x) + s.rest[1..];
      TokenIn(ts, OperandTokens(x), s.rest[1..], t);
      assert IsOperand(ts, s, x);
    }
  }

  lemma TokenIn(ts: seq<Token>, a: seq<Token>, b: seq<Token>, t: Token)
    requires ts == a + b && |a| > 0 && a[|a| - 1] == t && EOF !in ts
    ensures t != EOF
  {
    assert ts[|a| - 1] == t;
  }

  lemma {:induction false} ChainFound(ts: seq<Token>)
    requires EOF !in ts && StartsExpr(Cur(ts))
    ensures ChainState(ts, StateOf(ParseExpr(ts, LOWEST))) && !Peek(ParseExpr(ts, LOWEST).rest).Op?
    decreases |ts|, 1
  {
    hide ParseExpr, ParsePrefix, Flat, Complete, ParseOperand;
    OperandFound(ts);
    FlatParse(ts);
    FirstOperand(ts, ParseOperand(ts));
    FlatFound(ts, ParseOperand(ts));
  }

  lemma FirstOperand(ts: seq<Token>, s: State)
    requires OperandState(ts, s) && StartsExpr(Cur(ts))
    ensures ChainState(ts, s)
  {
    if !(!s.ok && !Peek(s.rest).Op?) {
      var x :| IsOperand(ts, s, x);
      assert IsChain(ts, s, One(x));
    }
  }

  lemma {:induction false} FlatFound(ts: seq<Token>, s: State)
    requires EOF !in ts && ChainState(ts, s) && |s.rest| <= |ts|
    ensures ChainState(ts, Flat(s)) && !Peek(Flat(s).rest).Op?
    decreases |s.rest|, 0
  {
    hide ParseOperand, ChainTokens, OperandTokens, Allowed, AllowedChain, Good;
    if Peek(s.rest).Op? {
      var c :| IsChain(ts, s, c);
      var tail := s.rest[2..];
      TailClean(ts, ChainTokens(c), s.rest);
      OperandFound(tail);
      var right := ParseOperand(tail);
      var next := State(s.full && right.full, right.ok, right.rest);
      if !(!right.ok && !Peek(right.rest).Op?) {
        var x :| IsOperand(tail, right, x);
        LongerChain(ts, s, c, right, x, next);
      }
      FlatFound(ts, next);
    }
  }

  lemma TailClean(ts: seq<Token>, front: seq<Token>, rest: seq<Token>)
    requires EOF !in ts && |rest| >= 2 && |front| > 0 && ts == front + rest[1..]
    ensures EOF !in rest[2..] && |rest[2..]| < |ts|
  {
    forall i | 0 <= i < |rest| - 2 ensures rest[2..][i] != EOF {
      assert ts[|front| + 1 + i] == rest[2..][i];
    }
  }

  lemma LongerChain(ts: seq<Token>, s: State, c: Chain, right: State, x: Operand, next: State)
    requires |s.rest| >= 2 && IsChain(ts, s, c) && s.rest[1].Op?
    requires |right.rest| > 0 && IsOperand(s.rest[2..], right, x) && next.ok == right.ok && next.rest == right.rest
    ensures IsChain(ts, next, More(c, s.rest[1].op, x))
  {
    hide ChainTokens, OperandTokens, Allowed, Good;
    var op := s.rest[1].op;
    MoreTokens(c, op, x);
    assert s.rest[1..] == [Op(op)] + s.rest[2..];
    assert ts == ChainTokens(c) + ([Op(op)] + (OperandTokens(x) + right.rest[1..]));
    MoreAllowed(c, op, x);
  }

  lemma MoreAllowed(c: Chain, op: BinOp, x: Operand)
    ensures AllowedChain(More(c, op, x)) <==> AllowedChain(c) && Allowed(x)
  {
  }

  // ---------- the exact language ----------

  /** The parser accepts exactly the sequences of the grammar. */
  lemma AcceptsIffSloppy(ts: seq<Token>)
    requires EOF !in ts
    ensures ParseConst(ts).Some? <==> Sloppy(ts)
  {
    hide ParseExpr, Accepted, Complete;
    if Sloppy(ts) {
      var c :| Accepted(c) && ChainTokens(c) == ts;
      AcceptsChain(c);
    }
    if ParseConst(ts).Some? {
      StartsAccepted(ts);
      ChainFound(ts);
      SloppyFound(ts, StateOf(ParseExpr(ts, LOWEST)));
    }
  }

  lemma StartsAccepted(ts: seq<Token>)
    requires ParseConst(ts).Some?
    ensures StartsExpr(Cur(ts))
  {
    hide Climb, ParsePrefix;
  }

  lemma SloppyFound(ts: seq<Token>, s: State)
    requires ChainState(ts, s) && s.ok && Cur(Drop1(s.rest)) == EOF && EOF !in ts
    ensures Sloppy(ts)
  {
    hide ChainTokens, AllowedChain;
    var c :| IsChain(ts, s, c);
    var end := s.rest[1..];
    assert ts == ChainTokens(c);
    assert Accepted(c);
  }

  /** An ill-formed sequence is accepted exactly when it is a chain with an error in it. */
  lemma AcceptsIllFormedIff(ts: seq<Token>)
    requires EOF !in ts
    ensures (ParseConst(ts).Some? && !WellFormed(ts)) <==>
              exists c :: Accepted(c) && !Clean(c) && ChainTokens(c) == ts
  {
    hide ParseConst, Accepted, Clean, Complete;
    AcceptsIffSloppy(ts);
    AcceptsExactly(ts);
    forall c | Accepted(c) && ChainTokens(c) == ts ensures WellFormed(ts) <==> Clean(c) {
      AcceptsChain(c);
    }
  }

  /** Errors of all three kinds are accepted before another operand. */
  lemma ErrorsAccepted()
    ensures var one, two := Atom("1"), Atom("2");
            && Sloppy([LParen, RParen, Op(Add), one])
            && Sloppy([one, Op(Add), RParen, Op(Add), two])
            && Sloppy([LParen, one, two, Op(Add), two])
  {
    var one, two := Atom("1"), Atom("2");
    var x, y := Literal("1"), Literal("2");
    var a := More(One(JunkGroup(RParen)), Add, x);
    assert Accepted(a) && ChainTokens(a) == [LParen, RParen, Op(Add), one];
    var b := More(More(One(x), Add, Junk(RParen)), Add, y);
    assert Accepted(b) && ChainTokens(b) == [one, Op(Add), RParen, Op(Add), two];
    var c := More(One(OpenGroup(One(x), two)), Add, y);
    assert Accepted(c) && ChainTokens(c) == [LParen, one, two, Op(Add), two];
  }

  /** An error at the start, or one that no operator follows, is not. */
  lemma ErrorsRejected()
    ensures var one, two := Atom("1"), Atom("2");
            && !Sloppy([RParen, Op(Add), one])
            && !Sloppy([LParen, one, two, RParen, Op(Add), two])
  {
    var one, two := Atom("1"), Atom("2");
    AcceptsIffSloppy([RParen, Op(Add), one]);
    var ts := [LParen, one, two, RParen, Op(Add), two];
    var inner := ts[1..];
    assert inner == [one, two, RParen, Op(Add), two];
    ClimbStops(Parsed(Leaf("1"), true, inner), LOWEST);
    assert ParseExpr(inner, LOWEST) == Parsed(Leaf("1"), true, inner);
    assert ParsePrefix(ts) == Parsed(Missing, false, inner[1..]);
    ClimbStops(ParsePrefix(ts), LOWEST);
    AcceptsIffSloppy(ts);
  }
}
