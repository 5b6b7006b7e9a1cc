/**
 C constant expressions: tokens, trees, and the precedence-climbing parse as a function of
 the token stream.  A parse leaves the stream at the last token of what it parsed, since
 the parser decides by the token after the current one.
 */
module ConstExpr {
  import opened Wrappers

  datatype BinOp = Or | Xor | And | Shl | Shr | Add | Sub | Mul | Quo | Rem

  /** Atoms stand for literals and identifiers; Other for any token with no role in an expression. */
  datatype Token = Atom(text: string) | Op(op: BinOp) | LParen | RParen | Other | EOF

  /** Missing is the nil expression the parser leaves behind after an error. */
  datatype Expr =
    | Leaf(text: string)
    | Paren(x: Expr)
    | Neg(x: Expr)
    | Bin(op: BinOp, left: Expr, right: Expr)
    | Missing

  const LOWEST: nat := 1
  const PREFIX: nat := 8

  function Prec(op: BinOp): (p: nat)
    ensures LOWEST < p < PREFIX
  {
    match op
    case Or => 2
    case Xor => 3
    case And => 4
    case Shl => 5
    case Shr => 5
    case Add => 6
    case Sub => 6
    case Mul => 7
    case Quo => 7
    case Rem => 7
  }

  /** The precedence of a token as a binary operator, 0 when it is none. */
  function TokenPrec(t: Token): nat {
    if t.Op? then Prec(t.op) else 0
  }

  /** Advance by one token; at the end of the stream nothing changes. */
  function Drop1(ts: seq<Token>): seq<Token> {
    if ts == [] then [] else ts[1..]
  }

  function Cur(ts: seq<Token>): Token { if ts == [] then EOF else ts[0] }

  function Peek(ts: seq<Token>): Token { if |ts| < 2 then EOF else ts[1] }

  // ---------- the parser as a function ----------

  /** The tokens with a prefix parse function. */
  predicate StartsExpr(t: Token) {
    t.Atom? || t.LParen? || t == Op(Sub)
  }

  datatype Parsed = Parsed(expr: Expr, ok: bool, rest: seq<Token>)

  /** Parse an expression whose operators bind tighter than prec. */
  function ParseExpr(ts: seq<Token>, prec: nat): (r: Parsed)
    ensures |r.rest| <= |ts|
    decreases |ts|, 2
  {
    if StartsExpr(Cur(ts)) then Climb(ParsePrefix(ts), prec) else Parsed(Missing, false, ts)
  }

  function ParsePrefix(ts: seq<Token>): (r: Parsed)
    requires StartsExpr(Cur(ts))
    ensures |r.rest| <= |ts|
    decreases |ts|, 1
  {
    if Cur(ts).Atom? then Parsed(Leaf(Cur(ts).text), true, ts)
    else if Cur(ts).LParen? then
      var inner := ParseExpr(ts[1..], LOWEST);
      if !inner.ok then Parsed(Missing, false, inner.rest)
      else if Cur(Drop1(inner.rest)) != RParen then Parsed(Missing, false, Drop1(inner.rest))
      else Parsed(Paren(inner.expr), true, Drop1(inner.rest))
    else
      var inner := ParseExpr(ts[1..], PREFIX);
      Parsed(Neg(inner.expr), inner.ok, inner.rest)
  }

  /** Extend the left operand while the next operator binds tighter than prec; the outcome
      of the last right operand decides about the error. */
  function Climb(l: Parsed, prec: nat): (r: Parsed)
    ensures |r.rest| <= |l.rest|
    decreases |l.rest|, 0
  {
    if prec < TokenPrec(Peek(l.rest)) then
      var op := Peek(l.rest).op;
      var right := ParseExpr(l.rest[2..], Prec(op));
      Climb(Parsed(Bin(op, l.expr, right.expr), right.ok, right.rest), prec)
    else l
  }

  /** The whole constant: an expression and then the end of the stream. */
  function ParseConst(ts: seq<Token>): Option<Expr> {
    var r := ParseExpr(ts, LOWEST);
    if Cur(Drop1(r.rest)) != EOF || !r.ok then None else Some(r.expr)
  }

  // ---------- the grammar ----------

  predicate Complete(e: Expr) {
    match e
    case Leaf(_) => true
    case Paren(x) => Complete(x)
    case Neg(x) => Complete(x)
    case Bin(_, x, y) => Complete(x) && Complete(y)
    case Missing => false
  }

  /** The tokens of a tree, in order. */
  function Print(e: Expr): seq<Token> {
    match e
    case Leaf(text) => [Atom(text)]
    case Paren(x) => [LParen] + Print(x) + [RParen]
    case Neg(x) => [Op(Sub)] + Print(x)
    case Bin(op, x, y) => Print(x) + [Op(op)] + Print(y)
    case Missing => []
  }

  /** Derivable by the ambiguous grammar: atom, parentheses, unary minus, binary operators. */
  ghost predicate WellFormed(ts: seq<Token>) {
    exists e :: Complete(e) && Print(e) == ts
  }

  /** How tightly a tree binds at its root. */
  function Level(e: Expr): (l: nat)
    ensures LOWEST < l <= PREFIX
  {
    if e.Bin? then Prec(e.op) else PREFIX
  }

  /** The tree C prescribes: operators bind by precedence, equal ones to the left, unary
      minus tightest. */
  predicate Canonical(e: Expr) {
    match e
    case Leaf(_) => true
    case Paren(x) => Canonical(x)
    case Neg(x) => Canonical(x) && Level(x) == PREFIX
    case Bin(op, x, y) => Canonical(x) && Canonical(y) && Level(x) >= Prec(op) && Level(y) > Prec(op)
    case Missing => false
  }

  lemma {:induction false} PrintNonempty(e: Expr)
    requires Complete(e)
    ensures |Print(e)| > 0
  {
    match e
    case Bin(_, x, _) => PrintNonempty(x);
    case _ =>
  }

  lemma {:induction false} CanonicalComplete(e: Expr)
    requires Canonical(e)
    ensures Complete(e)
  {
    match e
    case Leaf(_) =>
    case Paren(x) => CanonicalComplete(x);
    case Neg(x) => CanonicalComplete(x);
    case Bin(_, x, y) => CanonicalComplete(x); CanonicalComplete(y);
  }

  // ---------- parsing what was printed ----------

  /** No operator at the front of the stream binds tighter than prec. */
  predicate Stops(ts: seq<Token>, prec: nat) {
    ts == [] || TokenPrec(ts[0]) <= prec
  }

  /** The stream once a tree was parsed: at its last token. */
  function After(e: Expr, s: seq<Token>): seq<Token>
    requires |Print(e)| > 0
  {
    [Print(e)[|Print(e)| - 1]] + s
  }

  /** Parsing the tokens of a canonical tree builds that tree and goes on climbing. */
  lemma {:induction false} ParsePrinted(e: Expr, s: seq<Token>, prec: nat)
    requires Canonical(e) && prec < Level(e) && Stops(s, Level(e))
    ensures |Print(e)| > 0
    ensures ParseExpr(Print(e) + s, prec) == Climb(Parsed(e, true, After(e, s)), prec)
    decreases e, 2
  {
    match e
    case Leaf(_) =>
      assert (Print(e) + s)[1..] == s;
    case Paren(x) => ParsePrintedParen(x, s);
    case Neg(x) => ParsePrintedNeg(x, s);
    case Bin(op, x, y) => ParsePrintedBin(op, x, y, s, prec);
  }

  lemma {:induction false} ParsePrintedParen(x: Expr, s: seq<Token>)
    requires Canonical(x)
    ensures var e := Paren(x);
            var ts := Print(e) + s;
            Cur(ts) == LParen && ParsePrefix(ts) == Parsed(e, true, After(e, s))
    decreases x, 3
  {
    var ts := Print(Paren(x)) + s;
    assert ts[1..] == Print(x) + ([RParen] + s);
    ParsePrinted(x, [RParen] + s, LOWEST);
    assert After(x, [RParen] + s)[1..] == [RParen] + s;
    assert Print(Paren(x))[|Print(Paren(x))| - 1] == RParen;
  }

  lemma {:induction false} ParsePrintedNeg(x: Expr, s: seq<Token>)
    requires Canonical(x) && Level(x) == PREFIX
    ensures var e := Neg(x);
            var ts := Print(e) + s;
            Cur(ts) == Op(Sub) && ParsePrefix(ts) == Parsed(e, true, After(e, s))
    decreases x, 3
  {
    var ts := Print(Neg(x)) + s;
    assert ts[1..] == Print(x) + s;
    ParsePrintedTight(x, s);
    assert Print(Neg(x))[|Print(Neg(x))| - 1] == Print(x)[|Print(x)| - 1];
  }

  /** At the tightest level nothing is climbed. */
  lemma {:induction false} ParsePrintedTight(x: Expr, s: seq<Token>)
    requires Canonical(x) && Level(x) == PREFIX
    ensures |Print(x)| > 0
    ensures ParseExpr(Print(x) + s, PREFIX) == Parsed(x, true, After(x, s))
    decreases x, 1
  {
    match x
    case Leaf(_) =>
      assert (Print(x) + s)[1..] == s;
    case Paren(y) => ParsePrintedParen(y, s);
    case Neg(y) => ParsePrintedNeg(y, s);
  }

  lemma {:induction false} ParsePrintedBin(op: BinOp, x: Expr, y: Expr, s: seq<Token>, prec: nat)
    requires Canonical(Bin(op, x, y)) && prec < Prec(op) && Stops(s, Prec(op))
    ensures var e := Bin(op, x, y);
            |Print(e)| > 0 && ParseExpr(Print(e) + s, prec) == Climb(Parsed(e, true, After(e, s)), prec)
    decreases Bin(op, x, y), 0
  {
    hide ParseExpr, Climb, Print, After;
    var s1 := [Op(op)] + Print(y) + s;
    ParsePrinted(x, s1, prec);
    ParsePrinted(y, s, Prec(op));
    PrintedBin(op, x, y, s);
    ClimbStops(Parsed(y, true, After(y, s)), Prec(op));
    ClimbStep(Parsed(x, true, After(x, s1)), prec, op, Parsed(y, true, After(y, s)));
  }

  lemma PrintedBin(op: BinOp, x: Expr, y: Expr, s: seq<Token>)
    requires |Print(x)| > 0 && |Print(y)| > 0
    ensures var e := Bin(op, x, y);
            var s1 := [Op(op)] + Print(y) + s;
            && |Print(e)| > 0 && Print(e) + s == Print(x) + s1
            && |After(x, s1)| > 2 && After(x, s1)[2..] == Print(y) + s && Peek(After(x, s1)) == Op(op)
            && After(e, s) == After(y, s)
            && Peek(After(y, s)) == Cur(s)
  {
    hide Prec;
    var e := Bin(op, x, y);
    BinTokens(Print(x), Op(op), Print(y), s);
    assert Print(e) == Print(x) + [Op(op)] + Print(y);
  }

  /** Where the tokens around an operator lie. */
  lemma BinTokens(x: seq<Token>, t: Token, y: seq<Token>, s: seq<Token>)
    requires |x| > 0 && |y| > 0
    ensures var all := x + [t] + y;
            var at := [x[|x| - 1]] + ([t] + y + s);
            && all + s == x + ([t] + y + s)
            && |at| > 2 && at[2..] == y + s && at[1] == t
            && all[|all| - 1] == y[|y| - 1]
  {
    var at := [x[|x| - 1]] + ([t] + y + s);
    assert at == [x[|x| - 1], t] + (y + s);
  }

  lemma ClimbStops(l: Parsed, prec: nat)
    requires TokenPrec(Peek(l.rest)) <= prec
    ensures Climb(l, prec) == l
  {
  }

  lemma ClimbStep(l: Parsed, prec: nat, op: BinOp, right: Parsed)
    requires Peek(l.rest) == Op(op) && prec < Prec(op) && ParseExpr(l.rest[2..], Prec(op)) == right
    ensures Climb(l, prec) == Climb(Parsed(Bin(op, l.expr, right.expr), right.ok, right.rest), prec)
  {
    hide ParseExpr;
  }

  /** Printing a canonical tree and parsing it gives the tree back. */
  lemma ParsePrint(e: Expr)
    requires Canonical(e)
    ensures ParseConst(Print(e)) == Some(e)
  {
    hide ParseExpr, Climb;
    ParsePrinted(e, [], LOWEST);
    assert Print(e) + [] == Print(e);
    ClimbStops(Parsed(e, true, After(e, [])), LOWEST);
  }

  /** A token sequence has at most one canonical tree. */
  lemma CanonicalUnique(e: Expr, f: Expr)
    requires Canonical(e) && Canonical(f) && Print(e) == Print(f)
    ensures e == f
  {
    ParsePrint(e);
    ParsePrint(f);
  }

  // ---------- every well-formed sequence has a canonical tree ----------

  /** The canonical tree of the tokens of x, op and y, where y binds tighter than op. */
  function Attach(x: Expr, op: BinOp, y: Expr): (r: Expr)
    requires Canonical(x) && Canonical(y) && Level(y) > Prec(op)
    ensures Canonical(r) && Print(r) == Print(x) + [Op(op)] + Print(y)
    ensures Level(r) == if Level(x) < Prec(op) then Level(x) else Prec(op)
  {
    if Level(x) < Prec(op) then
      // op binds tighter than the root operator of x, so it belongs to its right operand.
      Bin(x.op, x.left, Attach(x.right, op, y))
    else Bin(op, x, y)
  }

  /** The canonical tree of the tokens of x, op and y. */
  function Join(x: Expr, op: BinOp, y: Expr): (r: Expr)
    requires Canonical(x) && Canonical(y)
    ensures Canonical(r) && Print(r) == Print(x) + [Op(op)] + Print(y)
    decreases y
  {
    if Level(y) <= Prec(op) then
      // The root operator of y binds no tighter than op, so op belongs to its left operand.
      Attach(Join(x, op, y.left), y.op, y.right)
    else Attach(x, op, y)
  }

  /** The canonical tree of a minus sign and the tokens of x. */
  function Negate(x: Expr): (r: Expr)
    requires Canonical(x)
    ensures Canonical(r) && Print(r) == [Op(Sub)] + Print(x) && Level(r) == Level(x)
  {
    if x.Bin? then Bin(x.op, Negate(x.left), x.right) else Neg(x)
  }

  /** Any tree, regrouped as C prescribes. */
  function Normalize(e: Expr): (r: Expr)
    requires Complete(e)
    ensures Canonical(r) && Print(r) == Print(e)
  {
    match e
    case Leaf(_) => e
    case Paren(x) => Paren(Normalize(x))
    case Neg(x) => Negate(Normalize(x))
    case Bin(op, x, y) => Join(Normalize(x), op, Normalize(y))
  }

  /** Every well-formed sequence is accepted, completely consumed, and parsed to the one
      canonical tree with these tokens. */
  lemma ParsesWellFormed(ts: seq<Token>)
    requires WellFormed(ts)
    ensures ParseConst(ts).Some?
    ensures var e := ParseConst(ts).value;
            && Canonical(e) && Print(e) == ts
            && forall f :: Canonical(f) && Print(f) == ts ==> f == e
  {
    hide ParseConst;
    var t :| Complete(t) && Print(t) == ts;
    var e := Normalize(t);
    ParsePrint(e);
    forall f | Canonical(f) && Print(f) == ts ensures f == e {
      CanonicalUnique(f, e);
    }
  }

  // ---------- what an accepted tree means ----------

  /** A parse that left no hole consumed exactly the tokens of its tree. */
  ghost predicate Faithful(ts: seq<Token>, r: Parsed) {
    Complete(r.expr) ==> r.ok && |Print(r.expr)| > 0 && |r.rest| > 0 && ts == Print(r.expr) + r.rest[1..]
  }

  lemma {:induction false} ExprFaithful(ts: seq<Token>, prec: nat)
    ensures Faithful(ts, ParseExpr(ts, prec))
    decreases |ts|, 2
  {
    if StartsExpr(Cur(ts)) {
      PrefixFaithful(ts);
      ClimbFaithful(ts, ParsePrefix(ts), prec);
    }
  }

  lemma {:induction false} PrefixFaithful(ts: seq<Token>)
    requires StartsExpr(Cur(ts))
    ensures Faithful(ts, ParsePrefix(ts))
    decreases |ts|, 1
  {
    hide ParseExpr, Climb;
    if Cur(ts).LParen? {
      ExprFaithful(ts[1..], LOWEST);
      ParenFaithful(ts);
    } else if !Cur(ts).Atom? {
      ExprFaithful(ts[1..], PREFIX);
      NegFaithful(ts);
    }
  }

  lemma ParenFaithful(ts: seq<Token>)
    requires Cur(ts).LParen? && Faithful(ts[1..], ParseExpr(ts[1..], LOWEST))
    ensures Faithful(ts, ParsePrefix(ts))
  {
    hide ParseExpr, Climb;
    var r, inner := ParsePrefix(ts), ParseExpr(ts[1..], LOWEST);
    if Complete(r.expr) {
      assert inner.rest[1..] == [RParen] + r.rest[1..];
      assert ts == [LParen] + ts[1..];
    }
  }

  lemma NegFaithful(ts: seq<Token>)
    requires Cur(ts) == Op(Sub) && Faithful(ts[1..], ParseExpr(ts[1..], PREFIX))
    ensures Faithful(ts, ParsePrefix(ts))
  {
    hide ParseExpr, Climb;
    if Complete(ParsePrefix(ts).expr) {
      assert ts == [Op(Sub)] + ts[1..];
    }
  }

  lemma {:induction false} ClimbFaithful(ts: seq<Token>, l: Parsed, prec: nat)
    requires |l.rest| <= |ts| && Faithful(ts, l)
    ensures Faithful(ts, Climb(l, prec))
    decreases |l.rest|, 0
  {
    hide ParseExpr, Climb, Prec, Faithful;
    if prec < TokenPrec(Peek(l.rest)) {
      var op := Peek(l.rest).op;
      var right := ParseExpr(l.rest[2..], Prec(op));
      ExprFaithful(l.rest[2..], Prec(op));
      BinFaithful(ts, l, op, right);
      ClimbFaithful(ts, Parsed(Bin(op, l.expr, right.expr), right.ok, right.rest), prec);
      ClimbStep(l, prec, op, right);
    } else {
      ClimbStops(l, prec);
    }
  }

  lemma BinFaithful(ts: seq<Token>, l: Parsed, op: BinOp, right: Parsed)
    requires |l.rest| >= 2 && l.rest[1] == Op(op) && Faithful(ts, l) && Faithful(l.rest[2..], right)
    ensures Faithful(ts, Parsed(Bin(op, l.expr, right.expr), right.ok, right.rest))
  {
    hide Prec;
    var e := Bin(op, l.expr, right.expr);
    if Complete(e) {
      var x, y, s := Print(l.expr), Print(right.expr), right.rest[1..];
      assert l.rest[1..] == [Op(op)] + l.rest[2..];
      assert Print(e) == x + [Op(op)] + y;
      assert x + ([Op(op)] + (y + s)) == (x + [Op(op)] + y) + s;
    }
  }

  /** The parser accepts with a tree free of holes exactly the well-formed sequences. */
  lemma AcceptsExactly(ts: seq<Token>)
    requires EOF !in ts
    ensures WellFormed(ts) <==> ParseConst(ts).Some? && Complete(ParseConst(ts).value)
  {
    if WellFormed(ts) {
      ParsesWellFormed(ts);
      CanonicalComplete(ParseConst(ts).value);
    }
    if ParseConst(ts).Some? && Complete(ParseConst(ts).value) {
      ExprFaithful(ts, LOWEST);
      var r := ParseExpr(ts, LOWEST);
      var end := r.rest[1..];
      assert ts == Print(r.expr) + end;
      assert forall t :: t in end ==> t in ts;
      assert ts == Print(r.expr);
    }
  }

  /** The error of a prefix parse is overwritten by a later operand: this ill-formed
      constant is accepted, with a hole in its tree. */
  lemma AcceptsIllFormed()
    ensures var ts := [Op(Sub), RParen, Op(Add), Atom("1")];
            !WellFormed(ts) && ParseConst(ts) == Some(Bin(Add, Neg(Missing), Leaf("1")))
  {
    var ts := [Op(Sub), RParen, Op(Add), Atom("1")];
    var tail := ts[1..];
    assert tail == [RParen, Op(Add), Atom("1")];
    assert ParseExpr(tail, PREFIX) == Parsed(Missing, false, tail);
    assert ParsePrefix(ts) == Parsed(Neg(Missing), false, tail);
    var last := tail[2..];
    assert last == [Atom("1")];
    assert ParsePrefix(last) == Parsed(Leaf("1"), true, last);
    ClimbStops(ParsePrefix(last), Prec(Add));
    ClimbStep(ParsePrefix(ts), LOWEST, Add, ParsePrefix(last));
    ClimbStops(Parsed(Bin(Add, Neg(Missing), Leaf("1")), true, last), LOWEST);
    AcceptsExactly(ts);
  }
}
