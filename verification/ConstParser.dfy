/**
 The parser of C constants as the source writes it: recursive procedures that advance a
 shared tokenizer, which holds the current and the next token.
 */
module ConstParser {
  import opened Wrappers
  import opened CGrammar
  import opened ConstExpr

  class Tokenizer {
    var cur: Token
    var peek: Token
    var buf: seq<Token>

    ghost predicate Valid()
      reads this
    {
      EOF !in buf && (peek == EOF ==> buf == []) && (cur == EOF ==> peek == EOF)
    }

    /** The tokens from the current one on. */
    ghost function Stream(): seq<Token>
      reads this
    {
      if cur == EOF then [] else if peek == EOF then [cur] else [cur, peek] + buf
    }

    /** Positioned at the first token. */
    constructor (ts: seq<Token>)
      requires EOF !in ts
      ensures Valid() && Stream() == ts
    {
      cur, peek, buf := Other, Other, ts;
      new;
      Next();
      Next();
    }

    /** Shift the two-token window. */
    method Next()
      requires EOF !in buf && (peek == EOF ==> buf == [])
      modifies this
      ensures Valid() && cur == old(peek)
      ensures old(buf) == [] ==> peek == EOF && buf == []
      ensures old(buf) != [] ==> peek == old(buf)[0] && buf == old(buf)[1..]
      ensures old(Valid()) ==> Stream() == Drop1(old(Stream()))
    {
      cur := peek;
      if buf == [] {
        peek := EOF;
      } else {
        peek, buf := buf[0], buf[1..];
      }
    }

    ghost predicate At(r: Parsed, e: Expr, ok: bool)
      reads this
    {
      Valid() && e == r.expr && ok == r.ok && Stream() == r.rest
    }
  }

  /** Parse a whole constant. */
  method ParseConstant(ts: seq<Token>) returns (r: Option<Expr>)
    requires EOF !in ts
    ensures r == ParseConst(ts)
    ensures forall e :: Complete(e) ==> (r == Some(e) <==> IsInclusiveOr(e) && Print(e) == ts)
  {
    forall e | Complete(e) ensures ParseConst(ts) == Some(e) <==> IsInclusiveOr(e) && Print(e) == ts {
      AcceptedIsDerived(ts, e);
    }
    var t := new Tokenizer(ts);
    var e, ok := ParseConstExpr(t, LOWEST);
    t.Next();
    if t.cur != EOF {
      return None;
    }
    r := if ok then Some(e) else None;
  }

  method ParseConstExpr(t: Tokenizer, prec: nat) returns (e: Expr, ok: bool)
    requires t.Valid()
    modifies t
    ensures t.At(ParseExpr(old(t.Stream()), prec), e, ok)
    decreases |t.Stream()|, 2
  {
    hide ParsePrefix;
    ghost var ts := t.Stream();
    if !StartsExpr(t.cur) {
      return Missing, false;
    }
    e, ok := ParsePrefixExpr(t);
    ghost var prefix := ParsePrefix(ts);
    while t.peek != EOF && prec < TokenPrec(t.peek)
      invariant t.Valid() && |t.Stream()| <= |ts|
      invariant Climb(Parsed(e, ok, t.Stream()), prec) == Climb(prefix, prec)
      decreases |t.Stream()|
    {
      t.Next();
      e, ok := ParseBinaryExpr(t, e);
    }
  }

  /** The prefix functions: literals and identifiers, parentheses, unary minus. */
  method ParsePrefixExpr(t: Tokenizer) returns (e: Expr, ok: bool)
    requires t.Valid() && StartsExpr(t.cur)
    modifies t
    ensures t.At(ParsePrefix(old(t.Stream())), e, ok)
    decreases |t.Stream()|, 1
  {
    if t.cur.Atom? {
      e, ok := Leaf(t.cur.text), true;
    } else if t.cur.LParen? {
      e, ok := ParseParenExpr(t);
    } else {
      e, ok := ParseUnaryExpr(t);
    }
  }

  method ParseParenExpr(t: Tokenizer) returns (e: Expr, ok: bool)
    requires t.Valid() && t.cur.LParen?
    modifies t
    ensures t.At(ParsePrefix(old(t.Stream())), e, ok)
    decreases |t.Stream()|, 0
  {
    hide ParseExpr;
    t.Next();
    var x, xok := ParseConstExpr(t, LOWEST);
    if !xok {
      return Missing, false;
    }
    t.Next();
    if t.cur != RParen {
      return Missing, false;
    }
    e, ok := Paren(x), true;
  }

  method ParseUnaryExpr(t: Tokenizer) returns (e: Expr, ok: bool)
    requires t.Valid() && t.cur == Op(Sub)
    modifies t
    ensures t.At(ParsePrefix(old(t.Stream())), e, ok)
    decreases |t.Stream()|, 0
  {
    hide ParseExpr;
    t.Next();
    var x;
    x, ok := ParseConstExpr(t, PREFIX);
    e := Neg(x);
  }

  /** With the operator as the current token, parse its right operand. */
  method ParseBinaryExpr(t: Tokenizer, left: Expr) returns (e: Expr, ok: bool)
    requires t.Valid() && t.cur.Op?
    modifies t
    ensures var op := old(t.cur).op;
            var right := ParseExpr(Drop1(old(t.Stream())), Prec(op));
            t.At(Parsed(Bin(op, left, right.expr), right.ok, right.rest), e, ok)
    decreases |t.Stream()|, 0
  {
    hide ParseExpr;
    var op := t.cur.op;
    t.Next();
    var right;
    right, ok := ParseConstExpr(t, Prec(op));
    e := Bin(op, left, right);
  }
}
