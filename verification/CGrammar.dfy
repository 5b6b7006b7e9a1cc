/**
 The grammar of C expressions, layer by layer as in sections 6.5.1 to 6.5.12 of ISO/IEC
 9899:2011, restricted to the operators the parser knows; and the parser against it.
 */
module CGrammar {
  import opened Wrappers
  import opened ConstExpr

  /** primary-expression: a literal or identifier, or any expression in parentheses. */
  predicate IsPrimary(e: Expr)
    decreases e, 0
  {
    e.Leaf? || (e.Paren? && IsInclusiveOr(e.x))
  }

  /** unary-expression: a primary one, or a minus before a unary one. */
  predicate IsUnary(e: Expr)
    decreases e, 1
  {
    IsPrimary(e) || (e.Neg? && IsUnary(e.x))
  }

  /** multiplicative-expression */
  predicate IsMultiplicative(e: Expr)
    decreases e, 2
  {
    IsUnary(e) || (e.Bin? && e.op in {Mul, Quo, Rem} && IsMultiplicative(e.left) && IsUnary(e.right))
  }

  /** additive-expression */
  predicate IsAdditive(e: Expr)
    decreases e, 3
  {
    IsMultiplicative(e) || (e.Bin? && e.op in {Add, Sub} && IsAdditive(e.left) && IsMultiplicative(e.right))
  }

  /** shift-expression */
  predicate IsShift(e: Expr)
    decreases e, 4
  {
    IsAdditive(e) || (e.Bin? && e.op in {Shl, Shr} && IsShift(e.left) && IsAdditive(e.right))
  }

  /** AND-expression, where the layers of comparisons are left out */
  predicate IsAnd(e: Expr)
    decreases e, 5
  {
    IsShift(e) || (e.Bin? && e.op == And && IsAnd(e.left) && IsShift(e.right))
  }

  /** exclusive-OR-expression */
  predicate IsExclusiveOr(e: Expr)
    decreases e, 6
  {
    IsAnd(e) || (e.Bin? && e.op == Xor && IsExclusiveOr(e.left) && IsAnd(e.right))
  }

  /** inclusive-OR-expression */
  predicate IsInclusiveOr(e: Expr)
    decreases e, 7
  {
    IsExclusiveOr(e) || (e.Bin? && e.op == Or && IsInclusiveOr(e.left) && IsExclusiveOr(e.right))
  }

  /** A layer of the grammar holds exactly the trees that are canonical and bind at least as
      tightly as its operators. */
  lemma {:induction false} Layers(e: Expr)
    ensures IsUnary(e) <==> Canonical(e) && Level(e) == PREFIX
    ensures IsMultiplicative(e) <==> Canonical(e) && Level(e) >= Prec(Mul)
    ensures IsAdditive(e) <==> Canonical(e) && Level(e) >= Prec(Add)
    ensures IsShift(e) <==> Canonical(e) && Level(e) >= Prec(Shl)
    ensures IsAnd(e) <==> Canonical(e) && Level(e) >= Prec(And)
    ensures IsExclusiveOr(e) <==> Canonical(e) && Level(e) >= Prec(Xor)
    ensures IsInclusiveOr(e) <==> Canonical(e)
  {
    match e
    case Leaf(_) =>
    case Paren(x) => Layers(x);
    case Neg(x) => Layers(x);
    case Bin(_, x, y) => Layers(x); Layers(y);
    case Missing =>
  }

  /** The parser follows the grammar: a sequence the grammar derives in any way is parsed to
      a tree of the grammar with these tokens, and there is no other. */
  lemma ParsesByGrammar(ts: seq<Token>)
    requires WellFormed(ts)
    ensures ParseConst(ts).Some?
    ensures var e := ParseConst(ts).value;
            && IsInclusiveOr(e) && Print(e) == ts
            && forall f :: IsInclusiveOr(f) && Print(f) == ts ==> f == e
  {
    hide ParseConst, IsInclusiveOr, Canonical;
    ParsesWellFormed(ts);
    forall f ensures IsInclusiveOr(f) <==> Canonical(f) {
      Layers(f);
    }
  }

  /** Derivable with any grouping and derivable by the layered grammar are the same. */
  lemma WellFormedIffDerivable(ts: seq<Token>)
    ensures WellFormed(ts) <==> exists e :: IsInclusiveOr(e) && Print(e) == ts
  {
    hide IsInclusiveOr, Canonical, Print;
    if WellFormed(ts) {
      ParsesByGrammar(ts);
    }
    if e :| IsInclusiveOr(e) && Print(e) == ts {
      Layers(e);
      CanonicalComplete(e);
    }
  }

  /** An accepted tree without a hole is the one the grammar derives for the tokens. */
  lemma AcceptedIsDerived(ts: seq<Token>, e: Expr)
    requires EOF !in ts && Complete(e)
    ensures ParseConst(ts) == Some(e) <==> IsInclusiveOr(e) && Print(e) == ts
  {
    hide ParseConst, IsInclusiveOr, Print;
    AcceptsExactly(ts);
    if IsInclusiveOr(e) && Print(e) == ts {
      assert WellFormed(ts);
    }
    if WellFormed(ts) {
      ParsesByGrammar(ts);
    }
  }
}
