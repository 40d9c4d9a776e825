/** The expression grammar of src/expr.y on token streams: derivation trees, the
    parse with its precedence declarations, and printing with the fewest
    parentheses. */
module ExprSyntax {
  import opened Common

  datatype BinOp = LOR | LAND | BOR | BXOR | BAND | EQ | NE | LT | GT | LE | GE | SHL | SHR | ADD | SUB | MUL | DIV | MOD

  datatype UnOp = POS | NEG | NOT | BNOT

  // cdbg_expr_node_t
  datatype Expr =
    | Num(value: nat, isFloat: bool)
    | Ident(name: string)
    | Unary(uop: UnOp, operand: Expr)
    | Binary(bop: BinOp, lhs: Expr, rhs: Expr)
    | Member(base: Expr, name: string)
    | Arrow(base: Expr, name: string)
    | Index(base: Expr, index: Expr)
    | AddrOf(operand: Expr)
    | Deref(operand: Expr)

  // A binary operator's token is the operator's own; '+', '-', '&' and '*' are also prefixes.
  datatype Token =
    | Number(value: nat, isFloat: bool)
    | Name(name: string)
    | Operator(op: BinOp)
    | Bang | Tilde | Dot | ArrowToken
    | LeftParen | RightParen | LeftBracket | RightBracket
    | Unrecognized(c: char)

  datatype Tokens = End | Tok(head: Token, tail: Tokens)

  function Len(toks: Tokens): nat {
    match toks
    case End => 0
    case Tok(_, tail) => 1 + Len(tail)
  }

  /** The ten %left levels, lowest first. */
  function Level(op: BinOp): (r: nat)
    ensures 1 <= r <= 10
  {
    match op
    case LOR => 1
    case LAND => 2
    case BOR => 3
    case BXOR => 4
    case BAND => 5
    case EQ => 6
    case NE => 6
    case LT => 7
    case GT => 7
    case LE => 7
    case GE => 7
    case SHL => 8
    case SHR => 8
    case ADD => 9
    case SUB => 9
    case MUL => 10
    case DIV => 10
    case MOD => 10
  }

  // The prefix forms of unary_expr.
  datatype Prefix = Op(uop: UnOp) | Address | Indirect

  function PrefixOf(t: Token): Option<Prefix> {
    match t
    case Operator(ADD) => Some(Op(POS))
    case Operator(SUB) => Some(Op(NEG))
    case Bang => Some(Op(NOT))
    case Tilde => Some(Op(BNOT))
    case Operator(BAND) => Some(Address)
    case Operator(MUL) => Some(Indirect)
    case _ => None
  }

  function PrefixToken(p: Prefix): (t: Token)
    ensures PrefixOf(t) == Some(p)
  {
    match p
    case Op(POS) => Operator(ADD)
    case Op(NEG) => Operator(SUB)
    case Op(NOT) => Bang
    case Op(BNOT) => Tilde
    case Address => Operator(BAND)
    case Indirect => Operator(MUL)
  }

  function Apply(p: Prefix, e: Expr): Expr {
    match p
    case Op(uop) => Unary(uop, e)
    case Address => AddrOf(e)
    case Indirect => Deref(e)
  }

  // The parse. Each result is a tree and the tokens after it.

  datatype Parsed = Fails | Got(e: Expr, rest: Tokens)

  predicate Shorter(r: Parsed, toks: Tokens) {
    r.Got? ==> Len(r.rest) < Len(toks)
  }

  /** `expr`, as far as operators of level `k` and above go. */
  function ParseExpr(k: nat, toks: Tokens): (r: Parsed)
    ensures Shorter(r, toks)
    decreases Len(toks), 3
  {
    match ParseUnary(toks)
    case Fails => Fails
    case Got(e, rest) => ParseOperators(k, e, rest)
  }

  /** After an operand: reduce on an operator below level `k`, shift on the others;
      a right operand extends over higher levels only. */
  function ParseOperators(k: nat, lhs: Expr, toks: Tokens): (r: Parsed)
    ensures r.Got? ==> Len(r.rest) <= Len(toks)
    decreases Len(toks), 0
  {
    if toks.Tok? && toks.head.Operator? && Level(toks.head.op) >= k then
      match ParseExpr(Level(toks.head.op) + 1, toks.tail)
      case Fails => Fails
      case Got(rhs, rest) => ParseOperators(k, Binary(toks.head.op, lhs, rhs), rest)
    else Got(lhs, toks)
  }

  function ParseUnary(toks: Tokens): (r: Parsed)
    ensures Shorter(r, toks)
    decreases Len(toks), 2
  {
    if toks.Tok? && PrefixOf(toks.head).Some? then
      match ParseUnary(toks.tail)
      case Fails => Fails
      case Got(e, rest) => Got(Apply(PrefixOf(toks.head).value, e), rest)
    else
      match ParsePrimary(toks)
      case Fails => Fails
      case Got(e, rest) => ParsePostfixes(e, rest)
  }

  function ParsePostfixes(e: Expr, toks: Tokens): (r: Parsed)
    ensures r.Got? ==> Len(r.rest) <= Len(toks)
    decreases Len(toks), 0
  {
    if toks.End? then Got(e, toks)
    else
      assert toks.tail.Tok? ==> Len(toks) == 2 + Len(toks.tail.tail);
      match toks.head
      case Dot =>
        if toks.tail.Tok? && toks.tail.head.Name? then ParsePostfixes(Member(e, toks.tail.head.name), toks.tail.tail) else Fails
      case ArrowToken =>
        if toks.tail.Tok? && toks.tail.head.Name? then ParsePostfixes(Arrow(e, toks.tail.head.name), toks.tail.tail) else Fails
      case LeftBracket =>
        (match ParseExpr(1, toks.tail)
         case Fails => Fails
         case Got(i, rest) =>
           if rest.Tok? && rest.head == RightBracket then ParsePostfixes(Index(e, i), rest.tail) else Fails)
      case _ => Got(e, toks)
  }

  function ParsePrimary(toks: Tokens): (r: Parsed)
    ensures Shorter(r, toks)
    decreases Len(toks), 1
  {
    if toks.End? then Fails
    else
      match toks.head
      case Number(v, isFloat) => Got(Num(v, isFloat), toks.tail)
      case Name(name) => Got(Ident(name), toks.tail)
      case LeftParen =>
        (match ParseExpr(1, toks.tail)
         case Fails => Fails
         case Got(e, rest) => if rest.Tok? && rest.head == RightParen then Got(e, rest.tail) else Fails)
      case _ => Fails
  }

  /** cdbg_expr_parse: a tree for the whole input, or nothing. */
  function Parse(toks: Tokens): Option<Expr> {
    match ParseExpr(1, toks)
    case Got(e, End) => Some(e)
    case _ => None
  }

  // Derivation trees: the grammar's own productions, parentheses included.

  datatype Tree =
    | NumTree(value: nat, isFloat: bool)
    | NameTree(name: string)
    | Paren(inner: Tree)
    | MemberTree(base: Tree, name: string)
    | ArrowTree(base: Tree, name: string)
    | IndexTree(base: Tree, index: Tree)
    | PrefixTree(prefix: Prefix, operand: Tree)
    | BinaryTree(op: BinOp, lhs: Tree, rhs: Tree)

  /** 1 to 10 for a binary expression, 11 for a prefixed one, 12 for a postfix_expr. */
  function Strength(c: Tree): (r: nat)
    ensures 1 <= r <= 12
  {
    match c
    case BinaryTree(op, _, _) => Level(op)
    case PrefixTree(_, _) => 11
    case _ => 12
  }

  /** A tree of the grammar that the precedence declarations select: operators of
      one level associate to the left, of different levels by strength. */
  predicate Legal(c: Tree) {
    match c
    case NumTree(_, _) => true
    case NameTree(_) => true
    case Paren(inner) => Legal(inner)
    case MemberTree(base, _) => Legal(base) && Strength(base) == 12
    case ArrowTree(base, _) => Legal(base) && Strength(base) == 12
    case IndexTree(base, index) => Legal(base) && Strength(base) == 12 && Legal(index)
    case PrefixTree(_, operand) => Legal(operand) && Strength(operand) >= 11
    case BinaryTree(op, lhs, rhs) =>
      Legal(lhs) && Strength(lhs) >= Level(op) && Legal(rhs) && Strength(rhs) > Level(op)
  }

  /** The tokens of a tree, followed by `rest`. */
  function Flat(c: Tree, rest: Tokens): Tokens
    decreases c
  {
    match c
    case NumTree(v, isFloat) => Tok(Number(v, isFloat), rest)
    case NameTree(name) => Tok(Name(name), rest)
    case Paren(inner) => Tok(LeftParen, Flat(inner, Tok(RightParen, rest)))
    case MemberTree(base, name) => Flat(base, Tok(Dot, Tok(Name(name), rest)))
    case ArrowTree(base, name) => Flat(base, Tok(ArrowToken, Tok(Name(name), rest)))
    case IndexTree(base, index) => Flat(base, Tok(LeftBracket, Flat(index, Tok(RightBracket, rest))))
    case PrefixTree(p, operand) => Tok(PrefixToken(p), Flat(operand, rest))
    case BinaryTree(op, lhs, rhs) => Flat(lhs, Tok(Operator(op), Flat(rhs, rest)))
  }

  /** The node the grammar's actions build for a tree. */
  function Meaning(c: Tree): Expr {
    match c
    case NumTree(v, isFloat) => Num(v, isFloat)
    case NameTree(name) => Ident(name)
    case Paren(inner) => Meaning(inner)
    case MemberTree(base, name) => Member(Meaning(base), name)
    case ArrowTree(base, name) => Arrow(Meaning(base), name)
    case IndexTree(base, index) => Index(Meaning(base), Meaning(index))
    case PrefixTree(p, operand) => Apply(p, Meaning(operand))
    case BinaryTree(op, lhs, rhs) => Binary(op, Meaning(lhs), Meaning(rhs))
  }

  predicate PostfixNext(toks: Tokens) {
    toks.Tok? && (toks.head == Dot || toks.head == ArrowToken || toks.head == LeftBracket)
  }

  predicate OperatorNext(toks: Tokens, k: nat) {
    toks.Tok? && toks.head.Operator? && Level(toks.head.op) >= k
  }

  // Completeness: a legal tree's tokens are parsed to its meaning.

  lemma {:induction false} PrimaryComplete(c: Tree, rest: Tokens)
    requires Legal(c) && (c.NumTree? || c.NameTree? || c.Paren?)
    ensures ParsePrimary(Flat(c, rest)) == Got(Meaning(c), rest)
    decreases c, 0
  {
    if c.Paren? {
      ExprComplete(1, c.inner, Tok(RightParen, rest));
    }
  }

  lemma {:induction false} IndexComplete(base: Expr, index: Tree, rest: Tokens)
    requires Legal(index)
    ensures ParsePostfixes(base, Tok(LeftBracket, Flat(index, Tok(RightBracket, rest))))
            == ParsePostfixes(Index(base, Meaning(index)), rest)
    decreases index, 4
  {
    ExprComplete(1, index, Tok(RightBracket, rest));
  }

  lemma {:induction false} PostfixComplete(c: Tree, rest: Tokens)
    requires Legal(c) && Strength(c) == 12
    ensures ParseUnary(Flat(c, rest)) == ParsePostfixes(Meaning(c), rest)
    decreases c, 1
  {
    if c.MemberTree? {
      PostfixComplete(c.base, Tok(Dot, Tok(Name(c.name), rest)));
    } else if c.ArrowTree? {
      PostfixComplete(c.base, Tok(ArrowToken, Tok(Name(c.name), rest)));
    } else if c.IndexTree? {
      PostfixComplete(c.base, Tok(LeftBracket, Flat(c.index, Tok(RightBracket, rest))));
      IndexComplete(Meaning(c.base), c.index, rest);
    } else {
      PrimaryComplete(c, rest);
    }
  }

  lemma {:induction false} UnaryComplete(c: Tree, rest: Tokens)
    requires Legal(c) && Strength(c) >= 11 && !PostfixNext(rest)
    ensures ParseUnary(Flat(c, rest)) == Got(Meaning(c), rest)
    decreases c, 2
  {
    if c.PrefixTree? {
      UnaryComplete(c.operand, rest);
    } else {
      PostfixComplete(c, rest);
    }
  }

  lemma {:induction false} ExprComplete(k: nat, c: Tree, rest: Tokens)
    requires Legal(c) && k <= Strength(c) && !PostfixNext(rest) && !OperatorNext(rest, Strength(c) + 1)
    ensures ParseExpr(k, Flat(c, rest)) == ParseOperators(k, Meaning(c), rest)
    decreases c, 3
  {
    if c.BinaryTree? {
      ExprComplete(k, c.lhs, Tok(Operator(c.op), Flat(c.rhs, rest)));
      ExprComplete(Level(c.op) + 1, c.rhs, rest);
    } else {
      UnaryComplete(c, rest);
    }
  }

  /** Every legal tree's tokens parse to its meaning. */
  lemma ParseComplete(c: Tree)
    requires Legal(c)
    ensures Parse(Flat(c, End)) == Some(Meaning(c))
  {
    ExprComplete(1, c, End);
  }

  // Soundness: what is parsed is the meaning of a legal tree of those tokens.

  lemma {:induction false} ExprSound(k: nat, toks: Tokens) returns (c: Tree)
    requires k <= 11 && ParseExpr(k, toks).Got?
    ensures Legal(c) && Strength(c) >= k && Flat(c, ParseExpr(k, toks).rest) == toks && Meaning(c) == ParseExpr(k, toks).e
    ensures !OperatorNext(ParseExpr(k, toks).rest, k)
    decreases Len(toks), 3
  {
    var u := ParseUnary(toks);
    var c0 := UnarySound(toks);
    c := OperatorsSound(k, c0, u.rest);
  }

  lemma {:induction false} OperatorsSound(k: nat, c0: Tree, toks: Tokens) returns (c: Tree)
    requires Legal(c0) && Strength(c0) >= k && !OperatorNext(toks, Strength(c0) + 1)
    requires ParseOperators(k, Meaning(c0), toks).Got?
    ensures var r := ParseOperators(k, Meaning(c0), toks);
            Legal(c) && Strength(c) >= k && Flat(c, r.rest) == Flat(c0, toks) && Meaning(c) == r.e && !OperatorNext(r.rest, k)
    decreases Len(toks), 0
  {
    if OperatorNext(toks, k) {
      var op := toks.head.op;
      var rhs := ParseExpr(Level(op) + 1, toks.tail);
      var cr := ExprSound(Level(op) + 1, toks.tail);
      c := OperatorsSound(k, BinaryTree(op, c0, cr), rhs.rest);
    } else {
      c := c0;
    }
  }

  lemma {:induction false} UnarySound(toks: Tokens) returns (c: Tree)
    requires ParseUnary(toks).Got?
    ensures Legal(c) && Strength(c) >= 11 && Flat(c, ParseUnary(toks).rest) == toks && Meaning(c) == ParseUnary(toks).e
    decreases Len(toks), 2
  {
    if toks.Tok? && PrefixOf(toks.head).Some? {
      var operand := UnarySound(toks.tail);
      c := PrefixTree(PrefixOf(toks.head).value, operand);
    } else {
      var r := ParsePrimary(toks);
      var c0 := PrimarySound(toks);
      c := PostfixesSound(c0, r.rest);
    }
  }

  lemma {:induction false} PrimarySound(toks: Tokens) returns (c: Tree)
    requires ParsePrimary(toks).Got?
    ensures Legal(c) && Strength(c) == 12 && Flat(c, ParsePrimary(toks).rest) == toks && Meaning(c) == ParsePrimary(toks).e
    decreases Len(toks), 1
  {
    match toks.head {
      case Number(v, isFloat) => c := NumTree(v, isFloat);
      case Name(name) => c := NameTree(name);
      case LeftParen =>
        var inner := ExprSound(1, toks.tail);
        c := Paren(inner);
    }
  }

  lemma {:induction false} PostfixesSound(c0: Tree, toks: Tokens) returns (c: Tree)
    requires Legal(c0) && Strength(c0) == 12 && ParsePostfixes(Meaning(c0), toks).Got?
    ensures var r := ParsePostfixes(Meaning(c0), toks);
            Legal(c) && Strength(c) == 12 && Flat(c, r.rest) == Flat(c0, toks) && Meaning(c) == r.e
    decreases Len(toks), 0
  {
    c := c0;
    if PostfixNext(toks) {
      assert toks.tail.Tok? ==> Len(toks) == 2 + Len(toks.tail.tail);
      match toks.head {
        case Dot => c := PostfixesSound(MemberTree(c0, toks.tail.head.name), toks.tail.tail);
        case ArrowToken => c := PostfixesSound(ArrowTree(c0, toks.tail.head.name), toks.tail.tail);
        case LeftBracket =>
          var i := ParseExpr(1, toks.tail);
          var ci := ExprSound(1, toks.tail);
          c := PostfixesSound(IndexTree(c0, ci), i.rest.tail);
      }
    }
  }

  /** The parse accepts exactly the tokens of legal trees, with their meaning. */
  lemma ParseExact(toks: Tokens, e: Expr)
    ensures Parse(toks) == Some(e) <==> exists c :: Legal(c) && Flat(c, End) == toks && Meaning(c) == e
  {
    if Parse(toks) == Some(e) {
      var c := ExprSound(1, toks);
      assert Flat(c, End) == toks;
    }
    forall c | Legal(c) && Flat(c, End) == toks && Meaning(c) == e ensures Parse(toks) == Some(e) {
      ParseComplete(c);
    }
  }

  // Printing.

  function Enclosed(k: nat, c: Tree): Tree {
    if Strength(c) < k then Paren(c) else c
  }

  /** The tree of an expression where strength `k` is called for, with parentheses
      only around what is too weak. */
  function TreeOf(k: nat, e: Expr): Tree
    decreases e
  {
    match e
    case Num(v, isFloat) => NumTree(v, isFloat)
    case Ident(name) => NameTree(name)
    case Unary(uop, x) => Enclosed(k, PrefixTree(Op(uop), TreeOf(11, x)))
    case AddrOf(x) => Enclosed(k, PrefixTree(Address, TreeOf(11, x)))
    case Deref(x) => Enclosed(k, PrefixTree(Indirect, TreeOf(11, x)))
    case Binary(op, l, r) => Enclosed(k, BinaryTree(op, TreeOf(Level(op), l), TreeOf(Level(op) + 1, r)))
    case Member(base, name) => MemberTree(TreeOf(12, base), name)
    case Arrow(base, name) => ArrowTree(TreeOf(12, base), name)
    case Index(base, index) => IndexTree(TreeOf(12, base), TreeOf(1, index))
  }

  function Print(e: Expr): Tokens {
    Flat(TreeOf(1, e), End)
  }

  predicate Stands(k: nat, e: Expr) {
    Legal(TreeOf(k, e)) && Strength(TreeOf(k, e)) >= k && Meaning(TreeOf(k, e)) == e
  }

  lemma PrefixStands(k: nat, prefix: Prefix, x: Expr)
    requires k <= 12 && Stands(11, x)
    ensures Stands(k, Apply(prefix, x))
  {
    assert Legal(PrefixTree(prefix, TreeOf(11, x)));
  }

  lemma BinaryStands(k: nat, op: BinOp, l: Expr, r: Expr)
    requires k <= 12 && Stands(Level(op), l) && Stands(Level(op) + 1, r)
    ensures Stands(k, Binary(op, l, r))
  {
    assert Legal(BinaryTree(op, TreeOf(Level(op), l), TreeOf(Level(op) + 1, r)));
  }

  lemma {:induction false} TreeOfLegal(k: nat, e: Expr)
    requires k <= 12
    ensures Stands(k, e)
    decreases e
  {
    match e {
      case Num(_, _) =>
      case Ident(_) =>
      case Unary(uop, x) =>
        TreeOfLegal(11, x);
        PrefixStands(k, Op(uop), x);
      case AddrOf(x) =>
        TreeOfLegal(11, x);
        PrefixStands(k, Address, x);
      case Deref(x) =>
        TreeOfLegal(11, x);
        PrefixStands(k, Indirect, x);
      case Binary(op, l, r) =>
        TreeOfLegal(Level(op), l);
        TreeOfLegal(Level(op) + 1, r);
        BinaryStands(k, op, l, r);
      case Member(base, _) => TreeOfLegal(12, base);
      case Arrow(base, _) => TreeOfLegal(12, base);
      case Index(base, index) =>
        TreeOfLegal(12, base);
        TreeOfLegal(1, index);
    }
  }

  /** Printing and parsing any expression gives it back. */
  lemma RoundTrip(e: Expr)
    ensures Parse(Print(e)) == Some(e)
  {
    TreeOfLegal(1, e);
    ParseComplete(TreeOf(1, e));
  }

  lemma PrintInjective(e: Expr, e': Expr)
    requires Print(e) == Print(e')
    ensures e == e'
  {
    RoundTrip(e);
    RoundTrip(e');
  }

  /** How many tokens a tree has. */
  function Size(c: Tree): nat {
    match c
    case NumTree(_, _) => 1
    case NameTree(_) => 1
    case Paren(inner) => Size(inner) + 2
    case MemberTree(base, _) => Size(base) + 2
    case ArrowTree(base, _) => Size(base) + 2
    case IndexTree(base, index) => Size(base) + Size(index) + 2
    case PrefixTree(_, operand) => Size(operand) + 1
    case BinaryTree(_, lhs, rhs) => Size(lhs) + Size(rhs) + 1
  }

  lemma {:induction false} SizeIsLen(c: Tree, rest: Tokens)
    ensures Len(Flat(c, rest)) == Size(c) + Len(rest)
    decreases c
  {
    match c {
      case NumTree(_, _) =>
      case NameTree(_) =>
      case Paren(inner) => SizeIsLen(inner, Tok(RightParen, rest));
      case MemberTree(base, name) => SizeIsLen(base, Tok(Dot, Tok(Name(name), rest)));
      case ArrowTree(base, name) => SizeIsLen(base, Tok(ArrowToken, Tok(Name(name), rest)));
      case IndexTree(base, index) =>
        SizeIsLen(base, Tok(LeftBracket, Flat(index, Tok(RightBracket, rest))));
        SizeIsLen(index, Tok(RightBracket, rest));
      case PrefixTree(_, operand) => SizeIsLen(operand, rest);
      case BinaryTree(op, lhs, rhs) =>
        SizeIsLen(lhs, Tok(Operator(op), Flat(rhs, rest)));
        SizeIsLen(rhs, rest);
    }
  }

  /** Calling for more strength costs at most one pair of parentheses. */
  lemma StrengthCost(k: nat, j: nat, e: Expr)
    ensures Size(TreeOf(k, e)) <= Size(TreeOf(j, e)) + 2
  {
  }

  lemma {:induction false} TreeOfSmallest(k: nat, c: Tree)
    requires Legal(c) && Strength(c) >= k
    ensures Size(TreeOf(k, Meaning(c))) <= Size(c)
    decreases c
  {
    match c {
      case NumTree(_, _) =>
      case NameTree(_) =>
      case Paren(inner) =>
        TreeOfSmallest(1, inner);
        StrengthCost(k, 1, Meaning(inner));
      case MemberTree(base, _) => TreeOfSmallest(12, base);
      case ArrowTree(base, _) => TreeOfSmallest(12, base);
      case IndexTree(base, index) =>
        TreeOfSmallest(12, base);
        TreeOfSmallest(1, index);
      case PrefixTree(prefix, operand) =>
        TreeOfSmallest(11, operand);
        PrefixSmallest(k, prefix, operand, Meaning(operand));
      case BinaryTree(op, lhs, rhs) =>
        TreeOfSmallest(Level(op), lhs);
        TreeOfSmallest(Level(op) + 1, rhs);
        BinarySmallest(k, op, lhs, rhs, Meaning(lhs), Meaning(rhs));
    }
  }

  lemma PrefixSmallest(k: nat, prefix: Prefix, operand: Tree, x: Expr)
    requires k <= 11 && Size(TreeOf(11, x)) <= Size(operand)
    ensures Size(TreeOf(k, Apply(prefix, x))) <= Size(PrefixTree(prefix, operand))
  {
  }

  lemma BinarySmallest(k: nat, op: BinOp, lhs: Tree, rhs: Tree, l: Expr, r: Expr)
    requires Level(op) >= k
    requires Size(TreeOf(Level(op), l)) <= Size(lhs) && Size(TreeOf(Level(op) + 1, r)) <= Size(rhs)
    ensures Size(TreeOf(k, Binary(op, l, r))) <= Size(BinaryTree(op, lhs, rhs))
  {
  }

  /** No text that parses to an expression is shorter than the printed one. */
  lemma PrintShortest(toks: Tokens, e: Expr)
    requires Parse(toks) == Some(e)
    ensures Len(Print(e)) <= Len(toks)
  {
    var c := ExprSound(1, toks);
    TreeOfSmallest(1, c);
    SizeIsLen(c, End);
    SizeIsLen(TreeOf(1, e), End);
  }
}
