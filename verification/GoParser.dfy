/** Operator precedence in go/parser/expr.go: precedence climbing over tokens, and the printing that it
    undoes. How the suffixes of an operand (call, index, selector, composite literal) are parsed is a
    parameter, which may be any function that consumes tokens. Types are left out. */
module GoParser {

  datatype Token =
    | Name(text: string)
    | LOR | LAND | EQL | NEQ | LSS | LEQ | GTR | GEQ
    | ADD | SUB | OR | XOR | MUL | QUO | REM | SHL | SHR | AND | AND_NOT
    | ARROW | NOT
    | LPAREN | LBRACK | LBRACE | PERIOD | RPAREN | EOF
    | Other(code: nat)

  /** Bad is what error recovery leaves. */
  datatype Ast = Atom(tok: Token) | Unary(op: Token, x: Ast) | Binary(op: Token, x: Ast, y: Ast) | Bad(tok: Token)
    | BadNode(x: Ast)

  const LOWEST: nat := 0

  function Precedence(t: Token): (p: nat)
    ensures p <= 5
  {
    match t
    case LOR => 1
    case LAND => 2
    case EQL | NEQ | LSS | LEQ | GTR | GEQ => 3
    case ADD | SUB | OR | XOR => 4
    case MUL | QUO | REM | SHL | SHR | AND | AND_NOT => 5
    case _ => LOWEST
  }

  predicate IsUnary(t: Token) { t in {ADD, SUB, MUL, AND, XOR, ARROW, NOT} }

  /** The tokens at which parsePrimaryExpr() goes on with its operand; at a brace only where composite literals are
      allowed. */
  predicate IsSuffix(t: Token, lits: bool) { t == LPAREN || t == LBRACK || t == PERIOD || (t == LBRACE && lits) }

  /** The current token; behind the last one there is EOF. */
  function Tok(ts: seq<Token>, pos: nat): Token { if pos < |ts| then ts[pos] else EOF }

  function Next(ts: seq<Token>, pos: nat): nat { if pos < |ts| then pos + 1 else pos }

  // ---------------------------------------------------------------- parsing

  datatype Parsed = Parsed(node: Ast, pos: nat)

  /** Parses one suffix of an operand, from its first token on, and says whether others may follow: none does behind
      a bad selector. The flag says whether composite literals are allowed. */
  type Suffix = (bool, seq<Token>, nat, Ast) -> (Parsed, bool)

  ghost predicate Forward(f: Suffix) {
    forall lits: bool, ts: seq<Token>, pos: nat, x: Ast :: pos < |ts| ==> pos < f(lits, ts, pos, x).0.pos <= |ts|
  }

  function ParseExpr(f: Suffix, lits: bool, ts: seq<Token>, pos: nat, prec: nat): (r: Parsed)
    requires pos <= |ts| && Forward(f)
    ensures pos <= r.pos <= |ts|
    decreases |ts| - pos, 3
  {
    var u := ParseUnary(f, lits, ts, pos);
    Climb(f, lits, ts, u.pos, prec, u.node)
  }

  /** The loop over binary operators that bind tighter than prec. */
  function Climb(f: Suffix, lits: bool, ts: seq<Token>, pos: nat, prec: nat, x: Ast): (r: Parsed)
    requires pos <= |ts| && Forward(f)
    ensures pos <= r.pos <= |ts|
    decreases |ts| - pos, 1
  {
    var t := Tok(ts, pos);
    if Precedence(t) <= prec then Parsed(x, pos)
    else
      var y := ParseExpr(f, lits, ts, pos + 1, Precedence(t));
      Climb(f, lits, ts, y.pos, prec, Binary(t, x, y.node))
  }

  function ParseUnary(f: Suffix, lits: bool, ts: seq<Token>, pos: nat): (r: Parsed)
    requires pos <= |ts| && Forward(f)
    ensures pos <= r.pos <= |ts|
    decreases |ts| - pos, 2
  {
    var t := Tok(ts, pos);
    if !IsUnary(t) then ParsePrimary(f, lits, ts, pos)
    else
      var u := ParseUnary(f, lits, ts, pos + 1);
      Parsed(Unary(t, u.node), u.pos)
  }

  function ParsePrimary(f: Suffix, lits: bool, ts: seq<Token>, pos: nat): (r: Parsed)
    requires pos <= |ts| && Forward(f)
    ensures pos <= r.pos <= |ts|
    decreases |ts| - pos, 1
  {
    var x := ParseOperand(f, ts, pos);
    Suffixes(f, lits, ts, x.pos, x.node)
  }

  /** The loop over the suffixes of an operand. */
  function Suffixes(f: Suffix, lits: bool, ts: seq<Token>, pos: nat, x: Ast): (r: Parsed)
    requires pos <= |ts| && Forward(f)
    ensures pos <= r.pos <= |ts|
    decreases |ts| - pos
  {
    if !IsSuffix(Tok(ts, pos), lits) then Parsed(x, pos)
    else
      var (r, more) := f(lits, ts, pos, x);
      if more then Suffixes(f, lits, ts, r.pos, r.node) else r
  }

  function ParseOperand(f: Suffix, ts: seq<Token>, pos: nat): (r: Parsed)
    requires pos <= |ts| && Forward(f)
    ensures pos <= r.pos <= |ts|
    decreases |ts| - pos, 0
  {
    var t := Tok(ts, pos);
    if t.Name? then Parsed(Atom(t), pos + 1)
    else if t == LPAREN then
      var e := ParseExpr(f, true, ts, pos + 1, LOWEST);
      Leave(ts, e.pos, e.node, RPAREN)
    else Parsed(Bad(t), Next(ts, pos))
  }

  /** leaveNode(): skips to the closing token, and marks the node when that is not the current one. */
  function Leave(ts: seq<Token>, pos: nat, x: Ast, close: Token): (r: Parsed)
    requires pos <= |ts| && close != EOF
    ensures pos <= r.pos <= |ts|
  {
    if Tok(ts, pos) == close then Parsed(x, pos + 1) else Skip(ts, pos, BadNode(x), close)
  }

  function Skip(ts: seq<Token>, pos: nat, x: Ast, close: Token): (r: Parsed)
    requires pos <= |ts| && close != EOF
    ensures pos <= r.pos <= |ts|
    decreases |ts| - pos
  {
    var t := Tok(ts, pos);
    if t == close then Parsed(x, pos + 1)
    else if t == EOF then Parsed(x, pos)
    else Skip(ts, pos + 1, x, close)
  }

  // ---------------------------------------------------------------- printing

  /** The trees of expressions without errors. */
  predicate IsExpr(e: Ast) {
    match e
    case Atom(t) => t.Name?
    case Unary(op, x) => IsUnary(op) && IsExpr(x)
    case Binary(op, x, y) => Precedence(op) > LOWEST && IsExpr(x) && IsExpr(y)
    case Bad(_) => false
    case BadNode(_) => false
  }

  /** Prints an expression where only operators above prec may stand without parentheses. */
  function Print(e: Ast, prec: nat): seq<Token>
    requires IsExpr(e)
    decreases e, if e.Binary? && Precedence(e.op) <= prec then 1 else 0
  {
    match e
    case Atom(t) => [t]
    case Unary(op, x) => [op] + Print(x, 5)
    case Binary(op, x, y) =>
      var p := Precedence(op);
      if p <= prec then [LPAREN] + Print(e, LOWEST) + [RPAREN]
      else Print(x, p - 1) + [op] + Print(y, p)
  }

  /** ts holds the tokens s from pos on. */
  predicate Stands(ts: seq<Token>, pos: nat, s: seq<Token>) { pos + |s| <= |ts| && ts[pos..pos + |s|] == s }

  lemma StandsParts(ts: seq<Token>, pos: nat, a: seq<Token>, b: seq<Token>)
    requires Stands(ts, pos, a + b)
    ensures Stands(ts, pos, a) && Stands(ts, pos + |a|, b)
  {
    var s := ts[pos..pos + |a + b|];
    assert ts[pos..pos + |a|] == s[..|a|] == a;
    assert ts[pos + |a|..pos + |a| + |b|] == s[|a|..] == b;
  }

  lemma StandsFirst(ts: seq<Token>, pos: nat, t: Token)
    requires Stands(ts, pos, [t])
    ensures Tok(ts, pos) == t
  {
    assert ts[pos] == ts[pos..pos + 1][0];
  }

  /** Parsing a printed expression at a level no higher than the one it was printed for, in front of an
      operator that binds no tighter than the loosest one inside, goes on climbing with its tree. */
  lemma {:induction false} ParsePrinted(f: Suffix, lits: bool, ts: seq<Token>, pos: nat, e: Ast, c: nat, k: nat)
    requires Forward(f) && IsExpr(e) && Stands(ts, pos, Print(e, c)) && k <= c
    requires var t := Tok(ts, pos + |Print(e, c)|); Precedence(t) <= c + 1 && !IsSuffix(t, lits)
    ensures pos + |Print(e, c)| <= |ts| && pos <= |ts|
    ensures ParseExpr(f, lits, ts, pos, k) == Climb(f, lits, ts, pos + |Print(e, c)|, k, e)
    decreases e, if e.Binary? && Precedence(e.op) <= c then 1 else 0, 4
  {
    ParseUpTo(f, lits, ts, pos, pos + |Print(e, c)|, e, c, k);
  }

  lemma {:induction false} ParseUpTo(f: Suffix, lits: bool, ts: seq<Token>, pos: nat, end: nat, e: Ast, c: nat, k: nat)
    requires Forward(f) && IsExpr(e) && Stands(ts, pos, Print(e, c)) && k <= c && end == pos + |Print(e, c)|
    requires Precedence(Tok(ts, end)) <= c + 1 && !IsSuffix(Tok(ts, end), lits)
    ensures pos <= end <= |ts|
    ensures ParseExpr(f, lits, ts, pos, k) == Climb(f, lits, ts, end, k, e)
    decreases e, if e.Binary? && Precedence(e.op) <= c then 1 else 0, 3
  {
    if e.Binary? && Precedence(e.op) > c {
      ParseOpen(f, lits, ts, pos, end, e, c, k);
    } else {
      ParseTight(f, lits, ts, pos, e, c);
      OperandFirst(f, lits, ts, pos, end, k, e);
    }
  }

  lemma {:induction false} ParseOpen(f: Suffix, lits: bool, ts: seq<Token>, pos: nat, end: nat, e: Ast, c: nat, k: nat)
    requires Forward(f) && IsExpr(e) && e.Binary? && k <= c < Precedence(e.op)
    requires Stands(ts, pos, Print(e, c)) && end == pos + |Print(e, c)|
    requires Precedence(Tok(ts, end)) <= c + 1 && !IsSuffix(Tok(ts, end), lits)
    ensures ParseExpr(f, lits, ts, pos, k) == Climb(f, lits, ts, end, k, e)
    decreases e, 0, 2
  {
    BinaryStands(ts, pos, e, c);
    ParseLoose(f, lits, ts, pos, pos + |Print(e.x, Precedence(e.op) - 1)|, end, e, k);
  }

  /** What is printed with an operator in the open, which stands at mid. */
  lemma {:induction false} ParseLoose(f: Suffix, lits: bool, ts: seq<Token>, pos: nat, mid: nat, end: nat, e: Ast, k: nat)
    requires Forward(f) && IsExpr(e) && e.Binary? && Precedence(e.op) > k && mid < |ts| && Tok(ts, mid) == e.op
    requires var s := Print(e.x, Precedence(e.op) - 1); Stands(ts, pos, s) && mid == pos + |s|
    requires var s := Print(e.y, Precedence(e.op)); Stands(ts, mid + 1, s) && end == mid + 1 + |s| <= |ts|
    requires Precedence(Tok(ts, end)) <= Precedence(e.op) && !IsSuffix(Tok(ts, end), lits)
    ensures ParseExpr(f, lits, ts, pos, k) == Climb(f, lits, ts, end, k, e)
    decreases e, 0, 1
  {
    ParsePrinted(f, lits, ts, pos, e.x, Precedence(e.op) - 1, k);
    ParseRight(f, lits, ts, mid, end, e, k);
  }

  /** From the operator on; mid and end are the positions of the operator and behind its right operand. */
  lemma {:induction false} ParseRight(f: Suffix, lits: bool, ts: seq<Token>, mid: nat, end: nat, e: Ast, k: nat)
    requires Forward(f) && IsExpr(e) && e.Binary? && Precedence(e.op) > k && mid < |ts| && Tok(ts, mid) == e.op
    requires var s := Print(e.y, Precedence(e.op)); Stands(ts, mid + 1, s) && end == mid + 1 + |s| <= |ts|
    requires Precedence(Tok(ts, end)) <= Precedence(e.op) && !IsSuffix(Tok(ts, end), lits)
    ensures Climb(f, lits, ts, mid, k, e.x) == Climb(f, lits, ts, end, k, e)
    decreases e, 0, 0
  {
    ParsePrinted(f, lits, ts, mid + 1, e.y, Precedence(e.op), Precedence(e.op));
    ClimbStep(f, lits, ts, mid, end, k, e);
  }

  lemma OperandFirst(f: Suffix, lits: bool, ts: seq<Token>, pos: nat, end: nat, k: nat, e: Ast)
    requires Forward(f) && pos <= end <= |ts| && ParseUnary(f, lits, ts, pos) == Parsed(e, end)
    ensures ParseExpr(f, lits, ts, pos, k) == Climb(f, lits, ts, end, k, e)
  {
  }

  /** Where the parts of a printed binary operation stand. */
  lemma BinaryStands(ts: seq<Token>, pos: nat, e: Ast, c: nat)
    requires IsExpr(e) && e.Binary? && Precedence(e.op) > c && Stands(ts, pos, Print(e, c))
    ensures var p := Precedence(e.op); var mid := pos + |Print(e.x, p - 1)|;
      && Stands(ts, pos, Print(e.x, p - 1)) && Tok(ts, mid) == e.op && Stands(ts, mid + 1, Print(e.y, p))
      && pos + |Print(e, c)| == mid + 1 + |Print(e.y, p)| <= |ts|
      && Precedence(Tok(ts, mid)) == p && !IsSuffix(Tok(ts, mid), true) && c < p
  {
    var p := Precedence(e.op);
    var (a, b) := (Print(e.x, p - 1), Print(e.y, p));
    assert Print(e, c) == a + ([e.op] + b);
    OperatorStands(ts, pos, a, e.op, b);
  }

  lemma OperatorStands(ts: seq<Token>, pos: nat, a: seq<Token>, op: Token, b: seq<Token>)
    requires Stands(ts, pos, a + ([op] + b))
    ensures Stands(ts, pos, a) && Tok(ts, pos + |a|) == op && Stands(ts, pos + |a| + 1, b)
  {
    StandsParts(ts, pos, a, [op] + b);
    StandsParts(ts, pos + |a|, [op], b);
    StandsFirst(ts, pos + |a|, op);
  }

  lemma ClimbStops(f: Suffix, lits: bool, ts: seq<Token>, pos: nat, prec: nat, x: Ast)
    requires Forward(f) && pos <= |ts| && Precedence(Tok(ts, pos)) <= prec
    ensures Climb(f, lits, ts, pos, prec, x) == Parsed(x, pos)
  {
  }

  /** One turn of the loop over operators. */
  lemma ClimbStep(f: Suffix, lits: bool, ts: seq<Token>, mid: nat, end: nat, k: nat, e: Ast)
    requires Forward(f) && e.Binary? && mid < end <= |ts| && Tok(ts, mid) == e.op && Precedence(e.op) > k
    requires ParseExpr(f, lits, ts, mid + 1, Precedence(e.op)) == Climb(f, lits, ts, end, Precedence(e.op), e.y)
    requires Precedence(Tok(ts, end)) <= Precedence(e.op)
    ensures Climb(f, lits, ts, mid, k, e.x) == Climb(f, lits, ts, end, k, e)
  {
    ClimbStops(f, lits, ts, end, Precedence(e.op), e.y);
  }

  /** A printed expression in front of a token at which parsing stops. */
  lemma {:induction false} ParseWhole(f: Suffix, lits: bool, ts: seq<Token>, pos: nat, e: Ast, s: seq<Token>, end: nat)
    requires Forward(f) && IsExpr(e) && s == Print(e, LOWEST) && Stands(ts, pos, s) && end == pos + |s|
    requires Precedence(Tok(ts, end)) == LOWEST && !IsSuffix(Tok(ts, end), lits)
    ensures ParseExpr(f, lits, ts, pos, LOWEST) == Parsed(e, end)
    decreases e, 0, 4
  {
    ParseUpTo(f, lits, ts, pos, end, e, LOWEST, LOWEST);
    ClimbStops(f, lits, ts, end, LOWEST, e);
  }

  /** What is printed as an atom, with a unary operator or in parentheses is one operand. */
  lemma {:induction false} ParseTight(f: Suffix, lits: bool, ts: seq<Token>, pos: nat, e: Ast, c: nat)
    requires Forward(f) && IsExpr(e) && Stands(ts, pos, Print(e, c)) && !(e.Binary? && Precedence(e.op) > c)
    requires !IsSuffix(Tok(ts, pos + |Print(e, c)|), lits)
    ensures pos + |Print(e, c)| <= |ts| && pos <= |ts|
    ensures ParseUnary(f, lits, ts, pos) == Parsed(e, pos + |Print(e, c)|)
    decreases e, if e.Binary? && Precedence(e.op) <= c then 1 else 0, 0
  {
    match e
    case Atom(t) => ParseAtom(f, lits, ts, pos, t);
    case Unary(op, x) =>
      UnaryStands(ts, pos, e, c);
      ParseTight(f, lits, ts, pos + 1, x, 5);
      UnaryStep(f, lits, ts, pos, op, x, pos + 1 + |Print(x, 5)|);
    case Binary(op, x, y) =>
      ParenStands(ts, pos, e, c);
      InParens(f, lits, ts, pos, e, Print(e, LOWEST), pos + 1 + |Print(e, LOWEST)|);
  }

  /** An expression in parentheses, the second of them at `end`. */
  lemma {:induction false} InParens(f: Suffix, lits: bool, ts: seq<Token>, pos: nat, e: Ast, s: seq<Token>, end: nat)
    requires Forward(f) && IsExpr(e) && s == Print(e, LOWEST) && Stands(ts, pos + 1, s) && end == pos + 1 + |s|
    requires Tok(ts, pos) == LPAREN && Tok(ts, end) == RPAREN && end < |ts| && !IsSuffix(Tok(ts, end + 1), lits)
    ensures ParseUnary(f, lits, ts, pos) == Parsed(e, end + 1)
    decreases e, 0, 5
  {
    ParseWhole(f, true, ts, pos + 1, e, s, end);
    ParseParen(f, lits, ts, pos, e, end);
  }

  lemma ParseAtom(f: Suffix, lits: bool, ts: seq<Token>, pos: nat, t: Token)
    requires Forward(f) && t.Name? && Stands(ts, pos, [t]) && !IsSuffix(Tok(ts, pos + 1), lits)
    ensures ParseUnary(f, lits, ts, pos) == Parsed(Atom(t), pos + 1)
  {
    StandsFirst(ts, pos, t);
    OperandAlone(f, lits, ts, pos, Atom(t), pos + 1);
  }

  lemma UnaryStep(f: Suffix, lits: bool, ts: seq<Token>, pos: nat, op: Token, x: Ast, end: nat)
    requires Forward(f) && pos < |ts| && Tok(ts, pos) == op && IsUnary(op)
    requires ParseUnary(f, lits, ts, pos + 1) == Parsed(x, end)
    ensures ParseUnary(f, lits, ts, pos) == Parsed(Unary(op, x), end)
  {
  }

  lemma UnaryStands(ts: seq<Token>, pos: nat, e: Ast, c: nat)
    requires IsExpr(e) && e.Unary? && Stands(ts, pos, Print(e, c))
    ensures Tok(ts, pos) == e.op && Stands(ts, pos + 1, Print(e.x, 5)) && |Print(e, c)| == 1 + |Print(e.x, 5)|
  {
    StandsParts(ts, pos, [e.op], Print(e.x, 5));
    StandsFirst(ts, pos, e.op);
  }

  /** An operand in front of a token that begins no suffix. */
  lemma OperandAlone(f: Suffix, lits: bool, ts: seq<Token>, pos: nat, x: Ast, end: nat)
    requires Forward(f) && pos <= |ts| && !IsUnary(Tok(ts, pos))
    requires ParseOperand(f, ts, pos) == Parsed(x, end) && !IsSuffix(Tok(ts, end), lits)
    ensures ParseUnary(f, lits, ts, pos) == Parsed(x, end)
  {
  }

  lemma ParenStands(ts: seq<Token>, pos: nat, e: Ast, c: nat)
    requires IsExpr(e) && e.Binary? && Precedence(e.op) <= c && Stands(ts, pos, Print(e, c))
    ensures var n := |Print(e, LOWEST)|;
      && Tok(ts, pos) == LPAREN && Stands(ts, pos + 1, Print(e, LOWEST)) && Tok(ts, pos + 1 + n) == RPAREN
      && |Print(e, c)| == n + 2
  {
    var s := Print(e, LOWEST);
    assert Print(e, c) == [LPAREN] + (s + [RPAREN]);
    StandsParts(ts, pos, [LPAREN], s + [RPAREN]);
    StandsParts(ts, pos + 1, s, [RPAREN]);
    StandsFirst(ts, pos, LPAREN);
    StandsFirst(ts, pos + 1 + |s|, RPAREN);
  }

  /** Inside of parentheses, composite literals are allowed. */
  lemma ParseParen(f: Suffix, lits: bool, ts: seq<Token>, pos: nat, e: Ast, end: nat)
    requires Forward(f) && pos < end < |ts| && Tok(ts, pos) == LPAREN && Tok(ts, end) == RPAREN
    requires !IsSuffix(Tok(ts, end + 1), lits)
    requires ParseExpr(f, true, ts, pos + 1, LOWEST) == Parsed(e, end)
    ensures ParseUnary(f, lits, ts, pos) == Parsed(e, end + 1)
  {
    OperandAlone(f, lits, ts, pos, e, end + 1);
  }

  /** Parsing undoes printing: the same tree, left-associative, and the parser stops at the first token
      that is no binary operator and begins no suffix. */
  lemma ParsePrint(f: Suffix, lits: bool, before: seq<Token>, e: Ast, rest: seq<Token>)
    requires Forward(f) && IsExpr(e) && Precedence(Tok(rest, 0)) == LOWEST && !IsSuffix(Tok(rest, 0), lits)
    ensures var ts := before + Print(e, LOWEST) + rest;
      ParseExpr(f, lits, ts, |before|, LOWEST) == Parsed(e, |before| + |Print(e, LOWEST)|)
  {
    var s := Print(e, LOWEST);
    var ts := before + s + rest;
    Between(before, s, rest);
    ParseWhole(f, lits, ts, |before|, e, s, |before| + |s|);
  }

  lemma Between(before: seq<Token>, s: seq<Token>, rest: seq<Token>)
    ensures var ts := before + s + rest; Stands(ts, |before|, s) && Tok(ts, |before| + |s|) == Tok(rest, 0)
  {
  }

  /** The parentheses that printing puts are needed: without those around the right operand, an operator
      of the same precedence groups to the left. */
  lemma ParenthesesMatter(s: Suffix, lits: bool, x: Ast, y: Ast, z: Ast, f: Token, g: Token)
    requires Forward(s) && IsExpr(x) && IsExpr(y) && IsExpr(z) && Precedence(f) == Precedence(g) > LOWEST
    ensures var bare := Print(x, Precedence(f) - 1) + [f] + (Print(y, Precedence(g)) + [g] + Print(z, Precedence(g)));
      ParseExpr(s, lits, bare, 0, LOWEST).node == Binary(g, Binary(f, x, y), z)
  {
    var p := Precedence(f);
    var e := Binary(g, Binary(f, x, y), z);
    var (a, b, c) := (Print(x, p - 1), Print(y, p), Print(z, p));
    assert Print(Binary(f, x, y), p - 1) == a + [f] + b;
    assert Print(e, LOWEST) == (a + [f] + b) + [g] + c;
    Regroup(a, [f], b, [g], c);
    ParsePrint(s, lits, [], e, []);
    var bare := Print(e, LOWEST);
    assert [] + bare + [] == bare;
  }

  lemma Regroup(a: seq<Token>, f: seq<Token>, b: seq<Token>, g: seq<Token>, c: seq<Token>)
    ensures (a + f + b) + g + c == a + f + (b + g + c)
  {
  }

  // ---------------------------------------------------------------- the parser

  class Parser {
    const toks: seq<Token>
    const suffix: Suffix
    var pos: nat

    constructor (toks: seq<Token>, suffix: Suffix)
      ensures this.toks == toks && this.suffix == suffix && pos == 0
    {
      this.toks, this.suffix := toks, suffix;
      pos := 0;
    }

    method Current() returns (t: Token)
      requires pos <= |toks|
      ensures t == Tok(toks, pos)
    {
      t := if pos < |toks| then toks[pos] else EOF;
    }

    method Advance()
      requires pos <= |toks|
      modifies this
      ensures pos == Next(toks, old(pos)) <= |toks|
    {
      if pos < |toks| {
        pos := pos + 1;
      }
    }

    method ParseExprOrType(prec: nat, lits: bool) returns (node: Ast)
      requires pos <= |toks| && Forward(suffix)
      modifies this
      ensures Parsed(node, pos) == ParseExpr(suffix, lits, toks, old(pos), prec) && pos <= |toks|
      decreases |toks| - pos, 3
    {
      ghost var start := pos;
      node := ParseUnaryExpr(lits);
      while true
        invariant start <= pos <= |toks|
        invariant Climb(suffix, lits, toks, pos, prec, node) == ParseExpr(suffix, lits, toks, start, prec)
        decreases |toks| - pos
      {
        var t := Current();
        var tokPrec := Precedence(t);
        if tokPrec <= prec {
          break;
        }
        Advance();
        var y := ParseExprOrType(tokPrec, lits);
        node := Binary(t, node, y);
      }
    }

    method ParseUnaryExpr(lits: bool) returns (node: Ast)
      requires pos <= |toks| && Forward(suffix)
      modifies this
      ensures Parsed(node, pos) == ParseUnary(suffix, lits, toks, old(pos)) && pos <= |toks|
      decreases |toks| - pos, 2
    {
      var t := Current();
      if !IsUnary(t) {
        node := ParsePrimaryExpr(lits);
        return;
      }
      Advance();
      var x := ParseUnaryExpr(lits);
      node := Unary(t, x);
    }

    method ParsePrimaryExpr(lits: bool) returns (node: Ast)
      requires pos <= |toks| && Forward(suffix)
      modifies this
      ensures Parsed(node, pos) == ParsePrimary(suffix, lits, toks, old(pos)) && pos <= |toks|
      decreases |toks| - pos, 1
    {
      ghost var start := pos;
      node := ParseOperandExpr();
      while true
        invariant start <= pos <= |toks|
        invariant Suffixes(suffix, lits, toks, pos, node) == ParsePrimary(suffix, lits, toks, start)
        decreases |toks| - pos
      {
        var t := Current();
        if !IsSuffix(t, lits) {
          return;
        }
        var (r, more) := suffix(lits, toks, pos, node);
        node, pos := r.node, r.pos;
        if !more {
          return;
        }
      }
    }

    method ParseOperandExpr() returns (node: Ast)
      requires pos <= |toks| && Forward(suffix)
      modifies this
      ensures Parsed(node, pos) == ParseOperand(suffix, toks, old(pos)) && pos <= |toks|
      decreases |toks| - pos, 0
    {
      var t := Current();
      if t.Name? {
        Advance();
        node := Atom(t);
      } else if t == LPAREN {
        Advance();
        node := ParseExprOrType(LOWEST, true);
        node := LeaveNode(node, RPAREN);
      } else {
        Advance();
        node := Bad(t);
      }
    }

    method LeaveNode(x: Ast, close: Token) returns (node: Ast)
      requires pos <= |toks| && close != EOF
      modifies this
      ensures Parsed(node, pos) == Leave(toks, old(pos), x, close) && pos <= |toks|
    {
      node := x;
      var badnode := false;
      ghost var start := pos;
      var t := Current();
      while t != close
        invariant start <= pos <= |toks| && t == Tok(toks, pos)
        invariant !badnode ==> pos == start && node == x
        invariant badnode ==> node == BadNode(x) && Skip(toks, pos, node, close) == Leave(toks, start, x, close)
        decreases |toks| - pos, !badnode
      {
        if !badnode {
          badnode := true;
          node := BadNode(node);
        }
        if t == EOF {
          return;
        }
        Advance();
        t := Current();
      }
      Advance();
    }
  }
}
