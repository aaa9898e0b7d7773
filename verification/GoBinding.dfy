/** How the operators of go/token/token.go bind, operator by operator, in what go/parser/expr.go parses. */
module GoBinding {
  import opened GoParser

  /** The groups of binary operators, loosest first. */
  const GROUPS: seq<set<Token>> := [
    {LOR},
    {LAND},
    {EQL, NEQ, LSS, LEQ, GTR, GEQ},
    {ADD, SUB, OR, XOR},
    {MUL, QUO, REM, SHL, SHR, AND, AND_NOT}
  ]

  /** The tokens of an operand: a name, a unary operation, or anything in parentheses. */
  function Operand(x: Ast): seq<Token>
    requires IsExpr(x)
  {
    Print(x, 5)
  }

  /** The operand x stands from pos on, up to the token at end, which continues no operand. */
  predicate OperandAt(ts: seq<Token>, pos: nat, end: nat, x: Ast, lits: bool) {
    IsExpr(x) && Stands(ts, pos, Operand(x)) && end == pos + |Operand(x)| && !IsSuffix(Tok(ts, end), lits)
  }

  lemma OperandParses(s: Suffix, lits: bool, ts: seq<Token>, pos: nat, end: nat, x: Ast, k: nat)
    requires Forward(s) && OperandAt(ts, pos, end, x, lits) && k <= 5
    ensures pos <= end <= |ts| && ParseExpr(s, lits, ts, pos, k) == Climb(s, lits, ts, end, k, x)
  {
    ParsePrinted(s, lits, ts, pos, x, 5, k);
  }

  /** One operator and its right operand, in front of an operator that binds no tighter. */
  lemma Turn(s: Suffix, lits: bool, ts: seq<Token>, mid: nat, end: nat, k: nat, x: Ast, y: Ast)
    requires Forward(s) && mid < |ts| && OperandAt(ts, mid + 1, end, y, lits)
    requires k < Precedence(ts[mid]) && Precedence(Tok(ts, end)) <= Precedence(ts[mid])
    ensures end <= |ts| && Climb(s, lits, ts, mid, k, x) == Climb(s, lits, ts, end, k, Binary(ts[mid], x, y))
  {
    OperandParses(s, lits, ts, mid + 1, end, y, Precedence(ts[mid]));
    ClimbStep(s, lits, ts, mid, end, k, Binary(ts[mid], x, y));
  }

  lemma BothLeft(s: Suffix, lits: bool, ts: seq<Token>, i: nat, j: nat, end: nat, x: Ast, y: Ast, z: Ast)
    requires Forward(s) && OperandAt(ts, 0, i, x, lits) && OperandAt(ts, i + 1, j, y, lits)
    requires OperandAt(ts, j + 1, end, z, lits)
    requires i < j < end <= |ts| && Precedence(ts[i]) >= Precedence(ts[j]) > Precedence(Tok(ts, end)) == LOWEST
    ensures ParseExpr(s, lits, ts, 0, LOWEST) == Parsed(Binary(ts[j], Binary(ts[i], x, y), z), end)
  {
    OperandParses(s, lits, ts, 0, i, x, LOWEST);
    Turn(s, lits, ts, i, j, LOWEST, x, y);
    Turn(s, lits, ts, j, end, LOWEST, Binary(ts[i], x, y), z);
    ClimbStops(s, lits, ts, end, LOWEST, Binary(ts[j], Binary(ts[i], x, y), z));
  }

  lemma RightFirst(s: Suffix, lits: bool, ts: seq<Token>, i: nat, j: nat, end: nat, x: Ast, y: Ast, z: Ast)
    requires Forward(s) && OperandAt(ts, 0, i, x, lits) && OperandAt(ts, i + 1, j, y, lits)
    requires OperandAt(ts, j + 1, end, z, lits)
    requires i < j < end <= |ts| && LOWEST < Precedence(ts[i]) < Precedence(ts[j]) && Precedence(Tok(ts, end)) == LOWEST
    ensures ParseExpr(s, lits, ts, 0, LOWEST) == Parsed(Binary(ts[i], x, Binary(ts[j], y, z)), end)
  {
    var (p, right) := (Precedence(ts[i]), Binary(ts[j], y, z));
    OperandParses(s, lits, ts, 0, i, x, LOWEST);
    OperandParses(s, lits, ts, i + 1, j, y, p);
    Turn(s, lits, ts, j, end, p, y, z);
    ClimbStep(s, lits, ts, i, end, LOWEST, Binary(ts[i], x, right));
    ClimbStops(s, lits, ts, end, LOWEST, Binary(ts[i], x, right));
  }

  /** Where the five parts stand. */
  lemma FiveParts(a: seq<Token>, f: Token, b: seq<Token>, g: Token, c: seq<Token>)
    ensures var ts := a + [f] + b + [g] + c; var j := |a| + 1 + |b|;
      && Stands(ts, 0, a) && Stands(ts, |a| + 1, b) && Stands(ts, j + 1, c) && |ts| == j + 1 + |c|
      && ts[|a|] == f && ts[j] == g
  {
  }

  lemma OperandLength(x: Ast)
    requires IsExpr(x)
    ensures |Operand(x)| > 0
  {
  }

  /** `x f y g z`: the operator of the tighter group binds its operands first, and of one group the left one does. */
  lemma Binding(s: Suffix, lits: bool, x: Ast, f: Token, y: Ast, g: Token, z: Ast, m: nat, n: nat)
    requires Forward(s) && IsExpr(x) && IsExpr(y) && IsExpr(z)
    requires m < |GROUPS| && f in GROUPS[m] && n < |GROUPS| && g in GROUPS[n]
    ensures ParseExpr(s, lits, Operand(x) + [f] + Operand(y) + [g] + Operand(z), 0, LOWEST).node
      == if m < n then Binary(f, x, Binary(g, y, z)) else Binary(g, Binary(f, x, y), z)
  {
    var (a, b, c) := (Operand(x), Operand(y), Operand(z));
    var ts := a + [f] + b + [g] + c;
    var (i, j) := (|a|, |a| + 1 + |b|);
    FiveParts(a, f, b, g, c);
    OperandLength(y);
    OperandLength(z);
    GroupLevel(f, m);
    GroupLevel(g, n);
    if m < n {
      RightFirst(s, lits, ts, i, j, |ts|, x, y, z);
    } else {
      BothLeft(s, lits, ts, i, j, |ts|, x, y, z);
    }
  }

  lemma GroupLevel(t: Token, n: nat)
    requires n < |GROUPS| && t in GROUPS[n]
    ensures Precedence(t) == n + 1 && !IsSuffix(t, true)
  {
  }

  /** A unary operator binds tighter than any binary one. */
  lemma UnaryBinding(s: Suffix, lits: bool, u: Token, x: Ast, f: Token, y: Ast, n: nat)
    requires Forward(s) && IsExpr(x) && IsExpr(y)
    requires u in {ADD, SUB, MUL, AND, XOR, ARROW, NOT} && n < |GROUPS| && f in GROUPS[n]
    ensures ParseExpr(s, lits, [u] + Operand(x) + [f] + Operand(y), 0, LOWEST).node == Binary(f, Unary(u, x), y)
  {
    var (e, b) := (Unary(u, x), Operand(y));
    var ts := Operand(e) + [f] + b;
    assert Operand(e) == [u] + Operand(x);
    GroupLevel(f, n);
    OperandLength(y);
    ThreeParts(Operand(e), f, b);
    OneTurn(s, lits, ts, |Operand(e)|, |ts|, e, y);
  }

  lemma OneTurn(s: Suffix, lits: bool, ts: seq<Token>, i: nat, end: nat, x: Ast, y: Ast)
    requires Forward(s) && OperandAt(ts, 0, i, x, lits) && OperandAt(ts, i + 1, end, y, lits)
    requires i < end <= |ts| && Precedence(ts[i]) > Precedence(Tok(ts, end)) == LOWEST
    ensures ParseExpr(s, lits, ts, 0, LOWEST) == Parsed(Binary(ts[i], x, y), end)
  {
    OperandParses(s, lits, ts, 0, i, x, LOWEST);
    Turn(s, lits, ts, i, end, LOWEST, x, y);
    ClimbStops(s, lits, ts, end, LOWEST, Binary(ts[i], x, y));
  }

  lemma ThreeParts(a: seq<Token>, f: Token, b: seq<Token>)
    ensures var ts := a + [f] + b; Stands(ts, 0, a) && Stands(ts, |a| + 1, b) && |ts| == |a| + 1 + |b| && ts[|a|] == f
  {
  }

  // ---------------------------------------------------------------- which tokens are operators

  /** `a t b` is a binary operation exactly for the operators of the groups; another token ends the operand, unless it
      begins a suffix. */
  lemma BinaryExact(s: Suffix, lits: bool, a: Token, t: Token, b: Token)
    requires Forward(s) && a.Name? && b.Name? && t !in {LPAREN, LBRACK, LBRACE, PERIOD}
    ensures ParseExpr(s, lits, [a, t, b], 0, LOWEST)
      == if exists n :: 0 <= n < |GROUPS| && t in GROUPS[n] then Parsed(Binary(t, Atom(a), Atom(b)), 3)
         else Parsed(Atom(a), 1)
  {
    var ts := [a, t, b];
    AtomAt(ts, 0);
    AtomAt(ts, 2);
    if exists n :: 0 <= n < |GROUPS| && t in GROUPS[n] {
      var n :| 0 <= n < |GROUPS| && t in GROUPS[n];
      GroupLevel(t, n);
      OneTurn(s, lits, ts, 1, 3, Atom(a), Atom(b));
    } else {
      NoGroup(t);
      OperandParses(s, lits, ts, 0, 1, Atom(a), LOWEST);
      ClimbStops(s, lits, ts, 1, LOWEST, Atom(a));
    }
  }

  lemma NoGroup(t: Token)
    requires !exists n :: 0 <= n < |GROUPS| && t in GROUPS[n]
    ensures Precedence(t) == LOWEST
  {
    assert t !in GROUPS[0] && t !in GROUPS[1] && t !in GROUPS[2] && t !in GROUPS[3] && t !in GROUPS[4];
  }

  lemma AtomAt(ts: seq<Token>, i: nat)
    requires i < |ts| && ts[i].Name?
    ensures Stands(ts, i, Operand(Atom(ts[i])))
  {
  }

  /** `t a` is a unary operation exactly for the unary operators. */
  lemma UnaryExact(s: Suffix, lits: bool, t: Token, a: Token)
    requires Forward(s) && a.Name?
    ensures ParseExpr(s, lits, [t, a], 0, LOWEST).node == Unary(t, Atom(a)) <==> t in {ADD, SUB, MUL, AND, XOR, ARROW, NOT}
  {
    var ts := [t, a];
    AtomAt(ts, 1);
    if IsUnary(t) {
      ParseTight(s, lits, ts, 1, Atom(a), 5);
      UnaryStep(s, lits, ts, 0, t, Atom(a), 2);
      ClimbStops(s, lits, ts, 2, LOWEST, Unary(t, Atom(a)));
    } else if t == LPAREN {
      ParenOpen(s, lits, a);
    } else {
      assert ParseOperand(s, ts, 0) == Parsed(if t.Name? then Atom(t) else Bad(t), 1);
      assert ParseUnary(s, lits, ts, 0) == ParseOperand(s, ts, 0);
    }
  }

  /** A parenthesis that is never closed. */
  lemma ParenOpen(s: Suffix, lits: bool, a: Token)
    requires Forward(s) && a.Name?
    ensures ParseExpr(s, lits, [LPAREN, a], 0, LOWEST) == Parsed(BadNode(Atom(a)), 2)
  {
    var ts := [LPAREN, a];
    AtomAt(ts, 1);
    OperandParses(s, true, ts, 1, 2, Atom(a), LOWEST);
    ClimbStops(s, true, ts, 2, LOWEST, Atom(a));
    assert ParseOperand(s, ts, 0) == Parsed(BadNode(Atom(a)), 2);
    assert ParseUnary(s, lits, ts, 0) == Parsed(BadNode(Atom(a)), 2);
    ClimbStops(s, lits, ts, 2, LOWEST, BadNode(Atom(a)));
  }

  /** Behind a name, a suffix is parsed exactly at ( [ . and, where composite literals are allowed, at {. */
  lemma SuffixExact(s: Suffix, lits: bool, a: Token, t: Token)
    requires Forward(s) && a.Name?
    ensures var (r, more) := s(lits, [a, t], 1, Atom(a));
      ParsePrimary(s, lits, [a, t], 0) ==
        if t == LPAREN || t == LBRACK || t == PERIOD || (t == LBRACE && lits) then r else Parsed(Atom(a), 1)
  {
    var ts := [a, t];
    assert ParseOperand(s, ts, 0) == Parsed(Atom(a), 1);
    var (r, more) := s(lits, ts, 1, Atom(a));
    if IsSuffix(t, lits) && more {
      assert r.pos == 2;
      assert Suffixes(s, lits, ts, 2, r.node) == r;
    }
  }

  /** One suffix after the other is parsed, as long as their parser goes on and another one begins. */
  lemma {:induction false} SuffixesExact(s: Suffix, lits: bool, ts: seq<Token>, pos: nat, x: Ast)
    requires Forward(s) && pos <= |ts| && forall i: nat, y: Ast :: pos <= i < |ts| ==> s(lits, ts, i, y).1
    ensures var r := Suffixes(s, lits, ts, pos, x);
      r.pos == |ts| || ts[r.pos] !in {LPAREN, LBRACK, PERIOD, LBRACE} || (ts[r.pos] == LBRACE && !lits)
    decreases |ts| - pos
  {
    if IsSuffix(Tok(ts, pos), lits) {
      var r := s(lits, ts, pos, x).0;
      SuffixesExact(s, lits, ts, r.pos, r.node);
    }
  }

  // ---------------------------------------------------------------- unclosed nodes

  /** At the closing token a node is left as it is; otherwise it is marked, and everything is skipped through the next
      closing token, or up to the end. */
  lemma LeaveExact(ts: seq<Token>, pos: nat, x: Ast, close: Token)
    requires pos <= |ts| && close != EOF
    ensures var r := Leave(ts, pos, x, close);
      if Tok(ts, pos) == close then r == Parsed(x, pos + 1)
      else r.node == BadNode(x) && SkippedTo(ts, pos, r.pos, close)
  {
    if Tok(ts, pos) != close {
      SkipExact(ts, pos, BadNode(x), close);
    }
  }

  /** The tokens from pos on, in front of `to`, hold the closing token in the last place only, or not at all up to the
      end. */
  predicate SkippedTo(ts: seq<Token>, pos: nat, to: nat, close: Token) {
    pos <= to <= |ts|
    && ((to > pos && ts[to - 1] == close && forall i :: pos <= i < to - 1 ==> ts[i] != close && ts[i] != EOF)
        || (Tok(ts, to) == EOF && forall i :: pos <= i < to ==> ts[i] != close && ts[i] != EOF))
  }

  lemma {:induction false} SkipExact(ts: seq<Token>, pos: nat, x: Ast, close: Token)
    requires pos <= |ts| && close != EOF
    ensures var r := Skip(ts, pos, x, close); r.node == x && SkippedTo(ts, pos, r.pos, close)
    decreases |ts| - pos
  {
    if Tok(ts, pos) != close && Tok(ts, pos) != EOF {
      SkipExact(ts, pos + 1, x, close);
    }
  }
}
