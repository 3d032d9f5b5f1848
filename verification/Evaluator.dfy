/** The one-pass evaluator: precedence climbing over one-character operator tokens,
    against a printer that puts in only the parentheses that are needed. */
module Evaluator {
  import opened Wrappers

  /** Number, string and keyword tokens carry their value; the operators are whatever
      functions the language gives. */
  datatype Token<V> = Operand(v: V) | Punct(c: char) | Eof

  datatype Semantics<!V> = Semantics(unary: (char, V) -> V, binary: (string, V, V) -> V)

  datatype Outcome<V> = Ok(v: V) | SyntaxError | Postfix

  /** The precedence table. `=` is recognised as an operator but has no entry. */
  function Precedence(op: string): Option<nat> {
    if op == "||" then Some(1)
    else if op == "&&" then Some(2)
    else if op in ["==", "!=", "===", "!=="] then Some(3)
    else if op in ["<", "<=", ">", ">="] then Some(4)
    else if op in ["+", "-"] then Some(5)
    else if op in ["*", "/", "%"] then Some(6)
    else None
  }

  predicate IsUnaryOp(c: char) {
    c == '-' || c == '!' || c == '+'
  }

  function PunctAt<V>(ts: seq<Token<V>>, i: nat): string {
    if i < |ts| && ts[i].Punct? then [ts[i].c] else []
  }

  /** The operator at the head of the tokens, and how many tokens it is: three characters
      before two before one. */
  function PeekOp<V>(ts: seq<Token<V>>): (r: Option<(string, nat)>)
    ensures r.Some? ==> 1 <= r.value.1 <= |ts|
  {
    var a, b, c := PunctAt(ts, 0), PunctAt(ts, 1), PunctAt(ts, 2);
    if a == [] then None
    else if b != [] && c != [] && a + b + c in ["===", "!=="] then Some((a + b + c, 3))
    else if b != [] && a + b in ["==", "!=", "<=", ">=", "&&", "||"] then Some((a + b, 2))
    else if a in ["+", "-", "*", "/", "%", "<", ">", "="] then Some((a, 1))
    else None
  }

  // ----- what the evaluator computes ------------------------------------------------------

  function EvalBinary<V>(sem: Semantics<V>, ts: seq<Token<V>>, minPrec: nat): (r: (Outcome<V>, seq<Token<V>>))
    ensures |r.1| <= |ts| && (r.0.Ok? ==> |r.1| < |ts|)
    decreases |ts|, 2
  {
    var (left, rest) := EvalUnary(sem, ts);
    if !left.Ok? then (left, rest) else Climb(sem, left.v, rest, minPrec)
  }

  /** The loop after the left operand. */
  function Climb<V>(sem: Semantics<V>, left: V, ts: seq<Token<V>>, minPrec: nat): (r: (Outcome<V>, seq<Token<V>>))
    ensures |r.1| <= |ts|
    decreases |ts|, 3
  {
    var op := PeekOp(ts);
    if op.None? || Precedence(op.value.0).None? || Precedence(op.value.0).value < minPrec then (Ok(left), ts)
    else
      var (right, rest) := EvalBinary(sem, ts[op.value.1..], Precedence(op.value.0).value + 1);
      if !right.Ok? then (right, rest)
      else Climb(sem, sem.binary(op.value.0, left, right.v), rest, minPrec)
  }

  function EvalUnary<V>(sem: Semantics<V>, ts: seq<Token<V>>): (r: (Outcome<V>, seq<Token<V>>))
    ensures |r.1| <= |ts| && (r.0.Ok? ==> |r.1| < |ts|)
    decreases |ts|, 1
  {
    if ts != [] && ts[0].Punct? && IsUnaryOp(ts[0].c) then
      var (v, rest) := EvalUnary(sem, ts[1..]);
      (if v.Ok? then Ok(sem.unary(ts[0].c, v.v)) else v, rest)
    else EvalPostfix(sem, ts)
  }

  predicate StartsPostfix<V>(ts: seq<Token<V>>) {
    PunctAt(ts, 0) in [".", "[", "("]
  }

  /** A primary; member access and calls after it end the evaluation in this model. */
  function EvalPostfix<V>(sem: Semantics<V>, ts: seq<Token<V>>): (r: (Outcome<V>, seq<Token<V>>))
    ensures |r.1| <= |ts| && (r.0.Ok? ==> |r.1| < |ts|)
    decreases |ts|, 0, 1
  {
    var (v, rest) := EvalPrimary(sem, ts);
    if v.Ok? && StartsPostfix(rest) then (Postfix, rest) else (v, rest)
  }

  function EvalPrimary<V>(sem: Semantics<V>, ts: seq<Token<V>>): (r: (Outcome<V>, seq<Token<V>>))
    ensures |r.1| <= |ts| && (r.0.Ok? ==> |r.1| < |ts|)
    decreases |ts|, 0, 0
  {
    if ts == [] then (SyntaxError, ts)
    else match ts[0]
      case Operand(v) => (Ok(v), ts[1..])
      case Eof => (SyntaxError, ts)
      case Punct(c) =>
        if c != '(' then (SyntaxError, ts)
        else
          var (v, rest) := EvalBinary(sem, ts[1..], 0);
          if !v.Ok? then (v, rest)
          else if PunctAt(rest, 0) == ")" then (v, rest[1..])
          else (SyntaxError, rest)
  }

  // ----- trees and their printing ----------------------------------------------------------

  /** `Group` is a pair of parentheses that the tree itself asks for. */
  datatype Expr<V> =
    | Lit(v: V) | Un(c: char, e: Expr<V>) | Bin(op: string, l: Expr<V>, r: Expr<V>) | Group(e: Expr<V>)

  predicate WellFormed<V>(e: Expr<V>) {
    match e
    case Lit(_) => true
    case Un(c, e1) => IsUnaryOp(c) && WellFormed(e1)
    case Bin(op, l, r) => Precedence(op).Some? && WellFormed(l) && WellFormed(r)
    case Group(e1) => WellFormed(e1)
  }

  function Meaning<V>(sem: Semantics<V>, e: Expr<V>): V {
    match e
    case Lit(v) => v
    case Un(c, e1) => sem.unary(c, Meaning(sem, e1))
    case Bin(op, l, r) => sem.binary(op, Meaning(sem, l), Meaning(sem, r))
    case Group(e1) => Meaning(sem, e1)
  }

  /** An operator is as many tokens as it has characters. */
  function OpTokens<V>(op: string): seq<Token<V>> {
    seq(|op|, i requires 0 <= i < |op| => Punct(op[i]))
  }

  function Parens<V>(ts: seq<Token<V>>): seq<Token<V>> {
    [Punct('(')] + ts + [Punct(')')]
  }

  function Print<V>(e: Expr<V>): seq<Token<V>>
    requires WellFormed(e)
    decreases e, 0
  {
    match e
    case Lit(v) => [Operand(v)]
    case Un(c, e1) => [Punct(c)] + PrintAt(e1, 7)
    case Group(e1) => Parens(Print(e1))
    case Bin(op, l, r) =>
      var p := Precedence(op).value;
      PrintAt(l, p) + OpTokens(op) + PrintAt(r, p + 1)
  }

  /** In a place that needs precedence m, a looser operator is put in parentheses. */
  function PrintAt<V>(e: Expr<V>, m: nat): seq<Token<V>>
    requires WellFormed(e)
    decreases e, 1
  {
    if Bare(e, m) then Print(e) else Parens(Print(e))
  }

  predicate Bare<V>(e: Expr<V>, m: nat)
    requires WellFormed(e)
  {
    e.Bin? ==> Precedence(e.op).value >= m
  }

  // ----- reading an operator back ------------------------------------------------------------

  /** No token an operand can start with continues an operator. */
  predicate StartsOperand<V>(ts: seq<Token<V>>) {
    ts != [] && (ts[0].Punct? ==> ts[0].c == '(' || IsUnaryOp(ts[0].c))
  }

  lemma PrintStartsOperand<V>(e: Expr<V>, m: nat, rest: seq<Token<V>>)
    requires WellFormed(e)
    ensures StartsOperand(PrintAt(e, m) + rest) && StartsOperand(Print(e) + rest)
  {
    match e
    case Bin(op, l, r) => PrintStartsOperand(l, Precedence(op).value, []);
    case _ =>
  }

  lemma PeekReadsOp<V>(op: string, rest: seq<Token<V>>)
    requires Precedence(op).Some? && StartsOperand(rest)
    ensures PeekOp(OpTokens(op) + rest) == Some((op, |op|))
  {
    var ts := OpTokens<V>(op) + rest;
    assert forall i :: 0 <= i < |op| ==> PunctAt(ts, i) == [op[i]];
    assert ts[|op|] == rest[0];
    assert PunctAt(ts, |op|) in ["", "(", "-", "!", "+"];
    if |op| == 1 {
      assert op == [op[0]];
      NothingContinues(op, PunctAt(ts, 1), PunctAt(ts, 2));
    } else if |op| == 2 {
      assert op == [op[0]] + [op[1]];
      NothingContinues(op, PunctAt(ts, 2), "");
    } else {
      assert op == [op[0]] + [op[1]] + [op[2]];
    }
  }

  /** An operator with a character after it that an operand can start with is no operator. */
  lemma NothingContinues(op: string, b: string, c: string)
    requires Precedence(op).Some? && |op| <= 2 && b in ["", "(", "-", "!", "+"] && |c| <= 1
    ensures b != [] ==> op + b !in ["===", "!==", "==", "!=", "<=", ">=", "&&", "||"]
    ensures b != [] && c != [] && |op| == 1 ==> op + b + c !in ["===", "!=="]
  {
    if b != [] {
      assert (op + b)[|op|] == b[0];
      if c != [] { assert (op + b + c)[|op|] == b[0]; }
      assert |op| == 2 ==> |op + b| == 3;
    }
  }

  // ----- evaluating what was printed -----------------------------------------------------------

  /** What may follow a printed tree: no postfix, and no operator that binds tighter than
      the tree's own. */
  predicate Follows<V>(e: Expr<V>, rest: seq<Token<V>>)
    requires WellFormed(e)
  {
    && !StartsPostfix(rest)
    && (e.Bin? ==> BindsBelow(rest, Precedence(e.op).value + 1))
  }

  /** The tokens do not start with an operator of precedence m or more. */
  predicate BindsBelow<V>(rest: seq<Token<V>>, m: nat) {
    var op := PeekOp(rest);
    op.None? || Precedence(op.value.0).None? || Precedence(op.value.0).value < m
  }

  lemma ClimbStops<V>(sem: Semantics<V>, left: V, rest: seq<Token<V>>, m: nat)
    requires BindsBelow(rest, m)
    ensures Climb(sem, left, rest, m) == (Ok(left), rest)
  {
  }

  /** A unary or literal, or anything in parentheses, is read by the unary level. */
  lemma {:induction false} UnaryReads<V>(sem: Semantics<V>, e: Expr<V>, rest: seq<Token<V>>)
    requires WellFormed(e) && !e.Bin? && !StartsPostfix(rest)
    ensures EvalUnary(sem, Print(e) + rest) == (Ok(Meaning(sem, e)), rest)
    decreases e, 0
  {
    match e
    case Lit(v) =>
      var ts := Print(e) + rest;
      assert ts[0] == Operand(v) && ts[1..] == rest;
      assert EvalPrimary(sem, ts) == (Ok(v), rest);
    case Un(c, e1) =>
      assert (Print(e) + rest)[1..] == PrintAt(e1, 7) + rest;
      PrintedUnary(sem, e1, 7, rest);
    case Group(e1) => ParensRead(sem, e1, rest);
  }

  /** The unary level reads a tree printed where only the unary level will do. */
  lemma {:induction false} PrintedUnary<V>(sem: Semantics<V>, e: Expr<V>, m: nat, rest: seq<Token<V>>)
    requires WellFormed(e) && !StartsPostfix(rest) && (Bare(e, m) ==> !e.Bin?)
    ensures EvalUnary(sem, PrintAt(e, m) + rest) == (Ok(Meaning(sem, e)), rest)
    decreases e, 2
  {
    if Bare(e, m) {
      UnaryReads(sem, e, rest);
    } else {
      ParensRead(sem, e, rest);
    }
  }

  lemma {:induction false} ParensRead<V>(sem: Semantics<V>, e: Expr<V>, rest: seq<Token<V>>)
    requires WellFormed(e) && !StartsPostfix(rest)
    ensures EvalUnary(sem, Parens(Print(e)) + rest) == (Ok(Meaning(sem, e)), rest)
    decreases e, 1, 1
  {
    var ts := Parens(Print(e)) + rest;
    var close := [Punct(')')] + rest;
    assert ts[1..] == Print(e) + close;
    CloseIsNoOp(rest);
    BinaryReads(sem, e, 0, close);
    ClimbStops(sem, Meaning(sem, e), close, 0);
    assert close[1..] == rest && ts[0] == Punct('(');
    assert EvalPrimary(sem, ts) == (Ok(Meaning(sem, e)), rest);
  }

  lemma CloseIsNoOp<V>(rest: seq<Token<V>>)
    ensures var close := [Punct(')')] + rest;
      PunctAt(close, 0) == ")" && PeekOp(close) == None && !StartsPostfix(close)
  {
    var close := [Punct(')')] + rest;
    var b, c := PunctAt(close, 1), PunctAt(close, 2);
    assert (")" + b + c)[0] == ')' && (")" + b)[0] == ')';
  }

  /** The heart of the matter: reading a tree printed bare brings the loop to the tree's
      value, with exactly the tokens of the tree consumed. */
  lemma {:induction false} BinaryReads<V>(sem: Semantics<V>, e: Expr<V>, m: nat, rest: seq<Token<V>>)
    requires WellFormed(e) && Bare(e, m) && Follows(e, rest)
    ensures EvalBinary(sem, Print(e) + rest, m) == Climb(sem, Meaning(sem, e), rest, m)
    decreases e, 1, 0
  {
    if !e.Bin? {
      UnaryReads(sem, e, rest);
    } else {
      OperatorHeads(e, rest);
      LeftReads(sem, e.l, Precedence(e.op).value, m, AfterLeft(e, rest));
      RightReads(sem, e.r, Precedence(e.op).value + 1, rest);
      ClimbsOver(sem, e, m, rest);
    }
  }

  /** What follows the left operand of a printed tree. */
  function AfterLeft<V>(e: Expr<V>, rest: seq<Token<V>>): seq<Token<V>>
    requires WellFormed(e) && e.Bin?
  {
    OpTokens(e.op) + (PrintAt(e.r, Precedence(e.op).value + 1) + rest)
  }

  /** Past its operator and right operand, the loop goes on with the value of the tree. */
  lemma ClimbsOver<V>(sem: Semantics<V>, e: Expr<V>, m: nat, rest: seq<Token<V>>)
    requires WellFormed(e) && e.Bin? && Bare(e, m)
    requires var p := Precedence(e.op).value;
      EvalBinary(sem, PrintAt(e.r, p + 1) + rest, p + 1) == (Ok(Meaning(sem, e.r)), rest)
    ensures Climb(sem, Meaning(sem, e.l), AfterLeft(e, rest), m) == Climb(sem, Meaning(sem, e), rest, m)
  {
    OperatorHeads(e, rest);
    ClimbUnfolds(sem, Meaning(sem, e.l), AfterLeft(e, rest), m);
  }

  /** Between its operands the printed operator is met whole. */
  lemma OperatorHeads<V>(e: Expr<V>, rest: seq<Token<V>>)
    requires WellFormed(e) && e.Bin?
    ensures var p := Precedence(e.op).value;
      var after := AfterLeft(e, rest);
      && Print(e) + rest == PrintAt(e.l, p) + after
      && PeekOp(after) == Some((e.op, |e.op|)) && after[|e.op|..] == PrintAt(e.r, p + 1) + rest
      && !StartsPostfix(after) && BindsBelow(after, p + 1)
  {
    var p := Precedence(e.op).value;
    var tail := PrintAt(e.r, p + 1) + rest;
    assert Print(e) + rest == PrintAt(e.l, p) + (OpTokens(e.op) + tail);
    PrintStartsOperand(e.r, p + 1, rest);
    PeekReadsOp(e.op, tail);
    OpIsNoPostfix(e.op, tail);
  }

  lemma OpIsNoPostfix<V>(op: string, tail: seq<Token<V>>)
    requires Precedence(op).Some?
    ensures !StartsPostfix(OpTokens(op) + tail) && |op| > 0
  {
    assert (OpTokens<V>(op) + tail)[0] == Punct(op[0]);
  }

  /** The left operand of an operator of precedence p: left-nested operators of the same
      precedence stay bare, so the loop goes on from their value. */
  lemma {:induction false} LeftReads<V>(sem: Semantics<V>, l: Expr<V>, p: nat, m: nat, after: seq<Token<V>>)
    requires WellFormed(l) && m <= p && !StartsPostfix(after) && BindsBelow(after, p + 1)
    ensures EvalBinary(sem, PrintAt(l, p) + after, m) == Climb(sem, Meaning(sem, l), after, m)
    decreases l, 3
  {
    if Bare(l, p) {
      BinaryReads(sem, l, m, after);
    } else {
      ParensRead(sem, l, after);
    }
  }

  /** The right operand: only tighter operators are bare, so the loop stops after it. */
  lemma {:induction false} RightReads<V>(sem: Semantics<V>, r: Expr<V>, m: nat, rest: seq<Token<V>>)
    requires WellFormed(r) && !StartsPostfix(rest) && BindsBelow(rest, m)
    ensures EvalBinary(sem, PrintAt(r, m) + rest, m) == (Ok(Meaning(sem, r)), rest)
    decreases r, 3
  {
    if Bare(r, m) {
      BinaryReads(sem, r, m, rest);
    } else {
      ParensRead(sem, r, rest);
    }
    ClimbStops(sem, Meaning(sem, r), rest, m);
  }

  /** Evaluating the printed form of any tree gives the value of the tree and consumes
      exactly its tokens, whatever non-operator follows. */
  lemma PrintedTreeEvaluates<V>(sem: Semantics<V>, e: Expr<V>, rest: seq<Token<V>>)
    requires WellFormed(e) && !StartsPostfix(rest) && BindsBelow(rest, 0)
    ensures EvalBinary(sem, Print(e) + rest, 0) == (Ok(Meaning(sem, e)), rest)
  {
    RightReads(sem, e, 0, rest);
  }

  // ----- only printed trees evaluate -------------------------------------------------------------

  lemma PeekIsPrefix<V>(ts: seq<Token<V>>)
    requires PeekOp(ts).Some?
    ensures var (op, n) := PeekOp(ts).value; |op| == n && ts == OpTokens(op) + ts[n..]
  {
    var (op, n) := PeekOp(ts).value;
    forall i | 0 <= i < n ensures ts[i] == Punct(op[i]) {
      assert PunctAt(ts, i) == [op[i]];
    }
  }

  /** If the evaluator succeeds, what it consumed is the printed form of a tree with the
      value it returned, bare at the precedence it was called with. */
  lemma {:induction false} BinaryAccepts<V>(sem: Semantics<V>, ts: seq<Token<V>>, m: nat) returns (e: Expr<V>)
    requires EvalBinary(sem, ts, m).0.Ok?
    ensures WellFormed(e) && Bare(e, m) && EvalBinary(sem, ts, m).0.v == Meaning(sem, e)
    ensures ts == Print(e) + EvalBinary(sem, ts, m).1
    ensures BindsBelow(EvalBinary(sem, ts, m).1, m)
    decreases |ts|, 2
  {
    var (left, rest) := EvalUnary(sem, ts);
    var e0 := UnaryAccepts(sem, ts);
    e := ClimbAccepts(sem, e0, rest, m);
  }

  /** The loop extends the tree on its left, operator by operator. */
  lemma {:induction false} ClimbAccepts<V>(sem: Semantics<V>, e0: Expr<V>, ts: seq<Token<V>>, m: nat)
    returns (e: Expr<V>)
    requires WellFormed(e0) && Bare(e0, m) && (e0.Bin? ==> BindsBelow(ts, Precedence(e0.op).value + 1))
    requires Climb(sem, Meaning(sem, e0), ts, m).0.Ok?
    ensures WellFormed(e) && Bare(e, m) && Climb(sem, Meaning(sem, e0), ts, m).0.v == Meaning(sem, e)
    ensures Print(e0) + ts == Print(e) + Climb(sem, Meaning(sem, e0), ts, m).1
    ensures BindsBelow(Climb(sem, Meaning(sem, e0), ts, m).1, m)
    decreases |ts|, 3
  {
    if BindsBelow(ts, m) {
      e := e0;
    } else {
      var (op, n) := PeekOp(ts).value;
      var p := Precedence(op).value;
      ClimbUnfolds(sem, Meaning(sem, e0), ts, m);
      var r := BinaryAccepts(sem, ts[n..], p + 1);
      var rest := EvalBinary(sem, ts[n..], p + 1).1;
      JoinedPrint(e0, ts, r, rest);
      e := ClimbAccepts(sem, Bin(op, e0, r), rest, m);
    }
  }

  lemma ClimbUnfolds<V>(sem: Semantics<V>, left: V, ts: seq<Token<V>>, m: nat)
    requires !BindsBelow(ts, m)
    ensures var (op, n) := PeekOp(ts).value;
      var (right, rest) := EvalBinary(sem, ts[n..], Precedence(op).value + 1);
      Climb(sem, left, ts, m) == if right.Ok? then Climb(sem, sem.binary(op, left, right.v), rest, m) else (right, rest)
  {
  }

  lemma JoinedPrint<V>(e0: Expr<V>, ts: seq<Token<V>>, r: Expr<V>, rest: seq<Token<V>>)
    requires WellFormed(e0) && WellFormed(r) && PeekOp(ts).Some? && Precedence(PeekOp(ts).value.0).Some?
    requires var (op, n) := PeekOp(ts).value; var p := Precedence(op).value;
      Bare(e0, p) && Bare(r, p + 1) && ts[n..] == Print(r) + rest
    ensures Print(e0) + ts == Print(Bin(PeekOp(ts).value.0, e0, r)) + rest
  {
    var (op, n) := PeekOp(ts).value;
    PeekIsPrefix(ts);
    Regroup(Print(e0), OpTokens(op), Print(r), rest);
  }

  lemma Regroup<T>(a: seq<T>, b: seq<T>, c: seq<T>, d: seq<T>)
    ensures a + (b + (c + d)) == a + b + c + d
  {
  }

  lemma {:induction false} UnaryAccepts<V>(sem: Semantics<V>, ts: seq<Token<V>>) returns (e: Expr<V>)
    requires EvalUnary(sem, ts).0.Ok?
    ensures WellFormed(e) && !e.Bin? && EvalUnary(sem, ts).0.v == Meaning(sem, e)
    ensures ts == Print(e) + EvalUnary(sem, ts).1
    decreases |ts|, 1
  {
    if ts[0].Punct? && IsUnaryOp(ts[0].c) {
      var e1 := UnaryAccepts(sem, ts[1..]);
      e := Un(ts[0].c, e1);
      assert ts == [ts[0]] + ts[1..];
    } else {
      assert EvalUnary(sem, ts) == EvalPostfix(sem, ts) == EvalPrimary(sem, ts);
      e := PrimaryAccepts(sem, ts);
    }
  }

  lemma {:induction false} PrimaryAccepts<V>(sem: Semantics<V>, ts: seq<Token<V>>) returns (e: Expr<V>)
    requires EvalPrimary(sem, ts).0.Ok?
    ensures WellFormed(e) && !e.Bin? && EvalPrimary(sem, ts).0.v == Meaning(sem, e)
    ensures ts == Print(e) + EvalPrimary(sem, ts).1
    decreases |ts|, 0
  {
    assert ts == [ts[0]] + ts[1..];
    if ts[0].Operand? {
      e := Lit(ts[0].v);
    } else {
      var e1 := BinaryAccepts(sem, ts[1..], 0);
      var rest := EvalBinary(sem, ts[1..], 0).1;
      e := Group(e1);
      assert rest == [Punct(')')] + rest[1..];
    }
  }

  /** The evaluator accepts exactly the printed trees: a token list evaluates to v leaving
      rest if and only if it is some tree of value v, printed, followed by that rest. */
  lemma EvaluatesExactly<V(!new)>(sem: Semantics<V>, ts: seq<Token<V>>, v: V, rest: seq<Token<V>>)
    requires !StartsPostfix(rest) && BindsBelow(rest, 0)
    ensures EvalBinary(sem, ts, 0) == (Ok(v), rest) <==>
      exists e: Expr<V> :: WellFormed(e) && ts == Print(e) + rest && Meaning(sem, e) == v
  {
    if EvalBinary(sem, ts, 0) == (Ok(v), rest) {
      var e := BinaryAccepts(sem, ts, 0);
    }
    if e: Expr<V> :| WellFormed(e) && ts == Print(e) + rest && Meaning(sem, e) == v {
      PrintedTreeEvaluates(sem, e, rest);
    }
  }

  // ----- the grammar, level by level -------------------------------------------------------------

  predicate LogicalOr<V>(e: Expr<V>)
    decreases e, 6
  {
    if e.Bin? && e.op == "||" then LogicalOr(e.l) && LogicalAnd(e.r) else LogicalAnd(e)
  }

  predicate LogicalAnd<V>(e: Expr<V>)
    decreases e, 5
  {
    if e.Bin? && e.op == "&&" then LogicalAnd(e.l) && Equality(e.r) else Equality(e)
  }

  predicate Equality<V>(e: Expr<V>)
    decreases e, 4
  {
    if e.Bin? && e.op in {"==", "!=", "===", "!=="} then Equality(e.l) && Relational(e.r) else Relational(e)
  }

  predicate Relational<V>(e: Expr<V>)
    decreases e, 3
  {
    if e.Bin? && e.op in {"<", "<=", ">", ">="} then Relational(e.l) && Additive(e.r) else Additive(e)
  }

  predicate Additive<V>(e: Expr<V>)
    decreases e, 2
  {
    if e.Bin? && e.op in {"+", "-"} then Additive(e.l) && Multiplicative(e.r) else Multiplicative(e)
  }

  predicate Multiplicative<V>(e: Expr<V>)
    decreases e, 1
  {
    if e.Bin? && e.op in {"*", "/", "%"} then Multiplicative(e.l) && UnaryLevel(e.r) else UnaryLevel(e)
  }

  predicate UnaryLevel<V>(e: Expr<V>)
    decreases e, 0
  {
    match e
    case Un(c, e1) => c in {'-', '!', '+'} && UnaryLevel(e1)
    case Lit(_) => true
    case Group(e1) => LogicalOr(e1)
    case Bin(_, _, _) => false
  }

  /** The tokens of a tree, with the parentheses that are in it and no others. */
  function Yield<V>(e: Expr<V>): seq<Token<V>> {
    match e
    case Lit(v) => [Operand(v)]
    case Un(c, e1) => [Punct(c)] + Yield(e1)
    case Bin(op, l, r) => Yield(l) + OpTokens(op) + Yield(r)
    case Group(e1) => [Punct('(')] + Yield(e1) + [Punct(')')]
  }

  const OPERATORS := ["||", "&&", "==", "!=", "===", "!==", "<", "<=", ">", ">=", "+", "-", "*", "/", "%"]

  /** The tokens go on with none of the operators, and with no member access or call. */
  ghost predicate Ends<V>(rest: seq<Token<V>>) {
    && (forall op :: op in OPERATORS ==> !(OpTokens(op) <= rest))
    && (rest != [] && rest[0].Punct? ==> rest[0].c != '.' && rest[0].c != '[' && rest[0].c != '(')
  }

  /** The grammar's level n, from the loosest. */
  predicate AtLevel<V>(e: Expr<V>, n: nat) {
    if n <= 1 then LogicalOr(e)
    else if n == 2 then LogicalAnd(e)
    else if n == 3 then Equality(e)
    else if n == 4 then Relational(e)
    else if n == 5 then Additive(e)
    else if n == 6 then Multiplicative(e)
    else UnaryLevel(e)
  }

  /** A binary tree of a level has its left operand on the operator's own level, and its right
      one on the next. */
  lemma LevelOf<V>(e: Expr<V>, n: nat)
    ensures AtLevel(e, n) <==>
      if e.Bin? then
        Precedence(e.op).Some? && n <= Precedence(e.op).value
        && AtLevel(e.l, Precedence(e.op).value) && AtLevel(e.r, Precedence(e.op).value + 1)
      else UnaryLevel(e)
  {
    if e.Bin? {
      assert !UnaryLevel(e);
      assert Multiplicative(e) <==> e.op in {"*", "/", "%"} && Multiplicative(e.l) && UnaryLevel(e.r);
      assert Additive(e) <==>
        if e.op in {"+", "-"} then Additive(e.l) && Multiplicative(e.r) else Multiplicative(e);
      assert Relational(e) <==>
        if e.op in {"<", "<=", ">", ">="} then Relational(e.l) && Additive(e.r) else Additive(e);
      assert Equality(e) <==>
        if e.op in {"==", "!=", "===", "!=="} then Equality(e.l) && Relational(e.r) else Relational(e);
      assert LogicalAnd(e) <==> if e.op == "&&" then LogicalAnd(e.l) && Equality(e.r) else Equality(e);
      assert LogicalOr(e) <==> if e.op == "||" then LogicalOr(e.l) && LogicalAnd(e.r) else LogicalAnd(e);
    } else {
      assert Multiplicative(e) == UnaryLevel(e) && Additive(e) == Multiplicative(e) && Relational(e) == Additive(e);
      assert Equality(e) == Relational(e) && LogicalAnd(e) == Equality(e) && LogicalOr(e) == LogicalAnd(e);
    }
  }

  /** Trees of the grammar are printed as they are. */
  lemma {:induction false} DerivationPrints<V>(e: Expr<V>, n: nat)
    requires AtLevel(e, n)
    ensures WellFormed(e) && (n <= 7 ==> Bare(e, n)) && Print(e) == Yield(e)
    decreases e
  {
    LevelOf(e, n);
    match e
    case Lit(_) =>
    case Un(c, e1) =>
      DerivationPrints(e1, 7);
    case Group(e1) => DerivationPrints(e1, 0);
    case Bin(op, l, r) =>
      DerivationPrints(l, Precedence(op).value);
      DerivationPrints(r, Precedence(op).value + 1);
  }

  /** The tree with the parentheses that printing puts in. */
  function Grouped<V>(e: Expr<V>): Expr<V>
    requires WellFormed(e)
    decreases e, 0
  {
    match e
    case Lit(_) => e
    case Un(c, e1) => Un(c, GroupedAt(e1, 7))
    case Group(e1) => Group(Grouped(e1))
    case Bin(op, l, r) => Bin(op, GroupedAt(l, Precedence(op).value), GroupedAt(r, Precedence(op).value + 1))
  }

  function GroupedAt<V>(e: Expr<V>, m: nat): Expr<V>
    requires WellFormed(e)
    decreases e, 1
  {
    if Bare(e, m) then Grouped(e) else Group(Grouped(e))
  }

  /** It belongs to the grammar, has the same tokens and the same value. */
  lemma {:induction false} GroupedDerives<V>(sem: Semantics<V>, e: Expr<V>)
    requires WellFormed(e)
    ensures var g := Grouped(e);
      Yield(g) == Print(e) && Meaning(sem, g) == Meaning(sem, e)
      && forall m: nat :: m <= 7 && Bare(e, m) ==> AtLevel(g, m)
    decreases e, 0
  {
    match e {
      case Lit(_) =>
      case Un(c, e1) =>
        GroupedDerivesAt(sem, e1, 7);
      case Group(e1) =>
        GroupedDerives(sem, e1);
        assert Bare(e1, 0) && AtLevel(Grouped(e1), 0);
      case Bin(op, l, r) =>
        GroupedDerivesAt(sem, l, Precedence(op).value);
        GroupedDerivesAt(sem, r, Precedence(op).value + 1);
    }
    forall m: nat | m <= 7 && Bare(e, m) ensures AtLevel(Grouped(e), m) { LevelOf(Grouped(e), m); }
  }

  lemma {:induction false} GroupedDerivesAt<V>(sem: Semantics<V>, e: Expr<V>, m: nat)
    requires WellFormed(e) && m <= 7
    ensures var g := GroupedAt(e, m);
      Yield(g) == PrintAt(e, m) && Meaning(sem, g) == Meaning(sem, e) && AtLevel(g, m)
    decreases e, 1
  {
    GroupedDerives(sem, e);
    if !Bare(e, m) {
      assert Bare(e, 0) && AtLevel(Grouped(e), 0);
      LevelOf(Group(Grouped(e)), m);
    }
  }

  /** The evaluator accepts exactly the derivations of the grammar, each with its value. */
  lemma AcceptsGrammarExactly<V(!new)>(sem: Semantics<V>, ts: seq<Token<V>>, v: V, rest: seq<Token<V>>)
    requires Ends(rest)
    ensures EvalBinary(sem, ts, 0) == (Ok(v), rest) <==>
      exists e: Expr<V> :: LogicalOr(e) && ts == Yield(e) + rest && Meaning(sem, e) == v
  {
    EndsBindsBelow(rest);
    EvaluatesExactly(sem, ts, v, rest);
    if EvalBinary(sem, ts, 0) == (Ok(v), rest) {
      var e: Expr<V> :| WellFormed(e) && ts == Print(e) + rest && Meaning(sem, e) == v;
      GroupedDerives(sem, e);
      assert Bare(e, 0) && AtLevel(Grouped(e), 0);
    }
    if e: Expr<V> :| LogicalOr(e) && ts == Yield(e) + rest && Meaning(sem, e) == v {
      assert AtLevel(e, 0);
      DerivationPrints(e, 0);
    }
  }

  /** No operator at the head is no operator recognised. */
  lemma EndsBindsBelow<V>(rest: seq<Token<V>>)
    requires Ends(rest)
    ensures !StartsPostfix(rest) && BindsBelow(rest, 0)
  {
    if PeekOp(rest).Some? && Precedence(PeekOp(rest).value.0).Some? {
      PeekIsPrefix(rest);
    }
  }

  // ----- the parser object ---------------------------------------------------------------------

  class Parser<V> {
    const sem: Semantics<V>
    const tokens: seq<Token<V>>
    var pos: nat

    ghost predicate Valid()
      reads this
    {
      pos <= |tokens|
    }

    ghost function Rest(): seq<Token<V>>
      requires Valid()
      reads this
    {
      tokens[pos..]
    }

    constructor (sem: Semantics<V>, tokens: seq<Token<V>>)
      ensures Valid() && this.sem == sem && this.tokens == tokens && Rest() == tokens
    {
      this.sem, this.tokens, this.pos := sem, tokens, 0;
    }

    /** The operator at the current position and the tokens it occupies; 0 for none. */
    method PeekBinaryOp() returns (op: string, consumed: nat)
      requires Valid()
      ensures PeekOp(Rest()) == if consumed == 0 then None else Some((op, consumed))
    {
      if pos >= |tokens| || !tokens[pos].Punct? {
        return "", 0;
      }
      var t := tokens[pos].c;
      assert PunctAt(Rest(), 0) == [t];
      if pos + 2 < |tokens| && tokens[pos + 1].Punct? && tokens[pos + 2].Punct? {
        var three := [t] + [tokens[pos + 1].c] + [tokens[pos + 2].c];
        assert PunctAt(Rest(), 1) == [tokens[pos + 1].c] && PunctAt(Rest(), 2) == [tokens[pos + 2].c];
        if three == "===" || three == "!==" {
          return three, 3;
        }
      }
      if pos + 1 < |tokens| && tokens[pos + 1].Punct? {
        var two := [t] + [tokens[pos + 1].c];
        assert PunctAt(Rest(), 1) == [tokens[pos + 1].c];
        if two in ["==", "!=", "<=", ">=", "&&", "||"] {
          return two, 2;
        }
      }
      if [t] in ["+", "-", "*", "/", "%", "<", ">", "="] {
        return [t], 1;
      }
      return "", 0;
    }

    method Binary(minPrec: nat) returns (out: Outcome<V>)
      requires Valid()
      modifies this
      ensures Valid() && pos >= old(pos) && (out, Rest()) == EvalBinary(sem, old(Rest()), minPrec)
      decreases |tokens| - pos, 2
    {
      out := Unary();
      if !out.Ok? {
        return;
      }
      out := ClimbFrom(out.v, minPrec);
    }

    /** The loop after the left operand. */
    method ClimbFrom(first: V, minPrec: nat) returns (out: Outcome<V>)
      requires Valid()
      modifies this
      ensures Valid() && pos >= old(pos) && (out, Rest()) == Climb(sem, first, old(Rest()), minPrec)
      decreases |tokens| - pos, 3
    {
      var left := first;
      ghost var goal := Climb(sem, first, Rest(), minPrec);
      while true
        invariant Valid() && pos >= old(pos) && Climb(sem, left, Rest(), minPrec) == goal
        decreases |tokens| - pos
      {
        ghost var before := Rest();
        var op := TakeOp(minPrec);
        if op == "" {
          break;
        }
        ClimbUnfolds(sem, left, before, minPrec);
        var right := Binary(Precedence(op).value + 1);
        if !right.Ok? {
          return right;
        }
        left := sem.binary(op, left, right.v);
      }
      return Ok(left);
    }

    /** Moves past an operator that binds tightly enough, if there is one. */
    method TakeOp(minPrec: nat) returns (op: string)
      requires Valid()
      modifies this
      ensures Valid() && (op == "" ==> BindsBelow(Rest(), minPrec) && pos == old(pos))
      ensures op != "" ==> pos > old(pos) && !BindsBelow(old(Rest()), minPrec)
      ensures op != "" ==> PeekOp(old(Rest())).value.0 == op && Rest() == old(Rest())[PeekOp(old(Rest())).value.1..]
    {
      var consumed;
      op, consumed := PeekBinaryOp();
      if consumed == 0 {
        return "";
      }
      var prec := Precedence(op);
      if prec.None? || prec.value < minPrec {
        return "";
      }
      pos := pos + consumed;
      assert Rest() == old(Rest())[consumed..];
    }

    method Unary() returns (out: Outcome<V>)
      requires Valid()
      modifies this
      ensures Valid() && pos >= old(pos) && (out, Rest()) == EvalUnary(sem, old(Rest()))
      decreases |tokens| - pos, 1
    {
      if pos < |tokens| && tokens[pos].Punct? && IsUnaryOp(tokens[pos].c) {
        var c := tokens[pos].c;
        pos := pos + 1;
        assert Rest() == old(Rest())[1..];
        out := Unary();
        if out.Ok? {
          out := Ok(sem.unary(c, out.v));
        }
        return;
      }
      out := Primary();
      if out.Ok? && pos < |tokens| && tokens[pos].Punct? && [tokens[pos].c] in [".", "[", "("] {
        return Postfix;
      }
    }

    method Primary() returns (out: Outcome<V>)
      requires Valid()
      modifies this
      ensures Valid() && pos >= old(pos) && (out, Rest()) == EvalPrimary(sem, old(Rest()))
      decreases |tokens| - pos, 0
    {
      if pos >= |tokens| || tokens[pos].Eof? {
        return SyntaxError;
      }
      ghost var before := Rest();
      if tokens[pos].Operand? {
        out := Ok(tokens[pos].v);
        pos := pos + 1;
        assert Rest() == before[1..];
        return;
      }
      if tokens[pos].c != '(' {
        return SyntaxError;
      }
      pos := pos + 1;
      assert Rest() == before[1..];
      out := Binary(0);
      if !out.Ok? {
        return;
      }
      if !(pos < |tokens| && tokens[pos].Punct? && tokens[pos].c == ')') {
        return SyntaxError;
      }
      ghost var inner := Rest();
      pos := pos + 1;
      assert Rest() == inner[1..];
    }
  }
}
