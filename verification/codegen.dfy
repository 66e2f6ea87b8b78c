/**
  The expression dispatch of src/codegen.c over the abstract IR of module Ir.

  codegen_expr is modelled as a pure function that threads the builder's
  instruction stream: it takes the instructions built so far and returns
  them extended, together with the value codegen_expr returns (None for
  NULL).  The `switch` is modelled as written, fall-throughs included:

    - AST_FLOAT builds a constant it discards and falls into AST_FN, which
      breaks, so both return NULL;
    - AST_BINOP lowers its left operand, then its right, then picks a float
      or an integer opcode by looking only at whether an operand NODE is a
      float literal; an operator other than + - * / falls out of the
      if-chains into AST_RETURN;
    - AST_RETURN builds `ret i32 0` whatever its operand;
    - every other kind returns NULL.
 */
module Codegen {
  import opened Options
  import opened CStrings
  import opened Ast
  import opened Ir

  // ---------------------------------------------------------------------------
  // typeSwatch
  // ---------------------------------------------------------------------------

  /** The LLVM types typeSwatch can return. */
  datatype IrType = Void | Int(bits: nat)

  /**
    typeSwatch as written.  The second test is `strcmp(type, "i8")` without
    `== 0`, so it holds for every name that is NOT "i8": those give i8, and
    "i8" itself reaches the end of the function without a `return`.
   */
  function TypeSwatch(name: seq<char>): (r: Option<IrType>)
    requires Terminated(name)
    ensures r == Some(Void) <==> Text(name) == "void"
    ensures r == Some(Int(8)) <==> Text(name) != "void" && Text(name) != "i8"
    ensures r.None? <==> Text(name) == "i8"
  {
    if Strcmp(name, Literal("void")) == 0 then Some(Void)
    else if Strcmp(name, Literal("i8")) != 0 then Some(Int(8))
    else None
  }

  /** typeSwatch with the evidently intended test `strcmp(type, "i8") == 0`. */
  function TypeSwatchFixed(name: seq<char>): (r: Option<IrType>)
    requires Terminated(name)
    ensures r == Some(Void) <==> Text(name) == "void"
    ensures r == Some(Int(8)) <==> Text(name) == "i8"
    ensures r.None? <==> Text(name) != "void" && Text(name) != "i8"
  {
    if Strcmp(name, Literal("void")) == 0 then Some(Void)
    else if Strcmp(name, Literal("i8")) == 0 then Some(Int(8))
    else None
  }

  /** Away from "void", the written test gives a type exactly where the intended one gives none. */
  lemma TypeSwatchInverted(name: seq<char>)
    requires Terminated(name) && Text(name) != "void"
    ensures TypeSwatch(name).Some? <==> TypeSwatchFixed(name).None?
  {
  }

  /** "i8" gets no type, and "i32" gets i8. */
  lemma TypeSwatchMisreadsI8()
    ensures TypeSwatch(Literal("i8")).None?
    ensures TypeSwatchFixed(Literal("i8")) == Some(Int(8))
    ensures TypeSwatch(Literal("i32")) == Some(Int(8))
    ensures TypeSwatchFixed(Literal("i32")).None?
  {
    assert "i32" != "i8";
    assert "i32" != "void";
  }

  // ---------------------------------------------------------------------------
  // codegen_expr
  // ---------------------------------------------------------------------------

  /** The builder's instructions after a call, and the value the call returned (None for NULL). */
  datatype Lowered = Lowered(code: seq<Instr>, value: Option<Value>)

  /**
    codegen_expr dereferences its argument, and for a binary operation it
    dereferences both operand pointers and lowers them.
   */
  predicate Lowerable(e: Node)
    decreases e
  {
    e.u.Binop? ==>
      && e.u.lhs.Some? && e.u.rhs.Some?
      && Lowerable(e.u.lhs.value) && Lowerable(e.u.rhs.value)
  }

  predicate IsArithOp(op: char) {
    op == '+' || op == '-' || op == '*' || op == '/'
  }

  /** The if-chains of the AST_BINOP case: a float opcode when `float` holds, else an integer one. */
  function OpcodeFor(op: char, float: bool): (r: Option<Opcode>)
    ensures r.Some? <==> IsArithOp(op)
    ensures r.Some? ==> Symbol(r.value) == op && (IsFloatOp(r.value) <==> float)
  {
    if float then
      if op == '+' then Some(FAdd)
      else if op == '-' then Some(FSub)
      else if op == '*' then Some(FMul)
      else if op == '/' then Some(FDiv)
      else None
    else
      if op == '+' then Some(Add)
      else if op == '-' then Some(Sub)
      else if op == '*' then Some(Mul)
      else if op == '/' then Some(SDiv)
      else None
  }

  /** A builder call: the instruction is appended and its result names its position. */
  function Emit(code: seq<Instr>, i: Instr): Lowered {
    Lowered(code + [i], Some(Tmp(|code|)))
  }

  /** `ret i32 0`. */
  const RetZero: Instr := Ret(IConst(32, 0))

  /**
    codegen_expr: lowering only appends to the instruction stream, the value
    it returns names an instruction already built, and every temporary the
    new instructions use names an earlier one.
   */
  function CodegenExpr(e: Node, code: seq<Instr>): (r: Lowered)
    requires Lowerable(e)
    ensures code <= r.code
    ensures RefersBack(r.value, |r.code|)
    ensures WellScoped(code) ==> WellScoped(r.code)
    decreases e
  {
    match e.u
    case IntLit(v) => Lowered(code, Some(IConst(32, v as int)))
    case FloatLit(_) => Lowered(code, None)
    case Fn(_, _, _, _, _) => Lowered(code, None)
    case Binop(op, l, rt) =>
      var a := CodegenExpr(l.value, code);
      var b := CodegenExpr(rt.value, a.code);
      var float := l.value.u.FloatLit? || rt.value.u.FloatLit?;
      (match OpcodeFor(op, float)
       case Some(opc) => Emit(b.code, Arith(opc, a.value, b.value))
       case None => Emit(b.code, RetZero))
    case Return(_) => Emit(code, RetZero)
    case _ => Lowered(code, None)
  }

  /** The last instruction a lowering built. */
  function Last(r: Lowered): Instr
    requires r.code != []
  {
    r.code[|r.code| - 1]
  }

  /**
    Literals and functions build nothing: an integer literal gives the
    32-bit constant of its value, a float literal and a function give NULL.
   */
  lemma LeavesBuildNothing(e: Node, code: seq<Instr>)
    requires e.u.IntLit? || e.u.FloatLit? || e.u.Fn?
    ensures CodegenExpr(e, code).code == code
    ensures e.u.IntLit? ==> CodegenExpr(e, code).value == Some(IConst(32, e.u.intval as int))
    ensures !e.u.IntLit? ==> CodegenExpr(e, code).value.None?
  {
  }

  /**
    A binary operation lowers its left operand first, then its right
    operand, then builds exactly one instruction, whose result it returns.
   */
  lemma BinopLowersOperandsFirst(e: Node, code: seq<Instr>)
    requires Lowerable(e) && e.u.Binop?
    ensures var a := CodegenExpr(e.u.lhs.value, code);
            var b := CodegenExpr(e.u.rhs.value, a.code);
            var r := CodegenExpr(e, code);
            && code <= a.code <= b.code
            && r.code == b.code + [Last(r)]
            && r.value == Some(Tmp(|b.code|))
  {
  }

  /**
    The operator choice: for + - * / the built instruction applies that
    operator to the operands' values, as a float operation exactly when an
    operand node is a float literal; any other operator builds `ret i32 0`.
   */
  lemma BinopOperatorChoice(e: Node, code: seq<Instr>)
    requires Lowerable(e) && e.u.Binop?
    ensures var a := CodegenExpr(e.u.lhs.value, code);
            var b := CodegenExpr(e.u.rhs.value, a.code);
            var last := Last(CodegenExpr(e, code));
            if IsArithOp(e.u.op) then
              && last.Arith?
              && Symbol(last.opc) == e.u.op
              && (IsFloatOp(last.opc) <==> e.u.lhs.value.u.FloatLit? || e.u.rhs.value.u.FloatLit?)
              && last.lhs == a.value && last.rhs == b.value
            else
              last == RetZero
  {
  }

  /**
    The choice is syntactic: two binary operations with the same operator
    whose operand nodes agree on being float literals build the same kind of
    instruction, whatever else their operands are.
   */
  lemma OperatorChoiceIsSyntactic(e1: Node, code1: seq<Instr>, e2: Node, code2: seq<Instr>)
    requires Lowerable(e1) && e1.u.Binop?
    requires Lowerable(e2) && e2.u.Binop?
    requires e1.u.op == e2.u.op
    requires (e1.u.lhs.value.u.FloatLit? || e1.u.rhs.value.u.FloatLit?)
         == (e2.u.lhs.value.u.FloatLit? || e2.u.rhs.value.u.FloatLit?)
    ensures var l1, l2 := Last(CodegenExpr(e1, code1)), Last(CodegenExpr(e2, code2));
            l1.Arith? == l2.Arith? && (l1.Arith? ==> l1.opc == l2.opc)
  {
    BinopOperatorChoice(e1, code1);
    BinopOperatorChoice(e2, code2);
  }

  /**
    How many instructions an expression tree asks the builder for: one per
    binary operation and one per return, counting a binary operation's
    operands; literals, functions and every other kind ask for none.
   */
  function Builds(e: Node): nat
    decreases e
  {
    match e.u
    case Binop(_, l, rt) =>
      1 + (if l.Some? then Builds(l.value) else 0) + (if rt.Some? then Builds(rt.value) else 0)
    case Return(_) => 1
    case _ => 0
  }

  /** Lowering appends exactly the instructions the tree asks for. */
  lemma {:induction false} LoweringBuildsCount(e: Node, code: seq<Instr>)
    requires Lowerable(e)
    ensures |CodegenExpr(e, code).code| == |code| + Builds(e)
    decreases e
  {
    match e.u
    case Binop(_, l, rt) =>
      LoweringBuildsCount(l.value, code);
      LoweringBuildsCount(rt.value, CodegenExpr(l.value, code).code);
    case _ =>
  }

  /** A return builds `ret i32 0` and never looks at its operand. */
  lemma ReturnIgnoresOperand(e1: Node, e2: Node, code: seq<Instr>)
    requires e1.u.Return? && e2.u.Return?
    ensures CodegenExpr(e1, code) == CodegenExpr(e2, code)
    ensures CodegenExpr(e1, code).code == code + [RetZero]
  {
  }

  /**
    A float operation always has a NULL operand: its float-literal operand
    fell into the AST_FN case and produced no value.
   */
  lemma FloatOperationHasNullOperand(e: Node, code: seq<Instr>)
    requires Lowerable(e) && e.u.Binop?
    requires Last(CodegenExpr(e, code)).Arith? && IsFloatOp(Last(CodegenExpr(e, code)).opc)
    ensures Last(CodegenExpr(e, code)).lhs.None? || Last(CodegenExpr(e, code)).rhs.None?
  {
    BinopOperatorChoice(e, code);
    var l, r := e.u.lhs.value, e.u.rhs.value;
    if l.u.FloatLit? {
      LeavesBuildNothing(l, code);
    } else {
      LeavesBuildNothing(r, CodegenExpr(l, code).code);
    }
  }

  /** The bit pattern of a float literal; the model never looks inside it. */
  const One: FloatBits := 0x3f80_0000
  const Two: FloatBits := 0x4000_0000

  /** `(1.0 + 2.0) + 3`: the outer `+` is an integer add, since neither of its operand nodes is a float literal. */
  lemma NestedFloatSumAddsAsInteger()
    ensures var inner := CreateBinopNode('+', Some(CreateFloatNode(One)), Some(CreateFloatNode(Two)));
            var outer := CreateBinopNode('+', Some(inner), Some(CreateIntNode(3)));
            CodegenExpr(outer, []).code
              == [Arith(FAdd, None, None), Arith(Add, Some(Tmp(0)), Some(IConst(32, 3)))]
  {
  }

  // ---------------------------------------------------------------------------
  // What lowering means
  // ---------------------------------------------------------------------------

  /**
    The i32 value of an integer expression: an integer literal, or + - * / on
    two integer expressions in i32 arithmetic (Add32, Sub32, Mul32 and SDiv32:
    wrapping around, with division rounding toward zero and undefined on a
    zero divisor and on INT_MIN / -1).  Anything else has no integer value.
   */
  function Denote(p: Ref): (r: Option<int>)
    ensures r.Some? ==> IsI32(r.value)
    decreases p
  {
    match p
    case None => None
    case Some(n) =>
      match n.u
      case IntLit(v) => Some(v as int)
      case Binop(op, l, rt) =>
        var x, y := Denote(l), Denote(rt);
        if x.None? || y.None? then None
        else if op == '+' then Some(Add32(x.value, y.value))
        else if op == '-' then Some(Sub32(x.value, y.value))
        else if op == '*' then Some(Mul32(x.value, y.value))
        else if op == '/' then SDiv32(x.value, y.value)
        else None
      case _ => None
  }

  /** The integer opcode chosen for an operator computes what the operator means. */
  lemma IntegerOpcodeMeansOperator(op: char, x: int, y: int)
    requires IsArithOp(op) && IsI32(x) && IsI32(y)
    ensures IntOp(OpcodeFor(op, false).value, Some(x), Some(y))
         == if op == '+' then Some(Add32(x, y))
            else if op == '-' then Some(Sub32(x, y))
            else if op == '*' then Some(Mul32(x, y))
            else SDiv32(x, y)
  {
  }

  /**
    Lowering is correct for integer expressions: running the instructions
    it builds, after any earlier ones, computes the expression's value.
   */
  lemma {:induction false} LoweringPreservesMeaning(e: Node, code: seq<Instr>)
    requires Lowerable(e)
    requires Denote(Some(e)).Some?
    ensures Eval(CodegenExpr(e, code).value, Results(CodegenExpr(e, code).code)) == Denote(Some(e))
    decreases e
  {
    match e.u
    case IntLit(_) =>
    case Binop(op, l, rt) =>
      var a := CodegenExpr(l.value, code);
      var b := CodegenExpr(rt.value, a.code);
      LoweringPreservesMeaning(l.value, code);
      LoweringPreservesMeaning(rt.value, a.code);
      assert !l.value.u.FloatLit? && !rt.value.u.FloatLit?;
      assert IsArithOp(op);
      var opc := OpcodeFor(op, false).value;
      var i := Arith(opc, a.value, b.value);
      assert CodegenExpr(e, code).code == b.code + [i];
      var x := Eval(a.value, Results(a.code));
      var y := Eval(b.value, Results(b.code));
      assert Eval(a.value, Results(b.code)) == x by {
        assert b.code == a.code + b.code[|a.code|..];
        EvalStable(a.value, a.code, b.code[|a.code|..]);
      }
      ResultsLast(b.code, i);
      IntegerOpcodeMeansOperator(op, x.value, y.value);
  }
}
