/**
  An abstract stand-in for the LLVM IR that src/codegen.c builds.

  The builder appends instructions to the current basic block; an
  instruction's result is named by its position in that block (`Tmp(k)`).
  Only the integer part is given a meaning: i32 arithmetic wraps around,
  `sdiv` rounds toward zero and has no result on division by zero or on
  INT_MIN / -1, and floating point is left opaque.
 */
module Ir {
  import opened Options

  const MinI32: int := -0x8000_0000
  const MaxI32: int := 0x7fff_ffff

  predicate IsI32(x: int) {
    MinI32 <= x <= MaxI32
  }

  const Modulus: int := 0x1_0000_0000

  /**
    Two's-complement wrap-around into i32, as LLVM's `add`, `sub` and `mul`
    do: the value is moved by whole multiples of 2^32 until it is in range.
   */
  function Wrap32(x: int): (r: int)
    ensures IsI32(r)
    ensures IsI32(x) ==> r == x
    decreases if x < MinI32 then MinI32 - x else if x > MaxI32 then x - MaxI32 else 0
  {
    if x < MinI32 then Wrap32(x + Modulus)
    else if x > MaxI32 then Wrap32(x - Modulus)
    else x
  }

  /** Wrapping keeps the residue modulo 2^32: the result is the i32 value congruent to the input. */
  lemma {:induction false} Wrap32Congruent(x: int)
    ensures (x - Wrap32(x)) % Modulus == 0
    decreases if x < MinI32 then MinI32 - x else if x > MaxI32 then x - MaxI32 else 0
  {
    if x < MinI32 {
      Wrap32Congruent(x + Modulus);
      assert x - Wrap32(x) == (x + Modulus - Wrap32(x + Modulus)) - Modulus;
    } else if x > MaxI32 {
      Wrap32Congruent(x - Modulus);
      assert x - Wrap32(x) == (x - Modulus - Wrap32(x - Modulus)) + Modulus;
    }
  }

  /**
    x·y, as repeated addition of x.  Multiplication and division are defined
    by recursion here so that the proofs about i32 arithmetic go by induction
    rather than by nonlinear arithmetic, which the solver handles poorly;
    ProductIsMul and QuotBounds tie them back to `*` and `/`.
   */
  function Product(x: int, y: int): int
    decreases if y < 0 then -y else y
  {
    if y == 0 then 0
    else if y > 0 then Product(x, y - 1) + x
    else Product(x, y + 1) - x
  }

  lemma {:induction false} ProductIsMul(x: int, y: int)
    ensures Product(x, y) == x * y
    decreases if y < 0 then -y else y
  {
    if y > 0 {
      ProductIsMul(x, y - 1);
      assert x * (y - 1) + x == x * y;
    } else if y < 0 {
      ProductIsMul(x, y + 1);
      assert x * (y + 1) - x == x * y;
    }
  }

  /** i32 addition, subtraction and multiplication: the exact result, wrapped. */
  function Add32(x: int, y: int): int {
    Wrap32(x + y)
  }

  function Sub32(x: int, y: int): int {
    Wrap32(x - y)
  }

  function Mul32(x: int, y: int): int {
    Wrap32(Product(x, y))
  }

  /** i32 multiplication is the exact product reduced modulo 2^32 into range. */
  lemma Mul32Wraps(x: int, y: int)
    ensures IsI32(Mul32(x, y))
    ensures (x * y - Mul32(x, y)) % Modulus == 0
    ensures IsI32(x * y) ==> Mul32(x, y) == x * y
  {
    ProductIsMul(x, y);
    Wrap32Congruent(x * y);
  }

  function Abs(x: int): nat {
    if x < 0 then -x else x
  }

  /** How many whole b's fit in a, by repeated subtraction. */
  function Quot(a: nat, b: nat): nat
    requires b > 0
    decreases a
  {
    if a < b then 0 else 1 + Quot(a - b, b)
  }

  lemma {:induction false} QuotBounds(a: nat, b: nat)
    requires b > 0
    ensures Quot(a, b) * b <= a < Quot(a, b) * b + b
    ensures Quot(a, b) <= a
    decreases a
  {
    if a >= b {
      QuotBounds(a - b, b);
      var q := Quot(a - b, b);
      assert (q + 1) * b == q * b + b;
    }
  }

  /**
    Integer division rounding toward zero, as C's `/` and LLVM's `sdiv` do
    (Dafny's own `/` is Euclidean): the quotient of the magnitudes, negated
    when the signs differ.
   */
  function TruncDiv(x: int, y: int): int
    requires y != 0
  {
    var q: int := Quot(Abs(x), Abs(y));
    if (x < 0) == (y < 0) then q else -q
  }

  /** The remainder of TruncDiv is smaller than the divisor and takes the dividend's sign. */
  lemma TruncDivRemainder(x: int, y: int)
    requires y != 0
    ensures Abs(x - TruncDiv(x, y) * y) < Abs(y)
    ensures x - TruncDiv(x, y) * y == 0 || (x - TruncDiv(x, y) * y < 0 <==> x < 0)
  {
    var a: int, b: int := Abs(x), Abs(y);
    var q: int := Quot(a, b);
    QuotBounds(a, b);
    var t := TruncDiv(x, y);
    if x >= 0 {
      assert t * y == q * b by {
        if y < 0 { assert t == -q && y == -b; }
      }
      assert x - t * y == a - q * b;
    } else {
      assert t * y == -(q * b) by {
        if y < 0 { assert t == q && y == -b; } else { assert t == -q && y == b; }
      }
      assert x - t * y == -(a - q * b);
    }
  }

  /** TruncDiv never grows the dividend. */
  lemma TruncDivBound(x: int, y: int)
    requires y != 0
    ensures Abs(TruncDiv(x, y)) <= Abs(x)
  {
    QuotBounds(Abs(x), Abs(y));
  }

  /** A divisor of magnitude two or more makes a positive dividend strictly smaller. */
  lemma QuotShrinks(a: nat, b: nat)
    requires a > 0 && b >= 2
    ensures Quot(a, b) < a
  {
    QuotBounds(a, b);
    var q := Quot(a, b);
    assert q * 2 <= q * b;
  }

  /** `sdiv i32`: no result when the divisor is zero or the quotient overflows. */
  function SDiv32(x: int, y: int): (r: Option<int>)
    requires IsI32(x) && IsI32(y)
    ensures r.None? <==> y == 0 || (x == MinI32 && y == -1)
    ensures r.Some? ==> IsI32(r.value)
  {
    if y == 0 || (x == MinI32 && y == -1) then None
    else
      assert IsI32(TruncDiv(x, y)) by {
        TruncDivBound(x, y);
        if x == MinI32 && y < 0 {
          QuotShrinks(Abs(x), Abs(y));
        }
      }
      Some(TruncDiv(x, y))
  }

  /** The quotient `sdiv` gives leaves a remainder smaller than the divisor, with the dividend's sign. */
  lemma SDiv32Remainder(x: int, y: int)
    requires IsI32(x) && IsI32(y) && SDiv32(x, y).Some?
    ensures var q := SDiv32(x, y).value;
            Abs(x - q * y) < Abs(y) && (x - q * y == 0 || (x - q * y < 0 <==> x < 0))
  {
    TruncDivRemainder(x, y);
  }

  datatype Opcode = Add | Sub | Mul | SDiv | FAdd | FSub | FMul | FDiv

  predicate IsFloatOp(opc: Opcode) {
    opc.FAdd? || opc.FSub? || opc.FMul? || opc.FDiv?
  }

  /** The source operator an opcode implements, for integers and floats alike. */
  function Symbol(opc: Opcode): char {
    match opc
    case Add | FAdd => '+'
    case Sub | FSub => '-'
    case Mul | FMul => '*'
    case SDiv | FDiv => '/'
  }

  datatype Value =
    | IConst(bits: nat, val: int)
    | Tmp(index: nat)

  /** An operand is NULL when the expression it came from produced no value. */
  datatype Instr =
    | Arith(opc: Opcode, lhs: Option<Value>, rhs: Option<Value>)
    | Ret(retval: Value)

  /** Every temporary an instruction sequence mentions names an earlier instruction. */
  predicate RefersBack(v: Option<Value>, bound: nat) {
    v.Some? && v.value.Tmp? ==> v.value.index < bound
  }

  predicate WellScoped(code: seq<Instr>) {
    forall k :: 0 <= k < |code| ==> InstrRefersBack(code[k], k)
  }

  predicate InstrRefersBack(i: Instr, bound: nat) {
    match i
    case Arith(_, a, b) => RefersBack(a, bound) && RefersBack(b, bound)
    case Ret(v) => RefersBack(Some(v), bound)
  }

  /** The i32 result of an integer instruction on i32 operands. */
  function IntOp(opc: Opcode, a: Option<int>, b: Option<int>): (r: Option<int>)
    requires a.Some? ==> IsI32(a.value)
    requires b.Some? ==> IsI32(b.value)
    ensures r.Some? ==> a.Some? && b.Some? && !IsFloatOp(opc) && IsI32(r.value)
  {
    if a.None? || b.None? then None
    else
      var x, y := a.value, b.value;
      match opc
      case Add => Some(Add32(x, y))
      case Sub => Some(Sub32(x, y))
      case Mul => Some(Mul32(x, y))
      case SDiv => SDiv32(x, y)
      case _ => None
  }

  /** What an operand denotes given the results of the instructions so far. */
  function Eval(v: Option<Value>, results: seq<Option<int>>): (r: Option<int>)
    requires AllI32(results)
    ensures r.Some? ==> IsI32(r.value)
  {
    match v
    case None => None
    case Some(IConst(bits, x)) => if bits == 32 && IsI32(x) then Some(x) else None
    case Some(Tmp(k)) => if k < |results| then results[k] else None
  }

  predicate AllI32(results: seq<Option<int>>) {
    forall k :: 0 <= k < |results| && results[k].Some? ==> IsI32(results[k].value)
  }

  /**
    Running a basic block: the result of every instruction in order.  A `ret`
    has no value as an operand, and neither has a floating-point operation.
   */
  function Results(code: seq<Instr>): (rs: seq<Option<int>>)
    ensures |rs| == |code|
    ensures AllI32(rs)
    decreases |code|
  {
    if code == [] then []
    else
      var prev := Results(code[..|code| - 1]);
      prev + [Step(code[|code| - 1], prev)]
  }

  function Step(i: Instr, prev: seq<Option<int>>): (r: Option<int>)
    requires AllI32(prev)
    ensures r.Some? ==> IsI32(r.value)
  {
    match i
    case Arith(opc, a, b) => IntOp(opc, Eval(a, prev), Eval(b, prev))
    case Ret(_) => None
  }

  /** Appending instructions never changes what the earlier ones computed. */
  lemma {:induction false} ResultsPrefix(code: seq<Instr>, more: seq<Instr>)
    ensures Results(code + more)[..|code|] == Results(code)
    decreases |more|
  {
    if more == [] {
      assert code + more == code;
    } else {
      var init := more[..|more| - 1];
      assert (code + more)[..|code + more| - 1] == code + init;
      ResultsPrefix(code, init);
    }
  }

  /** An operand that refers back into `code` keeps its value once more instructions follow. */
  lemma EvalStable(v: Option<Value>, code: seq<Instr>, more: seq<Instr>)
    requires RefersBack(v, |code|)
    ensures Eval(v, Results(code + more)) == Eval(v, Results(code))
  {
    ResultsPrefix(code, more);
    if v.Some? && v.value.Tmp? {
      assert Results(code + more)[v.value.index] == Results(code)[v.value.index];
    }
  }

  /** The last instruction's result is computed from the results before it. */
  lemma ResultsLast(code: seq<Instr>, i: Instr)
    ensures Results(code + [i])[|code|] == Step(i, Results(code))
  {
    assert (code + [i])[..|code|] == code;
  }
}
