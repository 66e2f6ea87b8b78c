/**
  The AST value model of src/ast.c.

  An ASTNode is a kind tag, a `children` list and a union whose arm depends on
  the kind.  Here the union is the datatype `Payload` and the kind is its
  constructor, so a node whose tag disagrees with its arm cannot be written
  down.  The six comparison kinds share one arm (`u.comp`) and so share the
  constructor `Compare`, told apart by `cmp`; likewise AST_VAR_DECL and
  AST_CON_DECL share `u.vardecl` and the constructor `Decl`.

  Every pointer field may be NULL, so a child is a `Ref`.  Strings are the
  NUL-terminated copies the constructors allocate.
 */
module Ast {
  import opened Options
  import opened NodeLists
  import opened CStrings

  /** C `int`. */
  newtype Int32 = x: int | -0x8000_0000 <= x < 0x8000_0000

  /** A C `float`, kept as its bit pattern: the model does no floating-point arithmetic. */
  type FloatBits = bv32

  type Ref = Option<Node>

  datatype Cmp = Eq | Ne | Lt | Le | Gt | Ge

  datatype Node = Node(children: NodeList<Ref>, u: Payload)

  datatype Payload =
    | NullLit
    | IntLit(intval: Int32)
    | FloatLit(floatval: FloatBits)
    | TypeName(typeName: seq<char>)
    | ArrayType(base: Ref, size: Int32)
    | PtrType(base: Ref)
    | StructDef(name: seq<char>, fields: NodeList<Ref>)
    | FieldAccess(left: Ref, field: seq<char>)
    | Compare(cmp: Cmp, lhs: Ref, rhs: Ref)
    | If(cond: Ref, thenBody: Ref, elseBody: Ref)
    | Fn(retType: Ref, name: seq<char>, params: NodeList<Ref>, body: NodeList<Ref>, callconv: seq<char>)
    | ExternFn(retType: Ref, name: seq<char>, params: NodeList<Ref>, callconv: seq<char>)
    | FnCall(name: seq<char>, args: NodeList<Ref>)
    | Block(stmts: NodeList<Ref>)
    | Return(value: Ref)
    | Binop(op: char, lhs: Ref, rhs: Ref)
    | Assign(name: seq<char>, value: Ref)
    | Decl(isConst: bool, declType: Ref, name: seq<char>, value: Ref, isSigned: Int32)
    | Id(name: seq<char>)
    | AddressOf(id: seq<char>)
    | Dereference(id: seq<char>)
    | StringLit(text: seq<char>)
    | ArrayLit(elements: NodeList<Ref>)
    | ArrayIndex(indexed: Ref, index: Ref)

  /** What `new_node` gives every node: a fresh, empty children list. */
  predicate HasFreshChildren(n: Node) {
    n.children.Count() == 0 && n.children.capacity == InitialCapacity && Valid(n.children)
  }

  /** new_node: a node of the given arm with a fresh children list. */
  function NewNode(u: Payload): (n: Node)
    ensures n.u == u && HasFreshChildren(n)
  {
    Node(CreateNodeList(), u)
  }

  function CreateNullNode(): (n: Node)
    ensures n.u.NullLit? && HasFreshChildren(n)
  {
    NewNode(NullLit)
  }

  function CreateIntNode(v: Int32): (n: Node)
    ensures n.u.IntLit? && n.u.intval == v && HasFreshChildren(n)
  {
    NewNode(IntLit(v))
  }

  function CreateFloatNode(f: FloatBits): (n: Node)
    ensures n.u.FloatLit? && n.u.floatval == f && HasFreshChildren(n)
  {
    NewNode(FloatLit(f))
  }

  function CreateTypeNode(typ: seq<char>): (n: Node)
    requires Terminated(typ)
    ensures n.u.TypeName? && CopyOf(n.u.typeName, typ) && HasFreshChildren(n)
  {
    NewNode(TypeName(Dup(typ)))
  }

  function CreateArrayTypeNode(baseType: Ref, size: Int32): (n: Node)
    ensures n.u.ArrayType? && n.u.base == baseType && n.u.size == size && HasFreshChildren(n)
  {
    NewNode(ArrayType(baseType, size))
  }

  function CreatePtrTypeNode(baseType: Ref): (n: Node)
    ensures n.u.PtrType? && n.u.base == baseType && HasFreshChildren(n)
  {
    NewNode(PtrType(baseType))
  }

  function CreateStructDefNode(name: seq<char>, fields: NodeList<Ref>): (n: Node)
    requires Terminated(name)
    ensures n.u.StructDef? && CopyOf(n.u.name, name) && n.u.fields == fields && HasFreshChildren(n)
  {
    NewNode(StructDef(Dup(name), fields))
  }

  function CreateFieldAccessNode(left: Ref, field: seq<char>): (n: Node)
    requires Terminated(field)
    ensures n.u.FieldAccess? && n.u.left == left && CopyOf(n.u.field, field) && HasFreshChildren(n)
  {
    NewNode(FieldAccess(left, Dup(field)))
  }

  /** The six comparison constructors differ only in the comparison they tag the node with. */
  function CreateCompareNode(cmp: Cmp, lhs: Ref, rhs: Ref): (n: Node)
    ensures n.u.Compare? && n.u.cmp == cmp && n.u.lhs == lhs && n.u.rhs == rhs && HasFreshChildren(n)
  {
    NewNode(Compare(cmp, lhs, rhs))
  }

  function CreateEqNode(lhs: Ref, rhs: Ref): (n: Node)
    ensures n.u.Compare? && n.u.cmp == Eq && n.u.lhs == lhs && n.u.rhs == rhs && HasFreshChildren(n)
  {
    CreateCompareNode(Eq, lhs, rhs)
  }

  function CreateNeNode(lhs: Ref, rhs: Ref): (n: Node)
    ensures n.u.Compare? && n.u.cmp == Ne && n.u.lhs == lhs && n.u.rhs == rhs && HasFreshChildren(n)
  {
    CreateCompareNode(Ne, lhs, rhs)
  }

  function CreateLtNode(lhs: Ref, rhs: Ref): (n: Node)
    ensures n.u.Compare? && n.u.cmp == Lt && n.u.lhs == lhs && n.u.rhs == rhs && HasFreshChildren(n)
  {
    CreateCompareNode(Lt, lhs, rhs)
  }

  function CreateLeNode(lhs: Ref, rhs: Ref): (n: Node)
    ensures n.u.Compare? && n.u.cmp == Le && n.u.lhs == lhs && n.u.rhs == rhs && HasFreshChildren(n)
  {
    CreateCompareNode(Le, lhs, rhs)
  }

  function CreateGtNode(lhs: Ref, rhs: Ref): (n: Node)
    ensures n.u.Compare? && n.u.cmp == Gt && n.u.lhs == lhs && n.u.rhs == rhs && HasFreshChildren(n)
  {
    CreateCompareNode(Gt, lhs, rhs)
  }

  function CreateGeNode(lhs: Ref, rhs: Ref): (n: Node)
    ensures n.u.Compare? && n.u.cmp == Ge && n.u.lhs == lhs && n.u.rhs == rhs && HasFreshChildren(n)
  {
    CreateCompareNode(Ge, lhs, rhs)
  }

  /** Any two comparison nodes built from the same operands are equal once their comparison tags agree. */
  lemma ComparisonsDifferOnlyInTag(lhs: Ref, rhs: Ref)
    ensures CreateNeNode(lhs, rhs) == CreateEqNode(lhs, rhs).(u := CreateEqNode(lhs, rhs).u.(cmp := Ne))
    ensures CreateLtNode(lhs, rhs) == CreateEqNode(lhs, rhs).(u := CreateEqNode(lhs, rhs).u.(cmp := Lt))
    ensures CreateLeNode(lhs, rhs) == CreateEqNode(lhs, rhs).(u := CreateEqNode(lhs, rhs).u.(cmp := Le))
    ensures CreateGtNode(lhs, rhs) == CreateEqNode(lhs, rhs).(u := CreateEqNode(lhs, rhs).u.(cmp := Gt))
    ensures CreateGeNode(lhs, rhs) == CreateEqNode(lhs, rhs).(u := CreateEqNode(lhs, rhs).u.(cmp := Ge))
  {
  }

  function CreateIfNode(cond: Ref, thenBody: Ref, elseBody: Ref): (n: Node)
    ensures n.u.If? && n.u.cond == cond && n.u.thenBody == thenBody && n.u.elseBody == elseBody
    ensures HasFreshChildren(n)
  {
    NewNode(If(cond, thenBody, elseBody))
  }

  function CreateFnNode(retType: Ref, name: seq<char>, params: NodeList<Ref>, body: NodeList<Ref>,
                        callconv: seq<char>): (n: Node)
    requires Terminated(name) && Terminated(callconv)
    ensures n.u.Fn? && n.u.retType == retType && CopyOf(n.u.name, name)
    ensures n.u.params == params && n.u.body == body && CopyOf(n.u.callconv, callconv)
    ensures HasFreshChildren(n)
  {
    NewNode(Fn(retType, Dup(name), params, body, Dup(callconv)))
  }

  function CreateExternFnNode(retType: Ref, name: seq<char>, params: NodeList<Ref>,
                              callconv: seq<char>): (n: Node)
    requires Terminated(name) && Terminated(callconv)
    ensures n.u.ExternFn? && n.u.retType == retType && CopyOf(n.u.name, name)
    ensures n.u.params == params && CopyOf(n.u.callconv, callconv)
    ensures HasFreshChildren(n)
  {
    NewNode(ExternFn(retType, Dup(name), params, Dup(callconv)))
  }

  function CreateFnCallNode(name: seq<char>, args: NodeList<Ref>): (n: Node)
    requires Terminated(name)
    ensures n.u.FnCall? && CopyOf(n.u.name, name) && n.u.args == args && HasFreshChildren(n)
  {
    NewNode(FnCall(Dup(name), args))
  }

  function CreateBlockNode(stmts: NodeList<Ref>): (n: Node)
    ensures n.u.Block? && n.u.stmts == stmts && HasFreshChildren(n)
  {
    NewNode(Block(stmts))
  }

  function CreateReturnNode(value: Ref): (n: Node)
    ensures n.u.Return? && n.u.value == value && HasFreshChildren(n)
  {
    NewNode(Return(value))
  }

  function CreateBinopNode(op: char, l: Ref, r: Ref): (n: Node)
    ensures n.u.Binop? && n.u.op == op && n.u.lhs == l && n.u.rhs == r && HasFreshChildren(n)
  {
    NewNode(Binop(op, l, r))
  }

  function CreateAssignNode(name: seq<char>, value: Ref): (n: Node)
    requires Terminated(name)
    ensures n.u.Assign? && CopyOf(n.u.name, name) && n.u.value == value && HasFreshChildren(n)
  {
    NewNode(Assign(Dup(name), value))
  }

  function CreateVarDeclNode(typ: Ref, name: seq<char>, value: Ref, isSigned: Int32): (n: Node)
    requires Terminated(name)
    ensures n.u.Decl? && !n.u.isConst && n.u.declType == typ && CopyOf(n.u.name, name)
    ensures n.u.value == value && n.u.isSigned == isSigned && HasFreshChildren(n)
  {
    NewNode(Decl(false, typ, Dup(name), value, isSigned))
  }

  function CreateConDeclNode(typ: Ref, name: seq<char>, value: Ref, isSigned: Int32): (n: Node)
    requires Terminated(name)
    ensures n.u.Decl? && n.u.isConst && n.u.declType == typ && CopyOf(n.u.name, name)
    ensures n.u.value == value && n.u.isSigned == isSigned && HasFreshChildren(n)
  {
    NewNode(Decl(true, typ, Dup(name), value, isSigned))
  }

  /** A variable and a constant declaration differ only in the kind tag. */
  lemma DeclarationsDifferOnlyInTag(typ: Ref, name: seq<char>, value: Ref, isSigned: Int32)
    requires Terminated(name)
    ensures CreateConDeclNode(typ, name, value, isSigned)
         == CreateVarDeclNode(typ, name, value, isSigned).(u := CreateVarDeclNode(typ, name, value, isSigned).u.(isConst := true))
  {
  }

  function CreateIdNode(name: seq<char>): (n: Node)
    requires Terminated(name)
    ensures n.u.Id? && CopyOf(n.u.name, name) && HasFreshChildren(n)
  {
    NewNode(Id(Dup(name)))
  }

  function CreateAddressOfNode(id: seq<char>): (n: Node)
    requires Terminated(id)
    ensures n.u.AddressOf? && CopyOf(n.u.id, id) && HasFreshChildren(n)
  {
    NewNode(AddressOf(Dup(id)))
  }

  function CreateDereferenceNode(id: seq<char>): (n: Node)
    requires Terminated(id)
    ensures n.u.Dereference? && CopyOf(n.u.id, id) && HasFreshChildren(n)
  {
    NewNode(Dereference(Dup(id)))
  }

  function CreateStringLiteralNode(str: seq<char>): (n: Node)
    requires Terminated(str)
    ensures n.u.StringLit? && CopyOf(n.u.text, str) && HasFreshChildren(n)
  {
    NewNode(StringLit(Dup(str)))
  }

  function CreateArrayLiteralNode(elements: NodeList<Ref>): (n: Node)
    ensures n.u.ArrayLit? && n.u.elements == elements && HasFreshChildren(n)
  {
    NewNode(ArrayLit(elements))
  }

  function CreateArrayIndexNode(indexed: Ref, index: Ref): (n: Node)
    ensures n.u.ArrayIndex? && n.u.indexed == indexed && n.u.index == index && HasFreshChildren(n)
  {
    NewNode(ArrayIndex(indexed, index))
  }

  /** A string-taking constructor stores exactly the argument when the argument is already a single C string. */
  lemma StoredStringIsArgument(s: seq<char>)
    requires IsCString(s)
    ensures Terminated(s)
    ensures CreateIdNode(s).u.name == s
    ensures CreateTypeNode(s).u.typeName == s
    ensures CreateStringLiteralNode(s).u.text == s
  {
    DupOfCString(s);
  }
}
