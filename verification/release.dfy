/**
  What `free_node` (src/ast.c) gives back to the heap.

  Release is counted in heap blocks: node structs, node-list buffers and
  payload strings.  `free(p)` on a node pointer is a shallow release: the
  node struct goes, but its children list, strings and subtrees stay
  allocated.  A release is a multiset of blocks, so that a block released
  twice would show up twice.
 */
module Release {
  import opened Options
  import opened NodeLists
  import opened CStrings
  import opened Ast

  datatype Block =
    | NodeBlock(node: Node)
    | ListBlock(list: NodeList<Ref>)
    | StringBlock(text: seq<char>)

  type Freed = multiset<Block>

  /**
    `free(p)` on a node pointer that may be NULL: the node struct alone, so
    its children list is not released with it.
   */
  function Shallow(p: Ref): (r: Freed)
    ensures |r| == if p.None? then 0 else 1
    ensures p.Some? ==> NodeBlock(p.value) in r && ListBlock(p.value.children) !in r
  {
    match p
    case None => multiset{}
    case Some(n) => multiset{NodeBlock(n)}
  }

  /** free_node_list: the list's buffer and header go; the nodes it points to do not. */
  function FreeNodeList(l: NodeList<Ref>): (r: Freed)
    ensures |r| == 1 && ListBlock(l) in r
    ensures forall i :: 0 <= i < |l.nodes| && l.nodes[i].Some? ==> NodeBlock(l.nodes[i].value) !in r
  {
    multiset{ListBlock(l)}
  }

  // ---------------------------------------------------------------------------
  // What a tree owns
  // ---------------------------------------------------------------------------

  /** The subtrees an arm owns: its node fields and the entries of its lists. */
  function PayloadRefs(u: Payload): (rs: seq<Ref>)
    ensures forall r :: r in rs ==> r < u
  {
    match u
    case ArrayType(b, _) => [b]
    case PtrType(b) => [b]
    case StructDef(_, fs) => fs.nodes
    case FieldAccess(l, _) => [l]
    case Compare(_, l, r) => [l, r]
    case If(c, t, e) => [c, t, e]
    case Fn(rt, _, ps, body, _) => [rt] + ps.nodes + body.nodes
    case ExternFn(rt, _, ps, _) => [rt] + ps.nodes
    case FnCall(_, args) => args.nodes
    case Block(ss) => ss.nodes
    case Return(v) => [v]
    case Binop(_, l, r) => [l, r]
    case Assign(_, v) => [v]
    case Decl(_, t, _, v, _) => [t, v]
    case ArrayLit(es) => es.nodes
    case ArrayIndex(a, i) => [a, i]
    case _ => []
  }

  /** The list buffers and strings an arm owns. */
  function PayloadBlocks(u: Payload): Freed {
    match u
    case TypeName(t) => multiset{StringBlock(t)}
    case StructDef(name, fs) => multiset{StringBlock(name), ListBlock(fs)}
    case FieldAccess(_, field) => multiset{StringBlock(field)}
    case Fn(_, name, ps, body, cc) => multiset{StringBlock(name), ListBlock(ps), ListBlock(body), StringBlock(cc)}
    case ExternFn(_, name, ps, cc) => multiset{StringBlock(name), ListBlock(ps), StringBlock(cc)}
    case FnCall(name, args) => multiset{StringBlock(name), ListBlock(args)}
    case Block(ss) => multiset{ListBlock(ss)}
    case Assign(name, _) => multiset{StringBlock(name)}
    case Decl(_, _, name, _, _) => multiset{StringBlock(name)}
    case Id(name) => multiset{StringBlock(name)}
    case AddressOf(id) => multiset{StringBlock(id)}
    case Dereference(id) => multiset{StringBlock(id)}
    case StringLit(text) => multiset{StringBlock(text)}
    case ArrayLit(es) => multiset{ListBlock(es)}
    case _ => multiset{}
  }

  /**
    Every block a tree owns: each node struct and its children list, the
    lists and strings of its arm, and recursively everything its children,
    node fields and list entries own.
   */
  function Owned(p: Ref): Freed
    decreases p, 1
  {
    match p
    case None => multiset{}
    case Some(n) =>
      multiset{NodeBlock(n), ListBlock(n.children)} + PayloadBlocks(n.u)
        + OwnedAll(n.children.nodes, n) + OwnedAll(PayloadRefs(n.u), n)
  }

  function OwnedAll(rs: seq<Ref>, ghost parent: Node): Freed
    requires forall r :: r in rs ==> r < parent
    decreases parent, 0, |rs|
  {
    if rs == [] then multiset{}
    else
      assert rs[0] in rs;
      assert forall r :: r in rs[1..] ==> r in rs;
      Owned(rs[0]) + OwnedAll(rs[1..], parent)
  }

  lemma {:induction false} OwnedAllAppend(a: seq<Ref>, b: seq<Ref>, parent: Node)
    requires forall r :: r in a + b ==> r < parent
    ensures forall r :: r in a ==> r < parent
    ensures forall r :: r in b ==> r < parent
    ensures OwnedAll(a + b, parent) == OwnedAll(a, parent) + OwnedAll(b, parent)
    decreases |a|
  {
    assert forall r :: r in a ==> r in a + b;
    assert forall r :: r in b ==> r in a + b;
    if a == [] {
      assert a + b == b;
    } else {
      assert (a + b)[0] == a[0];
      assert (a + b)[1..] == a[1..] + b;
      assert forall r :: r in a[1..] + b ==> r in a + b;
      OwnedAllAppend(a[1..], b, parent);
    }
  }

  // ---------------------------------------------------------------------------
  // The release free_node evidently intends: everything the tree owns, once
  // ---------------------------------------------------------------------------

  /**
    free_node with every arm released in full: node fields and list entries
    recursively, list buffers and strings once each.  It keeps the shape of
    the C function: the arm first, then the children, the children list and
    the node itself.
   */
  function FreeTree(p: Ref): Freed
    decreases p, 2
  {
    match p
    case None => multiset{}
    case Some(n) =>
      FreeArm(n) + FreeTreeEach(n.children.nodes, n) + FreeNodeList(n.children) + Shallow(p)
  }

  /** The arm-specific part of FreeTree. */
  function FreeArm(n: Node): Freed
    decreases n, 1
  {
    match n.u
    case TypeName(t) => multiset{StringBlock(t)}
    case ArrayType(b, _) =>
      FreeTree(b)
    case PtrType(b) =>
      FreeTree(b)
    case StructDef(name, fs) => multiset{StringBlock(name)} + FreeTreeEach(fs.nodes, n) + FreeNodeList(fs)
    case FieldAccess(l, field) =>
      FreeTree(l) + multiset{StringBlock(field)}
    case Compare(_, l, r) =>
      FreeTree(l) + FreeTree(r)
    case If(c, t, e) =>
      FreeTree(c) + FreeTree(t) + FreeTree(e)
    case Fn(rt, name, ps, body, cc) =>
      FreeTree(rt) + multiset{StringBlock(name)}
        + FreeTreeEach(ps.nodes, n) + FreeNodeList(ps)
        + FreeTreeEach(body.nodes, n) + FreeNodeList(body)
        + multiset{StringBlock(cc)}
    case ExternFn(rt, name, ps, cc) =>
      FreeTree(rt) + multiset{StringBlock(name)}
        + FreeTreeEach(ps.nodes, n) + FreeNodeList(ps)
        + multiset{StringBlock(cc)}
    case FnCall(name, args) => multiset{StringBlock(name)} + FreeTreeEach(args.nodes, n) + FreeNodeList(args)
    case Block(ss) => FreeTreeEach(ss.nodes, n) + FreeNodeList(ss)
    case Return(v) =>
      FreeTree(v)
    case Binop(_, l, r) =>
      FreeTree(l) + FreeTree(r)
    case Assign(name, v) =>
      multiset{StringBlock(name)} + FreeTree(v)
    case Decl(_, t, name, v, _) =>
      FreeTree(t) + multiset{StringBlock(name)} + FreeTree(v)
    case Id(name) => multiset{StringBlock(name)}
    case AddressOf(id) => multiset{StringBlock(id)}
    case Dereference(id) => multiset{StringBlock(id)}
    case StringLit(text) => multiset{StringBlock(text)}
    case ArrayLit(es) => FreeTreeEach(es.nodes, n) + FreeNodeList(es)
    case ArrayIndex(a, i) =>
      FreeTree(a) + FreeTree(i)
    case _ => multiset{}
  }

  /** The loop `for (i = 0; i < count; i++) free_node(nodes[i])`, releasing each entry in full. */
  function FreeTreeEach(rs: seq<Ref>, ghost parent: Node): Freed
    requires forall x :: x in rs ==> x < parent
    decreases parent, 0, |rs|
  {
    if rs == [] then multiset{}
    else
      assert rs[0] in rs;
      assert forall x :: x in rs[1..] ==> x in rs;
      FreeTree(rs[0]) + FreeTreeEach(rs[1..], parent)
  }

  /** FreeTree releases exactly what the tree owns: every block once, nothing else. */
  lemma {:induction false} FreeTreeReleasesOwned(p: Ref)
    ensures FreeTree(p) == Owned(p)
    decreases p, 2
  {
    match p
    case None =>
    case Some(n) =>
      var blocks := PayloadBlocks(n.u);
      var refs := OwnedAll(PayloadRefs(n.u), n);
      var kids := OwnedAll(n.children.nodes, n);
      assert FreeArm(n) == blocks + refs by {
        FreeArmReleasesOwned(n);
      }
      assert FreeTreeEach(n.children.nodes, n) == kids by {
        FreeTreeEachReleasesOwned(n.children.nodes, n);
      }
      Shuffle(blocks, refs, kids, ListBlock(n.children), NodeBlock(n));
  }

  /** The top-level bookkeeping shared by FreeTree and Owned. */
  lemma Shuffle(blocks: Freed, refs: Freed, kids: Freed, list: Block, node: Block)
    ensures (blocks + refs) + kids + multiset{list} + multiset{node}
         == multiset{node, list} + blocks + kids + refs
  {
  }

  lemma {:induction false} FreeTreeEachReleasesOwned(rs: seq<Ref>, parent: Node)
    requires forall x :: x in rs ==> x < parent
    ensures FreeTreeEach(rs, parent) == OwnedAll(rs, parent)
    decreases parent, 0, |rs|
  {
    if rs != [] {
      assert rs[0] in rs;
      assert forall x :: x in rs[1..] ==> x in rs;
      FreeTreeReleasesOwned(rs[0]);
      FreeTreeEachReleasesOwned(rs[1..], parent);
    }
  }

  lemma OwnedOne(x: Ref, n: Node)
    requires x < n
    ensures OwnedAll([x], n) == Owned(x)
  {
    assert [x][1..] == [];
  }

  lemma OwnedPair(x: Ref, y: Ref, n: Node)
    requires x < n && y < n
    ensures OwnedAll([x, y], n) == Owned(x) + Owned(y)
  {
    assert [x, y][1..] == [y];
    OwnedOne(y, n);
  }

  lemma OwnedTriple(x: Ref, y: Ref, z: Ref, n: Node)
    requires x < n && y < n && z < n
    ensures OwnedAll([x, y, z], n) == Owned(x) + Owned(y) + Owned(z)
  {
    assert [x, y, z][1..] == [y, z];
    OwnedPair(y, z, n);
  }

  lemma {:induction false} FreeArmReleasesOwned(n: Node)
    ensures FreeArm(n) == PayloadBlocks(n.u) + OwnedAll(PayloadRefs(n.u), n)
    decreases n, 2
  {
    match n.u
    case ArrayType(_, _) | PtrType(_) | FieldAccess(_, _) | Return(_) | Assign(_, _) => SingleFieldArmReleased(n);
    case Compare(_, _, _) | Binop(_, _, _) => OperandArmReleased(n);
    case Decl(_, _, _, _, _) | ArrayIndex(_, _) => PairFieldArmReleased(n);
    case If(_, _, _) => IfArmReleased(n);
    case StructDef(_, _) | FnCall(_, _) | Block(_) | ArrayLit(_) => ListArmReleased(n);
    case Fn(_, _, _, _, _) => FunctionArmReleased(n);
    case ExternFn(_, _, _, _) => ExternArmReleased(n);
    case _ => LeafArmReleased(n);
  }

  /** The arms that own no subtree: at most one string. */
  lemma LeafArmReleased(n: Node)
    requires n.u.NullLit? || n.u.IntLit? || n.u.FloatLit? || n.u.TypeName? || n.u.Id?
          || n.u.AddressOf? || n.u.Dereference? || n.u.StringLit?
    ensures FreeArm(n) == PayloadBlocks(n.u) + OwnedAll(PayloadRefs(n.u), n)
  {
    assert OwnedAll(PayloadRefs(n.u), n) == multiset{} by {
      assert PayloadRefs(n.u) == [];
    }
    match n.u
    case NullLit | IntLit(_) | FloatLit(_) =>
      assert FreeArm(n) == multiset{};
    case TypeName(t) =>
      assert FreeArm(n) == multiset{StringBlock(t)};
    case Id(t) =>
      assert FreeArm(n) == multiset{StringBlock(t)};
    case AddressOf(t) =>
      assert FreeArm(n) == multiset{StringBlock(t)};
    case Dereference(t) =>
      assert FreeArm(n) == multiset{StringBlock(t)};
    case StringLit(t) =>
      assert FreeArm(n) == multiset{StringBlock(t)};
  }

  /** The arms that own a node field. */
  lemma {:induction false} SingleFieldArmReleased(n: Node)
    requires n.u.ArrayType? || n.u.PtrType? || n.u.FieldAccess? || n.u.Return? || n.u.Assign?
    ensures FreeArm(n) == PayloadBlocks(n.u) + OwnedAll(PayloadRefs(n.u), n)
    decreases n, 1
  {
    match n.u
    case ArrayType(b, _) =>
      assert PayloadRefs(n.u) == [b];
      assert PayloadBlocks(n.u) == multiset{};
      OwnedOne(b, n);
      FreeTreeReleasesOwned(b);
      assert FreeArm(n) == FreeTree(b);
    case PtrType(b) =>
      assert PayloadRefs(n.u) == [b];
      assert PayloadBlocks(n.u) == multiset{};
      OwnedOne(b, n);
      FreeTreeReleasesOwned(b);
      assert FreeArm(n) == FreeTree(b);
    case FieldAccess(l, field) =>
      assert PayloadRefs(n.u) == [l];
      assert PayloadBlocks(n.u) == multiset{StringBlock(field)};
      OwnedOne(l, n);
      FreeTreeReleasesOwned(l);
      assert FreeArm(n) == FreeTree(l) + multiset{StringBlock(field)};
    case Return(v) =>
      assert PayloadRefs(n.u) == [v];
      assert PayloadBlocks(n.u) == multiset{};
      OwnedOne(v, n);
      FreeTreeReleasesOwned(v);
      assert FreeArm(n) == FreeTree(v);
    case Assign(name, v) =>
      assert PayloadRefs(n.u) == [v];
      assert PayloadBlocks(n.u) == multiset{StringBlock(name)};
      OwnedOne(v, n);
      FreeTreeReleasesOwned(v);
      assert FreeArm(n) == multiset{StringBlock(name)} + FreeTree(v);
  }

  /** The arms that own two operands: comparisons and binary operations. */
  lemma {:induction false} OperandArmReleased(n: Node)
    requires n.u.Compare? || n.u.Binop?
    ensures FreeArm(n) == PayloadBlocks(n.u) + OwnedAll(PayloadRefs(n.u), n)
    decreases n, 1
  {
    match n.u
    case Compare(_, l, r) =>
      assert PayloadRefs(n.u) == [l, r];
      assert PayloadBlocks(n.u) == multiset{};
      OwnedPair(l, r, n);
      FreeTreeReleasesOwned(l);
      FreeTreeReleasesOwned(r);
      assert FreeArm(n) == FreeTree(l) + FreeTree(r);
    case Binop(_, l, r) =>
      assert PayloadRefs(n.u) == [l, r];
      assert PayloadBlocks(n.u) == multiset{};
      OwnedPair(l, r, n);
      FreeTreeReleasesOwned(l);
      FreeTreeReleasesOwned(r);
      assert FreeArm(n) == FreeTree(l) + FreeTree(r);
  }

  /** The other arms that own two node fields: declarations and array indexing. */
  lemma {:induction false} PairFieldArmReleased(n: Node)
    requires n.u.Decl? || n.u.ArrayIndex?
    ensures FreeArm(n) == PayloadBlocks(n.u) + OwnedAll(PayloadRefs(n.u), n)
    decreases n, 1
  {
    match n.u
    case Decl(_, t, name, v, _) =>
      assert PayloadRefs(n.u) == [t, v];
      assert PayloadBlocks(n.u) == multiset{StringBlock(name)};
      OwnedPair(t, v, n);
      FreeTreeReleasesOwned(t);
      FreeTreeReleasesOwned(v);
      assert FreeArm(n) == FreeTree(t) + multiset{StringBlock(name)} + FreeTree(v);
    case ArrayIndex(a, i) =>
      assert PayloadRefs(n.u) == [a, i];
      assert PayloadBlocks(n.u) == multiset{};
      OwnedPair(a, i, n);
      FreeTreeReleasesOwned(a);
      FreeTreeReleasesOwned(i);
      assert FreeArm(n) == FreeTree(a) + FreeTree(i);
  }

  /** The arm of a conditional: condition, then-branch and else-branch. */
  lemma {:induction false} IfArmReleased(n: Node)
    requires n.u.If?
    ensures FreeArm(n) == PayloadBlocks(n.u) + OwnedAll(PayloadRefs(n.u), n)
    decreases n, 1
  {
    match n.u
    case If(c, t, e) =>
      assert PayloadRefs(n.u) == [c, t, e];
      assert PayloadBlocks(n.u) == multiset{};
      OwnedTriple(c, t, e, n);
      FreeTreeReleasesOwned(c);
      FreeTreeReleasesOwned(t);
      FreeTreeReleasesOwned(e);
      assert FreeArm(n) == FreeTree(c) + FreeTree(t) + FreeTree(e);
  }

  /** The arms that own one node list. */
  lemma {:induction false} ListArmReleased(n: Node)
    requires n.u.StructDef? || n.u.FnCall? || n.u.Block? || n.u.ArrayLit?
    ensures FreeArm(n) == PayloadBlocks(n.u) + OwnedAll(PayloadRefs(n.u), n)
    decreases n, 1
  {
    match n.u
    case StructDef(name, fs) =>
      assert PayloadRefs(n.u) == fs.nodes;
      assert PayloadBlocks(n.u) == multiset{StringBlock(name), ListBlock(fs)};
      FreeTreeEachReleasesOwned(fs.nodes, n);
      assert FreeArm(n) == multiset{StringBlock(name)} + FreeTreeEach(fs.nodes, n) + multiset{ListBlock(fs)};
    case FnCall(name, args) =>
      assert PayloadRefs(n.u) == args.nodes;
      assert PayloadBlocks(n.u) == multiset{StringBlock(name), ListBlock(args)};
      FreeTreeEachReleasesOwned(args.nodes, n);
      assert FreeArm(n) == multiset{StringBlock(name)} + FreeTreeEach(args.nodes, n) + multiset{ListBlock(args)};
    case Block(ss) =>
      assert PayloadRefs(n.u) == ss.nodes;
      assert PayloadBlocks(n.u) == multiset{ListBlock(ss)};
      FreeTreeEachReleasesOwned(ss.nodes, n);
      assert FreeArm(n) == FreeTreeEach(ss.nodes, n) + multiset{ListBlock(ss)};
    case ArrayLit(es) =>
      assert PayloadRefs(n.u) == es.nodes;
      assert PayloadBlocks(n.u) == multiset{ListBlock(es)};
      FreeTreeEachReleasesOwned(es.nodes, n);
      assert FreeArm(n) == FreeTreeEach(es.nodes, n) + multiset{ListBlock(es)};
  }

  /** The arm of a function definition: return type, name, parameters, body and calling convention. */
  lemma {:induction false} FunctionArmReleased(n: Node)
    requires n.u.Fn?
    ensures FreeArm(n) == PayloadBlocks(n.u) + OwnedAll(PayloadRefs(n.u), n)
    decreases n, 1
  {
    FunctionArmOwns(n);
    FunctionArmFrees(n);
    var u := n.u;
    Regroup(Owned(u.retType), OwnedAll(u.params.nodes, n), OwnedAll(u.body.nodes, n),
      StringBlock(u.name), ListBlock(u.params), ListBlock(u.body), StringBlock(u.callconv));
  }

  lemma FunctionArmOwns(n: Node)
    requires n.u.Fn?
    ensures OwnedAll(PayloadRefs(n.u), n)
         == Owned(n.u.retType) + OwnedAll(n.u.params.nodes, n) + OwnedAll(n.u.body.nodes, n)
  {
    var u := n.u;
    assert PayloadRefs(u) == [u.retType] + u.params.nodes + u.body.nodes;
    OwnedAllAppend([u.retType] + u.params.nodes, u.body.nodes, n);
    OwnedAllAppend([u.retType], u.params.nodes, n);
    OwnedOne(u.retType, n);
  }

  lemma {:induction false} FunctionArmFrees(n: Node)
    requires n.u.Fn?
    ensures FreeArm(n) == Owned(n.u.retType) + multiset{StringBlock(n.u.name)}
      + OwnedAll(n.u.params.nodes, n) + multiset{ListBlock(n.u.params)}
      + OwnedAll(n.u.body.nodes, n) + multiset{ListBlock(n.u.body)}
      + multiset{StringBlock(n.u.callconv)}
    decreases n, 0
  {
    var u := n.u;
    assert FreeArm(n) == FreeTree(u.retType) + multiset{StringBlock(u.name)}
      + FreeTreeEach(u.params.nodes, n) + FreeNodeList(u.params)
      + FreeTreeEach(u.body.nodes, n) + FreeNodeList(u.body)
      + multiset{StringBlock(u.callconv)};
    assert FreeTree(u.retType) == Owned(u.retType) by {
      FreeTreeReleasesOwned(u.retType);
    }
    assert FreeTreeEach(u.params.nodes, n) == OwnedAll(u.params.nodes, n) by {
      FreeTreeEachReleasesOwned(u.params.nodes, n);
    }
    assert FreeTreeEach(u.body.nodes, n) == OwnedAll(u.body.nodes, n) by {
      FreeTreeEachReleasesOwned(u.body.nodes, n);
    }
  }

  /** Multiset bookkeeping for the function arm. */
  lemma Regroup(r: Freed, p: Freed, b: Freed, x1: Block, x2: Block, x3: Block, x4: Block)
    ensures r + multiset{x1} + p + multiset{x2} + b + multiset{x3} + multiset{x4}
         == multiset{x1, x2, x3, x4} + (r + p + b)
  {
  }

  /** The arm of an extern declaration: return type, name, parameters and calling convention. */
  lemma {:induction false} ExternArmReleased(n: Node)
    requires n.u.ExternFn?
    ensures FreeArm(n) == PayloadBlocks(n.u) + OwnedAll(PayloadRefs(n.u), n)
    decreases n, 1
  {
    match n.u
    case ExternFn(rt, name, ps, cc) =>
      var r, p := Owned(rt), OwnedAll(ps.nodes, n);
      assert OwnedAll(PayloadRefs(n.u), n) == r + p by {
        assert PayloadRefs(n.u) == [rt] + ps.nodes;
        OwnedAllAppend([rt], ps.nodes, n);
        OwnedOne(rt, n);
      }
      assert FreeArm(n) == r + multiset{StringBlock(name)} + p + multiset{ListBlock(ps)} + multiset{StringBlock(cc)} by {
        FreeTreeReleasesOwned(rt);
        FreeTreeEachReleasesOwned(ps.nodes, n);
      }
      assert PayloadBlocks(n.u) == multiset{StringBlock(name), ListBlock(ps), StringBlock(cc)};
  }

  // ---------------------------------------------------------------------------
  // free_node as written
  // ---------------------------------------------------------------------------

  /**
    free_node stays within defined behaviour: it never reaches an AST_ASSIGN
    node.  For that kind it reads the `u.vardecl` arm although the node was
    built through `u.assign`, so its third step calls free_node on a slot the
    constructor never wrote.
   */
  predicate FreeDefined(p: Ref)
    decreases p
  {
    match p
    case None => true
    case Some(n) =>
      && !n.u.Assign?
      && (forall i :: 0 <= i < |n.children.nodes| ==> FreeDefined(n.children.nodes[i]))
      && match n.u
         case FnCall(_, args) => forall i :: 0 <= i < |args.nodes| ==> FreeDefined(args.nodes[i])
         case Return(v) => FreeDefined(v)
         case Binop(_, l, r) => FreeDefined(l) && FreeDefined(r)
         case Decl(_, _, _, v, _) => FreeDefined(v)
         case _ => true
  }

  predicate DefinedEach(rs: seq<Ref>) {
    forall i :: 0 <= i < |rs| ==> FreeDefined(rs[i])
  }

  /**
    free_node: the arm-specific release, then every child, the children list
    and the node itself.  Only the arms listed release anything of their own;
    every other kind falls into `default` and keeps its payload.
   */
  function FreeNode(p: Ref): (r: Freed)
    requires FreeDefined(p)
    ensures p.Some? ==> NodeBlock(p.value) in r && ListBlock(p.value.children) in r
    decreases p
  {
    match p
    case None => multiset{}
    case Some(n) =>
      FreeNodeArm(n) + FreeNodeEach(n.children.nodes) + FreeNodeList(n.children) + Shallow(p)
  }

  /** The kinds free_node's switch names; every other kind falls into `default`. */
  predicate HasSwitchCase(u: Payload) {
    || u.IntLit? || u.FloatLit? || u.TypeName? || u.ArrayType? || u.FnCall?
    || u.Return? || u.Binop? || u.Assign? || u.Decl? || u.Id? || u.ArrayLit?
  }

  /**
    The `switch (e->kind)` of free_node.  The `default` kinds release nothing
    of their own; a type name or identifier releases exactly its string; an
    array type releases the base's node struct and nothing else, and an array literal
    only its element list, none of the elements.
   */
  function FreeNodeArm(n: Node): (r: Freed)
    requires FreeDefined(Some(n))
    ensures !HasSwitchCase(n.u) ==> r == multiset{}
    ensures n.u.TypeName? ==> r == multiset{StringBlock(n.u.typeName)}
    ensures n.u.Id? ==> r == multiset{StringBlock(n.u.name)}
    ensures n.u.ArrayType? ==> |r| <= 1 && (n.u.base.Some? ==> ListBlock(n.u.base.value.children) !in r)
    ensures n.u.ArrayType? && n.u.base.Some? ==> NodeBlock(n.u.base.value) in r
    ensures n.u.ArrayLit? ==>
      && r == multiset{ListBlock(n.u.elements)}
      && forall i :: 0 <= i < |n.u.elements.nodes| && n.u.elements.nodes[i].Some? ==>
           NodeBlock(n.u.elements.nodes[i].value) !in r
    decreases n
  {
    match n.u
    case TypeName(t) => multiset{StringBlock(t)}
    case ArrayType(b, _) => Shallow(b)
    case FnCall(name, args) => multiset{StringBlock(name)} + FreeNodeEach(args.nodes) + FreeNodeList(args)
    case Return(v) => FreeNode(v)
    case Binop(_, l, r) => FreeNode(l) + FreeNode(r)
    case Decl(_, t, name, v, _) => Shallow(t) + multiset{StringBlock(name)} + FreeNode(v)
    case Id(name) => multiset{StringBlock(name)}
    case ArrayLit(es) => FreeNodeList(es)
    case _ => multiset{}
  }

  /** The loop `for (i = 0; i < count; i++) free_node(nodes[i])`. */
  function FreeNodeEach(rs: seq<Ref>): (r: Freed)
    requires DefinedEach(rs)
    ensures forall i :: 0 <= i < |rs| ==> FreeNode(rs[i]) <= r
    decreases rs
  {
    if rs == [] then multiset{}
    else
      assert DefinedEach(rs[1..]) by {
        forall i | 0 <= i < |rs[1..]| ensures FreeDefined(rs[1..][i]) {
          assert rs[1..][i] == rs[i + 1];
        }
      }
      var head := FreeNode(rs[0]);
      var tail := FreeNodeEach(rs[1..]);
      assert forall i :: 0 <= i < |rs| ==> FreeNode(rs[i]) <= head + tail by {
        forall i | 0 <= i < |rs| ensures FreeNode(rs[i]) <= head + tail {
          if i == 0 {
            WithinSum(head, head, tail);
          } else {
            assert rs[i] == rs[1..][i - 1];
            WithinSum(FreeNode(rs[i]), tail, head);
          }
        }
      }
      head + tail
  }

  /** A part of a release is within any release that contains it. */
  lemma WithinSum(a: Freed, b: Freed, c: Freed)
    requires a <= b
    ensures a <= b + c && a <= c + b
  {
  }

  /** free_node releases the node, its children list and every child's release. */
  lemma FreeNodeReleasesNode(n: Node)
    requires FreeDefined(Some(n))
    ensures NodeBlock(n) in FreeNode(Some(n)) && ListBlock(n.children) in FreeNode(Some(n))
    ensures forall i :: 0 <= i < |n.children.nodes| ==> FreeNode(n.children.nodes[i]) <= FreeNode(Some(n))
  {
    var r := FreeNode(Some(n));
    assert r == FreeNodeArm(n) + FreeNodeEach(n.children.nodes)
      + multiset{ListBlock(n.children)} + multiset{NodeBlock(n)};
    forall i | 0 <= i < |n.children.nodes| ensures FreeNode(n.children.nodes[i]) <= r {
    }
  }

  /**
    For a call, a return and a binary operation free_node also releases the
    operands, the arguments and the call's name and argument list.
   */
  lemma FreeNodeReleasesOperands(n: Node)
    requires FreeDefined(Some(n))
    ensures n.u.Binop? ==> FreeNode(n.u.lhs) + FreeNode(n.u.rhs) <= FreeNode(Some(n))
    ensures n.u.Return? ==> FreeNode(n.u.value) <= FreeNode(Some(n))
    ensures n.u.FnCall? ==>
      && StringBlock(n.u.name) in FreeNode(Some(n))
      && ListBlock(n.u.args) in FreeNode(Some(n))
      && forall i :: 0 <= i < |n.u.args.nodes| ==> FreeNode(n.u.args.nodes[i]) <= FreeNode(Some(n))
    ensures n.u.Decl? ==>
      && (n.u.declType.Some? ==> NodeBlock(n.u.declType.value) in FreeNode(Some(n)))
      && StringBlock(n.u.name) in FreeNode(Some(n))
      && FreeNode(n.u.value) <= FreeNode(Some(n))
  {
    ArmWithinFreeNode(n);
    if n.u.FnCall? {
      CallReleasesArguments(n);
    } else if n.u.Decl? {
      DeclarationReleasesNameAndValue(n);
    }
  }

  /** A declaration's arm is a shallow free of its type, its name and its value's release. */
  lemma DeclarationArmShape(n: Node)
    requires FreeDefined(Some(n))
    requires n.u.Decl?
    ensures FreeNodeArm(n) == Shallow(n.u.declType) + multiset{StringBlock(n.u.name)} + FreeNode(n.u.value)
  {
  }

  /** A declaration's arm releases its type's node struct, its name and its value's subtree, within free_node's release. */
  lemma DeclarationReleasesNameAndValue(n: Node)
    requires FreeDefined(Some(n))
    requires n.u.Decl?
    ensures n.u.declType.Some? ==> NodeBlock(n.u.declType.value) in FreeNode(Some(n))
    ensures StringBlock(n.u.name) in FreeNode(Some(n))
    ensures FreeNode(n.u.value) <= FreeNode(Some(n))
  {
    var r := FreeNode(Some(n));
    var arm := FreeNodeArm(n);
    var front := Shallow(n.u.declType) + multiset{StringBlock(n.u.name)};
    var value := FreeNode(n.u.value);
    ArmWithinFreeNode(n);
    DeclarationArmShape(n);
    WithinSum(value, value, front);
    WithinTrans(value, arm, r);
    assert StringBlock(n.u.name) in arm;
    if n.u.declType.Some? {
      assert NodeBlock(n.u.declType.value) in front;
    }
  }

  lemma ArmWithinFreeNode(n: Node)
    requires FreeDefined(Some(n))
    ensures FreeNodeArm(n) <= FreeNode(Some(n))
    ensures n.u.Binop? ==> FreeNodeArm(n) == FreeNode(n.u.lhs) + FreeNode(n.u.rhs)
    ensures n.u.Return? ==> FreeNodeArm(n) == FreeNode(n.u.value)
  {
    var arm := FreeNodeArm(n);
    var rest := FreeNodeEach(n.children.nodes) + multiset{ListBlock(n.children)} + multiset{NodeBlock(n)};
    assert FreeNode(Some(n)) == arm + rest;
    WithinSum(arm, arm, rest);
  }

  lemma CallReleasesArguments(n: Node)
    requires FreeDefined(Some(n))
    requires n.u.FnCall?
    ensures StringBlock(n.u.name) in FreeNode(Some(n))
    ensures ListBlock(n.u.args) in FreeNode(Some(n))
    ensures forall i :: 0 <= i < |n.u.args.nodes| ==> FreeNode(n.u.args.nodes[i]) <= FreeNode(Some(n))
  {
    var r := FreeNode(Some(n));
    var args := n.u.args;
    var each := FreeNodeEach(args.nodes);
    CallArmSplit(n);
    forall i | 0 <= i < |args.nodes| ensures FreeNode(args.nodes[i]) <= r {
      WithinTrans(FreeNode(args.nodes[i]), each, r);
    }
  }

  /** A call's arm releases its name, each argument and the argument list. */
  lemma CallArmShape(n: Node)
    requires FreeDefined(Some(n))
    requires n.u.FnCall?
    ensures FreeNodeArm(n) == multiset{StringBlock(n.u.name)} + FreeNodeEach(n.u.args.nodes) + multiset{ListBlock(n.u.args)}
  {
  }

  /** A call's arm is its name, its argument list and the arguments' releases, all within free_node's. */
  lemma CallArmSplit(n: Node)
    requires FreeDefined(Some(n))
    requires n.u.FnCall?
    ensures StringBlock(n.u.name) in FreeNode(Some(n))
    ensures ListBlock(n.u.args) in FreeNode(Some(n))
    ensures FreeNodeEach(n.u.args.nodes) <= FreeNode(Some(n))
  {
    var r := FreeNode(Some(n));
    var arm := FreeNodeArm(n);
    var args := n.u.args;
    var each := FreeNodeEach(args.nodes);
    var name := multiset{StringBlock(n.u.name)};
    var list := multiset{ListBlock(args)};
    ArmWithinFreeNode(n);
    CallArmShape(n);
    WithinSum(name + each, name + each, list);
    WithinSum(each, each, name);
    WithinTrans(each, name + each, arm);
    WithinTrans(each, arm, r);
    assert StringBlock(n.u.name) in arm && ListBlock(args) in arm;
  }

  lemma WithinTrans(a: Freed, b: Freed, c: Freed)
    requires a <= b && b <= c
    ensures a <= c
  {
  }

  lemma ShallowWithinOwned(p: Ref)
    ensures Shallow(p) <= Owned(p)
  {
  }

  /**
    free_node never releases a block the tree does not own, nor more often
    than the tree owns it: its release is a sub-multiset of Owned.
   */
  lemma {:induction false} FreeNodeWithinOwned(p: Ref)
    requires FreeDefined(p)
    ensures FreeNode(p) <= Owned(p)
    decreases p, 0
  {
    match p
    case None =>
    case Some(n) =>
      var blocks := PayloadBlocks(n.u);
      var refs := OwnedAll(PayloadRefs(n.u), n);
      var kids := OwnedAll(n.children.nodes, n);
      assert FreeNodeArm(n) <= blocks + refs by {
        FreeNodeArmWithin(n);
      }
      assert FreeNodeEach(n.children.nodes) <= kids by {
        FreeNodeEachWithin(n.children.nodes, n);
      }
      ShuffleWithin(FreeNodeArm(n), FreeNodeEach(n.children.nodes), blocks, refs, kids,
        ListBlock(n.children), NodeBlock(n));
  }

  /** The top-level bookkeeping of FreeNodeWithinOwned. */
  lemma ShuffleWithin(arm: Freed, each: Freed, blocks: Freed, refs: Freed, kids: Freed, list: Block, node: Block)
    requires arm <= blocks + refs && each <= kids
    ensures arm + each + multiset{list} + multiset{node} <= multiset{node, list} + blocks + kids + refs
  {
  }

  lemma {:induction false} FreeNodeEachWithin(rs: seq<Ref>, parent: Node)
    requires DefinedEach(rs)
    requires forall x :: x in rs ==> x < parent
    ensures FreeNodeEach(rs) <= OwnedAll(rs, parent)
    decreases parent, 1, |rs|
  {
    if rs != [] {
      assert rs[0] in rs;
      assert forall x :: x in rs[1..] ==> x in rs;
      assert DefinedEach(rs[1..]) by {
        forall i | 0 <= i < |rs[1..]| ensures FreeDefined(rs[1..][i]) {
          assert rs[1..][i] == rs[i + 1];
        }
      }
      FreeNodeWithinOwned(rs[0]);
      FreeNodeEachWithin(rs[1..], parent);
    }
  }

  lemma {:induction false} FreeNodeArmWithin(n: Node)
    requires FreeDefined(Some(n))
    ensures FreeNodeArm(n) <= PayloadBlocks(n.u) + OwnedAll(PayloadRefs(n.u), n)
    decreases n, 3
  {
    match n.u
    case ArrayType(_, _) | Return(_) => SingleFieldArmWithin(n);
    case Binop(_, _, _) | Decl(_, _, _, _, _) => PairFieldArmWithin(n);
    case FnCall(_, _) => CallArmWithin(n);
    case TypeName(_) | Id(_) | ArrayLit(_) =>
      assert FreeNodeArm(n) <= PayloadBlocks(n.u);
    case NullLit | IntLit(_) | FloatLit(_) | PtrType(_) | StructDef(_, _) | FieldAccess(_, _)
      | Compare(_, _, _) | If(_, _, _) | Fn(_, _, _, _, _) | ExternFn(_, _, _, _) | Block(_)
      | AddressOf(_) | Dereference(_) | StringLit(_) | ArrayIndex(_, _) =>
      assert FreeNodeArm(n) == multiset{};
  }

  lemma {:induction false} SingleFieldArmWithin(n: Node)
    requires FreeDefined(Some(n))
    requires n.u.ArrayType? || n.u.Return?
    ensures FreeNodeArm(n) <= PayloadBlocks(n.u) + OwnedAll(PayloadRefs(n.u), n)
    decreases n, 2
  {
    match n.u
    case ArrayType(b, _) =>
      assert PayloadRefs(n.u) == [b];
      assert FreeNodeArm(n) == Shallow(b);
      OwnedOne(b, n);
      ShallowWithinOwned(b);
    case Return(v) =>
      assert PayloadRefs(n.u) == [v];
      assert FreeNodeArm(n) == FreeNode(v);
      OwnedOne(v, n);
      FreeNodeWithinOwned(v);
  }

  lemma {:induction false} PairFieldArmWithin(n: Node)
    requires FreeDefined(Some(n))
    requires n.u.Binop? || n.u.Decl?
    ensures FreeNodeArm(n) <= PayloadBlocks(n.u) + OwnedAll(PayloadRefs(n.u), n)
    decreases n, 2
  {
    match n.u
    case Binop(_, l, r) =>
      assert PayloadRefs(n.u) == [l, r];
      assert PayloadBlocks(n.u) == multiset{};
      assert FreeNodeArm(n) == FreeNode(l) + FreeNode(r);
      OwnedPair(l, r, n);
      FreeNodeWithinOwned(l);
      FreeNodeWithinOwned(r);
    case Decl(_, t, name, v, _) =>
      assert PayloadRefs(n.u) == [t, v];
      assert PayloadBlocks(n.u) == multiset{StringBlock(name)};
      assert FreeNodeArm(n) == Shallow(t) + multiset{StringBlock(name)} + FreeNode(v);
      OwnedPair(t, v, n);
      ShallowWithinOwned(t);
      FreeNodeWithinOwned(v);
  }

  lemma {:induction false} CallArmWithin(n: Node)
    requires FreeDefined(Some(n))
    requires n.u.FnCall?
    ensures FreeNodeArm(n) <= PayloadBlocks(n.u) + OwnedAll(PayloadRefs(n.u), n)
    decreases n, 2
  {
    var args := n.u.args;
    assert PayloadRefs(n.u) == args.nodes;
    assert PayloadBlocks(n.u) == multiset{StringBlock(n.u.name), ListBlock(args)};
    assert FreeNodeArm(n) == multiset{StringBlock(n.u.name)} + FreeNodeEach(args.nodes) + FreeNodeList(args);
    FreeNodeEachWithin(args.nodes, n);
  }

  // ---------------------------------------------------------------------------
  // Exactly when free_node releases everything
  // ---------------------------------------------------------------------------

  /**
    A tree free_node releases in full: every node's arm is one whose case
    frees what it owns, or one that owns nothing.
   */
  predicate FreedCompletely(p: Ref)
    decreases p, 0
  {
    match p
    case None => true
    case Some(n) =>
      && (forall i :: 0 <= i < |n.children.nodes| ==> FreedCompletely(n.children.nodes[i]))
      && ArmFreedCompletely(n)
  }

  /** The arm of `n` is released in full by free_node's switch. */
  predicate ArmFreedCompletely(n: Node)
    decreases n, 1
  {
    match n.u
    case NullLit | IntLit(_) | FloatLit(_) | TypeName(_) | Id(_) => true
    case FnCall(_, args) => forall i :: 0 <= i < |args.nodes| ==> FreedCompletely(args.nodes[i])
    case Return(v) => FreedCompletely(v)
    case Binop(_, l, r) => FreedCompletely(l) && FreedCompletely(r)
    case Decl(_, t, _, v, _) => t.None? && FreedCompletely(v)
    case ArrayType(b, _) => b.None?
    case ArrayLit(es) => forall i :: 0 <= i < |es.nodes| ==> es.nodes[i].None?
    case PtrType(b) => b.None?
    case Compare(_, l, r) => l.None? && r.None?
    case ArrayIndex(a, i) => a.None? && i.None?
    case If(c, t, e) => c.None? && t.None? && e.None?
    case StructDef(_, _) | FieldAccess(_, _) | Fn(_, _, _, _, _) | ExternFn(_, _, _, _)
      | Block(_) | AddressOf(_) | Dereference(_) | StringLit(_) | Assign(_, _) => false
  }

  /** A sub-multiset as large as its bound is the bound. */
  lemma SubsetOfSameSize(a: Freed, b: Freed)
    requires a <= b && |a| == |b|
    ensures a == b
  {
    var d := b - a;
    assert b == a + d;
    assert |d| == 0;
  }

  lemma OwnedSize(p: Ref)
    ensures |Owned(p)| == 0 <==> p.None?
    ensures |Shallow(p)| <= |Owned(p)|
    ensures |Shallow(p)| == |Owned(p)| <==> p.None?
  {
    if p.Some? {
      var n := p.value;
      assert Owned(p) == multiset{NodeBlock(n), ListBlock(n.children)} + PayloadBlocks(n.u)
        + OwnedAll(n.children.nodes, n) + OwnedAll(PayloadRefs(n.u), n);
    }
  }

  lemma {:induction false} OwnedAllSize(rs: seq<Ref>, parent: Node)
    requires forall x :: x in rs ==> x < parent
    ensures |OwnedAll(rs, parent)| == 0 <==> forall i :: 0 <= i < |rs| ==> rs[i].None?
    decreases |rs|
  {
    if rs != [] {
      var rest := rs[1..];
      assert rs[0] in rs;
      assert forall x :: x in rest ==> x in rs;
      assert |OwnedAll(rs, parent)| == |Owned(rs[0])| + |OwnedAll(rest, parent)|;
      OwnedSize(rs[0]);
      OwnedAllSize(rest, parent);
      if forall i :: 0 <= i < |rs| ==> rs[i].None? {
        forall i | 0 <= i < |rest| ensures rest[i].None? {
          assert rest[i] == rs[i + 1];
        }
      }
      if rs[0].None? && forall i :: 0 <= i < |rest| ==> rest[i].None? {
        forall i | 0 <= i < |rs| ensures rs[i].None? {
          if i > 0 {
            assert rs[i] == rest[i - 1];
          }
        }
      }
    }
  }

  /**
    free_node releases everything a tree owns exactly when the tree is
    FreedCompletely; otherwise it releases strictly less (by
    FreeNodeWithinOwned, never more).
   */
  lemma FreeNodeCompleteIff(p: Ref)
    requires FreeDefined(p)
    ensures FreeNode(p) == Owned(p) <==> FreedCompletely(p)
  {
    FreeNodeWithinOwned(p);
    FreeNodeSize(p);
    if FreedCompletely(p) {
      SubsetOfSameSize(FreeNode(p), Owned(p));
    }
  }

  /** Counting blocks: free_node releases no more than the tree owns, and as many exactly when FreedCompletely. */
  lemma {:induction false} FreeNodeSize(p: Ref)
    requires FreeDefined(p)
    ensures |FreeNode(p)| <= |Owned(p)|
    ensures |FreeNode(p)| == |Owned(p)| <==> FreedCompletely(p)
    decreases p, 0
  {
    match p
    case None =>
    case Some(n) =>
      assert |FreeNode(p)| == |FreeNodeArm(n)| + |FreeNodeEach(n.children.nodes)| + 2 by {
        assert FreeNode(p) == FreeNodeArm(n) + FreeNodeEach(n.children.nodes)
          + multiset{ListBlock(n.children)} + multiset{NodeBlock(n)};
      }
      assert |Owned(p)| == 2 + |PayloadBlocks(n.u)| + |OwnedAll(PayloadRefs(n.u), n)|
        + |OwnedAll(n.children.nodes, n)|;
      ArmSize(n);
      EachSize(n.children.nodes, n);
  }

  lemma {:induction false} EachSize(rs: seq<Ref>, parent: Node)
    requires DefinedEach(rs)
    requires forall x :: x in rs ==> x < parent
    ensures |FreeNodeEach(rs)| <= |OwnedAll(rs, parent)|
    ensures |FreeNodeEach(rs)| == |OwnedAll(rs, parent)|
      <==> forall i :: 0 <= i < |rs| ==> FreedCompletely(rs[i])
    decreases parent, 1, |rs|
  {
    if rs != [] {
      var rest := rs[1..];
      assert rs[0] in rs;
      assert forall x :: x in rest ==> x in rs;
      assert DefinedEach(rest) by {
        forall i | 0 <= i < |rest| ensures FreeDefined(rest[i]) {
          assert rest[i] == rs[i + 1];
        }
      }
      assert |FreeNodeEach(rs)| == |FreeNode(rs[0])| + |FreeNodeEach(rest)|;
      assert |OwnedAll(rs, parent)| == |Owned(rs[0])| + |OwnedAll(rest, parent)|;
      FreeNodeSize(rs[0]);
      EachSize(rest, parent);
      EveryEntry(rs);
    }
  }

  /** All entries of a non-empty list satisfy FreedCompletely exactly when the head and all of the tail do. */
  lemma EveryEntry(rs: seq<Ref>)
    requires rs != []
    ensures (forall i :: 0 <= i < |rs| ==> FreedCompletely(rs[i]))
      <==> FreedCompletely(rs[0]) && forall i :: 0 <= i < |rs[1..]| ==> FreedCompletely(rs[1..][i])
  {
    if FreedCompletely(rs[0]) && forall i :: 0 <= i < |rs[1..]| ==> FreedCompletely(rs[1..][i]) {
      forall i | 0 <= i < |rs| ensures FreedCompletely(rs[i]) {
        if i > 0 {
          assert rs[i] == rs[1..][i - 1];
        }
      }
    }
  }

  lemma {:induction false} ArmSize(n: Node)
    requires FreeDefined(Some(n))
    ensures |FreeNodeArm(n)| <= |PayloadBlocks(n.u)| + |OwnedAll(PayloadRefs(n.u), n)|
    ensures |FreeNodeArm(n)| == |PayloadBlocks(n.u)| + |OwnedAll(PayloadRefs(n.u), n)| <==> ArmFreedCompletely(n)
    decreases n, 3
  {
    match n.u
    case NullLit | IntLit(_) | FloatLit(_) | TypeName(_) | Id(_) =>
      assert PayloadRefs(n.u) == [];
    case FnCall(_, _) => CallArmSize(n);
    case Return(_) | ArrayType(_, _) | PtrType(_) => SingleFieldArmSize(n);
    case Binop(_, _, _) | Decl(_, _, _, _, _) => PairFieldArmSize(n);
    case Compare(_, _, _) | ArrayIndex(_, _) | If(_, _, _) => KeptOperandsSize(n);
    case ArrayLit(es) =>
      assert PayloadRefs(n.u) == es.nodes;
      assert FreeNodeArm(n) == PayloadBlocks(n.u);
      OwnedAllSize(es.nodes, n);
    case StructDef(_, _) | FieldAccess(_, _) | Fn(_, _, _, _, _) | ExternFn(_, _, _, _)
      | Block(_) | AddressOf(_) | Dereference(_) | StringLit(_) =>
      KeptPayloadLeaks(n);
  }

  lemma {:induction false} CallArmSize(n: Node)
    requires FreeDefined(Some(n))
    requires n.u.FnCall?
    ensures |FreeNodeArm(n)| <= |PayloadBlocks(n.u)| + |OwnedAll(PayloadRefs(n.u), n)|
    ensures |FreeNodeArm(n)| == |PayloadBlocks(n.u)| + |OwnedAll(PayloadRefs(n.u), n)| <==> ArmFreedCompletely(n)
    decreases n, 2
  {
    var args := n.u.args;
    assert PayloadRefs(n.u) == args.nodes;
    assert |PayloadBlocks(n.u)| == 2;
    assert |FreeNodeArm(n)| == 2 + |FreeNodeEach(args.nodes)|;
    EachSize(args.nodes, n);
  }

  lemma {:induction false} SingleFieldArmSize(n: Node)
    requires FreeDefined(Some(n))
    requires n.u.Return? || n.u.ArrayType? || n.u.PtrType?
    ensures |FreeNodeArm(n)| <= |PayloadBlocks(n.u)| + |OwnedAll(PayloadRefs(n.u), n)|
    ensures |FreeNodeArm(n)| == |PayloadBlocks(n.u)| + |OwnedAll(PayloadRefs(n.u), n)| <==> ArmFreedCompletely(n)
    decreases n, 2
  {
    assert PayloadBlocks(n.u) == multiset{};
    match n.u
    case Return(v) =>
      assert PayloadRefs(n.u) == [v];
      assert FreeNodeArm(n) == FreeNode(v);
      OwnedOne(v, n);
      FreeNodeSize(v);
    case ArrayType(b, _) =>
      assert PayloadRefs(n.u) == [b];
      assert FreeNodeArm(n) == Shallow(b);
      OwnedOne(b, n);
      OwnedSize(b);
    case PtrType(b) =>
      assert PayloadRefs(n.u) == [b];
      assert FreeNodeArm(n) == multiset{};
      OwnedOne(b, n);
      OwnedSize(b);
  }

  lemma {:induction false} PairFieldArmSize(n: Node)
    requires FreeDefined(Some(n))
    requires n.u.Binop? || n.u.Decl?
    ensures |FreeNodeArm(n)| <= |PayloadBlocks(n.u)| + |OwnedAll(PayloadRefs(n.u), n)|
    ensures |FreeNodeArm(n)| == |PayloadBlocks(n.u)| + |OwnedAll(PayloadRefs(n.u), n)| <==> ArmFreedCompletely(n)
    decreases n, 2
  {
    match n.u
    case Binop(_, l, r) =>
      assert PayloadRefs(n.u) == [l, r];
      assert PayloadBlocks(n.u) == multiset{};
      assert FreeNodeArm(n) == FreeNode(l) + FreeNode(r);
      OwnedPair(l, r, n);
      FreeNodeSize(l);
      FreeNodeSize(r);
    case Decl(_, t, name, v, _) =>
      assert PayloadRefs(n.u) == [t, v];
      assert PayloadBlocks(n.u) == multiset{StringBlock(name)};
      assert FreeNodeArm(n) == Shallow(t) + multiset{StringBlock(name)} + FreeNode(v);
      OwnedPair(t, v, n);
      OwnedSize(t);
      FreeNodeSize(v);
  }

  /** The operand-holding arms free_node's `default` keeps: complete only when every operand is NULL. */
  lemma KeptOperandsSize(n: Node)
    requires FreeDefined(Some(n))
    requires n.u.Compare? || n.u.ArrayIndex? || n.u.If?
    ensures |FreeNodeArm(n)| <= |PayloadBlocks(n.u)| + |OwnedAll(PayloadRefs(n.u), n)|
    ensures |FreeNodeArm(n)| == |PayloadBlocks(n.u)| + |OwnedAll(PayloadRefs(n.u), n)| <==> ArmFreedCompletely(n)
  {
    assert |FreeNodeArm(n)| == 0;
    assert |PayloadBlocks(n.u)| == 0;
    match n.u
    case Compare(_, l, r) =>
      assert PayloadRefs(n.u) == [l, r];
      OwnedPair(l, r, n);
      OwnedSize(l);
      OwnedSize(r);
    case ArrayIndex(a, i) =>
      assert PayloadRefs(n.u) == [a, i];
      OwnedPair(a, i, n);
      OwnedSize(a);
      OwnedSize(i);
    case If(c, t, e) =>
      assert PayloadRefs(n.u) == [c, t, e];
      OwnedTriple(c, t, e, n);
      OwnedSize(c);
      OwnedSize(t);
      OwnedSize(e);
  }

  /** The arms that always own a string or list, which free_node's `default` keeps. */
  lemma KeptPayloadLeaks(n: Node)
    requires FreeDefined(Some(n))
    requires n.u.StructDef? || n.u.FieldAccess? || n.u.Fn? || n.u.ExternFn?
          || n.u.Block? || n.u.AddressOf? || n.u.Dereference? || n.u.StringLit?
    ensures |FreeNodeArm(n)| < |PayloadBlocks(n.u)| + |OwnedAll(PayloadRefs(n.u), n)|
    ensures !ArmFreedCompletely(n)
  {
    assert FreeNodeArm(n) == multiset{};
    assert |PayloadBlocks(n.u)| > 0;
  }

  // ---------------------------------------------------------------------------
  // What free_node leaves allocated
  // ---------------------------------------------------------------------------

  /** A tree whose release by free_node misses something it owns. */
  lemma LeakFromArm(n: Node)
    requires FreeDefined(Some(n))
    requires !ArmFreedCompletely(n)
    ensures FreeNode(Some(n)) < Owned(Some(n))
  {
    FreeNodeWithinOwned(Some(n));
    FreeNodeCompleteIff(Some(n));
  }

  /**
    An array literal with a non-NULL element (`[1]`): free_node releases the
    element list but none of the elements, so it releases strictly less than
    the tree owns, while FreeTree releases all of it.
   */
  lemma ArrayLiteralLeaksElements(n: Node, i: nat)
    requires FreeDefined(Some(n))
    requires n.u.ArrayLit? && i < |n.u.elements.nodes| && n.u.elements.nodes[i].Some?
    ensures FreeNode(Some(n)) < Owned(Some(n))
    ensures FreeTree(Some(n)) == Owned(Some(n))
  {
    LeakFromArm(n);
    FreeTreeReleasesOwned(Some(n));
  }

  /**
    An array type with a base type (`i32[4]`): free_node frees the base
    type's node struct with a plain `free`, leaving its children list and
    type name behind.
   */
  lemma ArrayTypeLeaksBase(n: Node)
    requires FreeDefined(Some(n))
    requires n.u.ArrayType? && n.u.base.Some?
    ensures FreeNode(Some(n)) < Owned(Some(n))
    ensures FreeTree(Some(n)) == Owned(Some(n))
  {
    LeakFromArm(n);
    FreeTreeReleasesOwned(Some(n));
  }

  /** A declaration with a type (`i32 x`): the type node is freed the same shallow way. */
  lemma DeclarationLeaksType(n: Node)
    requires FreeDefined(Some(n))
    requires n.u.Decl? && n.u.declType.Some?
    ensures FreeNode(Some(n)) < Owned(Some(n))
    ensures FreeTree(Some(n)) == Owned(Some(n))
  {
    LeakFromArm(n);
    FreeTreeReleasesOwned(Some(n));
  }

  /**
    The kinds free_node's `default` covers keep their arm: every structure,
    field access, function, extern declaration, block, address-of,
    dereference and string literal (each owns a string or list), and every
    pointer type, comparison, `if` and index expression with a non-NULL
    operand.
   */
  lemma DefaultArmLeaks(n: Node)
    requires FreeDefined(Some(n))
    requires || n.u.StructDef? || n.u.FieldAccess? || n.u.Fn? || n.u.ExternFn?
             || n.u.Block? || n.u.AddressOf? || n.u.Dereference? || n.u.StringLit?
             || (n.u.PtrType? && n.u.base.Some?)
             || (n.u.Compare? && (n.u.lhs.Some? || n.u.rhs.Some?))
             || (n.u.If? && (n.u.cond.Some? || n.u.thenBody.Some? || n.u.elseBody.Some?))
             || (n.u.ArrayIndex? && (n.u.indexed.Some? || n.u.index.Some?))
    ensures FreeNode(Some(n)) < Owned(Some(n))
    ensures FreeTree(Some(n)) == Owned(Some(n))
  {
    LeakFromArm(n);
    FreeTreeReleasesOwned(Some(n));
  }

  /** `[1]` is such an array literal. */
  lemma OneElementArrayLeaks()
    ensures var lit := CreateArrayLiteralNode(Add(CreateNodeList(), Some(CreateIntNode(1))));
            FreeDefined(Some(lit)) && FreeNode(Some(lit)) < Owned(Some(lit))
  {
    var lit := CreateArrayLiteralNode(Add(CreateNodeList(), Some(CreateIntNode(1))));
    assert lit.u.elements.nodes == [Some(CreateIntNode(1))];
    ArrayLiteralLeaksElements(lit, 0);
  }

  /** `T[4]`, for any type name T, is such an array type. */
  lemma ArrayOfFourLeaks(typ: seq<char>)
    requires Terminated(typ)
    ensures var a := CreateArrayTypeNode(Some(CreateTypeNode(typ)), 4);
            FreeDefined(Some(a)) && FreeNode(Some(a)) < Owned(Some(a))
  {
    ArrayTypeLeaksBase(CreateArrayTypeNode(Some(CreateTypeNode(typ)), 4));
  }

  /** `T x`, for any type name T and variable name x, is such a declaration. */
  lemma TypedDeclarationLeaks(typ: seq<char>, name: seq<char>)
    requires Terminated(typ) && Terminated(name)
    ensures var d := CreateVarDeclNode(Some(CreateTypeNode(typ)), name, None, 1);
            FreeDefined(Some(d)) && FreeNode(Some(d)) < Owned(Some(d))
  {
    DeclarationLeaksType(CreateVarDeclNode(Some(CreateTypeNode(typ)), name, None, 1));
  }

  /** Every string literal falls into the `default` case and keeps its text. */
  lemma StringLiteralLeaks(text: seq<char>)
    requires Terminated(text)
    ensures var lit := CreateStringLiteralNode(text);
            FreeDefined(Some(lit)) && FreeNode(Some(lit)) < Owned(Some(lit))
  {
    DefaultArmLeaks(CreateStringLiteralNode(text));
  }
}
