/**
  The growable node list of the AST (ASTNodeList in src/ast.c).

  The C list is a heap buffer of `capacity` slots of which the first `count`
  are in use.  The model keeps the used slots as a sequence, so `count` is its
  length, and the capacity as a number: the slots beyond `count` hold nothing
  the program ever reads.
 */
module NodeLists {

  datatype NodeList<T> = NodeList(nodes: seq<T>, capacity: nat)
  {
    function Count(): nat {
      |nodes|
    }
  }

  /** The capacity a fresh list starts with. */
  const InitialCapacity: nat := 4

  function Pow2(k: nat): (p: nat)
    ensures p >= 1
  {
    if k == 0 then 1 else 2 * Pow2(k - 1)
  }

  /** The capacities reachable from the initial one by doubling. */
  predicate IsGrowthCapacity(c: nat)
    decreases c
  {
    c == InitialCapacity || (c > InitialCapacity && c % 2 == 0 && IsGrowthCapacity(c / 2))
  }

  /** A list whose used slots fit in its buffer and whose capacity is one the list can have grown to. */
  predicate Valid<T>(l: NodeList<T>) {
    l.Count() <= l.capacity && IsGrowthCapacity(l.capacity)
  }

  /** What `node_list_add` relies on to write inside the buffer. */
  predicate HasRoom<T>(l: NodeList<T>) {
    l.Count() <= l.capacity && l.capacity > 0
  }

  /** create_node_list: an empty list with a buffer of four slots. */
  function CreateNodeList<T>(): (l: NodeList<T>)
    ensures l.Count() == 0 && l.capacity == InitialCapacity
    ensures Valid(l)
  {
    NodeList([], InitialCapacity)
  }

  /**
    node_list_add: when the list is full the buffer doubles, then the node goes
    into slot `count` and `count` grows by one.
   */
  function Add<T>(l: NodeList<T>, x: T): (r: NodeList<T>)
    requires HasRoom(l)
    ensures r.Count() == l.Count() + 1
    ensures r.nodes[l.Count()] == x
    ensures r.nodes[..l.Count()] == l.nodes
    ensures l.Count() >= l.capacity ==> r.capacity == 2 * l.capacity
    ensures l.Count() < l.capacity ==> r.capacity == l.capacity
    ensures HasRoom(r)
    ensures Valid(l) ==> Valid(r)
  {
    var grown := if l.Count() >= l.capacity then 2 * l.capacity else l.capacity;
    assert IsGrowthCapacity(l.capacity) && grown == 2 * l.capacity ==> IsGrowthCapacity(grown / 2);
    NodeList(l.nodes + [x], grown)
  }

  /** Every growth capacity is at least the initial one. */
  lemma {:induction false} GrowthCapacityAtLeastInitial(c: nat)
    requires IsGrowthCapacity(c)
    ensures c >= InitialCapacity
  {
  }

  /** The growth capacities are exactly the numbers 4 * 2^k. */
  lemma {:induction false} GrowthCapacityIsScaledPowerOfTwo(c: nat)
    ensures IsGrowthCapacity(c) <==> exists k: nat :: c == InitialCapacity * Pow2(k)
  {
    if IsGrowthCapacity(c) {
      GrowthCapacityIsPower(c);
    }
    if exists k: nat :: c == InitialCapacity * Pow2(k) {
      var k: nat :| c == InitialCapacity * Pow2(k);
      PowerIsGrowthCapacity(k);
    }
  }

  lemma {:induction false} GrowthCapacityIsPower(c: nat)
    requires IsGrowthCapacity(c)
    ensures exists k: nat :: c == InitialCapacity * Pow2(k)
    decreases c
  {
    if c == InitialCapacity {
      assert c == InitialCapacity * Pow2(0);
    } else {
      GrowthCapacityIsPower(c / 2);
      var k: nat :| c / 2 == InitialCapacity * Pow2(k);
      assert c == InitialCapacity * Pow2(k + 1);
    }
  }

  lemma {:induction false} PowerIsGrowthCapacity(k: nat)
    ensures IsGrowthCapacity(InitialCapacity * Pow2(k))
  {
    if k > 0 {
      PowerIsGrowthCapacity(k - 1);
    }
  }

  /** The capacity of any valid list is 4 * 2^k for some k. */
  lemma ValidCapacityIsScaledPowerOfTwo<T>(l: NodeList<T>)
    requires Valid(l)
    ensures exists k: nat :: l.capacity == InitialCapacity * Pow2(k)
  {
    GrowthCapacityIsScaledPowerOfTwo(l.capacity);
  }

  /** The capacity a list holding `n` entries has when it was built by `n` calls of `Add` on a fresh list. */
  function CapacityFor(n: nat): nat
    decreases n
  {
    if n <= InitialCapacity then InitialCapacity else 2 * CapacityFor((n + 1) / 2)
  }

  /** CapacityFor(n) is the least growth capacity that holds n entries. */
  lemma {:induction false} CapacityForIsLeast(n: nat)
    ensures IsGrowthCapacity(CapacityFor(n)) && n <= CapacityFor(n)
    ensures forall c: nat :: IsGrowthCapacity(c) && n <= c ==> CapacityFor(n) <= c
    decreases n
  {
    if n > InitialCapacity {
      var m := (n + 1) / 2;
      CapacityForIsLeast(m);
      assert CapacityFor(n) / 2 == CapacityFor(m);
      forall c: nat | IsGrowthCapacity(c) && n <= c
        ensures CapacityFor(n) <= c
      {
        assert c > InitialCapacity && c % 2 == 0 && IsGrowthCapacity(c / 2);
        assert m <= c / 2;
        assert CapacityFor(m) <= c / 2;
      }
    } else {
      forall c: nat | IsGrowthCapacity(c) && n <= c
        ensures CapacityFor(n) <= c
      {
        GrowthCapacityAtLeastInitial(c);
      }
    }
  }

  /** One more `Add` doubles CapacityFor exactly when the list was full. */
  lemma {:induction false} CapacityForStep(n: nat)
    ensures CapacityFor(n + 1) == if n >= CapacityFor(n) then 2 * CapacityFor(n) else CapacityFor(n)
    decreases n
  {
    CapacityForIsLeast(n);
    if n > InitialCapacity {
      if n % 2 == 0 {
        CapacityForStep(n / 2);
      } else {
        assert (n + 2) / 2 == (n + 1) / 2;
        assert CapacityFor(n) % 2 == 0;
      }
    }
  }

  /**
    Builds a list from `xs` as a caller would: a fresh list followed by
    one `Add` per entry.  The result holds exactly `xs` and its capacity is the
    least 4 * 2^k that holds them.
   */
  method FromSeq<T>(xs: seq<T>) returns (l: NodeList<T>)
    ensures l.nodes == xs
    ensures Valid(l)
    ensures l.capacity == CapacityFor(|xs|)
  {
    l := CreateNodeList();
    var i := 0;
    while i < |xs|
      invariant 0 <= i <= |xs|
      invariant l.nodes == xs[..i]
      invariant Valid(l)
      invariant l.capacity == CapacityFor(i)
    {
      CapacityForStep(i);
      GrowthCapacityAtLeastInitial(l.capacity);
      l := Add(l, xs[i]);
      assert xs[..i + 1] == xs[..i] + [xs[i]];
      i := i + 1;
    }
  }
}
