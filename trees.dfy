/** The Huffman tree (`ArbreHuffman`): an immutable leaf or internal node.
    Its fields are set once by the validating constructor and never change,
    so it is a datatype; the constructor's checks are `MakeTree`. */
module HuffmanTrees {
  import opened Common

  /** A leaf stores a byte and its number of occurrences; an internal node
      stores the sum of its children's counts and the two children. */
  datatype Tree =
    | Leaf(element: byte, count: int)
    | Node(count: int, left: Tree, right: Tree)

  /** What the constructor guarantees of every tree it builds, recursively:
      leaves have a non-zero count and a node's count is its children's sum. */
  predicate WellFormed(t: Tree)
  {
    match t
    case Leaf(_, c) => c != 0
    case Node(c, l, r) => c == l.count + r.count && WellFormed(l) && WellFormed(r)
  }

  /** Python truthiness of the optional count argument: absent or zero is false. */
  predicate Truthy(count: Option<int>)
  {
    count.Some? && count.value != 0
  }

  /** The constructor `ArbreHuffman(element, nb_occurrences, fils_gauche, fils_droit)`.
      An element, when given, is a one-byte string and therefore always truthy.
      `sameChild` says that the caller passed the very same object as both
      children (Python's `fils_gauche is fils_droit`). */
  function MakeTree(element: Option<byte>, count: Option<int>,
                    left: Option<Tree>, right: Option<Tree>, sameChild: bool): (r: Result<Tree>)
    requires sameChild ==> left.Some? && left == right
    // a leaf exactly from a truthy element and count and no children, storing both
    ensures r.Ok? && r.value.Leaf? <==>
              element.Some? && Truthy(count) && left.None? && right.None?
    ensures r.Ok? && r.value.Leaf? ==>
              r.value.element == element.value && r.value.count == count.value
    // a node exactly from two children that are different objects, no element, no count
    ensures r.Ok? && r.value.Node? <==>
              left.Some? && right.Some? && element.None? && !Truthy(count) && !sameChild
    ensures r.Ok? && r.value.Node? ==>
              r.value.left == left.value && r.value.right == right.value &&
              r.value.count == left.value.count + right.value.count
    // exactly one child and no element or count: the sum reads a field of None
    ensures r == Err(NoneAttribute) <==>
              (left.Some? != right.Some?) && element.None? && !Truthy(count)
    // every other combination is incoherent
    ensures r.Err? ==> r.error == NoneAttribute || r.error == TreeIncoherent
    ensures r.Ok? && r.value.Node? && WellFormed(left.value) && WellFormed(right.value) ==>
              WellFormed(r.value)
    ensures r.Ok? && r.value.Leaf? ==> WellFormed(r.value)
  {
    if element.Some? && Truthy(count) && left.None? && right.None? then
      Ok(Leaf(element.value, count.value))
    else if (left.Some? || right.Some?) && !(Truthy(count) || element.Some?) && !sameChild then
      if left.None? || right.None? then Err(NoneAttribute)
      else Ok(Node(right.value.count + left.value.count, left.value, right.value))
    else
      Err(TreeIncoherent)
  }

  /** The leaves of a tree, as a multiset. */
  function LeafBag(t: Tree): multiset<Tree>
  {
    match t
    case Leaf(_, _) => multiset{t}
    case Node(_, l, r) => LeafBag(l) + LeafBag(r)
  }

  /** `est_une_feuille`: true exactly when an element is stored. */
  predicate IsLeaf(t: Tree)
  {
    t.Leaf?
  }

  /** `element`: the stored byte of a leaf; an internal node raises. */
  function Element(t: Tree): (r: Result<byte>)
    ensures r.Ok? <==> IsLeaf(t)
    ensures r.Ok? ==> r.value == t.element
    ensures r.Err? ==> r.error == MustBeLeaf
  {
    if IsLeaf(t) then Ok(t.element) else Err(MustBeLeaf)
  }

  /** `fils_gauche`: the left child of a node; a leaf raises. */
  function LeftChild(t: Tree): (r: Result<Tree>)
    ensures r.Ok? <==> !IsLeaf(t)
    ensures r.Ok? ==> r.value == t.left && r.value < t
    ensures r.Err? ==> r.error == MustNotBeLeaf
  {
    if IsLeaf(t) then Err(MustNotBeLeaf) else Ok(t.left)
  }

  /** `fils_droit`: the right child of a node; a leaf raises. */
  function RightChild(t: Tree): (r: Result<Tree>)
    ensures r.Ok? <==> !IsLeaf(t)
    ensures r.Ok? ==> r.value == t.right && r.value < t
    ensures r.Err? ==> r.error == MustNotBeLeaf
  {
    if IsLeaf(t) then Err(MustNotBeLeaf) else Ok(t.right)
  }

  /** The four weight comparisons `<`, `<=`, `>`, `>=`: they look at the
      counts only, and together they form a total preorder. */
  predicate Less(a: Tree, b: Tree) { a.count < b.count }
  predicate LessOrEqual(a: Tree, b: Tree) { a.count <= b.count }
  predicate Greater(a: Tree, b: Tree) { a.count > b.count }
  predicate GreaterOrEqual(a: Tree, b: Tree) { a.count >= b.count }

  /** Two trees with the same count are indistinguishable to every comparison,
      whatever their shapes and elements; the comparisons are mutually
      consistent (a strict order and its complement). */
  lemma ComparisonsSeeOnlyCounts(a: Tree, a': Tree, b: Tree)
    requires a.count == a'.count
    ensures Less(a, b) == Less(a', b) && Greater(a, b) == Greater(a', b)
    ensures LessOrEqual(a, b) == LessOrEqual(a', b) && GreaterOrEqual(a, b) == GreaterOrEqual(a', b)
    ensures Greater(a, b) == Less(b, a) && GreaterOrEqual(a, b) == LessOrEqual(b, a)
    ensures LessOrEqual(a, b) == !Greater(a, b) && GreaterOrEqual(a, b) == !Less(a, b)
    ensures Less(a, b) || LessOrEqual(b, a)
  {
  }

  /** `__eq__`: leaves compare element and count, nodes compare count and
      both subtrees, and a leaf never equals a node. */
  function Equal(a: Tree, b: Tree): bool
  {
    match (a, b)
    case (Leaf(x, c), Leaf(y, d)) => x == y && c == d
    case (Node(c, l, r), Node(d, l', r')) => c == d && Equal(l, l') && Equal(r, r')
    case _ => false
  }

  /** `__ne__`: the negation of `__eq__`. */
  function NotEqual(a: Tree, b: Tree): (r: bool)
    ensures r <==> a != b
  {
    EqualIsStructural(a, b);
    !Equal(a, b)
  }

  /** The recursive `__eq__` is exactly structural equality of trees. */
  lemma {:induction false} EqualIsStructural(a: Tree, b: Tree)
    ensures Equal(a, b) <==> a == b
  {
    match (a, b)
    case (Node(_, l, r), Node(_, l', r')) =>
      EqualIsStructural(l, l');
      EqualIsStructural(r, r');
    case _ =>
  }
}
