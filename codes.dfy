/** The code table (`code_binaire`): each byte of the tree gets the path
    from the root to its leaf, 0 for a left step and 1 for a right step. */
module CodeTables {
  import opened Common
  import opened HuffmanTrees
  import opened BinaryCodes

  /** A value of the table: a code (a `CodeBinaire`), or the bare `Bit`
      stored for a tree that is a single leaf. */
  datatype Entry = Code(bits: seq<Bit>) | BareBit(bit: Bit)

  /** The bytes stored in the leaves of a tree. */
  function Elements(t: Tree): set<byte>
  {
    match t
    case Leaf(e, _) => {e}
    case Node(_, l, r) => Elements(l) + Elements(r)
  }

  /** The bytes of a tree are those of its leaves. */
  lemma {:induction false} ElementsOfLeaves(t: Tree)
    ensures forall l :: l in LeafBag(t) ==> l.Leaf? && l.element in Elements(t)
    ensures forall k :: k in Elements(t) ==> exists c :: Leaf(k, c) in LeafBag(t)
  {
    match t
    case Leaf(e, c) =>
      assert Leaf(e, c) in LeafBag(t);
    case Node(_, l, r) =>
      ElementsOfLeaves(l);
      ElementsOfLeaves(r);
  }

  /** The subtree reached by following `path` from `t`, 0 to the left and
      1 to the right; stepping down from a leaf raises. */
  function Walk(t: Tree, path: seq<Bit>): (r: Result<Tree>)
    ensures r.Err? ==> r.error == MustNotBeLeaf
    decreases |path|
  {
    if path == [] then Ok(t)
    else
      var child := if path[0] == Bit0 then LeftChild(t) else RightChild(t);
      if child.Err? then Err(child.error) else Walk(child.value, path[1..])
  }

  /** `table_codage`: records `code` for the byte of a leaf (a later leaf
      with the same byte overwrites), and otherwise fills the left subtree
      with `code + [0]`, then the right one with `code + [1]`. */
  function Fill(t: Tree, code: seq<Bit>, table: map<byte, Entry>): map<byte, Entry>
  {
    match t
    case Leaf(e, _) => table[e := Code(code)]
    case Node(_, l, r) => Fill(r, code + [Bit1], Fill(l, code + [Bit0], table))
  }

  /** `code_binaire`: a node's two subtrees are filled starting from the
      codes [0] and [1]; a tree that is a single leaf maps its byte to a bare
      `Bit.BIT_0` instead of a code. */
  function CodeTable(t: Tree): map<byte, Entry>
  {
    if t.Leaf? then map[t.element := BareBit(Bit0)]
    else Fill(t.right, [Bit1], Fill(t.left, [Bit0], map[]))
  }

  /** Walking a concatenation walks the first part, then the second. */
  lemma {:induction false} WalkAppend(t: Tree, a: seq<Bit>, b: seq<Bit>)
    ensures Walk(t, a + b) == if Walk(t, a).Ok? then Walk(Walk(t, a).value, b) else Walk(t, a)
    decreases |a|
  {
    if a == [] {
      assert a + b == b;
    } else {
      assert (a + b)[0] == a[0] && (a + b)[1..] == a[1..] + b;
      if !t.Leaf? {
        var child := if a[0] == Bit0 then t.left else t.right;
        WalkAppend(child, a[1..], b);
      }
    }
  }

  /** `bits` starts with `code`, and the rest of it walks from `t` to a leaf
      holding `k`. */
  predicate Reaches(t: Tree, code: seq<Bit>, bits: seq<Bit>, k: byte)
  {
    |bits| >= |code| && bits[..|code|] == code &&
    Walk(t, bits[|code|..]).Ok? && Walk(t, bits[|code|..]).value.Leaf? &&
    Walk(t, bits[|code|..]).value.element == k
  }

  /** `table_codage` adds exactly the bytes of the subtree and leaves the
      other entries alone. */
  lemma {:induction false} FillDomain(t: Tree, code: seq<Bit>, table: map<byte, Entry>)
    ensures forall k :: k in Fill(t, code, table) <==> k in table || k in Elements(t)
    ensures forall k :: k in table && k !in Elements(t) ==> Fill(t, code, table)[k] == table[k]
  {
    match t
    case Leaf(_, _) =>
    case Node(_, l, r) =>
      FillDomain(l, code + [Bit0], table);
      FillDomain(r, code + [Bit1], Fill(l, code + [Bit0], table));
  }

  /** A path that reaches a leaf from a child reaches it from the parent
      after the step to that child. */
  lemma StepUp(t: Tree, code: seq<Bit>, step: Bit, bits: seq<Bit>, k: byte)
    requires t.Node?
    requires Reaches(if step == Bit0 then t.left else t.right, code + [step], bits, k)
    ensures Reaches(t, code, bits, k)
  {
    var codeS := code + [step];
    assert bits[..|code|] == codeS[..|code|];
    assert bits[|code|..] == [step] + bits[|codeS|..];
  }

  /** `table_codage` gives each byte of the subtree a code that starts with
      `code` and then walks from the subtree to a leaf holding that byte. */
  lemma {:induction false} FillCodes(t: Tree, code: seq<Bit>, table: map<byte, Entry>)
    ensures forall k :: k in Elements(t) ==>
              k in Fill(t, code, table) && Fill(t, code, table)[k].Code? &&
              Reaches(t, code, Fill(t, code, table)[k].bits, k)
  {
    match t
    case Leaf(e, c) =>
      assert Fill(t, code, table)[e].bits[|code|..] == [];
    case Node(_, l, r) =>
      var codeL, codeR := code + [Bit0], code + [Bit1];
      var mid := Fill(l, codeL, table);
      FillCodes(l, codeL, table);
      FillCodes(r, codeR, mid);
      FillDomain(r, codeR, mid);
      var out := Fill(t, code, table);
      forall k | k in Elements(t)
        ensures k in out && out[k].Code? && Reaches(t, code, out[k].bits, k)
      {
        if k in Elements(r) {
          StepUp(t, code, Bit1, out[k].bits, k);
        } else {
          assert out[k] == mid[k];
          StepUp(t, code, Bit0, out[k].bits, k);
        }
      }
  }

  /** For a tree of at least two leaves, the table holds exactly the bytes of
      the tree, each with a non-empty code that walks from the root to a leaf
      holding that byte; a single leaf maps its byte to the bare bit 0. */
  lemma CodeTableSpec(t: Tree)
    ensures t.Leaf? ==> CodeTable(t) == map[t.element := BareBit(Bit0)]
    ensures t.Node? ==> forall k :: k in CodeTable(t) <==> k in Elements(t)
    ensures t.Node? ==> forall k :: k in CodeTable(t) ==>
              CodeTable(t)[k].Code? && |CodeTable(t)[k].bits| >= 1 &&
              Walk(t, CodeTable(t)[k].bits).Ok? && Walk(t, CodeTable(t)[k].bits).value.Leaf? &&
              Walk(t, CodeTable(t)[k].bits).value.element == k
  {
    if t.Node? {
      var mid := Fill(t.left, [Bit0], map[]);
      FillDomain(t.left, [Bit0], map[]);
      FillDomain(t.right, [Bit1], mid);
      FillCodes(t.left, [Bit0], map[]);
      FillCodes(t.right, [Bit1], mid);
      var table := CodeTable(t);
      forall k | k in table
        ensures table[k].Code? && |table[k].bits| >= 1 &&
                Walk(t, table[k].bits).Ok? && Walk(t, table[k].bits).value.Leaf? &&
                Walk(t, table[k].bits).value.element == k
      {
        if k in Elements(t.right) {
          StepUp(t, [], Bit1, table[k].bits, k);
        } else {
          StepUp(t, [], Bit0, table[k].bits, k);
        }
        assert table[k].bits[0..] == table[k].bits;
      }
    }
  }

  /** Only the empty path can be walked from a leaf. */
  lemma LeafEndsWalk(leaf: Tree, path: seq<Bit>)
    requires leaf.Leaf? && Walk(leaf, path).Ok?
    ensures path == []
  {
  }

  /** No code of the table is a prefix of another byte's code: both walk to
      leaves, and walking on from a leaf raises. */
  lemma PrefixFree(t: Tree)
    requires t.Node?
    ensures forall j, k ::
              (j in CodeTable(t) && k in CodeTable(t) &&
               CodeTable(t)[j].Code? && CodeTable(t)[k].Code? &&
               CodeTable(t)[j].bits <= CodeTable(t)[k].bits) ==> j == k
  {
    CodeTableSpec(t);
    var table := CodeTable(t);
    forall j, k | j in table && k in table && table[j].Code? && table[k].Code? &&
                  table[j].bits <= table[k].bits
      ensures j == k
    {
      var cj, ck := table[j].bits, table[k].bits;
      var rest := ck[|cj|..];
      assert ck == cj + rest;
      WalkAppend(t, cj, rest);
      LeafEndsWalk(Walk(t, cj).value, rest);
      assert ck == cj;
    }
  }

  /** For the tree of two equally frequent bytes, 65 gets the code 0 and 66
      the code 1. */
  lemma TwoLeafCodes()
    ensures CodeTable(Node(2, Leaf(65, 1), Leaf(66, 1))) == map[65 := Code([Bit0]), 66 := Code([Bit1])]
  {
  }

  /** For the tree of A:5, B:1, C:1, A gets 0, B gets 10 and C gets 11. */
  lemma ThreeLeafCodes()
    ensures CodeTable(Node(7, Leaf(65, 5), Node(2, Leaf(66, 1), Leaf(67, 1)))) ==
            map[65 := Code([Bit0]), 66 := Code([Bit1, Bit0]), 67 := Code([Bit1, Bit1])]
  {
    assert [Bit1] + [Bit0] == [Bit1, Bit0] && [Bit1] + [Bit1] == [Bit1, Bit1];
  }
}
