/** Building the Huffman tree from a frequency counter (`arbre_de_huffman`):
    one leaf per present byte, enqueued in ascending byte order, then
    repeated merging of the two front trees until one tree is left. */
module TreeBuilding {
  import opened Common
  import opened HuffmanTrees
  import opened PriorityQueues
  import opened Counters

  /** The 256 byte values in ascending order. */
  function AllBytes(): (r: seq<byte>)
    ensures |r| == 256
    ensures forall i :: 0 <= i < 256 ==> r[i] == i
  {
    seq(256, i requires 0 <= i < 256 => i as byte)
  }

  /** Strictly increasing. */
  predicate Increasing(s: seq<byte>)
  {
    forall i, j :: 0 <= i < j < |s| ==> s[i] < s[j]
  }

  /** The candidates that are keys of `m`, in the order of `candidates`. */
  function Present(m: map<byte, int>, candidates: seq<byte>): seq<byte>
  {
    if candidates == [] then []
    else (if candidates[0] in m then [candidates[0]] else []) + Present(m, candidates[1..])
  }

  /** `sorted(stat.elements)`: the keys of the counter in ascending order. */
  function SortedKeys(m: map<byte, int>): seq<byte>
  {
    Present(m, AllBytes())
  }

  lemma {:induction false} PresentSpec(m: map<byte, int>, candidates: seq<byte>)
    requires Increasing(candidates)
    ensures Increasing(Present(m, candidates))
    ensures forall b :: b in Present(m, candidates) <==> b in m && b in candidates
  {
    if candidates != [] {
      var rest := candidates[1..];
      assert Increasing(rest);
      PresentSpec(m, rest);
      var p := Present(m, candidates);
      if candidates[0] in m {
        assert p == [candidates[0]] + Present(m, rest);
        forall i, j | 0 <= i < j < |p| ensures p[i] < p[j] {
          if i == 0 {
            assert p[j] in rest;
          } else {
            assert p[i] == Present(m, rest)[i - 1] && p[j] == Present(m, rest)[j - 1];
          }
        }
      }
    }
  }

  /** The sorted keys are strictly increasing and are exactly the keys of the
      counter, so they are the counter's elements sorted. */
  lemma SortedKeysSpec(m: map<byte, int>)
    ensures Increasing(SortedKeys(m))
    ensures forall b: byte :: b in SortedKeys(m) <==> b in m
  {
    PresentSpec(m, AllBytes());
    forall b: byte ensures b in AllBytes() {
      assert AllBytes()[b] == b;
    }
  }

  /** One leaf per key, in the order of `keys`, with the key's count. */
  function Leaves(keys: seq<byte>, m: map<byte, int>): (r: seq<Tree>)
    requires forall k :: k in keys ==> k in m
    ensures |r| == |keys|
    ensures forall i :: 0 <= i < |keys| ==> r[i] == Leaf(keys[i], m[keys[i]])
  {
    if keys == [] then [] else Leaves(keys[..|keys| - 1], m) + [Leaf(keys[|keys| - 1], m[keys[|keys| - 1]])]
  }

  /** The leaves `file_de_priorite` builds: one per key, in ascending key
      order, each carrying its key's count. */
  function SeedLeaves(m: map<byte, int>): seq<Tree>
  {
    SortedKeysSpec(m);
    Leaves(SortedKeys(m), m)
  }

  /** The seed leaves are exactly the leaves pairing a key with its count. */
  lemma SeedLeavesSpec(m: map<byte, int>)
    ensures forall l: Tree :: l in SeedLeaves(m) <==> l.Leaf? && l.element in m && l.count == m[l.element]
  {
    SortedKeysSpec(m);
    var keys := SortedKeys(m);
    var r := SeedLeaves(m);
    forall l: Tree | l.Leaf? && l.element in m && l.count == m[l.element] ensures l in r {
      var i :| 0 <= i < |keys| && keys[i] == l.element;
      assert r[i] == l;
    }
  }

  /** The queue after seeding (`file_de_priorite`). */
  function Seed(m: map<byte, int>): seq<Tree>
  {
    InsertAll([], SeedLeaves(m))
  }

  /** The node built from the two front trees: the first dequeued becomes the
      right child and the second the left child. */
  function Merged(first: Tree, second: Tree): Tree
  {
    Node(first.count + second.count, second, first)
  }

  /** The merging loop (`mise_a_jour_fdp` while more than one tree is left),
      then the final `defiler`, which raises on an empty queue. */
  function Merge(q: seq<Tree>): Result<Tree>
    decreases |q|
  {
    if |q| == 0 then Err(EmptyQueue)
    else if |q| == 1 then Ok(q[0])
    else
      var s := Insert(q[2..], Merged(q[0], q[1]));
      InsertLength(q[2..], Merged(q[0], q[1]));
      Merge(s)
  }

  lemma InsertLength(s: seq<Tree>, x: Tree)
    ensures |Insert(s, x)| == |s| + 1
  {
  }

  /** Some key has the count 0, so that its leaf cannot be built. */
  predicate HasZeroCount(m: map<byte, int>)
  {
    exists k :: k in m && m[k] == 0
  }

  /** `arbre_de_huffman(stat)` for a counter whose mapping is `m`. */
  function BuildTree(m: map<byte, int>): Result<Tree>
  {
    if HasZeroCount(m) then Err(TreeIncoherent) else Merge(Seed(m))
  }

  /** `file_de_priorite`: a new queue holding one leaf per key of the
      counter, enqueued in ascending key order; a key of count 0 makes the
      leaf constructor raise. */
  method SeedQueue(stat: Counter<byte>) returns (r: Result<PriorityQueue>)
    requires stat.Valid()
    ensures r.Err? <==> HasZeroCount(stat.counts)
    ensures r.Err? ==> r.error == TreeIncoherent
    ensures r.Ok? ==> fresh(r.value) && r.value.Valid() && r.value.items == Seed(stat.counts)
  {
    var m := stat.counts;
    SortedKeysSpec(m);
    var keys := SortedKeys(m);
    var leaves := SeedLeaves(m);
    assert leaves == Leaves(keys, m);
    var q := new PriorityQueue([]);
    for i := 0 to |keys|
      invariant fresh(q) && q.Valid()
      invariant q.items == InsertAll([], leaves[..i])
      invariant forall j :: 0 <= j < i ==> m[keys[j]] != 0
    {
      var ok := EnqueueLeaf(q, stat, leaves, i, keys[i]);
      if !ok {
        return Err(TreeIncoherent);
      }
    }
    assert leaves[..|keys|] == leaves;
    assert !HasZeroCount(m) by {
      forall k | k in m ensures m[k] != 0 {
        var j :| 0 <= j < |keys| && keys[j] == k;
      }
    }
    r := Ok(q);
  }

  /** One step of `file_de_priorite`: builds the leaf of key `k` and
      enqueues it; the leaf constructor refuses a count of 0. */
  method EnqueueLeaf(q: PriorityQueue, stat: Counter<byte>, leaves: seq<Tree>, i: nat, k: byte)
    returns (ok: bool)
    requires q.Valid() && k in stat.counts
    requires i < |leaves| && leaves[i] == Leaf(k, stat.counts[k])
    requires q.items == InsertAll([], leaves[..i])
    modifies q
    ensures q.Valid()
    ensures ok <==> stat.counts[k] != 0
    ensures ok ==> q.items == InsertAll([], leaves[..i + 1])
  {
    var leaf := MakeTree(Some(k), Some(stat.Count(k)), None, None, false);
    if leaf.Err? {
      return false;
    }
    assert leaf.value == leaves[i];
    assert leaves[..i + 1][..i] == leaves[..i];
    q.Enqueue(leaf.value);
    ok := true;
  }

  /** `mise_a_jour_fdp`: dequeues two trees, makes the first the right child
      and the second the left child of a new node, and enqueues the node. */
  method MergeFront(q: PriorityQueue)
    requires q.Valid() && |q.items| >= 2
    modifies q
    ensures q.Valid()
    ensures q.items == Insert(old(q.items)[2..], Merged(old(q.items)[0], old(q.items)[1]))
  {
    var right := q.Dequeue();
    var left := q.Dequeue();
    var node := MakeTree(None, None, Some(left.value), Some(right.value), false);
    q.Enqueue(node.value);
  }

  /** `arbre_de_huffman`: seeds the queue, merges while more than one tree
      is left, and dequeues the last one. */
  method BuildHuffmanTree(stat: Counter<byte>) returns (r: Result<Tree>)
    requires stat.Valid()
    ensures r == BuildTree(stat.counts)
  {
    var seeded := SeedQueue(stat);
    if seeded.Err? {
      return Err(seeded.error);
    }
    var q := seeded.value;
    while q.Length() > 1
      invariant fresh(q) && q.Valid()
      invariant Merge(q.items) == BuildTree(stat.counts)
      decreases |q.items|
    {
      MergeFront(q);
    }
    r := q.Dequeue();
  }

  /** The leaves of all trees of a queue. */
  function Bag(q: seq<Tree>): multiset<Tree>
  {
    if q == [] then multiset{} else Bag(q[..|q| - 1]) + LeafBag(q[|q| - 1])
  }

  /** The total count of the trees of a queue. */
  function Weight(q: seq<Tree>): int
  {
    if q == [] then 0 else Weight(q[..|q| - 1]) + q[|q| - 1].count
  }

  /** Every tree of the queue satisfies the constructor's guarantees. */
  predicate AllWellFormed(q: seq<Tree>)
  {
    forall i :: 0 <= i < |q| ==> WellFormed(q[i])
  }

  lemma {:induction false} BagWeightAppend(a: seq<Tree>, b: seq<Tree>)
    ensures Bag(a + b) == Bag(a) + Bag(b)
    ensures Weight(a + b) == Weight(a) + Weight(b)
    decreases |b|
  {
    if b == [] {
      assert a + b == a;
    } else {
      var b' := b[..|b| - 1];
      assert (a + b)[..|a + b| - 1] == a + b';
      BagWeightAppend(a, b');
    }
  }

  lemma BagWeightSingle(x: Tree)
    ensures Bag([x]) == LeafBag(x) && Weight([x]) == x.count
  {
    assert [x][..0] == [];
  }

  /** Enqueuing adds the new tree's leaves and count to the queue's, and keeps
      every tree well formed. */
  lemma {:induction false} InsertBagWeight(s: seq<Tree>, x: Tree)
    ensures Bag(Insert(s, x)) == Bag(s) + LeafBag(x)
    ensures Weight(Insert(s, x)) == Weight(s) + x.count
    ensures AllWellFormed(s) && WellFormed(x) ==> AllWellFormed(Insert(s, x))
  {
    var k := InsertionPoint(s, x);
    var a, b := s[..k], s[k..];
    assert s == a + b;
    BagWeightAppend(a, b);
    BagWeightAppend(a, [x]);
    BagWeightAppend(a + [x], b);
    BagWeightSingle(x);
    if AllWellFormed(s) && WellFormed(x) {
      InsertWellFormed(s, x);
    }
  }

  lemma InsertWellFormed(s: seq<Tree>, x: Tree)
    requires AllWellFormed(s) && WellFormed(x)
    ensures AllWellFormed(Insert(s, x))
  {
    var k := InsertionPoint(s, x);
    var t := Insert(s, x);
    forall j | 0 <= j < |t| ensures WellFormed(t[j]) {
      if j < k {
        assert t[j] == s[j];
      } else if k < j {
        assert t[j] == s[j - 1];
      }
    }
  }

  /** Merging keeps the leaves and the total count: the last tree carries
      all of them; only an empty queue fails, with `EmptyQueue`. */
  lemma {:induction false} MergeSpec(q: seq<Tree>)
    ensures Merge(q).Err? <==> q == []
    ensures Merge(q).Err? ==> Merge(q).error == EmptyQueue
    ensures Merge(q).Ok? ==> LeafBag(Merge(q).value) == Bag(q)
    ensures Merge(q).Ok? ==> Merge(q).value.count == Weight(q)
    decreases |q|
  {
    if |q| == 1 {
      assert q[..0] == [];
    } else if |q| > 1 {
      var x := Merged(q[0], q[1]);
      var s := Insert(q[2..], x);
      InsertLength(q[2..], x);
      InsertBagWeight(q[2..], x);
      assert Merge(q) == Merge(s);
      MergeSpec(s);
      FrontPair(q);
    }
  }

  lemma FrontPair(q: seq<Tree>)
    requires |q| >= 2
    ensures Bag(q) == LeafBag(q[0]) + LeafBag(q[1]) + Bag(q[2..])
    ensures Weight(q) == q[0].count + q[1].count + Weight(q[2..])
  {
    assert q == [q[0], q[1]] + q[2..];
    BagWeightAppend([q[0], q[1]], q[2..]);
    assert [q[0], q[1]] == [q[0]] + [q[1]];
    BagWeightAppend([q[0]], [q[1]]);
    BagWeightSingle(q[0]);
    BagWeightSingle(q[1]);
  }

  /** Merging well-formed trees gives a well-formed tree. */
  lemma {:induction false} MergeWellFormed(q: seq<Tree>)
    requires AllWellFormed(q)
    ensures Merge(q).Ok? ==> WellFormed(Merge(q).value)
    decreases |q|
  {
    if |q| > 1 {
      var x := Merged(q[0], q[1]);
      var s := Insert(q[2..], x);
      InsertLength(q[2..], x);
      assert WellFormed(q[0]) && WellFormed(q[1]);
      assert AllWellFormed(q[2..]) by {
        forall j | 0 <= j < |q[2..]| ensures WellFormed(q[2..][j]) {
          assert q[2..][j] == q[j + 2];
        }
      }
      InsertBagWeight(q[2..], x);
      MergeWellFormed(s);
    }
  }

  /** Enqueuing a sequence of trees adds all their leaves and counts. */
  lemma {:induction false} InsertAllBagWeight(s: seq<Tree>, xs: seq<Tree>)
    ensures |InsertAll(s, xs)| == |s| + |xs|
    ensures Bag(InsertAll(s, xs)) == Bag(s) + Bag(xs)
    ensures Weight(InsertAll(s, xs)) == Weight(s) + Weight(xs)
    ensures AllWellFormed(s) && AllWellFormed(xs) ==> AllWellFormed(InsertAll(s, xs))
    decreases |xs|
  {
    if xs != [] {
      var init, x := xs[..|xs| - 1], xs[|xs| - 1];
      InsertAllBagWeight(s, init);
      InsertLength(InsertAll(s, init), x);
      InsertBagWeight(InsertAll(s, init), x);
      if AllWellFormed(xs) {
        assert AllWellFormed(init) by {
          forall j | 0 <= j < |init| ensures WellFormed(init[j]) {
            assert init[j] == xs[j];
          }
        }
      }
    }
  }

  /** The leaves of a run of leaves are those leaves. */
  lemma {:induction false} BagOfLeaves(keys: seq<byte>, m: map<byte, int>)
    requires forall k :: k in keys ==> k in m
    ensures Bag(Leaves(keys, m)) == multiset(Leaves(keys, m))
    ensures (forall k :: k in keys ==> m[k] != 0) ==> AllWellFormed(Leaves(keys, m))
    decreases |keys|
  {
    if keys != [] {
      var init := keys[..|keys| - 1];
      BagOfLeaves(init, m);
      var l := Leaves(keys, m);
      assert l == Leaves(init, m) + [l[|l| - 1]];
      assert l[..|l| - 1] == Leaves(init, m);
    }
  }

  /** The seeded queue holds one well-formed leaf per key (with that key's
      count) when no count is 0; it is empty exactly when the counter is. */
  lemma SeedSpec(m: map<byte, int>)
    ensures Seed(m) == [] <==> m == map[]
    ensures Bag(Seed(m)) == multiset(SeedLeaves(m))
    ensures Weight(Seed(m)) == Weight(SeedLeaves(m))
    ensures !HasZeroCount(m) ==> AllWellFormed(Seed(m))
  {
    SortedKeysSpec(m);
    var keys := SortedKeys(m);
    assert SeedLeaves(m) == Leaves(keys, m);
    InsertAllBagWeight([], Leaves(keys, m));
    BagOfLeaves(keys, m);
    if m != map[] {
      var k :| k in m;
      SeedLeavesSpec(m);
      assert Leaf(k, m[k]) in SeedLeaves(m);
    }
  }

  /** `arbre_de_huffman` fails exactly on an empty counter (dequeuing from an
      empty queue) or a zero count (an incoherent leaf). Otherwise the tree is
      well formed, its leaves are exactly one leaf per key carrying that
      key's count, and the root count is the total of the counts. */
  lemma BuildTreeSpec(m: map<byte, int>)
    ensures BuildTree(m).Err? <==> m == map[] || HasZeroCount(m)
    ensures BuildTree(m).Err? ==>
              BuildTree(m).error == (if HasZeroCount(m) then TreeIncoherent else EmptyQueue)
    ensures BuildTree(m).Ok? ==> WellFormed(BuildTree(m).value)
    ensures BuildTree(m).Ok? ==> LeafBag(BuildTree(m).value) == multiset(SeedLeaves(m))
    ensures BuildTree(m).Ok? ==> forall l: Tree :: l in LeafBag(BuildTree(m).value) <==>
              l.Leaf? && l.element in m && l.count == m[l.element]
    ensures BuildTree(m).Ok? ==> BuildTree(m).value.count == Weight(SeedLeaves(m))
  {
    SeedSpec(m);
    SeedLeavesSpec(m);
    MergeSpec(Seed(m));
    if !HasZeroCount(m) {
      MergeWellFormed(Seed(m));
    }
  }

  /** Two strictly increasing sequences with the same elements are equal. */
  lemma {:induction false} IncreasingUnique(s: seq<byte>, t: seq<byte>)
    requires Increasing(s) && Increasing(t)
    requires forall b :: b in s <==> b in t
    ensures s == t
  {
    assert s != [] ==> s[0] in t;
    assert t != [] ==> t[0] in s;
    if s != [] && t != [] {
      assert s[0] in t && t[0] in s;
      var i :| 0 <= i < |t| && t[i] == s[0];
      var j :| 0 <= j < |s| && s[j] == t[0];
      assert s[0] <= s[j] && t[0] <= t[i];
      IncreasingTails(s, t);
      IncreasingUnique(s[1..], t[1..]);
      assert s == [s[0]] + s[1..] && t == [t[0]] + t[1..];
    }
  }

  /** Two strictly increasing sequences with the same elements and the same
      first element have tails with the same elements. */
  lemma IncreasingTails(s: seq<byte>, t: seq<byte>)
    requires Increasing(s) && Increasing(t) && s != [] && t != [] && s[0] == t[0]
    requires forall b :: b in s <==> b in t
    ensures forall b :: b in s[1..] <==> b in t[1..]
  {
    forall b ensures b in s[1..] <==> b in t[1..] {
      if b in s[1..] {
        var k :| 1 <= k < |s| && s[k] == b;
        assert b in t && b != t[0];
      }
      if b in t[1..] {
        var k :| 1 <= k < |t| && t[k] == b;
        assert b in s && b != s[0];
      }
    }
  }

  /** The sorted keys of `m` are any strictly increasing listing of them. */
  lemma SortedKeysAre(m: map<byte, int>, s: seq<byte>)
    requires Increasing(s) && forall b :: b in s <==> b in m
    ensures SortedKeys(m) == s
  {
    SortedKeysSpec(m);
    IncreasingUnique(SortedKeys(m), s);
  }

  /** A single key seeds a single leaf, which is the whole tree. */
  lemma OneKey(m: map<byte, int>, k: byte)
    requires m.Keys == {k} && m[k] != 0
    ensures BuildTree(m) == Ok(Leaf(k, m[k]))
  {
    SortedKeysAre(m, [k]);
    assert SeedLeaves(m) == [Leaf(k, m[k])];
    assert InsertAll([], [Leaf(k, m[k])]) == Insert([], Leaf(k, m[k]));
    assert !HasZeroCount(m);
  }

  /** The counts of the seed leaves add up to the counts of the keys. */
  lemma {:induction false} LeavesWeight(keys: seq<byte>, m: map<byte, int>)
    requires forall k :: k in keys ==> k in m
    ensures Weight(Leaves(keys, m)) == SumCounts(keys, m)
  {
    if keys != [] {
      var l := Leaves(keys, m);
      assert l[..|l| - 1] == Leaves(keys[..|keys| - 1], m);
      LeavesWeight(keys[..|keys| - 1], m);
    }
  }

  /** The sum of the counts of `keys`. */
  function SumCounts(keys: seq<byte>, m: map<byte, int>): int
    requires forall k :: k in keys ==> k in m
  {
    if keys == [] then 0 else SumCounts(keys[..|keys| - 1], m) + m[keys[|keys| - 1]]
  }

  /** Two keys `x < y` of equal count: `y`, enqueued later, goes in front
      of `x`. */
  lemma TwoEqualCountsSeed(m: map<byte, int>, x: byte, y: byte)
    requires x < y && m.Keys == {x, y} && m[x] == m[y]
    ensures Seed(m) == [Leaf(y, m[y]), Leaf(x, m[x])]
  {
    SortedKeysAre(m, [x, y]);
    var a, b := Leaf(x, m[x]), Leaf(y, m[y]);
    assert SeedLeaves(m) == [a, b] by {
      assert SeedLeaves(m) == Leaves([x, y], m);
    }
    assert [a, b][..1] == [a];
    assert InsertAll([], [a]) == [a];
    InsertFront([a], b);
    assert InsertAll([], [a, b]) == Insert([a], b);
  }

  /** Two keys `x < y` of equal count: `y` is dequeued first and becomes
      the right child, so `x` is on the left and `y` on the right. */
  lemma TwoEqualCounts(m: map<byte, int>, x: byte, y: byte)
    requires x < y && m.Keys == {x, y} && m[x] == m[y] >= 1
    ensures BuildTree(m) == Ok(Node(m[x] + m[y], Leaf(x, m[x]), Leaf(y, m[y])))
  {
    var a, b := Leaf(x, m[x]), Leaf(y, m[y]);
    TwoEqualCountsSeed(m, x, y);
    assert !HasZeroCount(m);
    assert BuildTree(m) == Merge([b, a]);
    MergeTwo(b, a);
    assert Merged(b, a) == Node(m[x] + m[y], a, b);
  }

  /** A tree of count at most the front's goes in front. */
  lemma InsertFront(s: seq<Tree>, x: Tree)
    requires s == [] || x.count <= s[0].count
    ensures Insert(s, x) == [x] + s
  {
  }

  /** Two trees left make one last merge. */
  lemma MergeTwo(x: Tree, y: Tree)
    ensures Merge([x, y]) == Ok(Merged(x, y))
  {
    InsertFront([], Merged(x, y));
    assert [x, y][2..] == [];
  }

  /** Three keys `x < y < z` with counts `p >= q >= r` are enqueued in
      ascending key order, each rarer-or-equal leaf going in front, so `z`
      comes out first. */
  lemma ThreeKeysSeed(m: map<byte, int>, x: byte, y: byte, z: byte)
    requires x < y < z && m.Keys == {x, y, z}
    requires m[x] >= m[y] >= m[z]
    ensures Seed(m) == [Leaf(z, m[z]), Leaf(y, m[y]), Leaf(x, m[x])]
  {
    SortedKeysAre(m, [x, y, z]);
    var a, b, c := Leaf(x, m[x]), Leaf(y, m[y]), Leaf(z, m[z]);
    assert SeedLeaves(m) == [a, b, c] by {
      assert SeedLeaves(m) == Leaves([x, y, z], m);
    }
    InsertThreeDescending(a, b, c);
  }

  /** Enqueuing three trees of non-increasing counts reverses them. */
  lemma InsertThreeDescending(a: Tree, b: Tree, c: Tree)
    requires a.count >= b.count >= c.count
    ensures InsertAll([], [a, b, c]) == [c, b, a]
  {
    var s := [a, b, c];
    assert s[..2] == [a, b] && s[..2][..1] == [a] && s[..2][..1][..0] == [];
    InsertFront([], a);
    InsertFront([a], b);
    InsertFront([b, a], c);
    assert InsertAll([], [a]) == [a];
    assert InsertAll([], [a, b]) == [b, a];
    assert InsertAll([], s) == Insert([b, a], c);
  }

  /** Three keys `x < y < z` with counts `p >= q >= r` and `q + r <= p`: the
      two rare leaves are merged first (`z` is dequeued first and goes right),
      and that node goes right of `x`. */
  lemma ThreeKeysTree(m: map<byte, int>, x: byte, y: byte, z: byte)
    requires x < y < z && m.Keys == {x, y, z}
    requires m[x] >= m[y] >= m[z] >= 1 && m[y] + m[z] <= m[x]
    ensures BuildTree(m) ==
            Ok(Node(m[x] + m[y] + m[z], Leaf(x, m[x]), Node(m[y] + m[z], Leaf(y, m[y]), Leaf(z, m[z]))))
  {
    var a, b, c := Leaf(x, m[x]), Leaf(y, m[y]), Leaf(z, m[z]);
    ThreeKeysSeed(m, x, y, z);
    assert !HasZeroCount(m);
    var n := Merged(c, b);
    InsertFront([a], n);
    assert [c, b, a][2..] == [a];
    assert Merge([c, b, a]) == Merge([n, a]);
    MergeTwo(n, a);
  }
}
