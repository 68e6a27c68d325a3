/** Decompression (`decompresser`): reads the identifier, the length and the
    256 counts back from the container, rebuilds the tree from the counts,
    then walks the tree bit by bit over the remaining bytes. */
module Decompression {
  import opened Common
  import opened Streams
  import opened Counters
  import opened HuffmanTrees
  import opened BinaryCodes
  import opened BitPacking
  import opened TreeBuilding
  import opened Compression

  /** The smaller of two positions. */
  function MinPos(a: nat, b: nat): nat
  {
    if a <= b then a else b
  }

  /** `recherche_identifiant` on a stream read from its start: four one-byte
      reads, a read past the end giving the character 0. */
  function IdentifierOf(src: seq<byte>): (r: seq<byte>)
    ensures |r| == 4
    ensures r == Magic <==> |src| >= 4 && src[..4] == Magic
  {
    var r := seq(4, i requires 0 <= i < 4 => if i < |src| then src[i] else 0);
    assert |src| < 4 ==> r[|src|] == 0 != Magic[|src|];
    assert |src| >= 4 ==> r == src[..4];
    r
  }

  /** `recherche_identifiant`. */
  method SearchIdentifier(source: InputStream) returns (id: seq<byte>)
    requires source.Valid() && source.pos == 0
    modifies source
    ensures source.Valid() && source.data == old(source.data)
    ensures source.pos == MinPos(4, |source.data|)
    ensures id == IdentifierOf(source.data)
  {
    id := [];
    for i := 0 to 4
      invariant source.Valid() && source.data == old(source.data)
      invariant source.pos == MinPos(i, |source.data|)
      invariant id == IdentifierOf(source.data)[..i]
    {
      var b := source.ReadBytes(1);
      var code: byte := if b == [] then 0 else b[0];
      IdentifierRead(source.data, i, b, source.pos);
      id := id + [code];
    }
  }

  /** The `i`-th one-byte read of `recherche_identifiant` gives the `i`-th
      character of the identifier, 0 past the end. */
  lemma IdentifierRead(src: seq<byte>, i: nat, b: seq<byte>, pos: nat)
    requires i < 4 && (b, pos) == Read(src, MinPos(i, |src|), 1)
    ensures pos == MinPos(i + 1, |src|)
    ensures FromBytes(b) == (if b == [] then 0 else b[0]) == IdentifierOf(src)[i]
    ensures IdentifierOf(src)[..i + 1] == IdentifierOf(src)[..i] + [IdentifierOf(src)[i]]
  {
  }

  /** The count in slot `i` of the stats read from position `pos`: four bytes
      read after the `i` previous reads, little-endian; a short read gives a
      smaller number. */
  function SlotCount(src: seq<byte>, pos: nat, i: nat): nat
    requires pos <= |src|
  {
    FromBytes(Read(src, MinPos(pos + 4 * i, |src|), 4).0)
  }

  /** `recherche_stats` over the first `k` slots: the byte `i` is set to
      its count when the count is not 0. */
  function StatsMap(src: seq<byte>, pos: nat, k: nat): (m: map<byte, int>)
    requires pos <= |src| && k <= 256
    ensures forall b: byte :: b in m <==> b < k && SlotCount(src, pos, b) > 0
    ensures forall b: byte :: b in m ==> m[b] == SlotCount(src, pos, b)
  {
    if k == 0 then map[]
    else
      var m := StatsMap(src, pos, k - 1);
      var c := SlotCount(src, pos, k - 1);
      if c > 0 then m[k - 1 := c] else m
  }

  /** A read of four bytes from the position reached after `i` of them
      reaches the position after `i + 1`. */
  lemma ReadAdvance(src: seq<byte>, pos: nat, i: nat)
    requires pos <= |src|
    ensures Read(src, MinPos(pos + 4 * i, |src|), 4).1 == MinPos(pos + 4 * (i + 1), |src|)
  {
  }

  /** One slot more: a non-zero count adds the next byte value as the
      largest key. */
  lemma StatsStep(i: byte, keys: seq<byte>)
    requires Increasing(keys) && forall k :: k in keys ==> k < i
    ensures Increasing(keys + [i]) && forall k :: k in keys + [i] ==> k < i + 1
  {
    var s := keys + [i];
    forall a, b | 0 <= a < b < |s| ensures s[a] < s[b] {
      if b == |keys| {
        assert s[a] == keys[a] && keys[a] in keys;
      }
    }
  }

  /** One iteration of `recherche_stats`. */
  method ReadSlot(source: InputStream, stat: Counter<byte>, ghost start: nat, i: byte)
    requires source.Valid() && start <= |source.data| && source.pos == MinPos(start + 4 * i, |source.data|)
    requires stat.Valid() && stat.counts == StatsMap(source.data, start, i)
    requires Increasing(stat.keys) && forall k :: k in stat.keys ==> k < i
    modifies source, stat
    ensures source.Valid() && source.data == old(source.data)
    ensures source.pos == MinPos(start + 4 * (i + 1), |source.data|)
    ensures stat.Valid() && stat.counts == StatsMap(source.data, start, i + 1)
    ensures Increasing(stat.keys) && forall k :: k in stat.keys ==> k < i + 1
  {
    ReadAdvance(source.data, start, i);
    StatsStep(i, stat.keys);
    var bytes := source.ReadBytes(4);
    var occurrence := FromBytes(bytes);
    if occurrence > 0 {
      stat.Set(i, occurrence);
    }
  }

  /** `recherche_stats`: 256 four-byte reads; each non-zero count is set in
      a new counter, so its keys come in ascending order. */
  method SearchStats(source: InputStream) returns (stat: Counter<byte>)
    requires source.Valid()
    modifies source
    ensures source.Valid() && source.data == old(source.data)
    ensures source.pos == MinPos(old(source.pos) + 1024, |source.data|)
    ensures fresh(stat) && stat.Valid()
    ensures stat.counts == StatsMap(source.data, old(source.pos), 256)
    ensures Increasing(stat.keys)
  {
    ghost var start := source.pos;
    stat := new Counter([]);
    for i := 0 to 256
      invariant source.Valid() && source.data == old(source.data)
      invariant source.pos == MinPos(start + 4 * i, |source.data|)
      invariant stat.Valid() && stat.counts == StatsMap(source.data, start, i)
      invariant Increasing(stat.keys) && forall k :: k in stat.keys ==> k < i
    {
      ReadSlot(source, stat, start, i);
    }
  }

  /** Where the walk stands: the current subtree (`arbre_courant`) and the
      number of bytes written (`longueur_courante`). */
  datatype Cursor = Cursor(node: Tree, written: nat)

  /** One bit of the inner `for` of `reconstruction`: a cursor on a leaf
      writes its byte and goes back to the root, then the bit moves it to the
      left or right child, which raises on a leaf. */
  function StepBit(root: Tree, c: Cursor, bit: Bit): (r: (Cursor, Emitted))
    ensures |r.1.bytes| <= 1
    ensures r.1.error.Some? ==> r.1.error == Some(MustNotBeLeaf)
    ensures r.1.error.None? ==> r.0.written == c.written + |r.1.bytes|
  {
    var node := if c.node.Leaf? then root else c.node;
    var count := if c.node.Leaf? then c.written + 1 else c.written;
    var out := if c.node.Leaf? then [c.node.element] else [];
    var child := if bit == Bit0 then LeftChild(node) else RightChild(node);
    if child.Err? then (Cursor(node, count), Emitted(out, Some(child.error)))
    else (Cursor(child.value, count), Emitted(out, None))
  }

  /** The bits of one byte, in order; an exception stops the walk. */
  function StepBits(root: Tree, c: Cursor, bits: seq<Bit>): (r: (Cursor, Emitted))
    ensures |r.1.bytes| <= |bits|
    ensures r.1.error.Some? ==> r.1.error == Some(MustNotBeLeaf)
    ensures r.1.error.None? ==> r.0.written == c.written + |r.1.bytes|
    decreases |bits|
  {
    if bits == [] then (c, Emitted([], None))
    else
      var s := StepBit(root, c, bits[0]);
      if s.1.error.Some? then s
      else
        var rest := StepBits(root, s.0, bits[1..]);
        (rest.0, Join(s.1.bytes, rest.1))
  }

  /** The outer `while` of `reconstruction` from the byte at `pos` (already
      read when `pos < |src|`): it goes on while fewer than `length` bytes
      are written and a byte was read, and the count is only checked between
      bytes. */
  function Reconstruct(root: Tree, length: nat, src: seq<byte>, pos: nat, c: Cursor): Emitted
    requires pos <= |src|
    decreases |src| - pos
  {
    if c.written < length && pos < |src| then
      var s := StepBits(root, c, BitsOf(src[pos], 8));
      if s.1.error.Some? then s.1
      else Join(s.1.bytes, Reconstruct(root, length, src, pos + 1, s.0))
    else Emitted([], None)
  }

  /** One iteration of the inner `for` of `reconstruction`. */
  method WalkBit(dest: OutputStream, root: Tree, node: Tree, count: nat, bit: Bit)
    returns (node': Tree, count': nat, error: Option<Error>)
    modifies dest
    ensures var s := StepBit(root, Cursor(node, count), bit);
            dest.data == old(dest.data) + s.1.bytes && error == s.1.error &&
            (error.None? ==> s.0 == Cursor(node', count'))
  {
    node', count' := node, count;
    if node'.Leaf? {
      dest.Write([node'.element]);
      node' := root;
      count' := count' + 1;
    }
    var child := if bit == Bit0 then LeftChild(node') else RightChild(node');
    if child.Err? {
      return node', count', Some(child.error);
    }
    node' := child.value;
    error := None;
  }

  /** Writing `a` then the rest `e` after it is writing `a + b` before `e`'s
      bytes, when `b` was written between. */
  lemma JoinAssoc(a: seq<byte>, b: seq<byte>, e: Emitted)
    ensures Join(a, Join(b, e)) == Join(a + b, e)
  {
    assert a + (b + e.bytes) == (a + b) + e.bytes;
  }

  /** What remains for the walk over `bits` from index `j` with cursor `c`
      is what the whole walk `whole` does after writing `written`. */
  ghost predicate BitsPending(root: Tree, bits: seq<Bit>, j: nat, c: Cursor, written: seq<byte>, whole: (Cursor, Emitted))
    requires j <= |bits|
  {
    var rest := StepBits(root, c, bits[j..]);
    whole == (rest.0, Join(written, rest.1))
  }

  /** One bit of the inner `for`: an exception ends the whole walk there,
      otherwise the rest of the walk starts from the next bit. */
  lemma BitsPendingStep(root: Tree, bits: seq<Bit>, j: nat, c: Cursor, written: seq<byte>, whole: (Cursor, Emitted))
    requires j < |bits| && BitsPending(root, bits, j, c, written, whole)
    ensures var step := StepBit(root, c, bits[j]);
            if step.1.error.Some? then whole.1 == Emitted(written + step.1.bytes, step.1.error)
            else BitsPending(root, bits, j + 1, step.0, written + step.1.bytes, whole)
  {
    var step := StepBit(root, c, bits[j]);
    assert bits[j..][1..] == bits[j + 1..] && bits[j..][0] == bits[j];
    if step.1.error.None? {
      JoinAssoc(written, step.1.bytes, StepBits(root, step.0, bits[j + 1..]).1);
    }
  }

  /** The inner `for` of `reconstruction` over the bits of one byte. */
  method WalkBits(dest: OutputStream, root: Tree, node: Tree, count: nat, bits: seq<Bit>)
    returns (node': Tree, count': nat, error: Option<Error>)
    modifies dest
    ensures var s := StepBits(root, Cursor(node, count), bits);
            dest.data == old(dest.data) + s.1.bytes && error == s.1.error &&
            (error.None? ==> s.0 == Cursor(node', count'))
  {
    ghost var whole := StepBits(root, Cursor(node, count), bits);
    assert bits[0..] == bits;
    assert Join([], whole.1) == whole.1 by {
      assert [] + whole.1.bytes == whole.1.bytes;
    }
    ghost var written;
    node', count', error, written := WalkPendingBits(dest, root, node, count, bits, whole);
  }

  /** The loop of `WalkBits`: walks the bits one by one while no exception
      is raised; `written` is what it writes. */
  method WalkPendingBits(dest: OutputStream, root: Tree, node: Tree, count: nat, bits: seq<Bit>,
                         ghost whole: (Cursor, Emitted))
    returns (node': Tree, count': nat, error: Option<Error>, ghost written: seq<byte>)
    requires BitsPending(root, bits, 0, Cursor(node, count), [], whole)
    modifies dest
    ensures dest.data == old(dest.data) + written
    ensures whole.1 == Emitted(written, error)
    ensures error.None? ==> whole.0 == Cursor(node', count')
  {
    ghost var start := dest.data;
    written := [];
    node', count' := node, count;
    for j := 0 to |bits|
      invariant dest.data == start + written
      invariant BitsPending(root, bits, j, Cursor(node', count'), written, whole)
    {
      var e;
      ghost var out;
      node', count', e, out := WalkPendingBit(dest, root, node', count', bits, j, written, whole);
      written := written + out;
      if e.Some? {
        return node', count', e, written;
      }
    }
    assert bits[|bits|..] == [];
    assert written + [] == written;
    error := None;
  }

  /** One iteration of the inner `for`: walks bit `j` and writes `out`. */
  method WalkPendingBit(dest: OutputStream, root: Tree, node: Tree, count: nat, bits: seq<Bit>, j: nat,
                        ghost written: seq<byte>, ghost whole: (Cursor, Emitted))
    returns (node': Tree, count': nat, error: Option<Error>, ghost out: seq<byte>)
    requires j < |bits| && BitsPending(root, bits, j, Cursor(node, count), written, whole)
    modifies dest
    ensures dest.data == old(dest.data) + out
    ensures error.Some? ==> whole.1 == Emitted(written + out, error)
    ensures error.None? ==> BitsPending(root, bits, j + 1, Cursor(node', count'), written + out, whole)
  {
    ghost var step := StepBit(root, Cursor(node, count), bits[j]);
    BitsPendingStep(root, bits, j, Cursor(node, count), written, whole);
    node', count', error := WalkBit(dest, root, node, count, bits[j]);
    out := step.1.bytes;
  }

  /** The byte read ahead at position `at`: the byte itself, or nothing at
      the end of the stream. */
  function Lookahead(src: seq<byte>, at: nat): seq<byte>
    requires at <= |src|
  {
    if at < |src| then [src[at]] else []
  }

  /** A one-byte read at `at` gives the byte read ahead and moves past it. */
  lemma ReadOne(src: seq<byte>, at: nat)
    requires at <= |src|
    ensures Read(src, at, 1) == (Lookahead(src, at), MinPos(at + 1, |src|))
  {
    if at < |src| {
      assert src[at..at + 1] == [src[at]];
    }
  }

  /** One iteration of the outer `while` of `reconstruction`: a failed walk
      ends it, a successful one writes its bytes before the rest. */
  lemma ReconstructStep(root: Tree, length: nat, src: seq<byte>, at: nat, c: Cursor)
    requires at < |src| && c.written < length
    ensures var s := StepBits(root, c, BitsOf(src[at], 8));
            Reconstruct(root, length, src, at, c) ==
            if s.1.error.Some? then s.1 else Join(s.1.bytes, Reconstruct(root, length, src, at + 1, s.0))
  {
  }

  /** The body of the outer `while` of `reconstruction`: the bits of the
      byte read ahead, walked in order. */
  method WalkByte(dest: OutputStream, root: Tree, node: Tree, count: nat, octet: byte)
    returns (node': Tree, count': nat, error: Option<Error>)
    modifies dest
    ensures var s := StepBits(root, Cursor(node, count), BitsOf(octet, 8));
            dest.data == old(dest.data) + s.1.bytes && error == s.1.error &&
            (error.None? ==> s.0 == Cursor(node', count'))
  {
    var bits := NaturalToList(octet);
    node', count', error := WalkBits(dest, root, node, count, bits);
  }

  /** What remains for the walk from the byte at `at` is what the whole
      walk writes after `written`. */
  ghost predicate Pending(root: Tree, length: nat, src: seq<byte>, at: nat, c: Cursor, written: seq<byte>, whole: Emitted)
    requires at <= |src|
  {
    whole == Join(written, Reconstruct(root, length, src, at, c))
  }

  /** One iteration of the outer `while` of `reconstruction`: walks the byte
      read ahead, then reads the next one unless the walk raised; `out` is
      what it writes. */
  method ReconstructionStep(dest: OutputStream, source: InputStream, root: Tree, length: nat,
                            node: Tree, count: nat, current: byte,
                            ghost at: nat, ghost written: seq<byte>, ghost whole: Emitted)
    returns (node': Tree, count': nat, octet: seq<byte>, error: Option<Error>, ghost out: seq<byte>)
    requires source.Valid() && at < |source.data| && count < length && current == source.data[at]
    requires source.pos == MinPos(at + 1, |source.data|)
    requires Pending(root, length, source.data, at, Cursor(node, count), written, whole)
    modifies dest, source
    ensures source.Valid() && source.data == old(source.data)
    ensures dest.data == old(dest.data) + out
    ensures error.Some? ==> whole == Emitted(written + out, error)
    ensures error.None? ==> octet == Lookahead(source.data, at + 1) &&
                            source.pos == MinPos(at + 2, |source.data|) &&
                            Pending(root, length, source.data, at + 1, Cursor(node', count'), written + out, whole)
  {
    ghost var src := source.data;
    ghost var s := StepBits(root, Cursor(node, count), BitsOf(src[at], 8));
    ReconstructStep(root, length, src, at, Cursor(node, count));
    node', count', error := WalkByte(dest, root, node, count, current);
    out := s.1.bytes;
    if error.Some? {
      JoinAssoc(written, s.1.bytes, Emitted([], error));
      assert written + out + [] == written + out;
      octet := [];
      return;
    }
    JoinAssoc(written, s.1.bytes, Reconstruct(root, length, src, at + 1, s.0));
    ReadOne(src, at + 1);
    octet := source.ReadBytes(1);
  }

  /** `reconstruction`: reads one byte ahead, and for each byte read while
      fewer than `length` bytes are written walks its eight bits. */
  method Reconstruction(dest: OutputStream, source: InputStream, root: Tree, length: nat)
    returns (error: Option<Error>)
    requires source.Valid()
    modifies dest, source
    ensures source.Valid() && source.data == old(source.data)
    ensures var e := Reconstruct(root, length, source.data, old(source.pos), Cursor(root, 0));
            dest.data == old(dest.data) + e.bytes && error == e.error
  {
    ghost var whole := Reconstruct(root, length, source.data, source.pos, Cursor(root, 0));
    ghost var at := source.pos;
    ReadOne(source.data, at);
    var octet := source.ReadBytes(1);
    assert Join([], whole) == whole by {
      assert [] + whole.bytes == whole.bytes;
    }
    ghost var written;
    error, written := ReconstructionLoop(dest, source, root, length, octet, at, whole);
  }

  /** The outer `while` of `reconstruction`, entered with the first byte
      read ahead; `written` is what it writes. */
  method ReconstructionLoop(dest: OutputStream, source: InputStream, root: Tree, length: nat,
                            octet: seq<byte>, ghost at: nat, ghost whole: Emitted)
    returns (error: Option<Error>, ghost written: seq<byte>)
    requires source.Valid() && at <= |source.data|
    requires octet == Lookahead(source.data, at) && source.pos == MinPos(at + 1, |source.data|)
    requires Pending(root, length, source.data, at, Cursor(root, 0), [], whole)
    modifies dest, source
    ensures source.Valid() && source.data == old(source.data)
    ensures dest.data == old(dest.data) + written
    ensures whole == Emitted(written, error)
  {
    ghost var src := source.data;
    ghost var start := dest.data;
    ghost var i := at;
    written := [];
    var node := root;
    var count: nat := 0;
    var next := octet;
    while count < length && next != []
      invariant source.Valid() && source.data == src
      invariant i <= |src| && next == Lookahead(src, i) && source.pos == MinPos(i + 1, |src|)
      invariant dest.data == start + written
      invariant Pending(root, length, src, i, Cursor(node, count), written, whole)
      decreases |src| - i
    {
      var e;
      ghost var out;
      node, count, next, e, out := ReconstructionStep(dest, source, root, length, node, count, next[0], i, written, whole);
      written := written + out;
      if e.Some? {
        return e, written;
      }
      assert Pending(root, length, src, i + 1, Cursor(node, count), written, whole);
      i := i + 1;
    }
    assert Reconstruct(root, length, src, i, Cursor(node, count)) == Emitted([], None);
    assert written + [] == written;
    error := None;
  }

  /** Where the stats end for a stream read from its start. */
  function PayloadStart(src: seq<byte>): nat
  {
    MinPos(MinPos(MinPos(4, |src|) + 4, |src|) + 1024, |src|)
  }

  /** Everything `decompresser` writes for the container `src`, and the
      exception it ends with: nothing unless the identifier is "HUFF";
      otherwise the length and the counts, the tree of the counts (an empty
      counter raises on the empty queue), then the walk over the payload. */
  function Decompressed(src: seq<byte>): Emitted
  {
    if IdentifierOf(src) != Magic then Emitted([], None)
    else
      var length := FromBytes(Read(src, 4, 4).0);
      var tree := BuildTree(StatsMap(src, MinPos(8, |src|), 256));
      if tree.Err? then Emitted([], Some(tree.error))
      else Reconstruct(tree.value, length, src, PayloadStart(src), Cursor(tree.value, 0))
  }

  /** `decompresser` once "HUFF" is read: the length, the counts, the tree,
      then `reconstruction`. */
  method DecompressBody(dest: OutputStream, source: InputStream) returns (error: Option<Error>)
    requires source.Valid() && source.pos == 4 && IdentifierOf(source.data) == Magic
    modifies dest, source
    ensures dest.data == old(dest.data) + Decompressed(source.data).bytes
    ensures error == Decompressed(source.data).error
  {
    ghost var src := source.data;
    var lengthBytes := source.ReadBytes(4);
    var length := FromBytes(lengthBytes);
    assert source.pos == MinPos(8, |src|);
    var stat := SearchStats(source);
    assert source.pos == PayloadStart(src);
    var tree := BuildHuffmanTree(stat);
    if tree.Err? {
      assert dest.data == old(dest.data) + [];
      return Some(tree.error);
    }
    error := Reconstruction(dest, source, tree.value, length);
  }

  /** `decompresser`: from the start of the source, the identifier; a
      source that does not start with "HUFF" gives no output. */
  method Decompress(dest: OutputStream, source: InputStream) returns (error: Option<Error>)
    requires source.Valid()
    modifies dest, source
    ensures dest.data == old(dest.data) + Decompressed(source.data).bytes
    ensures error == Decompressed(source.data).error
  {
    source.Rewind();
    var id := SearchIdentifier(source);
    if id != Magic {
      assert dest.data + [] == dest.data;
      return None;
    }
    error := DecompressBody(dest, source);
  }

  /** A stream that does not start with "HUFF" decompresses to nothing, and
      without an exception. */
  lemma NotHuffNoOutput(src: seq<byte>)
    requires !(|src| >= 4 && src[..4] == Magic)
    ensures Decompressed(src) == Emitted([], None)
  {
  }

  /** The count slot of byte `b` in a container holding the header of `m`
      reads back the count of `b`, 0 when absent. */
  lemma ReadSlotBack(c: seq<byte>, m: map<byte, int>, n: nat, b: byte)
    requires Writable(m) && n < Pow256(4)
    requires |c| >= 1032 && c[..1032] == Header(m, n)
    ensures SlotCount(c, 8, b) == Get(m, b)
  {
    HeaderLayout(m, n);
    assert c[8 + 4 * b..12 + 4 * b] == Header(m, n)[8 + 4 * b..12 + 4 * b];
    FromToBytes(Get(m, b), 4);
  }

  /** The counts read back from a header are the counts written, a count of
      0 not being set. */
  lemma ReadStatsBack(c: seq<byte>, m: map<byte, int>, n: nat)
    requires Writable(m) && n < Pow256(4) && forall b :: b in m ==> m[b] > 0
    requires |c| >= 1032 && c[..1032] == Header(m, n)
    ensures StatsMap(c, 8, 256) == m
  {
    forall b: byte ensures SlotCount(c, 8, b) == Get(m, b) {
      ReadSlotBack(c, m, n, b);
    }
    StatsMapOfCounts(c, m, 256);
  }

  /** Slots holding the counts of `m`, none of them 0, read back as `m`. */
  lemma StatsMapOfCounts(c: seq<byte>, m: map<byte, int>, k: nat)
    requires 8 <= |c| && k == 256 && forall b :: b in m ==> m[b] > 0
    requires forall b: byte :: SlotCount(c, 8, b) == Get(m, b)
    ensures StatsMap(c, 8, k) == m
  {
    var sm := StatsMap(c, 8, k);
    forall b: byte ensures (b in sm <==> b in m) && (b in m ==> sm[b] == m[b]) {
      if b in m {
        assert SlotCount(c, 8, b) == m[b] > 0;
      } else {
        assert SlotCount(c, 8, b) == 0;
      }
    }
    assert sm.Keys == m.Keys;
  }

  /** Reading a header back: the identifier is "HUFF", the length and the
      counts are those written (a count of 0 is not set), and the payload
      starts after the 1032 bytes of the header. */
  lemma ReadHeader(c: seq<byte>, m: map<byte, int>, n: nat)
    requires Writable(m) && n < Pow256(4) && forall b :: b in m ==> m[b] > 0
    requires |c| >= 1032 && c[..1032] == Header(m, n)
    ensures IdentifierOf(c) == Magic
    ensures FromBytes(Read(c, 4, 4).0) == n
    ensures StatsMap(c, 8, 256) == m
    ensures PayloadStart(c) == 1032
  {
    HeaderLayout(m, n);
    var h := Header(m, n);
    assert c[..4] == h[..4];
    assert c[4..8] == h[4..8];
    FromToBytes(n, 4);
    ReadStatsBack(c, m, n);
  }

  /** Reading the walk from position `pos` of `src` depends only on the
      bytes from `k <= pos` on. */
  lemma {:induction false} ReconstructSuffix(root: Tree, length: nat, src: seq<byte>, k: nat, pos: nat, c: Cursor)
    requires k <= pos <= |src|
    ensures Reconstruct(root, length, src, pos, c) == Reconstruct(root, length, src[k..], pos - k, c)
    decreases |src| - pos
  {
    var t := src[k..];
    assert |t| - (pos - k) == |src| - pos;
    if c.written < length && pos < |src| {
      assert t[pos - k] == src[pos];
      var s := StepBits(root, c, BitsOf(src[pos], 8));
      assert Reconstruct(root, length, t, pos - k, c) ==
             if s.1.error.Some? then s.1 else Join(s.1.bytes, Reconstruct(root, length, t, pos - k + 1, s.0));
      if s.1.error.None? {
        ReconstructSuffix(root, length, src, k, pos + 1, s.0);
      }
    }
  }

  /** The header `compresser` writes reads back as the length and the
      statistics of the source. */
  lemma ReadSourceHeader(src: seq<byte>)
    requires |src| < Pow256(4)
    ensures IdentifierOf(Compressed(src).bytes) == Magic
    ensures FromBytes(Read(Compressed(src).bytes, 4, 4).0) == |src|
    ensures StatsMap(Compressed(src).bytes, 8, 256) == Histogram(src)
    ensures PayloadStart(Compressed(src).bytes) == 1032
  {
    CompressedStartsWithHeader(src);
    HistogramSpec(src);
    HistogramWritable(src);
    ReadHeader(Compressed(src).bytes, Histogram(src), |src|);
  }

  /** Decompressing what `compresser` wrote for an empty source: the
      counter read back is empty and building its tree raises on the empty
      queue, so nothing is written. */
  lemma EmptyContainerCrashes(src: seq<byte>)
    requires src == []
    ensures Decompressed(Compressed(src).bytes) == Emitted([], Some(EmptyQueue))
  {
    ReadSourceHeader(src);
    BuildTreeSpec(Histogram(src));
  }

  /** A container with the identifier, the length `length` and counts whose
      tree is `t` decompresses by walking `t` over what follows the header. */
  lemma DecompressedHuff(c: seq<byte>, length: nat, m: map<byte, int>, t: Tree)
    requires IdentifierOf(c) == Magic && |c| >= 8
    requires FromBytes(Read(c, 4, 4).0) == length && StatsMap(c, 8, 256) == m && BuildTree(m) == Ok(t)
    ensures Decompressed(c) == Reconstruct(t, length, c, PayloadStart(c), Cursor(t, 0))
  {
    assert MinPos(8, |c|) == 8;
  }

  /** Decompressing what `compresser` wrote for a non-empty source: the tree
      rebuilt from the header is the tree the compression used, and the walk
      runs over the payload for the length of the source. */
  lemma DecompressCompressed(src: seq<byte>)
    requires |src| < Pow256(4) && src != []
    ensures var t := SourceTree(src);
            Decompressed(Compressed(src).bytes) == Reconstruct(t, |src|, Payload(src).bytes, 0, Cursor(t, 0))
  {
    var c := Compressed(src).bytes;
    ReadSourceHeader(src);
    CompressedStartsWithHeader(src);
    var t := SourceTree(src);
    DecompressedHuff(c, |src|, Histogram(src), t);
    ReconstructSuffix(t, |src|, c, 1032, 1032, Cursor(t, 0));
  }

  /** Walking `a + b` walks `a`, then `b` from where `a` left the cursor,
      unless `a` raised. */
  lemma {:induction false} StepBitsAppend(root: Tree, c: Cursor, a: seq<Bit>, b: seq<Bit>)
    ensures var sa := StepBits(root, c, a);
            StepBits(root, c, a + b) ==
            if sa.1.error.Some? then sa
            else (StepBits(root, sa.0, b).0, Join(sa.1.bytes, StepBits(root, sa.0, b).1))
    decreases |a|
  {
    var sa := StepBits(root, c, a);
    if a == [] {
      assert a + b == b;
      assert Join([], StepBits(root, c, b).1) == StepBits(root, c, b).1 by {
        assert [] + StepBits(root, c, b).1.bytes == StepBits(root, c, b).1.bytes;
      }
    } else {
      assert (a + b)[0] == a[0] && (a + b)[1..] == a[1..] + b;
      var s := StepBit(root, c, a[0]);
      if s.1.error.None? {
        StepBitsAppend(root, s.0, a[1..], b);
        var sr := StepBits(root, s.0, a[1..]);
        if sr.1.error.None? {
          JoinAssoc(s.1.bytes, sr.1.bytes, StepBits(root, sr.0, b).1);
        }
      }
    }
  }

  /** Walking a single bit is one step. */
  lemma StepBitsSingle(root: Tree, c: Cursor, b: Bit)
    ensures StepBits(root, c, [b]) == StepBit(root, c, b)
  {
    assert [b][1..] == [];
    var s := StepBit(root, c, b);
    assert s.1.bytes + [] == s.1.bytes;
  }

  /** From the left leaf `x` of the root, each bit 0 writes `x` and comes
      back to the same leaf. */
  lemma {:induction false} LeftLeafRun(root: Tree, x: byte, p: nat, k: nat, j: nat)
    requires root.Node? && root.left == Leaf(x, p)
    ensures StepBits(root, Cursor(root.left, k), seq(j, _ => Bit0)) ==
            (Cursor(root.left, k + j), Emitted(seq(j, _ => x), None))
    decreases j
  {
    var zeros := seq(j, _ => Bit0);
    if j > 0 {
      assert zeros[0] == Bit0 && zeros[1..] == seq(j - 1, _ => Bit0);
      LeftLeafRun(root, x, p, k + 1, j - 1);
      assert [x] + seq(j - 1, _ => x) == seq(j, _ => x);
    }
  }

  /** The payload 0x40 of "AB", walked over the tree with `x` on the left
      and `y` on the right for a length of 2: the leaf reached by a bit is
      only written when the next bit is read, and the length is only checked
      once the byte is done, so the six padding bits 0 add five more `x`. */
  lemma TwoLeafWalk(root: Tree, x: byte, y: byte, p: nat, q: nat)
    requires root == Node(p + q, Leaf(x, p), Leaf(y, q))
    ensures Reconstruct(root, 2, [0x40], 0, Cursor(root, 0)) == Emitted([x, y, x, x, x, x, x], None)
  {
    BitsOf40();
    TwoLeafBits(root, x, y, p, q);
    assert [x, y, x, x, x, x, x] + [] == [x, y, x, x, x, x, x];
  }

  /** The bits of 0x40, most significant first. */
  lemma BitsOf40()
    ensures BitsOf(0x40, 8) == [Bit0, Bit1] + ([Bit0] + seq(5, _ => Bit0))
  {
    assert BitsOf(0x40, 8) == [Bit0, Bit1, Bit0, Bit0, Bit0, Bit0, Bit0, Bit0];
  }

  /** The bits 0100 0000 walked over the tree with `x` on the left and `y`
      on the right: `x`, `y` and five `x` are written, ending on `x`. */
  lemma TwoLeafBits(root: Tree, x: byte, y: byte, p: nat, q: nat)
    requires root == Node(p + q, Leaf(x, p), Leaf(y, q))
    ensures StepBits(root, Cursor(root, 0), [Bit0, Bit1] + ([Bit0] + seq(5, _ => Bit0))) ==
            (Cursor(Leaf(x, p), 7), Emitted([x, y, x, x, x, x, x], None))
  {
    var zeros5 := seq(5, _ => Bit0);
    var ly := Leaf(y, q);
    var c0 := Cursor(root, 0);
    TwoLeafPrefix(root, x, y, p, q);
    StepBitsSingle(root, Cursor(ly, 1), Bit0);
    LeftLeafRun(root, x, p, 2, 5);
    StepBitsAppend(root, Cursor(ly, 1), [Bit0], zeros5);
    StepBitsAppend(root, c0, [Bit0, Bit1], [Bit0] + zeros5);
    assert [x] + ([y] + seq(5, _ => x)) == [x, y, x, x, x, x, x];
  }

  /** The bits 01 walked from the root: `x` is written on the way to `y`. */
  lemma TwoLeafPrefix(root: Tree, x: byte, y: byte, p: nat, q: nat)
    requires root == Node(p + q, Leaf(x, p), Leaf(y, q))
    ensures StepBits(root, Cursor(root, 0), [Bit0, Bit1]) == (Cursor(Leaf(y, q), 1), Emitted([x], None))
  {
    var c0 := Cursor(root, 0);
    StepBitsSingle(root, c0, Bit0);
    StepBitsSingle(root, Cursor(Leaf(x, p), 0), Bit1);
    StepBitsAppend(root, c0, [Bit0], [Bit1]);
    assert [Bit0] + [Bit1] == [Bit0, Bit1];
    assert [] + [x] == [x];
  }

  /** "AB" compressed and decompressed gives "ABAAAAA": the walk does not
      stop at the length, and the padding bits decode as the byte coded 0. */
  lemma TwoSymbolDecode()
    ensures Decompressed(Compressed([65, 66]).bytes) == Emitted([65, 66, 65, 65, 65, 65, 65], None)
  {
    var src: seq<byte> := [65, 66];
    DecompressCompressed(src);
    TwoSymbolTree(src);
    TwoSymbolPayload();
    TwoLeafWalk(Node(2, Leaf(65, 1), Leaf(66, 1)), 65, 66, 1, 1);
  }

  /** The bits 1100 0001 walked over the tree with `x` on the left and the
      node of `y` and `z` on the right: `z` and five `x` are written, and the
      walk ends on the node of `y` and `z`. */
  lemma ThreeLeafBits(root: Tree, x: byte, y: byte, z: byte, p: nat, q: nat, r: nat)
    requires root == Node(p + q + r, Leaf(x, p), Node(q + r, Leaf(y, q), Leaf(z, r)))
    ensures StepBits(root, Cursor(root, 0), [Bit1, Bit1] + ([Bit0] + (seq(4, _ => Bit0) + [Bit1]))) ==
            (Cursor(root.right, 6), Emitted([z, x, x, x, x, x], None))
  {
    var zeros4 := seq(4, _ => Bit0);
    var lx, n, lz := Leaf(x, p), root.right, Leaf(z, r);
    var c0 := Cursor(root, 0);
    StepBitsSingle(root, c0, Bit1);
    StepBitsSingle(root, Cursor(n, 0), Bit1);
    StepBitsSingle(root, Cursor(lz, 0), Bit0);
    StepBitsSingle(root, Cursor(lx, 5), Bit1);
    assert StepBits(root, c0, [Bit1, Bit1]) == (Cursor(lz, 0), Emitted([], None)) by {
      StepBitsAppend(root, c0, [Bit1], [Bit1]);
      assert [Bit1] + [Bit1] == [Bit1, Bit1];
      var none: seq<byte> := [];
      assert none + none == none;
    }
    LeftLeafRun(root, x, p, 1, 4);
    StepBitsAppend(root, Cursor(lx, 1), zeros4, [Bit1]);
    StepBitsAppend(root, Cursor(lz, 0), [Bit0], zeros4 + [Bit1]);
    StepBitsAppend(root, c0, [Bit1, Bit1], [Bit0] + (zeros4 + [Bit1]));
    assert [] + ([z] + (seq(4, _ => x) + [x])) == [z, x, x, x, x, x];
  }

  /** The payload 0xC1 of "CAAAAAB" walked for a length of 7: the bytes run
      out after `z` and five `x`. */
  lemma ThreeLeafWalk(root: Tree, x: byte, y: byte, z: byte, p: nat, q: nat, r: nat)
    requires root == Node(p + q + r, Leaf(x, p), Node(q + r, Leaf(y, q), Leaf(z, r)))
    ensures Reconstruct(root, 7, [0xC1], 0, Cursor(root, 0)) == Emitted([z, x, x, x, x, x], None)
  {
    BitsOfC1();
    ThreeLeafBits(root, x, y, z, p, q, r);
    assert [z, x, x, x, x, x] + [] == [z, x, x, x, x, x];
  }

  /** "CAAAAAB" compressed and decompressed gives "CAAAAA": the last bit of
      the code of B was never written. */
  lemma SevenSymbolDecode()
    ensures Decompressed(Compressed([67, 65, 65, 65, 65, 65, 66]).bytes) == Emitted([67, 65, 65, 65, 65, 65], None)
  {
    var src: seq<byte> := [67, 65, 65, 65, 65, 65, 66];
    SevenSymbolTree(src);
    SevenSymbolPayload();
    SevenSymbolRoundTrip(src, SourceTree(src));
  }

  lemma SevenSymbolRoundTrip(src: seq<byte>, t: Tree)
    requires |src| == 7 && SourceTree(src) == t && Payload(src).bytes == [0xC1]
    requires t == Node(7, Leaf(65, 5), Node(2, Leaf(66, 1), Leaf(67, 1)))
    ensures Decompressed(Compressed(src).bytes) == Emitted([67, 65, 65, 65, 65, 65], None)
  {
    assert Pow256(1) == 256 && Pow256(2) == 65536;
    DecompressCompressed(src);
    ThreeLeafWalk(t, 65, 66, 67, 5, 1, 1);
  }
}
