/** The codec as its design intends it, beside the code as written: every
    byte gets a code of at least one bit (the lone leaf too), all the code
    bits are packed eight to a byte with the last byte padded with 0 bits,
    the decoder writes a byte as soon as its leaf is reached and stops at
    the stored length, and an empty container decodes to nothing. With these
    corrections every source round-trips. */
module CorrectedCodec {
  import opened Common
  import opened HuffmanTrees
  import opened BinaryCodes
  import opened CodeTables
  import opened BitPacking
  import opened TreeBuilding
  import opened Streams
  import opened Compression
  import opened Decompression

  /** `n` bits 0. */
  function Zeros(n: nat): (r: seq<Bit>)
    ensures |r| == n && forall i :: 0 <= i < n ==> r[i] == Bit0
  {
    seq(n, _ => Bit0)
  }

  /** The bits of a table entry: a bare bit is taken as the one-bit code it
      stands for. */
  function EntryBits(e: Entry): seq<Bit>
  {
    match e
    case Code(bits) => bits
    case BareBit(b) => [b]
  }

  /** `code_binaire` with the lone leaf given the code `CodeBinaire(Bit.BIT_0)`
      instead of a bare bit: exactly the bytes of the tree, each with a code
      of at least one bit that leads from the root to its leaf. */
  function CorrectedCodeTable(t: Tree): (r: map<byte, seq<Bit>>)
    ensures forall k :: k in r <==> k in Elements(t)
    ensures forall k :: k in r <==> k in CodeTable(t)
    ensures t.Leaf? ==> r == map[t.element := [Bit0]]
    ensures forall k :: k in r ==> |r[k]| >= 1
    ensures t.Node? ==> forall k :: k in r ==>
              Walk(t, r[k]).Ok? && Walk(t, r[k]).value.Leaf? && Walk(t, r[k]).value.element == k
  {
    CodeTableSpec(t);
    map k | k in CodeTable(t) :: EntryBits(CodeTable(t)[k])
  }

  /** The code bits of a source: the codes of its bytes, one after another. */
  function Encode(table: map<byte, seq<Bit>>, src: seq<byte>): seq<Bit>
    requires forall i :: 0 <= i < |src| ==> src[i] in table
  {
    if src == [] then [] else table[src[0]] + Encode(table, src[1..])
  }

  /** The bytes of a bit sequence: eight bits to a byte, most significant
      first, the last byte padded with 0 bits. */
  function Pack(bits: seq<Bit>): (r: seq<byte>)
    ensures |r| == (|bits| + 7) / 8
    decreases |bits|
  {
    if bits == [] then []
    else if |bits| <= 8 then [ByteOf(bits)]
    else [ByteOf(bits[..8])] + Pack(bits[8..])
  }

  /** The bits of a byte sequence, eight per byte, most significant first
      (`naturel_to_list` applied to each byte). */
  function Unpack(bytes: seq<byte>): (r: seq<Bit>)
    ensures |r| == 8 * |bytes|
  {
    if bytes == [] then [] else BitsOf(bytes[0], 8) + Unpack(bytes[1..])
  }

  /** Zero bits appended at the low end multiply the value by a power of 2. */
  lemma {:induction false} ValueZeros(bits: seq<Bit>, k: nat)
    ensures Value(bits + Zeros(k)) == Value(bits) * Pow2(k)
  {
    if k == 0 {
      assert bits + Zeros(0) == bits;
    } else {
      ValueZeros(bits, k - 1);
      var t := bits + Zeros(k - 1);
      assert bits + Zeros(k) == t + [Bit0];
      ValueAppendZero(t);
      Regroup(Value(bits + Zeros(k)), Value(bits), Pow2(k - 1), Pow2(k));
    }
  }

  /** A 0 bit appended doubles the value. */
  lemma ValueAppendZero(bits: seq<Bit>)
    ensures Value(bits + [Bit0]) == 2 * Value(bits)
  {
    assert (bits + [Bit0])[..|bits|] == bits;
  }

  lemma Regroup(a: int, v: int, p: int, q: int)
    requires a == 2 * (v * p) && q == 2 * p
    ensures a == v * q
  {
  }

  /** The byte `list_to_byte` makes of at most eight bits unpacks to those
      bits followed by 0 bits. */
  lemma ByteOfShort(bits: seq<Bit>)
    requires |bits| <= 8
    ensures BitsOf(ByteOf(bits), 8) == bits + Zeros(8 - |bits|)
  {
    assert bits[..|bits|] == bits;
    ValueZeros(bits, 8 - |bits|);
    BitsOfValueOf(bits + Zeros(8 - |bits|));
  }

  /** Unpacking the packed bits gives the bits back, followed by fewer than
      eight padding bits, all 0. */
  lemma {:induction false} UnpackPack(bits: seq<Bit>)
    ensures Unpack(Pack(bits)) == bits + Zeros(|Unpack(Pack(bits))| - |bits|)
    ensures |bits| <= |Unpack(Pack(bits))| < |bits| + 8
    decreases |bits|
  {
    if bits == [] {
    } else if |bits| <= 8 {
      UnpackPackShort(bits);
    } else {
      UnpackPack(bits[8..]);
      UnpackPackLong(bits);
    }
  }

  /** The step of `UnpackPack` past the first byte. */
  lemma UnpackPackLong(bits: seq<Bit>)
    requires |bits| > 8
    requires Unpack(Pack(bits[8..])) == bits[8..] + Zeros(|Unpack(Pack(bits[8..]))| - |bits[8..]|)
    requires |bits[8..]| <= |Unpack(Pack(bits[8..]))| < |bits[8..]| + 8
    ensures Unpack(Pack(bits)) == bits + Zeros(|Unpack(Pack(bits))| - |bits|)
    ensures |bits| <= |Unpack(Pack(bits))| < |bits| + 8
  {
    var head, tail := bits[..8], bits[8..];
    UnpackPackHead(bits);
    var z := Zeros(|Unpack(Pack(tail))| - |tail|);
    assert Unpack(Pack(bits)) == head + (tail + z);
    assert head + (tail + z) == (head + tail) + z;
    assert bits == head + tail;
  }

  /** At most eight bits pack into one byte. */
  lemma UnpackPackShort(bits: seq<Bit>)
    requires 0 < |bits| <= 8
    ensures Unpack(Pack(bits)) == bits + Zeros(8 - |bits|)
  {
    ByteOfShort(bits);
    assert Unpack(Pack(bits)) == BitsOf(ByteOf(bits), 8) + [];
  }

  /** More than eight bits: the first eight unpack from the first byte. */
  lemma UnpackPackHead(bits: seq<Bit>)
    requires |bits| > 8
    ensures Unpack(Pack(bits)) == bits[..8] + Unpack(Pack(bits[8..]))
  {
    var head := bits[..8];
    ByteOfShort(head);
    assert head + Zeros(0) == head;
    var p := Pack(bits);
    assert p[0] == ByteOf(head) && p[1..] == Pack(bits[8..]);
  }

  /** From the subtree `t`, follows `bits` down to a leaf: the byte there and
      the bits after it; `None` when the bits end before a leaf. */
  function Descend(t: Tree, bits: seq<Bit>): (r: Option<(byte, seq<Bit>)>)
    ensures r.Some? ==> |r.value.1| <= |bits| && bits[|bits| - |r.value.1|..] == r.value.1
    ensures r.Some? && t.Node? ==> |r.value.1| < |bits|
    decreases |bits|
  {
    match t
    case Leaf(e, _) => Some((e, bits))
    case Node(_, l, r) =>
      if bits == [] then None
      else
        var d := Descend(if bits[0] == Bit0 then l else r, bits[1..]);
        assert d.Some? ==> bits[1..][|bits[1..]| - |d.value.1|..] == bits[|bits| - |d.value.1|..];
        d
  }

  /** One decoded byte: the walk from the root to a leaf; a root that is a
      leaf decodes one bit as its byte. */
  function DecodeSymbol(root: Tree, bits: seq<Bit>): (r: Option<(byte, seq<Bit>)>)
    ensures r.Some? ==> |r.value.1| < |bits|
  {
    if root.Leaf? then (if bits == [] then None else Some((root.element, bits[1..])))
    else Descend(root, bits)
  }

  /** The decoder: `n` bytes, each written as soon as its leaf is reached;
      it stops after `n` bytes, or earlier when the bits run out. */
  function Decode(root: Tree, n: nat, bits: seq<Bit>): (r: seq<byte>)
    ensures |r| <= n
    decreases n
  {
    if n == 0 then []
    else
      var d := DecodeSymbol(root, bits);
      if d.None? then [] else [d.value.0] + Decode(root, n - 1, d.value.1)
  }

  /** A code that walks from a node to the leaf of `k` descends to `k` and
      leaves exactly the bits after it. */
  lemma {:induction false} DescendCode(t: Tree, code: seq<Bit>, k: byte, rest: seq<Bit>)
    requires t.Node?
    requires Walk(t, code).Ok? && Walk(t, code).value.Leaf? && Walk(t, code).value.element == k
    ensures Descend(t, code + rest) == Some((k, rest))
    decreases |code|
  {
    assert code != [];
    var child := if code[0] == Bit0 then t.left else t.right;
    assert Walk(t, code) == Walk(child, code[1..]);
    assert (code + rest)[0] == code[0] && (code + rest)[1..] == code[1..] + rest;
    if child.Leaf? {
      LeafEndsWalk(child, code[1..]);
      assert code[1..] + rest == rest;
    } else {
      DescendCode(child, code[1..], k, rest);
    }
  }

  /** Every code of the corrected table decodes to its own byte, whatever
      follows it. */
  lemma DecodeSymbolCode(t: Tree, k: byte, rest: seq<Bit>)
    requires k in CorrectedCodeTable(t)
    ensures DecodeSymbol(t, CorrectedCodeTable(t)[k] + rest) == Some((k, rest))
  {
    var code := CorrectedCodeTable(t)[k];
    if t.Leaf? {
      assert (code + rest)[1..] == rest;
    } else {
      DescendCode(t, code, k, rest);
    }
  }

  /** Decoding the code bits of a source, followed by any padding, for the
      length of the source gives the source back. */
  lemma {:induction false} DecodeEncode(t: Tree, src: seq<byte>, pad: seq<Bit>)
    requires forall i :: 0 <= i < |src| ==> src[i] in CorrectedCodeTable(t)
    ensures Decode(t, |src|, Encode(CorrectedCodeTable(t), src) + pad) == src
  {
    if src != [] {
      var table := CorrectedCodeTable(t);
      var rest := Encode(table, src[1..]) + pad;
      var bits := Encode(table, src) + pad;
      EncodeFirst(table, src, pad);
      DecodeSymbolCode(t, src[0], rest);
      DecodeEncode(t, src[1..], pad);
      assert Decode(t, |src|, bits) == [src[0]] + Decode(t, |src| - 1, rest);
      assert src == [src[0]] + src[1..];
    }
  }

  /** The code bits of a non-empty source start with the code of its first
      byte. */
  lemma EncodeFirst(table: map<byte, seq<Bit>>, src: seq<byte>, pad: seq<Bit>)
    requires src != [] && forall i :: 0 <= i < |src| ==> src[i] in table
    ensures Encode(table, src) + pad == table[src[0]] + (Encode(table, src[1..]) + pad)
  {
    var a, b := table[src[0]], Encode(table, src[1..]);
    assert Encode(table, src) == a + b;
    BitsAssoc(a, b, pad);
  }

  lemma BitsAssoc(a: seq<Bit>, b: seq<Bit>, c: seq<Bit>)
    ensures (a + b) + c == a + (b + c)
  {
  }

  /** Every byte of a non-empty source has a code in the corrected table of
      the tree built from its statistics. */
  lemma SourceCovered(src: seq<byte>)
    requires src != []
    ensures forall i :: 0 <= i < |src| ==> src[i] in CorrectedCodeTable(SourceTree(src))
  {
    HistogramTree(src);
  }

  /** The payload the corrected encoder writes: nothing for an empty source,
      otherwise every code bit of the source, packed. */
  function CorrectedPayload(src: seq<byte>): seq<byte>
  {
    if src == [] then []
    else
      SourceCovered(src);
      Pack(Encode(CorrectedCodeTable(SourceTree(src)), src))
  }

  /** The corrected container: the same header, then the corrected payload. */
  function CorrectedCompressed(src: seq<byte>): (r: seq<byte>)
    requires |src| < Pow256(4)
    ensures |r| >= 1032 && r[..1032] == SourceHeader(src) && r[1032..] == CorrectedPayload(src)
  {
    HistogramWritable(src);
    HeaderLayout(Histogram(src), |src|);
    SourceHeader(src) + CorrectedPayload(src)
  }

  /** The corrected decompression: nothing unless the identifier is "HUFF"
      (as written); a length of 0 gives nothing without building a tree;
      otherwise the corrected decoder over the unpacked payload. */
  function CorrectedDecompressed(c: seq<byte>): Emitted
  {
    if IdentifierOf(c) != Magic then Emitted([], None)
    else
      var length := FromBytes(Read(c, 4, 4).0);
      if length == 0 then Emitted([], None)
      else
        var tree := BuildTree(StatsMap(c, MinPos(8, |c|), 256));
        if tree.Err? then Emitted([], Some(tree.error))
        else Emitted(Decode(tree.value, length, Unpack(c[PayloadStart(c)..])), None)
  }

  /** Every source shorter than `2^32` bytes, the empty one and the ones made
      of a single byte value included, comes back unchanged and without an
      exception from the corrected codec. */
  lemma CorrectedRoundTrip(src: seq<byte>)
    requires |src| < Pow256(4)
    ensures CorrectedDecompressed(CorrectedCompressed(src)) == Emitted(src, None)
  {
    var c := CorrectedCompressed(src);
    CorrectedHeader(src);
    if src != [] {
      CorrectedPayloadDecodes(src);
      CorrectedDecompressedOf(c, |src|, Histogram(src), SourceTree(src));
    }
  }

  /** The header of the corrected container reads back as the length and
      the statistics of the source, and the payload follows it. */
  lemma CorrectedHeader(src: seq<byte>)
    requires |src| < Pow256(4)
    ensures var c := CorrectedCompressed(src);
            IdentifierOf(c) == Magic && FromBytes(Read(c, 4, 4).0) == |src| &&
            StatsMap(c, 8, 256) == Histogram(src) && PayloadStart(c) == 1032
  {
    HistogramSpec(src);
    HistogramWritable(src);
    ReadHeader(CorrectedCompressed(src), Histogram(src), |src|);
  }

  /** A container with the identifier, a non-zero length and counts whose
      tree is `t` decodes the bytes after the header with `t`. */
  lemma CorrectedDecompressedOf(c: seq<byte>, length: nat, m: map<byte, int>, t: Tree)
    requires IdentifierOf(c) == Magic && |c| >= 8 && length > 0
    requires FromBytes(Read(c, 4, 4).0) == length && StatsMap(c, 8, 256) == m && BuildTree(m) == Ok(t)
    ensures CorrectedDecompressed(c) == Emitted(Decode(t, length, Unpack(c[PayloadStart(c)..])), None)
  {
    assert MinPos(8, |c|) == 8;
  }

  /** The corrected payload of a non-empty source decodes, with the tree of
      its statistics and its length, to the source. */
  lemma CorrectedPayloadDecodes(src: seq<byte>)
    requires src != []
    ensures Decode(SourceTree(src), |src|, Unpack(CorrectedPayload(src))) == src
  {
    var t := SourceTree(src);
    SourceCovered(src);
    var bits := Encode(CorrectedCodeTable(t), src);
    assert CorrectedPayload(src) == Pack(bits);
    UnpackPack(bits);
    var pad := Zeros(|Unpack(Pack(bits))| - |bits|);
    assert Unpack(CorrectedPayload(src)) == bits + pad;
    DecodeEncode(t, src, pad);
  }

  /** "AB" as corrected: A and B get the codes 0 and 1, packed as 0x40, and
      decoding stops after two bytes. */
  lemma CorrectedTwoSymbols()
    ensures CorrectedPayload([65, 66]) == [0x40]
    ensures CorrectedDecompressed(CorrectedCompressed([65, 66])) == Emitted([65, 66], None)
  {
    var src: seq<byte> := [65, 66];
    TwoSymbolTree(src);
    var table := CorrectedCodeTable(Node(2, Leaf(65, 1), Leaf(66, 1)));
    TwoLeafTable(table);
    ByteOfTwoBits();
    assert CorrectedPayload(src) == Pack([Bit0, Bit1]);
    assert Pow256(1) == 256 && Pow256(2) == 65536;
    CorrectedRoundTrip(src);
  }

  /** With A coded 0 and B coded 1, "AB" encodes as the bits 01. */
  lemma TwoLeafTable(table: map<byte, seq<Bit>>)
    requires table == CorrectedCodeTable(Node(2, Leaf(65, 1), Leaf(66, 1)))
    ensures table == map[65 := [Bit0], 66 := [Bit1]]
    ensures Encode(table, [65, 66]) == [Bit0, Bit1]
  {
    TwoLeafCodes();
    assert table.Keys == {65, 66};
    var src: seq<byte> := [65, 66];
    assert Encode(table, src[1..][1..]) == [];
  }

  /** The code bits of "CAAAAAB" with A coded 0, B coded 10 and C coded 11. */
  lemma SevenSymbolBits(table: map<byte, seq<Bit>>, src: seq<byte>)
    requires table == map[65 := [Bit0], 66 := [Bit1, Bit0], 67 := [Bit1, Bit1]]
    requires src == [67, 65, 65, 65, 65, 65, 66]
    ensures Encode(table, src) == [Bit1, Bit1, Bit0, Bit0, Bit0, Bit0, Bit0, Bit1, Bit0]
  {
    assert Encode(table, src[6..]) == [Bit1, Bit0] by {
      assert src[6..][1..] == [];
    }
    assert src[5..][1..] == src[6..] && src[4..][1..] == src[5..] && src[3..][1..] == src[4..];
    assert src[2..][1..] == src[3..] && src[1..][1..] == src[2..];
    assert Encode(table, src[5..]) == [Bit0, Bit1, Bit0];
    assert Encode(table, src[3..]) == [Bit0, Bit0, Bit0, Bit1, Bit0];
    assert Encode(table, src[1..]) == [Bit0, Bit0, Bit0, Bit0, Bit0, Bit1, Bit0];
  }

  /** Nine bits pack into two bytes, the ninth bit alone in the second. */
  lemma SevenSymbolPack()
    ensures Pack([Bit1, Bit1, Bit0, Bit0, Bit0, Bit0, Bit0, Bit1, Bit0]) == [0xC1, 0x00]
  {
    var bits := [Bit1, Bit1, Bit0, Bit0, Bit0, Bit0, Bit0, Bit1, Bit0];
    ByteOfC1();
    assert bits[..8] == [Bit1, Bit1, Bit0, Bit0, Bit0, Bit0, Bit0, Bit1];
    assert bits[8..] == [Bit0];
    assert ByteOf([Bit0]) == 0 by {
      assert [Bit0][..1] == [Bit0];
    }
  }

  /** "CAAAAAB" as corrected: the ninth code bit gets a byte of its own, so
      the payload is 0xC1 0x00 and B is decoded. */
  lemma CorrectedSevenSymbols(src: seq<byte>)
    requires src == [67, 65, 65, 65, 65, 65, 66]
    ensures CorrectedPayload(src) == [0xC1, 0x00]
  {
    SevenSymbolTree(src);
    var t := SourceTree(src);
    ThreeLeafTable(t);
    var table := CorrectedCodeTable(t);
    SourceCovered(src);
    SevenSymbolBits(table, src);
    SevenSymbolPack();
    assert CorrectedPayload(src) == Pack(Encode(table, src));
  }

  lemma ThreeLeafTable(t: Tree)
    requires t == Node(7, Leaf(65, 5), Node(2, Leaf(66, 1), Leaf(67, 1)))
    ensures CorrectedCodeTable(t) == map[65 := [Bit0], 66 := [Bit1, Bit0], 67 := [Bit1, Bit1]]
  {
    ThreeLeafCodes();
    var r := CorrectedCodeTable(t);
    assert r.Keys == {65, 66, 67};
  }

  /** The eighteen bits of a 17-bit code and a 1-bit code, all 1, packed as
      corrected: 0xFF 0xFF 0xC0, every bit kept. */
  lemma CorrectedLongCode()
    ensures Pack(Ones(17) + [Bit1]) == [0xFF, 0xFF, 0xC0]
    ensures Unpack(Pack(Ones(17) + [Bit1]))[..18] == Ones(18)
  {
    var bits := Ones(17) + [Bit1];
    assert bits == Ones(18);
    ByteOfOnes(8);
    assert bits[..8] == Ones(8) && bits[8..][..8] == Ones(8) && bits[8..][8..] == [Bit1, Bit1];
    assert ByteOf([Bit1, Bit1]) == 0xC0 by {
      assert [Bit1, Bit1][..2] == [Bit1, Bit1] && [Bit1, Bit1][..1] == [Bit1];
      assert Value([Bit1, Bit1]) == 3 && Pow2(6) == 64;
    }
    assert Pack(bits[8..][8..]) == [0xC0];
    assert Pack(bits[8..]) == [0xFF, 0xC0];
    UnpackPack(bits);
  }
}
