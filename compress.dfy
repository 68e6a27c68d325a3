/** Compression (`statistiques`, `compresser`): count the bytes, write the
    header ("HUFF", the length, 256 counts), then the codes of the bytes
    packed eight bits to a byte, as the buffers of `code_write` do it. */
module Compression {
  import opened Common
  import opened HuffmanTrees
  import opened BinaryCodes
  import opened Counters
  import opened TreeBuilding
  import opened CodeTables
  import opened BitPacking
  import opened Streams

  /** The counts of the bytes of `s`, as `statistiques` builds them. */
  function Histogram(s: seq<byte>): map<byte, int>
  {
    if s == [] then map[]
    else
      var h := Histogram(s[..|s| - 1]);
      var x := s[|s| - 1];
      h[x := Get(h, x) + 1]
  }

  /** The count of a key, 0 when absent (`nb_occurences`). */
  function Get(m: map<byte, int>, k: byte): int
  {
    if k in m then m[k] else 0
  }

  /** The keys of the histogram are the bytes of `s`, each counted as many
      times as it occurs. */
  lemma {:induction false} HistogramSpec(s: seq<byte>)
    ensures forall b :: b in Histogram(s) <==> b in s
    ensures forall b :: b in Histogram(s) ==> Histogram(s)[b] == multiset(s)[b] && 1 <= Histogram(s)[b] <= |s|
  {
    if s != [] {
      var init := s[..|s| - 1];
      HistogramSpec(init);
      assert s == init + [s[|s| - 1]];
      assert multiset(s) == multiset(init) + multiset{s[|s| - 1]};
    }
  }

  /** The sum of the counts of `keys` in `m` (0 for an absent key). */
  function SumOver(keys: seq<byte>, m: map<byte, int>): int
  {
    if keys == [] then 0 else SumOver(keys[..|keys| - 1], m) + Get(m, keys[|keys| - 1])
  }

  /** Changing one count changes the sum over distinct keys by the same amount. */
  lemma {:induction false} SumOverUpdate(keys: seq<byte>, m: map<byte, int>, x: byte, v: int)
    requires Distinct(keys)
    ensures SumOver(keys, m[x := v]) == SumOver(keys, m) + (if x in keys then v - Get(m, x) else 0)
  {
    if keys != [] {
      var init := keys[..|keys| - 1];
      assert Distinct(init);
      SumOverUpdate(init, m, x, v);
      assert x == keys[|keys| - 1] ==> x !in init;
      assert x in keys <==> x in init || x == keys[|keys| - 1];
    }
  }

  /** Summed over distinct keys that include every byte of `s`, the counts
      of the histogram add up to the length of `s`. */
  lemma {:induction false} HistogramTotal(s: seq<byte>, keys: seq<byte>)
    requires Distinct(keys)
    requires forall b :: b in s ==> b in keys
    ensures SumOver(keys, Histogram(s)) == |s|
  {
    if s == [] {
      SumOverEmpty(keys);
    } else {
      var init := s[..|s| - 1];
      var x := s[|s| - 1];
      assert forall b :: b in init ==> b in s;
      HistogramTotal(init, keys);
      SumOverUpdate(keys, Histogram(init), x, Get(Histogram(init), x) + 1);
    }
  }

  lemma {:induction false} SumOverEmpty(keys: seq<byte>)
    ensures SumOver(keys, map[]) == 0
  {
    if keys != [] {
      SumOverEmpty(keys[..|keys| - 1]);
    }
  }

  /** `statistiques`: reads the source from its start to its end, counting
      every byte; returns the counter and the number of bytes read. */
  method Statistics(source: seq<byte>) returns (stat: Counter<byte>, n: nat)
    ensures fresh(stat) && stat.Valid()
    ensures stat.counts == Histogram(source)
    ensures stat.keys == FirstOccurrences(source)
    ensures n == |source|
  {
    stat := new Counter([]);
    assert stat.counts == map[] == Histogram([]);
    var pos := 0;
    n := 0;
    while pos < |source|
      invariant pos <= |source| && n == pos
      invariant stat.Valid()
      invariant stat.counts == Histogram(source[..pos])
      invariant stat.keys == FirstOccurrences(source[..pos])
    {
      CountByte(stat, source, pos);
      n := n + 1;
      pos := pos + 1;
    }
    assert source[..pos] == source;
  }

  /** One iteration of `statistiques`: the byte at `pos` is counted. */
  method CountByte(stat: Counter<byte>, source: seq<byte>, pos: nat)
    requires pos < |source| && stat.Valid()
    requires stat.counts == Histogram(source[..pos]) && stat.keys == FirstOccurrences(source[..pos])
    modifies stat
    ensures stat.Valid()
    ensures stat.counts == Histogram(source[..pos + 1]) && stat.keys == FirstOccurrences(source[..pos + 1])
  {
    StatisticsStep(source, pos);
    ghost var h := stat.counts;
    assert stat.Count(source[pos]) == Get(h, source[pos]);
    stat.Increment(source[pos]);
  }

  /** Counting one more byte of the source: its count goes up by one, and it
      joins the keys when it is new. */
  lemma StatisticsStep(source: seq<byte>, pos: nat)
    requires pos < |source|
    ensures var h := Histogram(source[..pos]);
            Histogram(source[..pos + 1]) == h[source[pos] := Get(h, source[pos]) + 1]
    ensures var f := FirstOccurrences(source[..pos]);
            FirstOccurrences(source[..pos + 1]) ==
            if source[pos] in Histogram(source[..pos]) then f else f + [source[pos]]
  {
    assert source[..pos + 1][..pos] == source[..pos];
    HistogramSpec(source[..pos]);
  }

  /** The counts returned by `statistiques` add up to the returned length. */
  lemma StatisticsTotal(source: seq<byte>)
    ensures SumOver(FirstOccurrences(source), Histogram(source)) == |source|
  {
    HistogramTotal(source, FirstOccurrences(source));
  }

  /** "HUFF", one byte per character. */
  const Magic: seq<byte> := [72, 85, 70, 70]

  /** Counts that `to_bytes(4)` can write. */
  predicate Writable(m: map<byte, int>)
  {
    forall b :: b in m ==> 0 <= m[b] < Pow256(4)
  }

  /** The first `k` slots of `stats_write_big_file`: for each byte value
      below `k`, its count in four bytes. */
  function Slots(m: map<byte, int>, k: nat): (r: seq<byte>)
    requires Writable(m) && k <= 256
    ensures |r| == 4 * k
  {
    if k == 0 then [] else Slots(m, k - 1) + ToBytes(Get(m, k - 1), 4)
  }

  /** The slot of byte value `b` holds its count, 0 for an absent byte. */
  lemma {:induction false} SlotsSpec(m: map<byte, int>, k: nat)
    requires Writable(m) && k <= 256
    ensures forall b: byte :: b < k ==> Slots(m, k)[4 * b..4 * b + 4] == ToBytes(Get(m, b), 4)
  {
    if k > 0 {
      SlotsSpec(m, k - 1);
      var s := Slots(m, k);
      assert s[..4 * (k - 1)] == Slots(m, k - 1);
      forall b: byte | b < k ensures s[4 * b..4 * b + 4] == ToBytes(Get(m, b), 4) {
        if b < k - 1 {
          assert s[4 * b..4 * b + 4] == s[..4 * (k - 1)][4 * b..4 * b + 4];
        }
      }
    }
  }

  /** The header: the identifier, the length, and the 256 counts. */
  function Header(m: map<byte, int>, n: nat): seq<byte>
    requires Writable(m) && n < Pow256(4)
  {
    Magic + ToBytes(n, 4) + Slots(m, 256)
  }

  /** The header is 1032 bytes: "HUFF", the length in four bytes, then the
      count of each byte value in four bytes at offset `8 + 4 * b`. */
  lemma HeaderLayout(m: map<byte, int>, n: nat)
    requires Writable(m) && n < Pow256(4)
    ensures |Header(m, n)| == 1032
    ensures Header(m, n)[..4] == Magic
    ensures Header(m, n)[4..8] == ToBytes(n, 4)
    ensures forall b: byte :: Header(m, n)[8 + 4 * b..12 + 4 * b] == ToBytes(Get(m, b), 4)
  {
    var h := Header(m, n);
    SlotsSpec(m, 256);
    assert h[8..] == Slots(m, 256);
    forall b: byte ensures h[8 + 4 * b..12 + 4 * b] == ToBytes(Get(m, b), 4) {
      assert h[8 + 4 * b..12 + 4 * b] == h[8..][4 * b..4 * b + 4];
    }
  }

  /** `identifiant_write`: one byte per character. */
  method IdentifierWrite(dest: OutputStream, identifier: string)
    requires forall i :: 0 <= i < |identifier| ==> identifier[i] as int < 256
    modifies dest
    ensures |dest.data| == |old(dest.data)| + |identifier|
    ensures dest.data[..|old(dest.data)|] == old(dest.data)
    ensures forall i :: 0 <= i < |identifier| ==> dest.data[|old(dest.data)| + i] == identifier[i] as int
  {
    ghost var start := dest.data;
    for i := 0 to |identifier|
      invariant |dest.data| == |start| + i && dest.data[..|start|] == start
      invariant forall j :: 0 <= j < i ==> dest.data[|start| + j] == identifier[j] as int
    {
      dest.Write([identifier[i] as int]);
    }
  }

  /** `longueur_write`: the length in four bytes. */
  method LengthWrite(dest: OutputStream, n: nat)
    requires n < Pow256(4)
    modifies dest
    ensures dest.data == old(dest.data) + ToBytes(n, 4)
  {
    dest.Write(ToBytes(n, 4));
  }

  /** `stats_write_big_file`: for each byte value from 0 to 255, its count in
      four bytes. */
  method StatsWriteBigFile(dest: OutputStream, stat: Counter<byte>)
    requires Writable(stat.counts)
    modifies dest
    ensures dest.data == old(dest.data) + Slots(stat.counts, 256)
  {
    ghost var start := dest.data;
    for i := 0 to 256
      invariant dest.data == start + Slots(stat.counts, i)
    {
      var occurrences := stat.Count(i);
      assert occurrences == Get(stat.counts, i);
      dest.Write(ToBytes(occurrences, 4));
    }
  }

  /** The bytes written so far, and the exception that stopped the writing,
      if any. */
  datatype Emitted = Emitted(bytes: seq<byte>, error: Option<Error>)

  /** The `for bit in code` loop of `code_write`: each bit goes to `temp`
      while it holds fewer than eight bits, and to `spill` after that. */
  function Distribute(code: seq<Bit>, temp: seq<Bit>, spill: seq<Bit>): (r: (seq<Bit>, seq<Bit>))
    ensures |temp| >= 8 ==> r == (temp, spill + code)
    decreases |code|
  {
    if code == [] then
      assert spill + code == spill;
      (temp, spill)
    else if |temp| < 8 then Distribute(code[1..], temp + [code[0]], spill)
    else
      assert spill + [code[0]] + code[1..] == spill + code;
      Distribute(code[1..], temp, spill + [code[0]])
  }

  /** The bits of `code` fill `temp` up to eight bits and the rest goes to
      `spill`, in order. */
  lemma {:induction false} DistributeSplit(code: seq<Bit>, temp: seq<Bit>, spill: seq<Bit>)
    requires |temp| <= 8
    ensures var k := if |temp| + |code| <= 8 then |code| else 8 - |temp|;
            Distribute(code, temp, spill) == (temp + code[..k], spill + code[k..])
    decreases |code|
  {
    if code != [] && |temp| < 8 {
      DistributeSplit(code[1..], temp + [code[0]], spill);
      var k := if |temp| + |code| <= 8 then |code| else 8 - |temp|;
      assert temp + [code[0]] + code[1..][..k - 1] == temp + code[..k];
      assert code[1..][k - 1..] == code[k..];
    } else {
      var k := if |temp| + |code| <= 8 then |code| else 8 - |temp|;
      assert k == 0;
      assert code[..0] == [] && code[0..] == code;
      assert temp + code[..0] == temp && spill + code[0..] == spill + code;
      if code == [] {
        assert spill + code == spill;
      }
    }
  }

  /** Every byte of the source has an entry in the table. */
  predicate Covers(table: map<byte, Entry>, src: seq<byte>)
  {
    forall i :: 0 <= i < |src| ==> src[i] in table
  }

  /** The inner `while` of `code_write`: while bytes remain and `temp` holds
      fewer than eight bits, looks up the next byte's code (a bare bit cannot
      be iterated) and distributes its bits. */
  function FillPass(src: seq<byte>, table: map<byte, Entry>, pos: nat, temp: seq<Bit>, spill: seq<Bit>)
    : (r: Result<(nat, seq<Bit>, seq<Bit>)>)
    requires pos <= |src| && Covers(table, src)
    ensures r.Ok? ==> pos <= r.value.0 <= |src|
    ensures r.Ok? && r.value.0 == pos ==> r.value.1 == temp && r.value.2 == spill
    ensures r.Ok? && r.value.0 == pos ==> pos == |src| || |temp| >= 8
    ensures r.Err? ==> r.error == NotIterable
    decreases |src| - pos
  {
    if pos == |src| || |temp| >= 8 then Ok((pos, temp, spill))
    else
      match table[src[pos]]
      case BareBit(_) => Err(NotIterable)
      case Code(bits) =>
        var d := Distribute(bits, temp, spill);
        FillPass(src, table, pos + 1, d.0, d.1)
  }

  /** The outer `while` of `code_write` from position `pos` with the carried
      bits `carry`: each pass starts from the carried bits, fills, and writes
      one byte; the bits still carried when the source ends are never
      written. */
  function Passes(src: seq<byte>, table: map<byte, Entry>, pos: nat, carry: seq<Bit>): Emitted
    requires pos <= |src| && Covers(table, src)
    decreases |src| - pos, |carry|
  {
    if pos == |src| then Emitted([], None)
    else
      var f := FillPass(src, table, pos, carry, []);
      if f.Err? then Emitted([], Some(f.error))
      else
        var rest := Passes(src, table, f.value.0, f.value.2);
        Emitted([ByteOf(f.value.1)] + rest.bytes, rest.error)
  }

  /** What `code_write` writes for `src` with `table`. */
  function CodeWriteOutput(src: seq<byte>, table: map<byte, Entry>): Emitted
    requires Covers(table, src)
  {
    Passes(src, table, 0, [])
  }

  /** The bytes `bytes` written before the rest `e`. */
  function Join(bytes: seq<byte>, e: Emitted): Emitted
  {
    Emitted(bytes + e.bytes, e.error)
  }

  /** The `for bit in code` loop of `code_write`. */
  method DistributeCode(code: seq<Bit>, temp: seq<Bit>, spill: seq<Bit>) returns (temp': seq<Bit>, spill': seq<Bit>)
    ensures (temp', spill') == Distribute(code, temp, spill)
  {
    temp', spill' := temp, spill;
    for j := 0 to |code|
      invariant Distribute(code, temp, spill) == Distribute(code[j..], temp', spill')
    {
      assert code[j..][1..] == code[j + 1..];
      if |temp'| < 8 {
        temp' := temp' + [code[j]];
      } else {
        spill' := spill' + [code[j]];
      }
    }
  }

  /** One pass of the outer loop of `code_write` up to the write: starts
      from the carried bits and runs the inner `while`. */
  method FillBuffer(source: seq<byte>, table: map<byte, Entry>, pos: nat, carry: seq<Bit>)
    returns (r: Result<(nat, seq<Bit>, seq<Bit>)>)
    requires pos <= |source| && Covers(table, source)
    ensures r == FillPass(source, table, pos, carry, [])
  {
    var temp := carry;
    var spill: seq<Bit> := [];
    var i := pos;
    while i < |source| && |temp| < 8
      invariant pos <= i <= |source|
      invariant FillPass(source, table, pos, carry, []) == FillPass(source, table, i, temp, spill)
      decreases |source| - i
    {
      var entry := table[source[i]];
      if entry.BareBit? {
        return Err(NotIterable);
      }
      temp, spill := DistributeCode(entry.bits, temp, spill);
      i := i + 1;
    }
    r := Ok((i, temp, spill));
  }

  /** One pass of `code_write`: a failed fill stops the writing, a
      successful one writes the byte of its buffer and carries its spill. */
  lemma PassStep(src: seq<byte>, table: map<byte, Entry>, pos: nat, carry: seq<Bit>)
    requires pos < |src| && Covers(table, src)
    ensures var f := FillPass(src, table, pos, carry, []);
            (f.Err? ==> Passes(src, table, pos, carry) == Emitted([], Some(f.error))) &&
            (f.Ok? ==> (f.value.0, |f.value.2|) != (pos, |carry|) &&
                       Passes(src, table, pos, carry) == Join([ByteOf(f.value.1)], Passes(src, table, f.value.0, f.value.2)))
  {
  }

  /** The loops of `code_write` for a given table: each pass fills a buffer
      and writes its byte; a bare bit in the table stops the writing. */
  method WriteCodes(dest: OutputStream, source: seq<byte>, table: map<byte, Entry>) returns (error: Option<Error>)
    requires Covers(table, source)
    modifies dest
    ensures dest.data == old(dest.data) + CodeWriteOutput(source, table).bytes
    ensures error == CodeWriteOutput(source, table).error
  {
    ghost var whole := CodeWriteOutput(source, table);
    assert whole == Join([], Passes(source, table, 0, []));
    ghost var written;
    error, written := WritePasses(dest, source, table, whole);
    assert written == whole.bytes;
  }

  /** The passes of `code_write`, from the empty carry at the start of the
      source, writing what `whole` says. */
  method WritePasses(dest: OutputStream, source: seq<byte>, table: map<byte, Entry>, ghost whole: Emitted)
    returns (error: Option<Error>, ghost written: seq<byte>)
    requires Covers(table, source)
    requires whole == Join([], Passes(source, table, 0, []))
    modifies dest
    ensures dest.data == old(dest.data) + written
    ensures whole == Emitted(written, error)
  {
    ghost var start := dest.data;
    written := [];
    var pos := 0;
    var carry: seq<Bit> := [];
    while pos < |source|
      invariant pos <= |source|
      invariant dest.data == start + written
      invariant whole == Join(written, Passes(source, table, pos, carry))
      decreases |source| - pos, |carry|
    {
      var e;
      ghost var out;
      pos, carry, e, out := WritePass(dest, source, table, pos, carry, written, whole);
      written := written + out;
      if e.Some? {
        return e, written;
      }
    }
    assert written + [] == written;
    error := None;
  }

  /** One pass of `code_write`: fills the buffer from `carry` and the
      source, then writes its byte; a bare bit stops before the write. What
      is left to write is then the passes from the new position and carry. */
  method WritePass(dest: OutputStream, source: seq<byte>, table: map<byte, Entry>, pos: nat, carry: seq<Bit>,
                   ghost written: seq<byte>, ghost whole: Emitted)
    returns (pos': nat, carry': seq<Bit>, error: Option<Error>, ghost out: seq<byte>)
    requires pos < |source| && Covers(table, source)
    requires whole == Join(written, Passes(source, table, pos, carry))
    modifies dest
    ensures dest.data == old(dest.data) + out
    ensures error.Some? ==> whole == Emitted(written + out, error)
    ensures error.None? ==> pos' <= |source| && (pos < pos' || (pos == pos' && |carry'| < |carry|)) &&
                            whole == Join(written + out, Passes(source, table, pos', carry'))
  {
    var f := FillBuffer(source, table, pos, carry);
    PassStep(source, table, pos, carry);
    if f.Err? {
      assert written + [] == written;
      return pos, carry, Some(f.error), [];
    }
    var octet := ListToByte(f.value.1);
    dest.Write([octet]);
    out := [octet];
    pos', carry', error := f.value.0, f.value.2, None;
    ghost var rest := Passes(source, table, pos', carry');
    assert written + (out + rest.bytes) == written + out + rest.bytes;
  }

  /** Summing with absent keys read as 0 is summing the counts of present keys. */
  lemma {:induction false} SumOverCounts(keys: seq<byte>, m: map<byte, int>)
    requires forall k :: k in keys ==> k in m
    ensures SumOver(keys, m) == SumCounts(keys, m)
  {
    if keys != [] {
      SumOverCounts(keys[..|keys| - 1], m);
    }
  }

  /** The tree built from the statistics of a non-empty source: building
      succeeds, every byte of the source has an entry in the code table, and
      the root count is the length of the source. */
  lemma HistogramTree(src: seq<byte>)
    requires src != []
    ensures BuildTree(Histogram(src)).Ok?
    ensures Covers(CodeTable(BuildTree(Histogram(src)).value), src)
    ensures BuildTree(Histogram(src)).value.count == |src|
  {
    var m := Histogram(src);
    HistogramSpec(src);
    assert src[0] in m;
    assert !HasZeroCount(m);
    BuildTreeSpec(m);
    var t := BuildTree(m).value;
    ElementsOfLeaves(t);
    CodeTableSpec(t);
    forall i | 0 <= i < |src| ensures src[i] in CodeTable(t) {
      var k := src[i];
      assert Leaf(k, m[k]) in LeafBag(t);
    }
    SortedKeysSpec(m);
    var keys := SortedKeys(m);
    LeavesWeight(keys, m);
    SumOverCounts(keys, m);
    assert Distinct(keys);
    HistogramTotal(src, keys);
  }

  /** Counts of a source shorter than `2^32` fit in four bytes. */
  lemma HistogramWritable(src: seq<byte>)
    requires |src| < Pow256(4)
    ensures Writable(Histogram(src))
  {
    HistogramSpec(src);
  }

  /** The tree `arbre_de_huffman` builds for the statistics of a non-empty
      source. */
  function SourceTree(src: seq<byte>): (t: Tree)
    requires src != []
    ensures BuildTree(Histogram(src)) == Ok(t)
  {
    HistogramTree(src);
    BuildTree(Histogram(src)).value
  }

  /** What `code_write` writes after the header: nothing for an empty
      source, otherwise the codes of the source bytes as the passes pack
      them. */
  function Payload(src: seq<byte>): Emitted
  {
    if src == [] then Emitted([], None)
    else
      HistogramTree(src);
      CodeWriteOutput(src, CodeTable(SourceTree(src)))
  }

  /** The header `compresser` writes for a source: "HUFF", its length and
      the counts of its bytes. */
  function SourceHeader(src: seq<byte>): seq<byte>
    requires |src| < Pow256(4)
  {
    HistogramWritable(src);
    Header(Histogram(src), |src|)
  }

  /** Everything `compresser` writes, and the exception it ends with. */
  function Compressed(src: seq<byte>): Emitted
    requires |src| < Pow256(4)
  {
    Join(SourceHeader(src), Payload(src))
  }

  /** `code_write`: builds the tree and the table from the statistics, then
      runs the passes. */
  method CodeWrite(dest: OutputStream, source: seq<byte>, stat: Counter<byte>) returns (error: Option<Error>)
    requires source != [] && stat.Valid() && stat.counts == Histogram(source)
    modifies dest
    ensures dest.data == old(dest.data) + Payload(source).bytes
    ensures error == Payload(source).error
  {
    HistogramTree(source);
    var tree := BuildHuffmanTree(stat);
    var table := CodeTable(tree.value);
    error := WriteCodes(dest, source, table);
  }

  /** The first part of `compresser`: "HUFF", the length and the counts. */
  method WriteHeader(dest: OutputStream, source: seq<byte>, stat: Counter<byte>, n: nat)
    requires |source| < Pow256(4) && n == |source|
    requires stat.Valid() && stat.counts == Histogram(source)
    modifies dest
    ensures dest.data == old(dest.data) + SourceHeader(source)
  {
    HistogramWritable(source);
    ghost var start := dest.data;
    WriteMagic(dest);
    LengthWrite(dest, n);
    StatsWriteBigFile(dest, stat);
    AppendAssoc(start, Magic, ToBytes(n, 4));
    AppendAssoc(start, Magic + ToBytes(n, 4), Slots(stat.counts, 256));
  }

  /** `identifier_write("HUFF")`: the four bytes of `Magic`. */
  method WriteMagic(dest: OutputStream)
    modifies dest
    ensures dest.data == old(dest.data) + Magic
  {
    ghost var start := dest.data;
    IdentifierWrite(dest, "HUFF");
    assert "HUFF"[0] as int == 72 && "HUFF"[1] as int == 85;
    assert "HUFF"[2] as int == 70 && "HUFF"[3] as int == 70;
    assert dest.data[|start|..] == Magic by {
      forall i | 0 <= i < 4 ensures dest.data[|start|..][i] == Magic[i] {
        assert dest.data[|start| + i] == "HUFF"[i] as int;
      }
    }
    assert dest.data == dest.data[..|start|] + dest.data[|start|..];
  }

  /** The last part of `compresser`: `code_write` only when the length is
      not 0. */
  method WritePayload(dest: OutputStream, source: seq<byte>, stat: Counter<byte>, n: nat)
    returns (error: Option<Error>)
    requires n == |source| && stat.Valid() && stat.counts == Histogram(source)
    modifies dest
    ensures dest.data == old(dest.data) + Payload(source).bytes
    ensures error == Payload(source).error
  {
    if n == 0 {
      assert dest.data + [] == dest.data;
      error := None;
    } else {
      error := CodeWrite(dest, source, stat);
    }
  }

  /** `compresser`: the statistics, then "HUFF", the length and the 256
      counts whatever the length, then the codes when the length is not 0. */
  method Compress(dest: OutputStream, source: seq<byte>) returns (error: Option<Error>)
    requires |source| < Pow256(4)
    modifies dest
    ensures dest.data == old(dest.data) + Compressed(source).bytes
    ensures error == Compressed(source).error
  {
    var stat, n := Statistics(source);
    error := WriteContainer(dest, source, stat, n);
  }

  /** The writing part of `compresser`, once the statistics are known. */
  method WriteContainer(dest: OutputStream, source: seq<byte>, stat: Counter<byte>, n: nat)
    returns (error: Option<Error>)
    requires |source| < Pow256(4) && n == |source|
    requires stat.Valid() && stat.counts == Histogram(source)
    modifies dest
    ensures dest.data == old(dest.data) + Compressed(source).bytes
    ensures error == Compressed(source).error
  {
    ghost var start := dest.data;
    WriteHeader(dest, source, stat, n);
    error := WritePayload(dest, source, stat, n);
    AppendAssoc(start, SourceHeader(source), Payload(source).bytes);
  }

  lemma AppendAssoc(a: seq<byte>, b: seq<byte>, c: seq<byte>)
    ensures a + b + c == a + (b + c)
  {
  }

  /** The output starts with the 1032-byte header; an empty source gives
      the header alone. */
  lemma CompressedStartsWithHeader(src: seq<byte>)
    requires |src| < Pow256(4)
    ensures |Compressed(src).bytes| >= 1032 && Compressed(src).bytes[..1032] == SourceHeader(src)
    ensures Compressed(src).bytes[1032..] == Payload(src).bytes
    ensures src == [] ==> Compressed(src) == Emitted(SourceHeader(src), None)
  {
    HistogramWritable(src);
    HeaderLayout(Histogram(src), |src|);
    var h := Header(Histogram(src), |src|);
    assert (h + Payload(src).bytes)[..1032] == h;
    assert (h + Payload(src).bytes)[1032..] == Payload(src).bytes;
  }

  /** A source made of one byte value (at least once) gets a table holding a
      bare bit, which `code_write` cannot iterate: the header is written and
      then the compression raises, writing no code. */
  lemma SingleSymbolCrashes(src: seq<byte>, k: byte)
    requires |src| < Pow256(4) && src != []
    requires forall i :: 0 <= i < |src| ==> src[i] == k
    ensures Compressed(src) == Emitted(SourceHeader(src), Some(NotIterable))
  {
    var m := Histogram(src);
    HistogramSpec(src);
    assert src[0] in m;
    assert m.Keys == {k};
    OneKey(m, k);
    HistogramTree(src);
    var table := CodeTable(Leaf(k, m[k]));
    assert FillPass(src, table, 0, [], []) == Err(NotIterable);
  }

  /** The statistics of "AB". */
  lemma TwoSymbolHistogram(src: seq<byte>, x: byte, y: byte)
    requires src == [x, y] && x != y
    ensures Histogram(src) == map[x := 1, y := 1]
  {
    assert src[..1] == [x] && src[..1][..0] == [];
    assert Histogram(src[..1]) == map[x := 1];
    assert Get(map[x := 1], y) == 0;
  }

  /** Two bytes with the one-bit codes 0 and 1 make one pass, which writes
      0100 0000, its low six bits padding. */
  lemma TwoSymbolPasses(src: seq<byte>, x: byte, y: byte, table: map<byte, Entry>)
    requires src == [x, y] && x != y && table == map[x := Code([Bit0]), y := Code([Bit1])]
    ensures Covers(table, src)
    ensures CodeWriteOutput(src, table) == Emitted([0x40], None)
  {
    var none: seq<Bit> := [];
    var zero, one := [Bit0], [Bit1];
    DistributeSplit(zero, none, none);
    assert zero[..1] == zero && zero[1..] == none && none + zero == zero;
    assert Distribute(zero, none, none) == (zero, none);
    DistributeSplit(one, zero, none);
    assert one[..1] == one && one[1..] == none && zero + one == [Bit0, Bit1];
    assert Distribute(one, zero, none) == ([Bit0, Bit1], none);
    assert FillPass(src, table, 1, [Bit0], []) == Ok((2, [Bit0, Bit1], []));
    assert FillPass(src, table, 0, [], []) == Ok((2, [Bit0, Bit1], []));
    ByteOfTwoBits();
    assert Passes(src, table, 2, []) == Emitted([], None);
    assert Passes(src, table, 0, []) == Emitted([0x40], None);
  }

  /** "AB": 65 and 66 get the codes 0 and 1, and the single written byte is
      0x40. */
  lemma TwoSymbolPayload()
    ensures Payload([65, 66]) == Emitted([0x40], None)
  {
    var src: seq<byte> := [65, 66];
    TwoSymbolTree(src);
    TwoLeafCodes();
    TwoSymbolPasses(src, 65, 66, map[65 := Code([Bit0]), 66 := Code([Bit1])]);
  }

  /** One step of the inner `while` of `code_write`. */
  lemma FillPassStep(src: seq<byte>, table: map<byte, Entry>, pos: nat, temp: seq<Bit>, code: seq<Bit>)
    requires pos < |src| && Covers(table, src) && |temp| < 8 && table[src[pos]] == Code(code)
    ensures FillPass(src, table, pos, temp, []) ==
            FillPass(src, table, pos + 1, Distribute(code, temp, []).0, Distribute(code, temp, []).1)
  {
  }

  /** The statistics of "CAAAAAB". */
  lemma SevenSymbolHistogram(src: seq<byte>, x: byte, y: byte, z: byte)
    requires src == [z, x, x, x, x, x, y] && x != y && y != z && x != z
    ensures Histogram(src) == map[x := 5, y := 1, z := 1]
  {
    HistogramSpec(src);
    assert multiset(src)[x] == 5 && multiset(src)[y] == 1 && multiset(src)[z] == 1;
  }

  /** Bytes whose code is the single bit 0 add 0 bits to `temp` while it
      stays within eight bits. */
  lemma {:induction false} ZeroRun(src: seq<byte>, table: map<byte, Entry>, pos: nat, k: nat, temp: seq<Bit>)
    requires pos + k <= |src| && Covers(table, src) && |temp| + k <= 8
    requires forall i :: pos <= i < pos + k ==> table[src[i]] == Code([Bit0])
    ensures FillPass(src, table, pos, temp, []) == FillPass(src, table, pos + k, temp + seq(k, _ => Bit0), [])
    decreases k
  {
    if k == 0 {
      assert temp + seq(k, _ => Bit0) == temp;
    } else {
      FillPassStep(src, table, pos, temp, [Bit0]);
      DistributeSplit([Bit0], temp, []);
      assert [Bit0][..1] == [Bit0] && [Bit0][1..] == [];
      ZeroRun(src, table, pos + 1, k - 1, temp + [Bit0]);
      assert temp + [Bit0] + seq(k - 1, _ => Bit0) == temp + seq(k, _ => Bit0);
    }
  }

  /** "CAAAAAB" with A coded 0, B coded 10 and C coded 11: the nine bits
      11 00000 10 fill one buffer of eight, and the ninth is carried into
      `temp_bit2` with the source exhausted. */
  lemma SevenSymbolFill(src: seq<byte>, x: byte, y: byte, z: byte, table: map<byte, Entry>)
    requires src == [z, x, x, x, x, x, y] && x != y && y != z && x != z
    requires table == map[x := Code([Bit0]), y := Code([Bit1, Bit0]), z := Code([Bit1, Bit1])]
    ensures Covers(table, src)
    ensures FillPass(src, table, 0, [], []) == Ok((7, [Bit1, Bit1, Bit0, Bit0, Bit0, Bit0, Bit0, Bit1], [Bit0]))
  {
    SevenSymbolPrefix(src, x, y, z, table);
    SevenSymbolLast(src, x, y, z, table, [Bit1, Bit1] + seq(5, _ => Bit0));
  }

  /** B, coded 10, completes the buffer of seven bits with its 1 and leaves
      its 0 in `temp_bit2`; the source is then exhausted. */
  lemma SevenSymbolLast(src: seq<byte>, x: byte, y: byte, z: byte, table: map<byte, Entry>, t6: seq<Bit>)
    requires src == [z, x, x, x, x, x, y] && x != y && y != z && x != z
    requires table == map[x := Code([Bit0]), y := Code([Bit1, Bit0]), z := Code([Bit1, Bit1])]
    requires t6 == [Bit1, Bit1] + seq(5, _ => Bit0)
    ensures Covers(table, src)
    ensures FillPass(src, table, 6, t6, []) == Ok((7, [Bit1, Bit1, Bit0, Bit0, Bit0, Bit0, Bit0, Bit1], [Bit0]))
  {
    var none: seq<Bit> := [];
    var b := [Bit1, Bit0];
    FillPassStep(src, table, 6, t6, b);
    DistributeSplit(b, t6, none);
    assert b[..1] == [Bit1] && b[1..] == [Bit0] && none + [Bit0] == [Bit0];
    assert Distribute(b, t6, none) == (t6 + [Bit1], [Bit0]);
    assert t6 + [Bit1] == [Bit1, Bit1, Bit0, Bit0, Bit0, Bit0, Bit0, Bit1];
    assert FillPass(src, table, 7, t6 + [Bit1], [Bit0]) == Ok((7, t6 + [Bit1], [Bit0]));
  }

  /** The first six bytes of "CAAAAAB" fill seven bits of the buffer. */
  lemma SevenSymbolPrefix(src: seq<byte>, x: byte, y: byte, z: byte, table: map<byte, Entry>)
    requires src == [z, x, x, x, x, x, y] && x != y && y != z && x != z
    requires table == map[x := Code([Bit0]), y := Code([Bit1, Bit0]), z := Code([Bit1, Bit1])]
    ensures Covers(table, src)
    ensures FillPass(src, table, 0, [], []) == FillPass(src, table, 6, [Bit1, Bit1] + seq(5, _ => Bit0), [])
  {
    SevenSymbolFirst(src, x, y, z, table);
    SevenSymbolZeros(src, x, y, z, table);
  }

  /** C, coded 11, goes first into the empty buffer. */
  lemma SevenSymbolFirst(src: seq<byte>, x: byte, y: byte, z: byte, table: map<byte, Entry>)
    requires src == [z, x, x, x, x, x, y] && x != y && y != z && x != z
    requires table == map[x := Code([Bit0]), y := Code([Bit1, Bit0]), z := Code([Bit1, Bit1])]
    ensures Covers(table, src)
    ensures FillPass(src, table, 0, [], []) == FillPass(src, table, 1, [Bit1, Bit1], [])
  {
    var none: seq<Bit> := [];
    var c := [Bit1, Bit1];
    FillPassStep(src, table, 0, none, c);
    DistributeSplit(c, none, none);
    assert c[..2] == c && c[2..] == none && none + c == c;
    assert Distribute(c, none, none) == (c, none);
  }

  /** The five A's, coded 0, add five bits 0. */
  lemma SevenSymbolZeros(src: seq<byte>, x: byte, y: byte, z: byte, table: map<byte, Entry>)
    requires src == [z, x, x, x, x, x, y] && x != y && y != z && x != z
    requires table == map[x := Code([Bit0]), y := Code([Bit1, Bit0]), z := Code([Bit1, Bit1])]
    ensures Covers(table, src)
    ensures FillPass(src, table, 1, [Bit1, Bit1], []) == FillPass(src, table, 6, [Bit1, Bit1] + seq(5, _ => Bit0), [])
  {
    assert table[x] == Code([Bit0]);
    assert forall i :: 1 <= i < 6 ==> src[i] == x;
    ZeroRun(src, table, 1, 5, [Bit1, Bit1]);
  }

  /** The pass of `SevenSymbolFill` is the only one: its buffer is written as
      0xC1 and its carried bit never is. */
  lemma SevenSymbolPasses(src: seq<byte>, x: byte, y: byte, z: byte, table: map<byte, Entry>)
    requires src == [z, x, x, x, x, x, y] && x != y && y != z && x != z
    requires table == map[x := Code([Bit0]), y := Code([Bit1, Bit0]), z := Code([Bit1, Bit1])]
    ensures Covers(table, src)
    ensures CodeWriteOutput(src, table) == Emitted([0xC1], None)
  {
    SevenSymbolFill(src, x, y, z, table);
    ByteOfC1();
    assert Passes(src, table, 7, [Bit0]) == Emitted([], None);
  }

  /** "AB": A on the left, B on the right. */
  lemma TwoSymbolTree(src: seq<byte>)
    requires src == [65, 66]
    ensures SourceTree(src) == Node(2, Leaf(65, 1), Leaf(66, 1))
  {
    var m := Histogram(src);
    TwoSymbolHistogram(src, 65, 66);
    assert m.Keys == {65, 66} && m[65] == 1 && m[66] == 1;
    TwoEqualCounts(m, 65, 66);
  }

  /** The tree built for "CAAAAAB": A on the left, B and C on the right. */
  lemma SevenSymbolTree(src: seq<byte>)
    requires src == [67, 65, 65, 65, 65, 65, 66]
    ensures SourceTree(src) == Node(7, Leaf(65, 5), Node(2, Leaf(66, 1), Leaf(67, 1)))
  {
    var m := Histogram(src);
    SevenSymbolHistogram(src, 65, 66, 67);
    assert m.Keys == {65, 66, 67} && m[65] == 5 && m[66] == 1 && m[67] == 1;
    ThreeKeysTree(m, 65, 66, 67);
  }

  lemma SevenSymbolPayload()
    ensures Payload([67, 65, 65, 65, 65, 65, 66]) == Emitted([0xC1], None)
  {
    var src: seq<byte> := [67, 65, 65, 65, 65, 65, 66];
    var m: map<byte, int> := map[65 := 5, 66 := 1, 67 := 1];
    SevenSymbolTree(src);
    ThreeLeafCodes();
    SevenSymbolPasses(src, 65, 66, 67, map[65 := Code([Bit0]), 66 := Code([Bit1, Bit0]), 67 := Code([Bit1, Bit1])]);
  }

  /** `n` bits 1. */
  function Ones(n: nat): (r: seq<Bit>)
    ensures |r| == n && forall i :: 0 <= i < n ==> r[i] == Bit1
  {
    seq(n, _ => Bit1)
  }

  /** Eight or more bits 1 make the byte 0xFF: bits past the eighth are not
      looked at. */
  lemma ByteOfOnes(n: nat)
    requires n >= 8
    ensures ByteOf(Ones(n)) == 0xFF
  {
    assert Ones(n)[..8] == BitsOf(0xFF, 8);
    ByteOfBitsOf(0xFF);
    assert BitsOf(0xFF, 8)[..8] == BitsOf(0xFF, 8);
  }

  /** A byte coded on 17 bits 1, then a byte coded on one bit 0 (a prefix-free
      table): the first pass writes eight bits and carries nine; the next pass
      starts with nine bits, so it reads no byte and `list_to_byte` keeps only
      eight of them. The eighteen code bits come out as 0xFF 0xFF 0x00, with
      sixteen bits 1 where the code has seventeen: one bit 1 is lost. */
  lemma LongCarryTruncated(src: seq<byte>, table: map<byte, Entry>)
    requires src == [65, 66]
    requires table == map[65 := Code(Ones(17)), 66 := Code([Bit0])]
    ensures Covers(table, src)
    ensures CodeWriteOutput(src, table) == Emitted([0xFF, 0xFF, 0x00], None)
  {
    var none: seq<Bit> := [];
    LongCarryFirstPass(src, table);
    LongCarrySecondPass(src, table);
    ByteOfOnes(8);
    ByteOfOnes(9);
    ByteOfZero();
    assert Passes(src, table, 2, none) == Emitted([], None);
    assert Passes(src, table, 1, none) == Emitted([0x00], None);
    assert Passes(src, table, 1, Ones(9)) == Emitted([0xFF, 0x00], None);
  }

  /** The first pass over the 17-bit code: eight bits go to the byte, nine
      are carried. */
  lemma LongCarryFirstPass(src: seq<byte>, table: map<byte, Entry>)
    requires src == [65, 66]
    requires table == map[65 := Code(Ones(17)), 66 := Code([Bit0])]
    ensures Covers(table, src)
    ensures FillPass(src, table, 0, [], []) == Ok((1, Ones(8), Ones(9)))
  {
    var none: seq<Bit> := [];
    var code := Ones(17);
    FillPassStep(src, table, 0, none, code);
    DistributeSplit(code, none, none);
    assert none + code[..8] == Ones(8) && none + code[8..] == Ones(9);
  }

  /** The next passes: nine carried bits fill the byte without reading the
      one-bit code; an empty carry takes the one-bit code. */
  lemma LongCarrySecondPass(src: seq<byte>, table: map<byte, Entry>)
    requires src == [65, 66]
    requires table == map[65 := Code(Ones(17)), 66 := Code([Bit0])]
    ensures Covers(table, src)
    ensures FillPass(src, table, 1, Ones(9), []) == Ok((1, Ones(9), []))
    ensures FillPass(src, table, 1, [], []) == Ok((2, [Bit0], []))
  {
    var none: seq<Bit> := [];
    FillPassStep(src, table, 1, none, [Bit0]);
    DistributeSplit([Bit0], none, none);
    assert [Bit0][..1] == [Bit0] && [Bit0][1..] == none && none + [Bit0] == [Bit0];
  }

  /** A single bit 0 makes the byte 0x00. */
  lemma ByteOfZero()
    ensures ByteOf([Bit0]) == 0x00
  {
    assert [Bit0][..1] == [Bit0];
    assert Value([Bit0]) == 0;
  }
}
