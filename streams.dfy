/** Byte streams: the destination is written by appending, the source is a
    byte sequence read from a position, and integers are stored in a fixed
    number of bytes, least significant byte first. */
module Streams {
  import opened Common

  /** A destination stream: everything written so far, in order. */
  class OutputStream {
    var data: seq<byte>

    constructor ()
      ensures data == []
    {
      data := [];
    }

    /** `write`: appends the bytes at the end of the stream. */
    method Write(bytes: seq<byte>)
      modifies this
      ensures data == old(data) + bytes
    {
      data := data + bytes;
    }
  }

  /** `256^w`, the first number that does not fit in `w` bytes. */
  function Pow256(w: nat): (r: nat)
    ensures r >= 1
  {
    if w == 0 then 1 else 256 * Pow256(w - 1)
  }

  /** `n.to_bytes(w, "little")`. */
  function ToBytes(n: nat, w: nat): (r: seq<byte>)
    requires n < Pow256(w)
    ensures |r| == w
  {
    if w == 0 then [] else [n % 256] + ToBytes(n / 256, w - 1)
  }

  /** `int.from_bytes(bs, "little")`; the empty sequence reads as 0. */
  function FromBytes(bs: seq<byte>): (n: nat)
    ensures n < Pow256(|bs|)
  {
    if bs == [] then 0 else bs[0] + 256 * FromBytes(bs[1..])
  }

  /** Reading back the bytes of a number gives the number. */
  lemma {:induction false} FromToBytes(n: nat, w: nat)
    requires n < Pow256(w)
    ensures FromBytes(ToBytes(n, w)) == n
  {
    if w > 0 {
      FromToBytes(n / 256, w - 1);
      assert ToBytes(n, w)[1..] == ToBytes(n / 256, w - 1);
    }
  }

  /** `read(k)` at position `pos`: at most `k` bytes, fewer at the end of
      the stream (none once it is exhausted), and the new position. */
  function Read(src: seq<byte>, pos: nat, k: nat): (r: (seq<byte>, nat))
    requires pos <= |src|
    ensures r.1 <= |src| && r.1 - pos == |r.0| <= k
    ensures pos + k <= |src| ==> r.0 == src[pos..pos + k]
    ensures pos + k > |src| ==> r.0 == src[pos..]
  {
    var end := if pos + k <= |src| then pos + k else |src|;
    (src[pos..end], end)
  }

  /** A source stream: its bytes and the position of the next read. */
  class InputStream {
    var data: seq<byte>
    var pos: nat

    ghost predicate Valid()
      reads this
    {
      pos <= |data|
    }

    constructor (bytes: seq<byte>)
      ensures Valid() && data == bytes && pos == 0
    {
      data := bytes;
      pos := 0;
    }

    /** `seek(0)`. */
    method Rewind()
      modifies this
      ensures Valid() && data == old(data) && pos == 0
    {
      pos := 0;
    }

    /** `read(k)`: the bytes of `Read` from the current position, which
        moves past them. */
    method ReadBytes(k: nat) returns (bytes: seq<byte>)
      requires Valid()
      modifies this
      ensures Valid() && data == old(data)
      ensures (bytes, pos) == Read(data, old(pos), k)
    {
      var end := if pos + k <= |data| then pos + k else |data|;
      bytes := data[pos..end];
      pos := end;
    }
  }
}
