/** Bits and binary codes (`Bit`, `CodeBinaire`). A code is a list of bits
    that is changed in place and never becomes empty. */
module BinaryCodes {
  import opened Common

  /** The enumeration `Bit`, with values 0 and 1. */
  datatype Bit = Bit0 | Bit1 {

    /** `value` of the enumeration member. */
    function Value(): (v: nat)
      ensures v < 2
      ensures v == 0 <==> this == Bit0
    {
      if this == Bit0 then 0 else 1
    }

    /** `__len__`: a single bit counts as a sequence of length one, so the
        emptiness test of `__setitem__` never fires for a bit and `del` of one
        position of a code measures one removed bit. */
    function Length(): (n: nat)
      ensures n == 1
    {
      1
    }

    /** `__str__`: the digit of the bit. */
    function Digit(): (c: char)
      ensures c == '0' || c == '1'
      ensures c == '0' <==> this == Bit0
    {
      if this == Bit0 then '0' else '1'
    }
  }

  /** `__str__` of a code: one digit per bit, in order. */
  function BitsToString(s: seq<Bit>): (r: string)
    ensures |r| == |s|
    ensures forall i :: 0 <= i < |s| ==> r[i] == s[i].Digit()
  {
    if s == [] then "" else BitsToString(s[..|s| - 1]) + [s[|s| - 1].Digit()]
  }

  /** The position a Python list index `i` designates in a list of length
      `n`: negative indices count from the end; anything else is out of range. */
  function ListIndex(n: nat, i: int): (r: Option<nat>)
    ensures r.Some? <==> 0 <= i + n && i < n
    ensures r.Some? ==> r.value < n && (r.value == i || r.value == i + n)
  {
    if 0 <= i < n then Some(i) else if 0 <= i + n && i < 0 then Some(i + n) else None
  }

  /** One bound of a Python slice (step 1) over a list of length `n`:
      negative bounds count from the end, and the result is clamped to 0..n. */
  function SliceBound(n: nat, b: int): (r: nat)
    ensures r <= n
    ensures 0 <= b <= n ==> r == b
    ensures 0 <= b + n && b < 0 ==> r == b + n
    ensures b + n < 0 ==> r == 0
    ensures b > n ==> r == n
  {
    if b < 0 then (if b + n < 0 then 0 else b + n) else if b > n then n else b
  }

  /** The range `[lo, hi)` a Python slice `[start:stop]` covers in a list of
      length `n`; an omitted bound is the start or the end, and a stop before
      the start covers nothing (the range collapses at `lo`). */
  function SliceRange(n: nat, start: Option<int>, stop: Option<int>): (r: (nat, nat))
    ensures r.0 <= r.1 <= n
  {
    var lo := if start.Some? then SliceBound(n, start.value) else 0;
    var hi := if stop.Some? then SliceBound(n, stop.value) else n;
    (lo, if hi < lo then lo else hi)
  }

  /** `CodeBinaire`: a list of bits that always holds at least one bit. */
  class BitCode {
    var bits: seq<Bit>

    ghost predicate Valid()
      reads this
    {
      |bits| >= 1
    }

    /** `CodeBinaire(bit, *bits)`: a first bit is mandatory. */
    constructor (first: Bit, rest: seq<Bit>)
      ensures Valid() && bits == [first] + rest
    {
      bits := [first] + rest;
    }

    /** `ajouter`: appends one bit at the end. */
    method Append(b: Bit)
      requires Valid()
      modifies this
      ensures Valid() && bits == old(bits) + [b]
    {
      bits := bits + [b];
    }

    /** `__len__`: the number of bits. */
    function Length(): (n: nat)
      reads this
      requires Valid()
      ensures n >= 1 && n == |bits|
    {
      |bits|
    }

    /** `__getitem__` with an integer key: the bit at that Python index. */
    function Get(i: int): (r: Result<Bit>)
      reads this
      ensures r.Ok? <==> 0 <= i + |bits| < 2 * |bits|
      ensures 0 <= i < |bits| ==> r == Ok(bits[i])
      ensures 0 <= i + |bits| && i < 0 ==> r == Ok(bits[|bits| + i])
      ensures r.Err? ==> r.error == IndexOutOfRange
    {
      var k := ListIndex(|bits|, i);
      if k.Some? then Ok(bits[k.value]) else Err(IndexOutOfRange)
    }

    /** `__getitem__` with a slice key: a new code holding exactly the bits
        of the slice; an empty slice calls the constructor without its first
        bit, which raises. */
    method GetSlice(start: Option<int>, stop: Option<int>) returns (r: Result<BitCode>)
      ensures var (lo, hi) := SliceRange(|bits|, start, stop);
              (r.Ok? <==> lo < hi) &&
              (r.Ok? ==> fresh(r.value) && r.value.Valid() && r.value.bits == bits[lo..hi]) &&
              (r.Err? ==> r.error == MissingBit)
    {
      var (lo, hi) := SliceRange(|bits|, start, stop);
      if lo < hi {
        var c := new BitCode(bits[lo], bits[lo + 1..hi]);
        r := Ok(c);
      } else {
        r := Err(MissingBit);
      }
    }

    /** `__setitem__` with an integer key: replaces the bit at that index. */
    method SetAt(i: int, b: Bit) returns (r: Result<Unit>)
      requires Valid()
      modifies this
      ensures Valid()
      ensures 0 <= i + |old(bits)| < 2 * |old(bits)| ==>
                r.Ok? && bits == old(bits)[ListIndex(|old(bits)|, i).value := b]
      ensures !(0 <= i + |old(bits)| < 2 * |old(bits)|) ==>
                r == Err(IndexOutOfRange) && bits == old(bits)
    {
      var k := ListIndex(|bits|, i);
      if k.Some? {
        bits := bits[k.value := b];
        r := Ok(Unit);
      } else {
        r := Err(IndexOutOfRange);
      }
    }

    /** `__setitem__` with a slice key: the slice is replaced by the given
        bits (those of a code or a list of bits); an empty value raises. */
    method SetSlice(start: Option<int>, stop: Option<int>, value: seq<Bit>) returns (r: Result<Unit>)
      requires Valid()
      modifies this
      ensures Valid()
      ensures value == [] ==> r == Err(AtLeastOneBit) && bits == old(bits)
      ensures value != [] ==> var (lo, hi) := SliceRange(|old(bits)|, start, stop);
                r.Ok? && bits == old(bits)[..lo] + value + old(bits)[hi..]
    {
      if |value| == 0 {
        r := Err(AtLeastOneBit);
      } else {
        var (lo, hi) := SliceRange(|bits|, start, stop);
        bits := bits[..lo] + value + bits[hi..];
        r := Ok(Unit);
      }
    }

    /** `__delitem__` with an integer key: removes that bit, unless it is the
        last one left. */
    method DeleteAt(i: int) returns (r: Result<Unit>)
      requires Valid()
      modifies this
      ensures Valid()
      ensures !(0 <= i + |old(bits)| < 2 * |old(bits)|) ==> r == Err(IndexOutOfRange) && bits == old(bits)
      ensures 0 <= i + |old(bits)| < 2 * |old(bits)| && |old(bits)| == 1 ==>
                r == Err(AtLeastOneBit) && bits == old(bits)
      ensures 0 <= i + |old(bits)| < 2 * |old(bits)| && |old(bits)| > 1 ==>
                var k := ListIndex(|old(bits)|, i).value;
                r.Ok? && bits == old(bits)[..k] + old(bits)[k + 1..]
    {
      var k := ListIndex(|bits|, i);
      if k.None? {
        r := Err(IndexOutOfRange);
      } else if |bits| - bits[k.value].Length() < 1 {
        r := Err(AtLeastOneBit);
      } else {
        bits := bits[..k.value] + bits[k.value + 1..];
        r := Ok(Unit);
      }
    }

    /** `__delitem__` with a slice key: removes the slice, unless that would
        leave no bit. */
    method DeleteSlice(start: Option<int>, stop: Option<int>) returns (r: Result<Unit>)
      requires Valid()
      modifies this
      ensures Valid()
      ensures var (lo, hi) := SliceRange(|old(bits)|, start, stop);
              (|old(bits)| - (hi - lo) < 1 ==> r == Err(AtLeastOneBit) && bits == old(bits)) &&
              (|old(bits)| - (hi - lo) >= 1 ==> r.Ok? && bits == old(bits)[..lo] + old(bits)[hi..])
    {
      var (lo, hi) := SliceRange(|bits|, start, stop);
      if |bits| - (hi - lo) < 1 {
        r := Err(AtLeastOneBit);
      } else {
        bits := bits[..lo] + bits[hi..];
        r := Ok(Unit);
      }
    }

    /** `__eq__`: two codes are equal exactly when their bit lists are. */
    function Equals(other: BitCode): (r: bool)
      reads this, other
      ensures r <==> (|bits| == |other.bits| && forall i :: 0 <= i < |bits| ==> bits[i] == other.bits[i])
    {
      bits == other.bits
    }

    /** `__add__`: a new code with this code's bits followed by the other's. */
    method Concat(other: BitCode) returns (r: BitCode)
      requires Valid() && other.Valid()
      ensures fresh(r) && r.Valid()
      ensures r.bits == bits + other.bits
      ensures |r.bits| == |bits| + |other.bits|
    {
      r := new BitCode(bits[0], bits[1..] + other.bits);
    }

    /** `__str__(cdc)`: the string `cdc` (empty by default) followed by the
        digits of the bits, in order. */
    function ToString(cdc: string): (s: string)
      reads this
      ensures |s| == |cdc| + |bits|
      ensures s[..|cdc|] == cdc
      ensures forall i :: 0 <= i < |bits| ==> s[|cdc| + i] == bits[i].Digit()
    {
      cdc + BitsToString(bits)
    }
  }
}
