/** Packing bits into bytes and back (`list_to_byte`, `naturel_to_list`):
    the first bit of a byte is its most significant one. */
module BitPacking {
  import opened Common
  import opened BinaryCodes

  /** The number written by `bits`, most significant bit first. */
  function Value(bits: seq<Bit>): (v: nat)
    ensures v < Pow2(|bits|)
  {
    if bits == [] then 0 else 2 * Value(bits[..|bits| - 1]) + bits[|bits| - 1].Value()
  }

  /** The number written by `bits`, least significant bit first. */
  function ValueLsbFirst(bits: seq<Bit>): nat
  {
    if bits == [] then 0 else bits[0].Value() + 2 * ValueLsbFirst(bits[1..])
  }

  /** The `w` low bits of `n`, most significant first. */
  function BitsOf(n: nat, w: nat): (r: seq<Bit>)
    ensures |r| == w
  {
    if w == 0 then [] else BitsOf(n / 2, w - 1) + [if n % 2 == 0 then Bit0 else Bit1]
  }

  /** `bits` reversed. */
  function Reverse(bits: seq<Bit>): (r: seq<Bit>)
    ensures |r| == |bits|
    ensures forall i :: 0 <= i < |bits| ==> r[i] == bits[|bits| - 1 - i]
  {
    if bits == [] then [] else Reverse(bits[1..]) + [bits[0]]
  }

  /** The byte `list_to_byte` produces: the first eight bits, with missing
      low bits taken as 0; bits after the eighth do not count. */
  function ByteOf(bits: seq<Bit>): (b: byte)
  {
    var n := if |bits| < 8 then |bits| else 8;
    ValueTimesPow2(bits[..n], 8 - n);
    Value(bits[..n]) * Pow2(8 - n)
  }

  /** A value of at most `8 - k` bits shifted left by `k` still fits a byte. */
  lemma ValueTimesPow2(bits: seq<Bit>, k: nat)
    requires |bits| + k == 8
    ensures Value(bits) * Pow2(k) < 256
  {
    Pow2Add(|bits|, k);
    MulLess(Value(bits), Pow2(|bits|), Pow2(k));
  }

  lemma {:induction false} Pow2Add(a: nat, b: nat)
    ensures Pow2(a + b) == Pow2(a) * Pow2(b)
  {
    if a > 0 {
      Pow2Add(a - 1, b);
      assert Pow2(a + b) == 2 * Pow2(a - 1 + b);
    }
  }

  lemma MulAtLeast(a: int, p: nat)
    requires a >= 1
    ensures a * p >= p
  {
  }

  lemma MulLess(v: nat, bound: int, p: int)
    requires v < bound && p >= 1
    ensures v * p < bound * p
  {
    MulAtLeast(bound - v, p);
    assert (bound - v) * p == bound * p - v * p;
  }

  lemma Distribute(v: int, b: int, p: int)
    ensures (2 * v + b) * p == v * (2 * p) + b * p
  {
  }

  /** The `w`-bit writing of a number below `2^w` has that number as value. */
  lemma {:induction false} BitsOfValue(n: nat, w: nat)
    requires n < Pow2(w)
    ensures Value(BitsOf(n, w)) == n
  {
    if w > 0 {
      var r := BitsOf(n, w);
      assert r[..w - 1] == BitsOf(n / 2, w - 1);
      BitsOfValue(n / 2, w - 1);
    }
  }

  /** A sequence of `w` bits is the `w`-bit writing of its own value. */
  lemma {:induction false} BitsOfValueOf(bits: seq<Bit>)
    ensures BitsOf(Value(bits), |bits|) == bits
  {
    if bits != [] {
      var init := bits[..|bits| - 1];
      BitsOfValueOf(init);
      var v := Value(bits);
      assert v / 2 == Value(init) && v % 2 == bits[|bits| - 1].Value();
      assert bits == init + [bits[|bits| - 1]];
    }
  }

  /** Reading a least-significant-first list backwards gives its value. */
  lemma {:induction false} ReverseValue(bits: seq<Bit>)
    ensures Value(Reverse(bits)) == ValueLsbFirst(bits)
  {
    if bits != [] {
      var r := Reverse(bits);
      assert r[..|r| - 1] == Reverse(bits[1..]);
      ReverseValue(bits[1..]);
    }
  }

  /** Extra zeros at the most significant end change nothing. */
  lemma {:induction false} LsbZeros(bits: seq<Bit>, k: nat)
    ensures ValueLsbFirst(bits + seq(k, _ => Bit0)) == ValueLsbFirst(bits)
    decreases |bits|, k
  {
    if bits == [] {
      if k > 0 {
        var z := seq(k, _ => Bit0);
        assert bits + z == z && z[0] == Bit0;
        assert z[1..] == [] + seq(k - 1, _ => Bit0);
        LsbZeros([], k - 1);
      }
    } else {
      assert (bits + seq(k, _ => Bit0))[1..] == bits[1..] + seq(k, _ => Bit0);
      LsbZeros(bits[1..], k);
    }
  }

  lemma {:induction false} LsbAppend(bits: seq<Bit>, b: Bit)
    ensures ValueLsbFirst(bits + [b]) == ValueLsbFirst(bits) + b.Value() * Pow2(|bits|)
    decreases |bits|
  {
    if bits == [] {
      assert bits + [b] == [b] && [b][1..] == [];
    } else {
      var rest := bits[1..];
      assert (bits + [b])[1..] == rest + [b];
      LsbAppend(rest, b);
      var p := Pow2(|rest|);
      assert Pow2(|bits|) == 2 * p;
      assert 2 * (b.Value() * p) == b.Value() * (2 * p);
    }
  }

  /** `temp + bit * 2**i` as Python computes it: an integer term while the
      exponent is not negative, a fraction once it is. */
  function AddTerm(temp: real, bit: nat, i: int): real
  {
    if i >= 0 then temp + (bit * Pow2(i)) as real else temp + bit as real / Pow2(-i) as real
  }

  /** `list_to_byte`: adds `bit * 2**i` for `i` from 7 down, one per bit; a
      ninth and later bit adds a fraction, which `int()` truncates away. */
  method ListToByte(bits: seq<Bit>) returns (r: byte)
    ensures r == ByteOf(bits)
  {
    var i := 7;
    var temp: real := 0.0;
    for j := 0 to |bits|
      invariant i == 7 - j
      invariant Accumulated(bits, j, temp)
    {
      var bit := bits[j];
      AccumulateStep(bits, j, temp);
      temp := AddTerm(temp, bit.Value(), i);
      i := i - 1;
    }
    AccumulatedFloor(bits, temp);
    r := temp.Floor;
  }

  /** What `temp` holds after `j` bits: the first bits' value shifted into
      place while `j <= 8`, then that value plus a fraction below 1 (and
      below `1 - 2^-(j-8)`). */
  ghost predicate Accumulated(bits: seq<Bit>, j: nat, temp: real)
    requires j <= |bits|
  {
    (j <= 8 ==> temp == (Value(bits[..j]) * Pow2(8 - j)) as real) &&
    (j >= 8 ==> Value(bits[..8]) as real <= temp &&
                temp + 1.0 / Pow2(j - 8) as real <= Value(bits[..8]) as real + 1.0)
  }

  lemma AccumulateStep(bits: seq<Bit>, j: nat, temp: real)
    requires j < |bits| && Accumulated(bits, j, temp)
    ensures Accumulated(bits, j + 1, AddTerm(temp, bits[j].Value(), 7 - j))
  {
    if j < 8 {
      AccumulateHigh(bits, j, temp);
    } else {
      AccumulateLow(bits, j, temp);
    }
  }

  lemma AccumulateHigh(bits: seq<Bit>, j: nat, temp: real)
    requires j < |bits| && j < 8
    requires temp == (Value(bits[..j]) * Pow2(8 - j)) as real
    ensures AddTerm(temp, bits[j].Value(), 7 - j) == (Value(bits[..j + 1]) * Pow2(8 - (j + 1))) as real
  {
    PackStep(bits, j);
  }

  lemma AccumulateLow(bits: seq<Bit>, j: nat, temp: real)
    requires 8 <= j < |bits|
    requires Value(bits[..8]) as real <= temp
    requires temp + 1.0 / Pow2(j - 8) as real <= Value(bits[..8]) as real + 1.0
    ensures Value(bits[..8]) as real <= AddTerm(temp, bits[j].Value(), 7 - j)
    ensures AddTerm(temp, bits[j].Value(), 7 - j) + 1.0 / Pow2(j + 1 - 8) as real
            <= Value(bits[..8]) as real + 1.0
  {
    FractionStep(temp, bits[j].Value(), j, Value(bits[..8]) as real);
  }

  lemma AccumulatedFloor(bits: seq<Bit>, temp: real)
    requires Accumulated(bits, |bits|, temp)
    ensures temp.Floor == ByteOf(bits)
  {
    var n := if |bits| < 8 then |bits| else 8;
    assert bits[..|bits|] == bits[..n] || |bits| > 8;
    if |bits| > 8 {
      assert 1.0 / Pow2(|bits| - 8) as real > 0.0;
    }
  }

  lemma PackStep(bits: seq<Bit>, j: nat)
    requires j < 8 && j < |bits|
    ensures Value(bits[..j]) * Pow2(8 - j) + bits[j].Value() * Pow2(7 - j)
            == Value(bits[..j + 1]) * Pow2(8 - (j + 1))
  {
    assert bits[..j + 1][..j] == bits[..j];
    var v, b, p := Value(bits[..j]), bits[j].Value(), Pow2(7 - j);
    assert Value(bits[..j + 1]) == 2 * v + b;
    assert Pow2(8 - j) == 2 * p;
    Distribute(v, b, p);
  }

  lemma FractionStep(before: real, bit: nat, j: nat, high: real)
    requires j >= 8 && bit < 2
    requires before + 1.0 / Pow2(j - 8) as real <= high + 1.0
    ensures AddTerm(before, bit, 7 - j) + 1.0 / Pow2(j + 1 - 8) as real <= high + 1.0
    ensures AddTerm(before, bit, 7 - j) >= before
  {
    var p := Pow2(j - 8) as real;
    var half := 1.0 / (2.0 * p);
    assert Pow2(j + 1 - 8) as real == 2.0 * p;
    assert Pow2(j - 7) as real == 2.0 * p;
    assert 1.0 / p == half + half;
    assert bit as real / (2.0 * p) <= half;
  }

  /** `naturel_to_list`: collects the binary digits of `n` from the least
      significant one, pads with 0 up to eight digits, and reverses, giving
      the writing of `n` most significant bit first. */
  method NaturalToList(n: nat) returns (r: seq<Bit>)
    ensures Value(r) == n
    ensures |r| >= 8
    ensures n < 256 ==> r == BitsOf(n, 8)
  {
    var natural: nat := n;
    var list: seq<Bit> := [];
    while natural != 0
      invariant n == ValueLsbFirst(list) + natural * Pow2(|list|)
      invariant natural != 0 ==> Pow2(|list|) <= n
      invariant n < 256 ==> |list| <= 8
      decreases natural
    {
      var b := if natural % 2 == 0 then Bit0 else Bit1;
      DigitStep(n, list, natural, b);
      list := list + [b];
      natural := natural / 2;
    }
    if |list| < 8 {
      LsbZeros(list, 8 - |list|);
      list := list + seq(8 - |list|, _ => Bit0);
    }
    ReverseValue(list);
    r := Reverse(list);
    if n < 256 {
      BitsOfValueOf(r);
    }
  }

  /** One turn of the digit loop of `naturel_to_list` keeps its invariant. */
  lemma DigitStep(n: nat, list: seq<Bit>, natural: nat, b: Bit)
    requires natural != 0
    requires b.Value() == natural % 2
    requires n == ValueLsbFirst(list) + natural * Pow2(|list|)
    requires n < 256 ==> |list| <= 8
    ensures n == ValueLsbFirst(list + [b]) + (natural / 2) * Pow2(|list + [b]|)
    ensures natural / 2 != 0 ==> Pow2(|list + [b]|) <= n
    ensures n < 256 ==> |list + [b]| <= 8
  {
    var p := Pow2(|list|);
    LsbAppend(list, b);
    assert Pow2(|list + [b]|) == 2 * p;
    assert natural == 2 * (natural / 2) + b.Value();
    Distribute(natural / 2, b.Value(), p);
    MulAtLeast(natural, p);
    if natural / 2 != 0 {
      MulAtLeast(natural / 2, 2 * p);
    }
    if n < 256 {
      Pow2Below(|list|, n);
    }
  }

  /** Below 256 there are no more than eight binary digits. */
  lemma Pow2Below(k: nat, n: nat)
    requires Pow2(k) <= n < 256
    ensures k < 8
  {
    Pow2AtLeast(k);
  }

  lemma {:induction false} Pow2AtLeast(k: nat)
    ensures k >= 8 ==> Pow2(k) >= 256
  {
    if k > 8 {
      Pow2AtLeast(k - 1);
    }
  }

  /** Packing a byte's eight bits gives the byte back. */
  lemma ByteOfBitsOf(n: byte)
    ensures ByteOf(BitsOf(n, 8)) == n
  {
    var bits := BitsOf(n, 8);
    assert bits[..8] == bits;
    BitsOfValue(n, 8);
  }

  /** Unpacking the byte of eight bits gives those bits back. */
  lemma BitsOfByteOf(bits: seq<Bit>)
    requires |bits| == 8
    ensures BitsOf(ByteOf(bits), 8) == bits
  {
    assert bits[..8] == bits;
    BitsOfValueOf(bits);
  }

  /** `list_to_byte([0, 1])` pads the two bits to 0100 0000. */
  lemma ByteOfTwoBits()
    ensures ByteOf([Bit0, Bit1]) == 0x40
  {
    var bits := [Bit0, Bit1];
    assert bits[..2] == bits && bits[..1] == [Bit0];
    assert Value(bits) == 1;
    assert Pow2(6) == 64;
  }

  /** `list_to_byte([1, 1, 0, 0, 0, 0, 0, 1])` is 0xC1. */
  lemma ByteOfC1()
    ensures ByteOf([Bit1, Bit1, Bit0, Bit0, Bit0, Bit0, Bit0, Bit1]) == 0xC1
  {
    ByteOfBitsOf(0xC1);
    assert BitsOf(0xC1, 8) == [Bit1, Bit1, Bit0, Bit0, Bit0, Bit0, Bit0, Bit1];
  }

  /** `naturel_to_list(0xC1)` is 1100 0001. */
  lemma BitsOfC1()
    ensures BitsOf(0xC1, 8) == [Bit1, Bit1] + ([Bit0] + (seq(4, _ => Bit0) + [Bit1]))
  {
    assert BitsOf(0xC1, 8) == [Bit1, Bit1, Bit0, Bit0, Bit0, Bit0, Bit0, Bit1];
  }
}
