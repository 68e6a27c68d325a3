/** Shared vocabulary of the Huffman engine: bytes, the exceptions the
    engine raises, and a result type standing for "returns or raises". */
module Common {

  /** One byte of a stream: the streams are sequences of values 0..255. */
  type byte = x: int | 0 <= x < 256

  /** The exceptions raised by the engine, one constructor each. */
  datatype Error =
    | EmptyQueue          // FileDePrioriteVideError
    | TreeIncoherent      // ArbreHuffmanIncoherentError
    | MustBeLeaf          // DoitEtreUneFeuilleError
    | MustNotBeLeaf       // NeDoitPasEtreUneFeuilleError
    | AtLeastOneBit       // AuMoinsUnBitError
    | IndexOutOfRange     // IndexError on a list index
    | NotIterable         // TypeError: iterating over a bare Bit
    | MissingBit          // TypeError: CodeBinaire() called without a first bit
    | NoneAttribute       // AttributeError: attribute of None (a missing child)
    | EmptySequence       // ValueError: min() or max() of an empty sequence

  /** The outcome of an operation that either returns a value or raises. */
  datatype Result<T> = Ok(value: T) | Err(error: Error)

  datatype Option<T> = None | Some(value: T)

  datatype Unit = Unit

  function Pow2(n: nat): (r: nat)
    ensures r >= 1
  {
    if n == 0 then 1 else 2 * Pow2(n - 1)
  }
}
