/**
 * The bit-level input and output ports the codec is handed. Only the
 * behaviour the codec relies on is modelled: an input is a finite bit
 * sequence with a read position, an output is the list of the writes it
 * received.
 */
module BitStreams {
  import opened Bits

  /** What readBits(n) yields at a position: the field's value or -1, and the position after. */
  datatype ReadResult = ReadResult(value: int, pos: nat)

  /**
   * readBits(n) at position pos: the next n bits as an MSB-first number,
   * or -1 when fewer than n bits remain, in which case the input is left
   * exhausted (the port drains what was left of it).
   */
  function Read(bits: seq<bool>, pos: nat, n: nat): (r: ReadResult)
    requires pos <= |bits|
    ensures pos <= r.pos <= |bits|
    ensures -1 <= r.value < Pow2(n)
    ensures r.value == -1 <==> |bits| - pos < n
    ensures r.value != -1 ==> r.pos == pos + n
    ensures r.value == -1 ==> r.pos == |bits|
  {
    if pos + n <= |bits| then
      ReadResult(Value(bits[pos..pos + n]), pos + n)
    else
      ReadResult(-1, |bits|)
  }

  /** A successful read yields the number whose n-bit rendering is exactly the bits it consumed. */
  lemma ReadField(bits: seq<bool>, pos: nat, n: nat)
    requires pos + n <= |bits|
    ensures Read(bits, pos, n).value >= 0
    ensures ToBits(Read(bits, pos, n).value, n) == bits[pos..pos + n]
  {
    ToBitsOfValue(bits[pos..pos + n]);
  }

  /** A 1-bit read yields 1 for a set bit and 0 for a clear one. */
  lemma ReadBit(bits: seq<bool>, pos: nat)
    requires pos <= |bits|
    ensures pos < |bits| ==> Read(bits, pos, 1).value == if bits[pos] then 1 else 0
  {
    if pos < |bits| {
      assert bits[pos..pos + 1][..0] == [];
    }
  }

  /** An input bit stream positioned somewhere in its bits. */
  class BitInputStream {
    const bits: seq<bool>
    var pos: nat

    ghost predicate Valid()
      reads this
    {
      pos <= |bits|
    }

    constructor (bits: seq<bool>)
      ensures Valid() && this.bits == bits && pos == 0
    {
      this.bits := bits;
      pos := 0;
    }

    /** Reads an n-bit field; -1 when the stream ends first. */
    method ReadBits(n: nat) returns (v: int)
      requires Valid()
      modifies this`pos
      ensures Valid()
      ensures v == Read(bits, old(pos), n).value && pos == Read(bits, old(pos), n).pos
    {
      var r := Read(bits, pos, n);
      v := r.value;
      pos := r.pos;
    }
  }

  /** One call writeBits(width, value) received by an output stream. */
  datatype Write = Write(width: nat, value: int)

  /** An output bit stream, seen as the writes made to it so far. */
  class BitOutputStream {
    var writes: seq<Write>

    constructor ()
      ensures writes == []
    {
      writes := [];
    }

    method WriteBits(width: nat, value: int)
      modifies this
      ensures writes == old(writes) + [Write(width, value)]
    {
      writes := writes + [Write(width, value)];
    }
  }
}
