/** Bytes, big- and little-endian integers, and zero padding, as every layer above uses them. */
module Bytes {

  import Octets

  type byte = Octets.byte

  /** A value, or the error the source throws. */
  datatype Result<+T> = Ok(value: T) | Err(error: string) {
    predicate IsFailure() {
      Err?
    }

    function PropagateFailure<U>(): Result<U>
      requires Err?
    {
      Err(error)
    }

    function Extract(): T
      requires Ok?
    {
      value
    }
  }

  datatype Option<+T> = None | Some(value: T)

  const TWO_TO_31: int := 0x8000_0000
  const TWO_TO_32: int := 0x1_0000_0000

  function U32BE(n: nat): (bs: seq<byte>)
    requires n < TWO_TO_32
    ensures |bs| == 4
  {
    [n / 0x100_0000, n / 0x1_0000 % 0x100, n / 0x100 % 0x100, n % 0x100]
  }

  function FromBytesBE(b0: byte, b1: byte, b2: byte, b3: byte): (n: nat)
    ensures n < TWO_TO_32
  {
    b0 as int * 0x100_0000 + b1 as int * 0x1_0000 + b2 as int * 0x100 + b3
  }

  function ReadU32BE(bs: seq<byte>, offset: nat): (n: nat)
    requires offset + 4 <= |bs|
    ensures n < TWO_TO_32
  {
    FromBytesBE(bs[offset], bs[offset + 1], bs[offset + 2], bs[offset + 3])
  }

  lemma U32RoundTrip(n: nat)
    requires n < TWO_TO_32
    ensures FromBytesBE(n / 0x100_0000, n / 0x1_0000 % 0x100, n / 0x100 % 0x100, n % 0x100) == n
  {
    var h := n / 0x100;
    var q := h / 0x100;
    assert n / 0x1_0000 == q;
    assert n / 0x100_0000 == q / 0x100;
  }

  /** Reading where `n` was written gives `n` back. */
  lemma ReadWriteU32BE(n: nat, before: seq<byte>, after: seq<byte>)
    requires n < TWO_TO_32
    ensures ReadU32BE(before + U32BE(n) + after, |before|) == n
  {
    U32RoundTrip(n);
  }

  function Zeros(n: nat): (bs: seq<byte>)
    ensures |bs| == n
  {
    seq(n, _ => 0)
  }

  predicate AllZero(bs: seq<byte>) {
    forall i :: 0 <= i < |bs| ==> bs[i] == 0
  }

  /** Length rounded up to a multiple of four. */
  function AlignTo4Bytes(length: nat): (aligned: nat)
    ensures length <= aligned < length + 4 && aligned % 4 == 0
  {
    (length + 3) / 4 * 4
  }

  /** The bytes followed by zeros up to the next multiple of four. */
  function PadTo4(bs: seq<byte>): (padded: seq<byte>)
    ensures bs <= padded && |padded| % 4 == 0 && AllZero(padded[|bs|..])
  {
    bs + Zeros(AlignTo4Bytes(|bs|) - |bs|)
  }
}
