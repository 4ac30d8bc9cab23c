/** The Whirlpool primitive (ISO/IEC 10118-3) as whirlpoolsum uses it:
    whirlpool_init, whirlpool_add and whirlpool_finalize over a NESSIEstruct.
    The transform itself is not modelled: its state is abstracted to the bytes
    added so far, and finalising applies the transform, which is given as a
    function value, to them. */
module Whirlpool {
  import opened Wrappers

  /** DIGESTBYTES: a Whirlpool digest is 512 bits. */
  const DIGESTBYTES: nat := 64

  type Digest = d: seq<byte> | |d| == DIGESTBYTES witness seq(64, i => 0 as byte)

  /** The bytes of the pieces, in order. */
  function Flatten(pieces: seq<seq<byte>>): seq<byte> {
    if pieces == [] then [] else pieces[0] + Flatten(pieces[1..])
  }

  /** Flattening distributes over concatenation of the piece lists. */
  lemma {:induction false} FlattenAppend(p: seq<seq<byte>>, q: seq<seq<byte>>)
    ensures Flatten(p + q) == Flatten(p) + Flatten(q)
  {
    if p == [] {
      assert p + q == q;
    } else {
      assert (p + q)[1..] == p[1..] + q;
      FlattenAppend(p[1..], q);
    }
  }

  /** A NESSIEstruct: the running state of one digest computation. */
  class Nessie {
    /** The hidden transform from a message to its digest. */
    const transform: seq<byte> -> Digest
    /** Everything added since whirlpool_init, standing for the bit counter,
        the block buffer and the chaining value of the real state. */
    var absorbed: seq<byte>
    /** The byte pieces, one per whirlpool_add call, in order. */
    ghost var Pieces: seq<seq<byte>>

    ghost predicate Valid()
      reads this
    {
      Flatten(Pieces) == absorbed
    }

    /** whirlpool_init: an empty message. */
    constructor Init(transform: seq<byte> -> Digest)
      ensures Valid() && this.transform == transform
      ensures absorbed == [] && Pieces == []
    {
      this.transform := transform;
      absorbed := [];
      Pieces := [];
    }

    /** whirlpool_add(source, sourceBits, w): the message grows by the first
        sourceBits / 8 bytes of source. */
    method Add(source: array<byte>, sourceBits: nat)
      requires Valid()
      requires sourceBits % 8 == 0 && sourceBits / 8 <= source.Length
      modifies this
      ensures Valid()
      ensures absorbed == old(absorbed) + source[..sourceBits / 8]
      ensures Pieces == old(Pieces) + [source[..sourceBits / 8]]
    {
      var piece := source[..sourceBits / 8];
      FlattenAppend(Pieces, [piece]);
      assert Flatten([piece]) == piece + Flatten([]);
      absorbed := absorbed + piece;
      Pieces := Pieces + [piece];
    }

    /** whirlpool_finalize(w, result): the digest of the whole message goes
        into the first DIGESTBYTES bytes of result. */
    method Finalize(result: array<byte>)
      requires result.Length >= DIGESTBYTES
      modifies result
      ensures result[..DIGESTBYTES] == transform(absorbed)
      ensures result[DIGESTBYTES..] == old(result[DIGESTBYTES..])
    {
      var d := transform(absorbed);
      for i := 0 to DIGESTBYTES
        invariant result[..i] == d[..i]
        invariant result[DIGESTBYTES..] == old(result[DIGESTBYTES..])
      {
        result[i] := d[i];
      }
    }
  }
}
