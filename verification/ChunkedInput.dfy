/** Decompression of one LZ4 block whose compressed bytes arrive in chunks of any size. */
module ChunkedInput {
  import opened Wrappers

  const INT_MAX := 0x7FFF_FFFF
  const INT_SPAN := 0x1_0000_0000

  /** The bytes of all chunks, one after the other. */
  ghost function Join(chunks: seq<seq<Byte>>): seq<Byte>
    decreases |chunks|
  {
    if chunks == [] then [] else chunks[0] + Join(chunks[1..])
  }

  /** A stream that hands out its own chunks and takes back the end of the last one. */
  class InputStream {
    var upcoming: seq<seq<Byte>>
    var last: seq<Byte>
    var byteCount: nat

    ghost predicate Valid()
      reads this
    {
      && |last| <= byteCount
      && |last| <= INT_MAX
      && forall i | 0 <= i < |upcoming| :: |upcoming[i]| <= INT_MAX
    }

    ghost function Rest(): seq<Byte>
      reads this
    {
      Join(upcoming)
    }

    constructor (chunks: seq<seq<Byte>>)
      requires forall i | 0 <= i < |chunks| :: |chunks[i]| <= INT_MAX
      ensures Valid() && Rest() == Join(chunks) && byteCount == 0
    {
      upcoming, last, byteCount := chunks, [], 0;
    }

    method Next(chunk: seq<Byte>) returns (more: bool, next: seq<Byte>)
      requires Valid()
      modifies this
      ensures Valid()
      ensures more <==> old(upcoming) != []
      ensures more ==> next == last && old(Rest()) == next + Rest()
      ensures more ==> |upcoming| < |old(upcoming)| && byteCount == old(byteCount) + |next|
      ensures !more ==> next == chunk && Rest() == old(Rest()) == []
      ensures !more ==> last == old(last) && byteCount == old(byteCount)
    {
      if upcoming == [] {
        return false, chunk;
      }
      last := upcoming[0];
      upcoming := upcoming[1..];
      byteCount := byteCount + |last|;
      return true, last;
    }

    /** Callers may return no more than the last chunk holds. */
    method BackUp(count: nat)
      requires Valid() && count <= |last|
      modifies this
      ensures Valid()
      ensures Rest() == old(last)[|old(last)| - count..] + old(Rest())
      ensures byteCount == old(byteCount) - count
    {
      upcoming := [last[|last| - count..]] + upcoming;
      assert upcoming[1..] == old(upcoming);
      byteCount := byteCount - count;
      last := [];
    }
  }

  datatype Outcome =
    | CountOverflow                              // the int that counts the bytes copied overflows
    | InsufficientInput
    | InputOverflow
    | OutputOverflow
    | Failed
    | Decompressed(size: nat)

  /** A size_t converted to a 32-bit int. */
  function ToInt(n: nat): (r: int)
    ensures -INT_MAX - 1 <= r <= INT_MAX
    ensures n <= INT_MAX ==> r == n
  {
    var low := n % INT_SPAN;
    if low <= INT_MAX then low else low - INT_SPAN
  }

  /** LZ4_decompress_safe: its return code for a block and the size of the output buffer. */
  type Codec = (seq<Byte>, nat) -> int

  /** The other lz4Decompress, on a block in memory. */
  function DecompressBlock(block: seq<Byte>, outSize: nat, codec: Codec): Outcome {
    if ToInt(|block|) <= 0 then InputOverflow
    else if ToInt(outSize) <= 0 then OutputOverflow
    else if codec(block[..ToInt(|block|)], ToInt(outSize)) != ToInt(outSize) then Failed
    else Decompressed(ToInt(outSize))
  }

  function Min(a: nat, b: nat): nat {
    if a < b then a else b
  }

  /** What the call does, said on the flat bytes: take inSize of them, or all if there are fewer. */
  function FlatDecompress(bytes: seq<Byte>, inSize: nat, outSize: nat, codec: Codec): Outcome {
    if Min(inSize, |bytes|) > INT_MAX then CountOverflow
    else if |bytes| < inSize then InsufficientInput
    else DecompressBlock(bytes[..inSize], outSize, codec)
  }

  /** The low 32 bits of a size are a positive int. */
  predicate Positive(n: nat) {
    0 < n % 0x1_0000_0000 < 0x8000_0000
  }

  /** Success is exactly this: enough bytes and not too many, a positive output size, and a codec that fills it. */
  lemma DecompressedIff(bytes: seq<Byte>, inSize: nat, outSize: nat, codec: Codec, n: nat)
    ensures FlatDecompress(bytes, inSize, outSize, codec) == Decompressed(n) <==>
      && 0 < inSize <= |bytes| && inSize < 0x8000_0000
      && Positive(outSize) && n == outSize % 0x1_0000_0000 && codec(bytes[..inSize], n) == n
  {
    if inSize <= |bytes| && inSize <= INT_MAX { assert bytes[..inSize][..inSize] == bytes[..inSize]; }
  }

  /** Which failure it is: the first that applies, in this order. */
  lemma FailureIs(bytes: seq<Byte>, inSize: nat, outSize: nat, codec: Codec)
    requires inSize < 0x8000_0000
    ensures var r := FlatDecompress(bytes, inSize, outSize, codec);
            && (r.InsufficientInput? <==> |bytes| < inSize)
            && (r.InputOverflow? <==> inSize == 0)
            && (r.OutputOverflow? <==> 0 < inSize <= |bytes| && !Positive(outSize))
            && !r.CountOverflow?
  {}

  /** Collect inSize bytes: from one chunk when it holds them all, otherwise chunk by chunk. */
  method Assemble(s: InputStream, inSize: nat) returns (chunk: seq<Byte>, chunkSize: nat, copied: nat, overflow: bool)
    requires s.Valid()
    modifies s
    ensures s.Valid()
    ensures overflow <==> Min(inSize, |old(s.Rest())|) > INT_MAX
    ensures !overflow ==>
              && copied == Min(inSize, |old(s.Rest())|)
              && old(s.byteCount) + copied <= s.byteCount <= old(s.byteCount) + copied + |s.last|
              && (var back := s.byteCount - old(s.byteCount) - copied;
                  s.last[|s.last| - back..] + s.Rest() == old(s.Rest())[copied..])
              && (copied == 0 ==> (chunkSize < inSize <==> 0 < inSize))
              && (copied == inSize ==> inSize <= |chunk| && chunk[..inSize] == old(s.Rest())[..inSize])
  {
    ghost var start, all := s.byteCount, s.Rest();
    var compressed: seq<Byte> := [];
    chunk, chunkSize, copied, overflow := [], 0, 0, false;
    while true
      invariant s.Valid() && !overflow && copied <= INT_MAX
      invariant copied <= |all| && (copied < inSize || copied == inSize == 0)
      invariant s.byteCount == start + copied
      invariant s.Rest() == all[copied..]
      invariant copied > 0 ==> |compressed| == inSize
      invariant copied > 0 ==> compressed[..copied] == all[..copied]
      invariant copied == 0 ==> chunkSize == 0
      decreases |s.upcoming|
    {
      var more;
      more, chunk := s.Next(chunk);
      if !more {
        break;
      }
      chunkSize := |chunk|;
      assert all == all[..copied] + chunk + s.Rest();
      if copied == 0 {
        if chunkSize >= inSize {
          copied := inSize;
          break;
        }
        compressed := seq(inSize, i => 0);
      }
      chunkSize := if chunkSize < inSize - copied then chunkSize else inSize - copied;
      compressed := compressed[..copied] + chunk[..chunkSize] + compressed[copied + chunkSize..];
      if copied + chunkSize > INT_MAX {
        overflow := true;
        return;
      }
      copied := copied + chunkSize;
      if copied == inSize {
        chunk := compressed;
        break;
      }
    }
  }

  /** The stream form: the result and the bytes left are those of the flat bytes, for every chunking. After an
      overflow of the count nothing is said of the stream. */
  method Lz4Decompress(s: InputStream, inSize: nat, outSize: nat, codec: Codec) returns (r: Outcome)
    requires s.Valid()
    modifies s
    ensures s.Valid()
    ensures r == FlatDecompress(old(s.Rest()), inSize, outSize, codec)
    ensures !r.CountOverflow? ==>
              && s.Rest() == old(s.Rest())[Min(inSize, |old(s.Rest())|)..]
              && s.byteCount == old(s.byteCount) + Min(inSize, |old(s.Rest())|)
  {
    var currentBytes := s.byteCount;
    var chunk, chunkSize, copied, overflow := Assemble(s, inSize);
    if overflow { return CountOverflow; }
    if s.byteCount > currentBytes + copied {
      s.BackUp(s.byteCount - currentBytes - copied);
    } else {
      assert s.last[|s.last|..] + s.Rest() == s.Rest();
    }
    if (copied == 0 && chunkSize < inSize) || (copied > 0 && copied != inSize) {
      return InsufficientInput;
    }
    r := DecompressBlock(chunk[..inSize], outSize, codec);
  }
}
