/** byteview.go: the immutable byte view that the cache stores and hands out. */
module ByteViews {
  import opened ByteStrings

  /** A read-only view of bytes; the model's sequences are values, so nothing
      outside can write into `b` once the view exists. */
  datatype ByteView = ByteView(b: Bytes) {

    /** Number of bytes held; this is the `Value.Len` the LRU charges for. */
    function Len(): nat {
      |b|
    }

    /** A copy of the bytes, handed out so callers cannot reach the view's own buffer. */
    function ByteSlice(): (r: Bytes)
      ensures |r| == Len()
      ensures r == b
    {
      CloneBytes(b)
    }

    /** The bytes converted to a Go string (a conversion that copies). */
    function String(): (r: Bytes)
      ensures |r| == Len()
      ensures r == b
    {
      CloneBytes(b)
    }
  }

  /** `make` a buffer of the same length and `copy` every byte across, one at a time. */
  function CloneBytes(b: Bytes): (c: Bytes)
    ensures |c| == |b|
    ensures forall i | 0 <= i < |b| :: c[i] == b[i]
    ensures c == b
  {
    if |b| == 0 then [] else [b[0]] + CloneBytes(b[1..])
  }
}
