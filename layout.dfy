/**
 * The byte layout of a key set: compressed points laid end to end, 32 bytes
 * per layer, in layer order.
 */
module Layout {
  import opened Curve

  datatype Option<T> = None | Some(value: T)

  /** The encodings laid out back to back; byte `k` of chunk `i` sits at `32 * i + k`. */
  function Concat(chunks: seq<Encoding>): (r: seq<byte>)
    ensures |r| == ENCODING_LENGTH * |chunks|
    ensures forall i, k :: 0 <= i < |chunks| && 0 <= k < ENCODING_LENGTH ==>
      r[ENCODING_LENGTH * i + k] == chunks[i][k]
  {
    if chunks == [] then []
    else
      chunks[0] + Concat(chunks[1..])
  }

  /** Concatenation of layouts is the layout of the concatenation. */
  lemma {:induction false} ConcatAppend(a: seq<Encoding>, b: seq<Encoding>)
    ensures Concat(a + b) == Concat(a) + Concat(b)
  {
    if a == [] {
      assert a + b == b;
    } else {
      assert (a + b)[0] == a[0];
      assert (a + b)[1..] == a[1..] + b;
      ConcatAppend(a[1..], b);
    }
  }

  /**
   * Reads a layout back into its 32-byte chunks; fails when the length is
   * not a multiple of 32.
   */
  function Split(bytes: seq<byte>): (r: Option<seq<Encoding>>)
    ensures r.Some? <==> |bytes| % ENCODING_LENGTH == 0
    ensures r.Some? ==> Concat(r.value) == bytes
    decreases |bytes|
  {
    if |bytes| == 0 then Some([])
    else if |bytes| < ENCODING_LENGTH then None
    else
      match Split(bytes[ENCODING_LENGTH..])
      case None => None
      case Some(rest) =>
        var first: Encoding := bytes[..ENCODING_LENGTH];
        Some([first] + rest)
  }

  /** Reading a layout back gives exactly the encodings it was built from. */
  lemma {:induction false} SplitConcat(chunks: seq<Encoding>)
    ensures Split(Concat(chunks)) == Some(chunks)
  {
    if chunks != [] {
      var bytes := Concat(chunks);
      assert bytes == chunks[0] + Concat(chunks[1..]);
      assert bytes[ENCODING_LENGTH..] == Concat(chunks[1..]);
      assert bytes[..ENCODING_LENGTH] == chunks[0];
      SplitConcat(chunks[1..]);
      assert [chunks[0]] + chunks[1..] == chunks;
    }
  }

  /** Distinct encoding sequences never share a layout. */
  lemma ConcatInjective(a: seq<Encoding>, b: seq<Encoding>)
    requires Concat(a) == Concat(b)
    ensures a == b
  {
    SplitConcat(a);
    SplitConcat(b);
  }
}
