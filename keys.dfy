/**
 * The key-set layer of the CLSAG library: a ring member's public key
 * vector and the signer's private scalar vector, one entry per layer.
 *
 * Curve primitives are parameters:
 *   compress     Point -> Encoding           (`RistrettoPoint::compress`)
 *   mul          (Scalar, Point) -> Point    (`Scalar * RistrettoPoint`)
 *   basepoint    Point                       (`BASEPOINT`)
 *   hashToPoint  seq<byte> -> Point          (`hash_from_bytes::<Sha512>`)
 */
module Keys {
  import opened Curve
  import opened Seqs
  import Layout

  /** One ring member's public keys, in layer order. Repeats are a policy violation, checked by `DuplicatesExist`. */
  datatype PublicSet<Point> = PublicSet(points: seq<Point>) {

    /** Number of layers. */
    function Len(): nat {
      |points|
    }

    function IsEmpty(): (r: bool)
      ensures r <==> Len() == 0
      ensures r <==> points == []
    {
      |points| == 0
    }

    /** The canonical encoding of every key, in layer order. */
    function ToKeys(compress: Point -> Encoding): (keys: seq<Encoding>)
      ensures |keys| == Len()
      ensures forall i :: 0 <= i < |points| ==> keys[i] == compress(points[i])
    {
      MapSeq(compress, points)
    }

    /** The distinct encodings, as the hash set built by `duplicates_exist`. */
    function UniqueKeys(compress: Point -> Encoding): set<Encoding> {
      Elements(ToKeys(compress))
    }

    /**
     * True exactly when two different layers have the same canonical
     * encoding; the set of distinct encodings is never larger than the
     * number of layers and is smaller exactly in that case.
     */
    function DuplicatesExist(compress: Point -> Encoding): (r: bool)
      ensures |UniqueKeys(compress)| <= Len()
      ensures r <==> |UniqueKeys(compress)| < Len()
      ensures r <==> exists i, j :: 0 <= i < |points| && 0 <= j < |points| && i != j &&
                                    compress(points[i]) == compress(points[j])
    {
      ElementsCard(ToKeys(compress));
      Len() != |UniqueKeys(compress)|
    }

    /**
     * Hash-to-point of the first key's encoding, which is the first 32 bytes
     * of the layout; the generator of this member's key images.
     */
    function HashedPubkey(compress: Point -> Encoding, hashToPoint: seq<byte> -> Point): (g: Point)
      requires 0 < Len()
      ensures g == hashToPoint(ToBytes(compress)[..ENCODING_LENGTH])
    {
      ToBytesChunk(this, compress, 0);
      hashToPoint(compress(points[0]))
    }

    /**
     * The layout hashed into the transcript: 32 bytes per layer, byte `k`
     * of layer `i` at offset `32 * i + k`.
     */
    function ToBytes(compress: Point -> Encoding): (bytes: seq<byte>)
      ensures |bytes| == ENCODING_LENGTH * Len()
      ensures forall i, k :: 0 <= i < |points| && 0 <= k < ENCODING_LENGTH ==>
        bytes[ENCODING_LENGTH * i + k] == compress(points[i])[k]
    {
      Layout.Concat(ToKeys(compress))
    }
  }

  /** The signer's private scalars, index-aligned with its public keys. */
  datatype PrivateSet<Scalar> = PrivateSet(scalars: seq<Scalar>) {

    /** Wraps the scalars as given: same values, same order. */
    static function New(scalars: seq<Scalar>): (s: PrivateSet<Scalar>)
      ensures s.scalars == scalars
      ensures s.Len() == |scalars|
    {
      PrivateSet(scalars)
    }

    /** Number of layers. */
    function Len(): nat {
      |scalars|
    }

    function IsEmpty(): (r: bool)
      ensures r <==> Len() == 0
      ensures r <==> scalars == []
    {
      |scalars| == 0
    }

    /** The public keys: layer `i` is `x_i * BASEPOINT`. */
    function ToPublicSet<Point>(mul: (Scalar, Point) -> Point, basepoint: Point): (pub: PublicSet<Point>)
      ensures pub.Len() == Len()
      ensures pub.IsEmpty() == IsEmpty()
      ensures forall i :: 0 <= i < |scalars| ==> pub.points[i] == mul(scalars[i], basepoint)
    {
      PublicSet(MapSeq(x => mul(x, basepoint), scalars))
    }

    /** The key images: layer `i` is `compress(x_i * signersBasepoint)`. */
    function ComputeKeyImages<Point>(compress: Point -> Encoding, mul: (Scalar, Point) -> Point,
                                     signersBasepoint: Point): (images: seq<Encoding>)
      ensures |images| == Len()
      ensures forall i :: 0 <= i < |scalars| ==> images[i] == compress(mul(scalars[i], signersBasepoint))
    {
      MapSeq(x => compress(mul(x, signersBasepoint)), scalars)
    }
  }

  /** Two layers holding the same point always count as a duplicate, whatever the encoding. */
  lemma RepeatedPointIsDuplicate<Point>(ps: PublicSet<Point>, compress: Point -> Encoding, i: nat, j: nat)
    requires i < ps.Len() && j < ps.Len() && i != j
    requires ps.points[i] == ps.points[j]
    ensures ps.DuplicatesExist(compress)
  {
    assert compress(ps.points[i]) == compress(ps.points[j]);
  }

  /** Copying the last key over the first, in a set of two or more keys, creates a duplicate. */
  lemma OverwriteFirstWithLastIsDuplicate<Point>(ps: PublicSet<Point>, compress: Point -> Encoding)
    requires 2 <= ps.Len()
    ensures PublicSet(ps.points[0 := ps.points[ps.Len() - 1]]).DuplicatesExist(compress)
  {
    var last := ps.Len() - 1;
    RepeatedPointIsDuplicate(PublicSet(ps.points[0 := ps.points[last]]), compress, 0, last);
  }

  /** Bytes `[32 * i, 32 * i + 32)` of the layout are the encoding of layer `i`. */
  lemma ToBytesChunk<Point>(ps: PublicSet<Point>, compress: Point -> Encoding, i: nat)
    requires i < ps.Len()
    ensures ENCODING_LENGTH * i + ENCODING_LENGTH <= |ps.ToBytes(compress)|
    ensures ps.ToBytes(compress)[ENCODING_LENGTH * i..ENCODING_LENGTH * i + ENCODING_LENGTH] == compress(ps.points[i])
    ensures ps.ToBytes(compress)[ENCODING_LENGTH * i..ENCODING_LENGTH * i + ENCODING_LENGTH] == ps.ToKeys(compress)[i]
  {
    var bytes := ps.ToBytes(compress);
    var chunk := bytes[ENCODING_LENGTH * i..ENCODING_LENGTH * i + ENCODING_LENGTH];
    forall k | 0 <= k < ENCODING_LENGTH ensures chunk[k] == compress(ps.points[i])[k] {
      assert chunk[k] == bytes[ENCODING_LENGTH * i + k];
    }
  }

  /** The layout of the concatenated layers is the concatenated layouts: layer order is kept. */
  lemma ToBytesAppend<Point>(a: PublicSet<Point>, b: PublicSet<Point>, compress: Point -> Encoding)
    ensures PublicSet(a.points + b.points).ToBytes(compress) == a.ToBytes(compress) + b.ToBytes(compress)
  {
    MapSeqAppend(compress, a.points, b.points);
    Layout.ConcatAppend(a.ToKeys(compress), b.ToKeys(compress));
  }

  /** Reading the layout back in 32-byte chunks gives `ToKeys`. */
  lemma ToBytesSplit<Point>(ps: PublicSet<Point>, compress: Point -> Encoding)
    ensures Layout.Split(ps.ToBytes(compress)) == Layout.Some(ps.ToKeys(compress))
  {
    Layout.SplitConcat(ps.ToKeys(compress));
  }

  /** Only the first key matters to `HashedPubkey`: later layers can be anything. */
  lemma HashedPubkeyDependsOnFirstKey<Point>(a: PublicSet<Point>, b: PublicSet<Point>,
                                             compress: Point -> Encoding, hashToPoint: seq<byte> -> Point)
    requires 0 < a.Len() && 0 < b.Len()
    requires compress(a.points[0]) == compress(b.points[0])
    ensures a.HashedPubkey(compress, hashToPoint) == b.HashedPubkey(compress, hashToPoint)
  {
  }

  /** Changing scalar `k` changes public key `k` and no other. */
  lemma ToPublicSetUpdate<Scalar, Point>(xs: PrivateSet<Scalar>, mul: (Scalar, Point) -> Point,
                                         basepoint: Point, k: nat, x: Scalar)
    requires k < xs.Len()
    ensures PrivateSet(xs.scalars[k := x]).ToPublicSet(mul, basepoint).points
         == xs.ToPublicSet(mul, basepoint).points[k := mul(x, basepoint)]
  {
    MapSeqUpdate(y => mul(y, basepoint), xs.scalars, k, x);
  }

  /** Public keys of concatenated private sets are the concatenated public keys. */
  lemma ToPublicSetAppend<Scalar, Point>(xs: PrivateSet<Scalar>, ys: PrivateSet<Scalar>,
                                         mul: (Scalar, Point) -> Point, basepoint: Point)
    ensures PrivateSet(xs.scalars + ys.scalars).ToPublicSet(mul, basepoint).points
         == xs.ToPublicSet(mul, basepoint).points + ys.ToPublicSet(mul, basepoint).points
  {
    MapSeqAppend(y => mul(y, basepoint), xs.scalars, ys.scalars);
  }

  /** Changing scalar `k` changes key image `k` and no other. */
  lemma ComputeKeyImagesUpdate<Scalar, Point>(xs: PrivateSet<Scalar>, compress: Point -> Encoding,
                                              mul: (Scalar, Point) -> Point, g: Point, k: nat, x: Scalar)
    requires k < xs.Len()
    ensures PrivateSet(xs.scalars[k := x]).ComputeKeyImages(compress, mul, g)
         == xs.ComputeKeyImages(compress, mul, g)[k := compress(mul(x, g))]
  {
    MapSeqUpdate(y => compress(mul(y, g)), xs.scalars, k, x);
  }

  /** Key images of concatenated private sets are the concatenated key images, in order. */
  lemma ComputeKeyImagesAppend<Scalar, Point>(xs: PrivateSet<Scalar>, ys: PrivateSet<Scalar>,
                                              compress: Point -> Encoding, mul: (Scalar, Point) -> Point, g: Point)
    ensures PrivateSet(xs.scalars + ys.scalars).ComputeKeyImages(compress, mul, g)
         == xs.ComputeKeyImages(compress, mul, g) + ys.ComputeKeyImages(compress, mul, g)
  {
    MapSeqAppend(y => compress(mul(y, g)), xs.scalars, ys.scalars);
  }

  /**
   * With the signer's own hashed first public key as generator, image `j` is
   * `compress(x_j * H(compress(x_0 * BASEPOINT)))`: a function of the scalars
   * and the curve alone, so every signature by the same keys publishes the
   * same images.
   */
  lemma KeyImagesOfSigner<Scalar, Point>(xs: PrivateSet<Scalar>, compress: Point -> Encoding,
                                         mul: (Scalar, Point) -> Point, basepoint: Point,
                                         hashToPoint: seq<byte> -> Point)
    requires 0 < xs.Len()
    ensures var pub := xs.ToPublicSet(mul, basepoint);
            var images := xs.ComputeKeyImages(compress, mul, pub.HashedPubkey(compress, hashToPoint));
            |images| == pub.Len() &&
            forall j :: 0 <= j < xs.Len() ==>
              images[j] == compress(mul(xs.scalars[j], hashToPoint(compress(mul(xs.scalars[0], basepoint)))))
  {
  }
}
