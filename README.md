# CLSAG key sets

A model of the key-set layer of a CLSAG (multi-layer linkable ring signature) library over the
Ristretto group. A ring member's public keys form a `PublicSet`: points in layer order. The
signer's private keys form a `PrivateSet`: scalars aligned with those layers. The model covers
the operations on these sets:

- cardinality queries;
- the protocol's ban on repeated keys (`duplicates_exist`);
- the member generator `hashed_pubkey`;
- the 32-bytes-per-layer transcript layout `to_bytes` and the per-layer encodings `to_keys`;
- public-key derivation `to_public_set`;
- key-image computation `compute_key_images`.

The curve is foreign code and stays abstract. `Point` and `Scalar` are type parameters. The
primitives are passed in as function values:

- `compress: Point -> Encoding`, where `Encoding` is a 32-byte sequence;
- `mul: (Scalar, Point) -> Point`;
- `basepoint`;
- `hashToPoint: seq<byte> -> Point`.

So each lemma holds for every curve that has these signatures. Injectivity of `compress`
(Ristretto encodings are canonical) is the only extra assumption. It is the predicate
`Canonical.CanonicalEncoding`, and only the lemmas of module `Canonical` take it as a hypothesis.

Files:

- `curve.dfy`: bytes and the 32-byte `Encoding` type.
- `seqs.dfy`: the iterator `map`/`collect` pipeline, and the set-size fact behind duplicate
  detection.
- `layout.dfy`: concatenation of encodings, and its inverse `Split`, which reads the layout back.
- `keys.dfy`: `PublicSet`, `PrivateSet` and the lemmas about them.
- `canonical.dfy`: the injectivity hypothesis and what follows from it.

The comment on `PublicSet` (src/keys.rs:7-13) places the ban on repeated keys at this level.
But `PublicSet` is a public tuple struct with no checking constructor, and `duplicates_exist` is
only a query. The model has the query and no rejecting constructor.

## Model

| member | source | states |
|---|---|---|
| Keys.PublicSet.IsEmpty | src/keys.rs:18-29 | true exactly when `Len()` (the number of points) is 0, i.e. the point vector is empty |
| Keys.PublicSet.ToKeys | src/keys.rs:60-62 | one encoding per layer, same length, element `i` is `compress(p_i)` |
| Keys.PublicSet.DuplicatesExist | src/keys.rs:31-45 | true iff two distinct indices have equal encodings; the set of distinct encodings never exceeds `Len()` and is strictly smaller exactly when duplicates exist |
| Keys.PublicSet.ToBytes | src/keys.rs:52-58 | exactly `32 * Len()` bytes, and byte `32*i+k` is byte `k` of `compress(p_i)`; defined as the concatenation of `ToKeys` |
| Keys.ToBytesChunk | src/keys.rs:53-58 | bytes `[32*i, 32*i+32)` of the layout equal `compress(p_i)` and `ToKeys()[i]` |
| Keys.ToBytesAppend | src/keys.rs:53-58 | the layout of concatenated key sets is the concatenation of their layouts, so layer order is kept |
| Keys.ToBytesSplit | src/keys.rs:53-62 | reading the layout back in 32-byte chunks gives exactly `ToKeys` |
| Keys.PublicSet.HashedPubkey | src/keys.rs:46-51 | for a non-empty set, the generator is hash-to-point of the first 32 bytes of the layout, i.e. of the first key's encoding |
| Keys.HashedPubkeyDependsOnFirstKey | src/keys.rs:48-51 | two non-empty sets whose first keys encode equally have the same generator, whatever their other layers |
| Keys.RepeatedPointIsDuplicate | src/keys.rs:32-45 | a point that occurs at two distinct indices always makes `DuplicatesExist` true, for any encoding function |
| Keys.OverwriteFirstWithLastIsDuplicate | src/keys.rs:147-151 | in a set of at least two keys, overwriting key 0 with the last key makes `DuplicatesExist` true |
| Keys.PrivateSet.New | src/keys.rs:69-71 | stores the given scalars unchanged, and `Len()` is their count |
| Keys.PrivateSet.IsEmpty | src/keys.rs:100-111 | true exactly when `Len()` (the number of scalars) is 0 |
| Keys.PrivateSet.ToPublicSet | src/keys.rs:75-83 | same length (and emptiness) as the private set; element `i` is `x_i * BASEPOINT` |
| Keys.ToPublicSetUpdate | src/keys.rs:75-80 | public key `k` depends on scalar `k` alone: replacing scalar `k` replaces key `k` and no other |
| Keys.ToPublicSetAppend | src/keys.rs:75-80 | deriving keys commutes with concatenating scalar vectors, so order is kept |
| Keys.PrivateSet.ComputeKeyImages | src/keys.rs:85-98 | same length and order as the scalars; element `i` is `compress(x_i * G)` for the given generator `G` |
| Keys.ComputeKeyImagesUpdate | src/keys.rs:94-97 | key image `k` depends on scalar `k` alone: replacing scalar `k` replaces image `k` and no other |
| Keys.ComputeKeyImagesAppend | src/keys.rs:94-97 | key images of concatenated scalar vectors are the concatenated images, in order |
| Keys.KeyImagesOfSigner | src/keys.rs:85-98 | with the signer's own hashed first public key as generator, image `j` is `compress(x_j * H(compress(x_0 * BASEPOINT)))`, so it depends only on the scalars and the curve |
| Seqs.MapSeq | src/keys.rs:60-61 | the `iter().map(f).collect()` pipeline: same length, element `i` is `f(s_i)` |
| Seqs.ElementsCard | src/keys.rs:42-44 | collecting a sequence into a set never increases its size, and keeps the size exactly when no value repeats |
| Layout.Concat | src/keys.rs:54-57 | the flattened encodings have `32 * n` bytes, with byte `k` of chunk `i` at offset `32*i+k` |
| Layout.SplitConcat | src/keys.rs:53-58 | splitting a flattened layout back into 32-byte chunks returns the original encodings |
| Canonical.DuplicatesIffRepeatedPoint | src/keys.rs:31-45 | if encodings are canonical, `DuplicatesExist` holds iff two distinct indices hold equal points |
| Canonical.DistinctPointsHaveNoDuplicates | src/keys.rs:139-145 | if encodings are canonical, a set of pairwise distinct points has no duplicates |
| Canonical.ToBytesInjective | src/keys.rs:53-58 | if encodings are canonical, equal layouts come only from equal key sets |

`PublicSet.Len` (src/keys.rs:19-21) and `PrivateSet.Len` (src/keys.rs:101-103) are the lengths of
the underlying sequences. Their contracts are carried by `IsEmpty`, `New`, `ToKeys`, `ToBytes`,
`ToPublicSet` and `ComputeKeyImages`.

## Left out

- Ristretto compression, scalar multiplication, the basepoint constant and `hash_from_bytes::<Sha512>` are foreign code. They are function parameters with no properties except the 32-byte encoding width. Canonical encoding is a named hypothesis, not a proved fact.
- The hash-table mechanics of `HashSet` in `duplicates_exist` are not modelled. Only its meaning is: it is the set of distinct encodings.
- Keys.PublicSet.HashedPubkey: panics when the set is empty, where the model requires a non-empty set.
- `usize` bounds on lengths are not modelled. Lengths are unbounded naturals. A vector long enough to overflow `32 * len` cannot be allocated.
- The two unit tests build their key sets with random scalars (`generate_private_set`). Randomness is not modelled. The tests become lemmas over all inputs. The first assertion of `check_duplicates_exist` assumes the random keys are distinct, so `DistinctPointsHaveNoDuplicates` takes that as an explicit hypothesis.
- The signing and verification engine, ring assembly and aggregation weights are in `src/clsag.rs`, which is not part of this model. The same holds for the test helpers. `tests/protocol.rs` only drives that engine, so it is not modelled either.
