# Verification of the `.ctf` container format

A `.ctf` file is a header, payloads on page boundaries, optional chunk indices, a section
table, and a footer that commits to header and table and may carry two signatures. Two
independent implementations read and write it, one in Rust and one in Go. This project
models both in Dafny and proves what the format promises: that the two agree, that what is
written comes back, and that a root fixes the bytes.

`dafny verify dfyconfig.toml` checks all of it.

## What is modelled

- **Hash tree** (`Blake3Tree`, `ChunkTree`, `ChunkIndex`, `ChunkAcceptance`, `GoChunkIndex`).
  BLAKE3 as a tree over an uninterpreted compression function, the chunk index over it, and the
  Go code that mixes recursion with a level-by-level merge. Splitting by chunks and splitting by
  1024-byte leaves give one tree, so the merged index is the hash of the whole plaintext. An
  index that verifies accepts exactly the plaintext's chunks if and only if it has their number.
- **Canonical CBOR** (`Cbor*`, `Utf8Text`; section 4.2.1 of RFC 8949, restricted). One grammar, two
  cursor decoders and two sorting encoders proved against it. Accepted byte strings and
  canonical values are in bijection, and `CborWire` says in bytes which string belongs to which.
- **Container** (`Fields`, `Container`, `FooterFormat`, `Layout`, `RegionClasses`, `GoLayout`,
  `Bundle`, `GoBundle`, `WireFormat`, `Commitment`). Records, table and footer as exact codecs; both
  layout algorithms, each proved equivalent to one pointwise statement about offsets; both parsers
  under one contract, which `WireFormat` reads off the disk offset by offset; and the theorem that
  a commitment root determines the file.
- **Manifest** (`ManifestText`, `Manifest`, `ManifestSchema`, `RustManifest`, `GoManifest`, `CrossChecks`,
  `Readers`). The schema and its agreement with the table as one specification, both checkers in the form of
  their code, exactly when their cross-checks agree, and both readers with their own
  checks: over every byte string they accept the same files.
- **Writers** (`WriterPlan`, `WriterIndices`, `WriterFile`, `WrittenSections`, `Writer`, `GoWriterLayout`,
  `GoWrittenSections`, `GoWriter`, `Signing`). The three-pass Rust writer, the Go writer that fills one
  buffer in another layout, what a file of either holds for each section asked for, and signing in place.
- **Encryption** (`Stream`, `StreamBinding`, `GoStream`, `RustStream`, `SealedSections`, `SealedWriter`).
  Framing over an ideal AEAD, in both implementations; what nonces and associated data bind: frames
  put together in any way open only as one whole body, where it was sealed for; and whole
  encrypted sections: compressed, sealed, written, read and decrypted.
- **Entitlements** (`CborFields`, `EntitlementRecord`, `EntitlementCodec`, `EntitlementChain`).
  An append-only chain of records linked by their ids, as a state machine and as bytes. What is
  signed with matching keys verifies, over every run.
- **Base32** (`Base32`; section 6 of RFC 4648). A masked and a wrapping accumulator.

`Bytes`, `Arithmetic`, `Sorting` and `Signatures` are what these share.

Where the source changes state, so does the model: decoders, encoders and the chain are
classes, in-place sorts and buffers are arrays, and loops are loops. Each is proved against a
specification function or predicate, and the theorems are about those.

## Assumptions, and where they stand

Every assumption is a `requires` of the members that need it.

- `NoCollisions(c, s)`: the compression function does not collide on the finite set `s` of
  calls actually made. No function into 32 bytes is injective on all inputs, so nothing
  stronger is asked.
- `Ideal(a)`: the AEAD adds a 16-byte tag, and a ciphertext opens to a plaintext exactly when it
  is that plaintext sealed under the same nonce and data.
- `Bound(x)`: a ciphertext that was sealed opens under no other nonce and associated data. Asked of
  the ciphertexts at hand, for the same reason.
- `Pair(key, public)`: what a signing key signs, the public key accepts.
- `Lossless(z)`: a compressed frame expands, under its own length, to what it was made from.

## Where the code does not do what one would expect

- The Rust stream code seals 2^32 chunks under one key and then refuses to open them, because it
  advances its checked 32-bit index once more after the last chunk
  (`RustStream.SealedButNotOpened`, and at 2^32 chunks of 4096 `RustStream.GapExample`). Everywhere else opening inverts sealing.
- The Go `OpenStream` wraps its 32-bit chunk index when it computes the length it expects. Past
  2^32 chunks it accepts a body exactly when the last chunk is full; `GoStream.OpenStream` states
  this with `Straight`, and `GoStream.WrapExample` gives a length it fails at. The nonces of such
  a body repeat (`Stream.NonceReuse`).
- `ChunkIndex::build` in Rust accepts an illegal chunk size for an empty plaintext, which has no chunk to
  refuse it at (`ChunkIndex.Build`).
- An index that reduces to a root does not fix the chunk size it was cut with, and a record's
  declared length need not be the plaintext's. What is accepted for a chunk is the plaintext's own
  slice if and only if the declared length makes as many chunks as the plaintext has
  (`ChunkAcceptance.AcceptsExactlyIff`, `Commitment.HandedOutAcceptsExactly`). A record that declares
  twice the length in chunks of twice the size fails it: the index of half-size chunks has the
  count derived, verifies, is handed out and accepts half a chunk (`Commitment.LyingRecord`), and
  the Rust writer adopts it for an external section (`Writer.LyingIsWritten`). A plain section in
  the file whose bytes have been verified cannot do this (`Commitment.PlainSectionAcceptsExactly`).
- The Go cross-check of the manifest looks only at external sections, and at the last under each
  name id; the Rust one looks at every section. For a table they judge every manifest alike if and
  only if whatever shares its name id with an external section is external too, with the same size
  and root (`CrossChecks.JudgedAlikeIff`). Otherwise Go accepts a manifest that Rust refuses: two
  external sections that differ (`CrossChecks.HiddenSection`), or an inline section beside an external
  one (`CrossChecks.InlineBeside`). Both readers refuse a repeated name id before, so they still
  agree (`Readers.GoReadBundle`).

## Model

| member | source | states |
|---|---|---|
| Blake3Tree.SplitPoint | ctf-format/spec/vectors/generate.py:192-196 | Below `n` and at least half of it; with `SplitPointUnique`, the largest power of two below `n`. |
| Blake3Tree.SplitPointUnique | ctf-format/crates/ctf-format/src/chunk.rs:144-152 | Only one number is a power of two with `p < n <= 2p`, so any two ways of finding the split agree. |
| Blake3Tree.SplitByBitLength | ctf-format/crates/ctf-format/src/chunk.rs:144-152 | The split from the number of leading zeros of `n - 1` is the split point. |
| Blake3Tree.LargestPowerOfTwoBelow | ctf-format/spec/vectors/generate.py:192-196 | The doubling loop returns the split point. |
| Blake3Tree.TreeOfInput | ctf-format/spec/vectors/generate.py:199-207 | The leaves of the tree, read left to right, are the input, and the counters start where it was asked to. |
| Blake3Tree.LeafAt | ctf-format/crates/ctf-format/src/chunk.rs:85-120 | Leaf `k` of the tree holds bytes `1024k` to `1024k + 1023`, the last one what is left, under the starting counter plus `k`. |
| Blake3Tree.SmallInputs | ctf-format/crates/ctf-format/src/bundle.rs:110-132 | The hash of up to three leaves written out as calls: which leaf, which counter, which parent, and which call is the root. |
| Blake3Tree.SubtreeInjective | ctf-format/crates/ctf-format/src/chunk.rs:85-120 | Where no two of the calls made collide, a non-root value fixes its bytes and its starting counter. |
| Blake3Tree.HashInjective | ctf-format/crates/ctf-format/src/bundle.rs:110-132 | Where no two of the calls made collide, equal hashes have equal inputs, of any lengths. |
| ChunkTree.SplitAtChunk | ctf-format/crates/ctf-format/src/chunk.rs:144-152 | The key step of the chunk index: the split point of the leaf count is the leaves per chunk times the split point of the chunk count. |
| ChunkTree.JoinCuts | ctf-format/crates/ctf-format/src/chunk.rs:124-166 | Cutting an input every `2^k` leaves and joining the pieces by chunk count rebuilds the single tree over its leaves. |
| ChunkTree.MergeOfJoin | ctf-format/crates/ctf-format/src/chunk.rs:155-166 | Merging the values of the pieces is the value of the joined tree. |
| ChunkIndex.CountUnique | ctf-format/crates/ctf-format/src/chunk.rs:61-69 | A length above `k - 1` chunk sizes and not above `k` has `k` chunks, so the quotient rounded up is the count. |
| ChunkIndex.RootOfChunks | ctf-format/crates/ctf-format/src/bundle.rs:1017-1027 | For every plaintext and legal chunk size, two chunks or more: the chunk chaining values merge to the BLAKE3 root of the whole plaintext. |
| ChunkIndex.EntryOfChunk | ctf-format/crates/ctf-format/src/chunk.rs:85-120 | Entry `i` of an index is the chaining value of chunk `i`, whose length is always accepted. |
| ChunkIndex.Build | ctf-format/crates/ctf-format/src/chunk.rs:176-192 | Succeeds exactly on a non-zero chunk size that is legal or has no chunk to refuse it, and then lists every chunk value. |
| ChunkIndex.Parse | ctf-format/crates/ctf-format/src/chunk.rs:202-239 | Accepts exactly byte strings of 32 bytes an entry, with the expected count of at least two, and returns the entries they spell. |
| ChunkIndex.ToBytes | ctf-format/crates/ctf-format/src/chunk.rs:242-248 | The bytes of an index: its entries, in order. |
| ChunkIndex.IndexBytesInjective | ctf-format/crates/ctf-format/src/chunk.rs:202-248 | Bytes determine the entries. |
| ChunkIndex.RootInjective | ctf-format/crates/ctf-format/src/chunk.rs:281-299 | Where no two calls collide, two indices of one length that reduce to one root are the same index. |
| ChunkIndex.VerifiedIndexIsBuilt | ctf-format/crates/ctf-format/src/chunk.rs:281-299 | An index that verifies against the hash of a plaintext, with its chunk count, is the index built from that plaintext. |
| ChunkIndex.AcceptedChunkIsPlaintext | ctf-format/crates/ctf-format/src/chunk.rs:350-361 | The half of `ChunkAcceptance.AcceptsExactlyIff` from the count: when the index has as many entries as the plaintext has chunks, the data accepted for chunk `i` is exactly that slice. |
| ChunkAcceptance.AcceptsExactlyIff | ctf-format/crates/ctf-format/src/chunk.rs:281-361 | An index that verifies against the hash of a plaintext accepts each of its chunks in its place and nothing else if and only if it has as many entries as the plaintext has chunks. No other count is right, more or fewer. |
| ChunkAcceptance.LyingLength | ctf-format/crates/ctf-format/src/chunk.rs:202-299 | Deriving the count from a declared length is not enough: with twice the length and twice the chunk size declared, an index of half-size chunks has the count derived, verifies, and accepts half a chunk. |
| ChunkIndex.FinerIndexAcceptsHalf | ctf-format/crates/ctf-format/src/chunk.rs:281-299 | For every plaintext longer than two half-size chunks: its index of half-size chunks reduces to the same root, and then half a chunk is accepted. |
| ChunkIndex.VerifyStream | ctf-format/crates/ctf-format/src/chunk.rs:375-418 | Reading in pieces succeeds exactly when no read fails and what is delivered has the declared length and root. |
| ChunkIndex.DeliveredReads | ctf-format/crates/ctf-format/src/chunk.rs:375-418 | Reads that fill at least a byte and at most the buffer, up to an empty one or the end, deliver what they read, in order; a failing or overlong one delivers nothing (`FailingRead`). |
| GoChunkIndex.SplitByShift | ctf-format/go/ctf/chunkindex.go:39-52 | The shift by the bit length of `n - 1`, less one, is the split point. |
| GoChunkIndex.MergeCvIsMerge | ctf-format/go/ctf/chunkindex.go:39-45 | The merge over an index range is the merge of that slice. |
| GoChunkIndex.MergeRootIsRoot | ctf-format/go/ctf/chunkindex.go:48-52 | Its root is the root the other implementation computes. |
| GoChunkIndex.PairedMerge | ctf-format/go/ctf/chunkindex.go:68-84 | Pairing neighbours once leaves the merged value alone, for a power-of-two count. |
| GoChunkIndex.MergeLevel | ctf-format/go/ctf/chunkindex.go:74-82 | One level of pairing: half as many values, each the parent of two neighbours. |
| GoChunkIndex.GoSubtreeCv | ctf-format/go/ctf/chunkindex.go:56-86 | Leaf case, recursive split and level-by-level merge together: the value of the single recursive tree, for every length and counter. |
| GoChunkIndex.GoChunkCount | ctf-format/go/ctf/errors.go:77-88 | The quotient, one more when there is a remainder, is the ceiling; the sum never overflows. |
| GoChunkIndex.GoEntriesAgree | ctf-format/go/ctf/chunkindex.go:90-118 | At every legal chunk size the entries are the index the other implementation builds. |
| GoChunkIndex.BuildChunkIndex | ctf-format/go/ctf/chunkindex.go:105-118 | Fails only without a chunk size, and otherwise lists every chunk's subtree value at its own leaf counter. |
| CborBijection.HeadSound | ctf-format/crates/ctf-format/src/cbor.rs:254-302 | An accepted head is the one shortest head for its major type and argument. |
| CborBijection.ParseSound | ctf-format/crates/ctf-format/src/cbor.rs:304-379 | What is read is well formed, canonical, within the depth cap, and its encoding is exactly the bytes taken. |
| CborBijection.ParseComplete | ctf-format/crates/ctf-format/src/cbor.rs:304-379 | Every canonical value within the cap is read back from its encoding, whatever follows it. |
| CborBijection.DecodeIff | ctf-format/crates/ctf-format/src/cbor.rs:80-101 | A byte string decodes to `v` exactly when `v` is canonical, fits, and the string is its encoding: one spelling per value, one value per spelling. |
| CborBijection.PrefixFree | ctf-format/crates/ctf-format/src/cbor.rs:80-90 | No encoding is a proper prefix of another. |
| CborWire.MeansIff | ctf-format/crates/ctf-format/src/cbor.rs:154-225 | `Means` says in bytes what RFC 8949 makes of a value: head, major type, shortest argument, content, keys in bytewise order. It holds of exactly the encodings of well-formed canonical values. |
| CborWire.DecodeMeans | ctf-format/crates/ctf-format/src/cbor.rs:80-101 | A string decodes to `v` exactly when it is the bytes of `v` by that reading and `v` is nested at most 16 deep. |
| CborWire.ParseMeans | ctf-format/crates/ctf-format/src/cbor.rs:304-379 | Reading from the front of a string gives the value whose bytes come first, whatever follows, within the depth left. |
| CborWire.EncodeMeans | ctf-format/crates/ctf-format/src/cbor.rs:154-202 | Encoding gives `b` exactly when `b` is the bytes of the value with its map entries in some order, and it is nested at most 16 deep. |
| CborWire.FirstByteIsMajor | ctf-format/crates/ctf-format/src/cbor.rs:206-225 | The first byte divided by 32 is the major type of the value. |
| CborWire.SmallStrings | ctf-format/crates/ctf-format/src/cbor.rs:304-379 | `[n]` is `Uint(n)`, `[0x20 + n]` is `Nint(n)` for `n < 24`; `f4`, `f5`, `f6` are false, true, null. |
| CborWire.WiderIntegers | ctf-format/crates/ctf-format/src/cbor.rs:254-302 | `18 n`, `38 n`, `19 a b` and `39 a b` are the integers of those bytes, big-endian. |
| CborWire.ShortStrings | ctf-format/crates/ctf-format/src/cbor.rs:304-379 | Byte and text strings carry their content verbatim behind the head. |
| Utf8Text.Utf8Iff | ctf-format/crates/ctf-format/src/cbor.rs:304-379 | The text strings accepted are the encodings of lists of Unicode scalar values, as RFC 3629 spells them. |
| CborWire.CanonReorders | ctf-format/crates/ctf-format/src/cbor.rs:154-202 | The canonical form of a value is the value with the entries of its maps in another order, and nothing else. |
| CborOrder.EncodeOfDecode | ctf-format/crates/ctf-format/src/cbor.rs:80-101 | Encoding what was decoded reproduces the input. |
| CborOrder.DecodeOfEncode | ctf-format/crates/ctf-format/src/cbor.rs:154-202 | Any value within the cap and without duplicate keys, in any map order, encodes, and decodes to its canonical form. |
| CborOrder.EncodeInjective | ctf-format/crates/ctf-format/src/cbor.rs:154-202 | Two values with one encoding have one canonical form. |
| CborOrder.ReorderedEncode | ctf-format/crates/ctf-format/src/cbor.rs:179-199 | Reordering map entries anywhere, at any level, changes neither success nor a byte of the encoding. |
| CborRust.Decoder.Take | ctf-format/crates/ctf-format/src/cbor.rs:241-247 | Takes the next `n` bytes, or fails where fewer are left. |
| CborRust.Decoder.ReadHead | ctf-format/crates/ctf-format/src/cbor.rs:254-302 | The cursor follows the grammar of heads. |
| CborRust.Decoder.ReadValue | ctf-format/crates/ctf-format/src/cbor.rs:304-379 | The cursor follows the grammar of values, whose meaning in bytes is `CborWire.ParseMeans`: same result, and left where the value ends. |
| CborRust.Decoder.ReadEntries | ctf-format/crates/ctf-format/src/cbor.rs:333-370 | The map loop, whose previous key is a slice of the input, follows the grammar of entries. |
| CborRust.DecodeValue | ctf-format/crates/ctf-format/src/cbor.rs:80-90 | The cursor decoder returns `v` exactly when the bytes mean `v` (`CborWire.Means`) and it is nested at most 16 deep. |
| CborRustEncoder.Encoder.EncodeInto | ctf-format/crates/ctf-format/src/cbor.rs:154-202 | Appends the canonical encoding of the value, or fails exactly when it is too deep or has a duplicate key. |
| CborRustEncoder.EncodeValue | ctf-format/crates/ctf-format/src/cbor.rs:97-101 | Returns `b` exactly when `b` is the bytes of the value with its map entries in some order, and it is nested at most 16 deep; so it fails exactly past the cap or on a duplicate key. |
| CborGo.Decoder.ReadValue | ctf-format/go/ctf/cbor.go:86-238 | The early bounds on counts refuse nothing the grammar (`CborWire.ParseMeans`) accepts, and the re-encoded keys compare as the raw ones. |
| CborGo.DecodeCbor | ctf-format/go/ctf/cbor.go:72-84 | The independent decoder returns `v` exactly when the bytes mean `v` and it is nested at most 16 deep. |
| CborGo.KeyAgain | ctf-format/go/ctf/cbor.go:203-221 | Re-encoding a decoded key gives back its raw bytes. |
| CborGo.EncodeValue | ctf-format/go/ctf/cbor.go:262-264 | Encodes in the order held: fails exactly past the depth cap, and gives a canonical value the bytes that mean it. |
| CborGoEncoder.SortedIsSort | ctf-format/go/ctf/cbor.go:346-368 | Insertion sort and a check of neighbours find duplicates exactly where there are some, and otherwise sort as the other implementation does. |
| CborGoEncoder.Canonicalize | ctf-format/go/ctf/cbor.go:320-372 | Gives the canonical form exactly when no map at any level has a duplicate key and every key at every level is shallow enough to encode by itself; nothing else is too deep for it. |
| CborGoEncoder.EncodeCanonical | ctf-format/go/ctf/manifest.go:43-52 | Canonicalising and then encoding returns `b` exactly when `b` is the bytes of the value with its map entries in some order, like the other implementation. |
| Sorting.InsertionSort | ctf-format/go/ctf/cbor.go:346-356 | In place: sorted, with the same elements as often, and any symmetric relation between members kept. |
| Bytes.ReadersAreLittleEndian | ctf-format/crates/ctf-format/src/header.rs:72-178 | The field readers, byte by byte: the first byte counts ones, each later one 256 times more. |
| Container.HeaderIff | ctf-format/crates/ctf-format/src/header.rs:72-178 | A header parses from exactly the strings that start with its 64 bytes, if it keeps the rules. |
| Container.HeaderToBytes | ctf-format/crates/ctf-format/src/header.rs:229-252 | Writing the fields into a zeroed array gives those bytes. |
| Container.GoHeaderAgrees | ctf-format/go/ctf/header.go:32-97 | The other implementation's checks, in another order and with the file length, accept the same headers. |
| Container.RecordIff | ctf-format/crates/ctf-format/src/section.rs:392-618 | A record parses from exactly the strings that start with its 128 bytes, if it keeps every record rule. |
| Container.RecordToBytes | ctf-format/crates/ctf-format/src/section.rs:621-640 | Writing the fields into a zeroed array gives those bytes. |
| Container.GoRecordAgrees | ctf-format/go/ctf/record.go:71-188 | The other implementation's record parser returns the same result on every 128 bytes. |
| Container.TableUnique | ctf-format/crates/ctf-format/src/section.rs:694-713 | A table spells at most one list of records of a given length. |
| Container.ParseTable | ctf-format/crates/ctf-format/src/section.rs:694-713 | Succeeds exactly when the table spells a list of that many records that keep the rules, and returns it. |
| FooterFormat.FooterToBytes | ctf-format/crates/ctf-format/src/footer.rs:231-254 | Succeeds exactly within the slot rules. |
| FooterFormat.FooterIff | ctf-format/crates/ctf-format/src/footer.rs:115-216 | A footer parses from the end of a file exactly when the file ends with its bytes and it states the file's length. |
| FooterFormat.FooterBytesInjective | ctf-format/crates/ctf-format/src/footer.rs:231-254 | The bytes say where the slots are, so they determine the footer. |
| FooterFormat.CommittedInjective | ctf-format/crates/ctf-format/src/footer.rs:326-332 | What the commitment hashes can be taken apart into header and table. |
| FooterFormat.CommittedAt | ctf-format/crates/ctf-format/src/footer.rs:326-332 | What is hashed is the label, the 64 bytes of the header and the table, in that order. |
| FooterFormat.SigInputAt | ctf-format/crates/ctf-format/src/footer.rs:292-307 | The 67 bytes of the transcript, field by field: label, suite, the two lengths, root, file length. |
| FooterFormat.SigInputInjective | ctf-format/crates/ctf-format/src/footer.rs:292-307 | A signed transcript fixes the suite, the slot lengths, the root and the file length. |
| Layout.ApartIsOneOwner | ctf-format/crates/ctf-format/src/section.rs:750-797 | Regions are pairwise apart exactly when no offset lies in two of them. |
| Layout.CheckPadding | ctf-format/crates/ctf-format/src/section.rs:830-845 | On regions in order of their starts, the cursor sweep accepts exactly when every byte in no region is zero. |
| Layout.SortAndSweep | ctf-format/crates/ctf-format/src/section.rs:774-797 | Sorting, comparing neighbours and sweeping accepts exactly when no offset has two owners and every unowned byte is zero. |
| Layout.ValidateLayout | ctf-format/crates/ctf-format/src/section.rs:727-798 | Accepts exactly when there is one manifest, names are unique, ranges end in bounds, every offset has at most one owner and is zero if it has none. |
| GoLayout.NoOverlap | ctf-format/go/ctf/bundle.go:181-219 | The class-by-class overlap loops accept exactly when all regions are pairwise apart. |
| GoLayout.PaddingZero | ctf-format/go/ctf/bundle.go:221-253 | Insertion sort by start and a sweep that only moves forward accepts exactly the same padding. |
| GoLayout.GoValidateTable | ctf-format/go/ctf/bundle.go:145-255 | Accepts exactly the layouts the sort-and-sweep check accepts. |
| Bundle.BundleUnique | ctf-format/crates/ctf-format/src/bundle.rs:50-145 | A file is at most one bundle. |
| Bundle.ParseBundle | ctf-format/crates/ctf-format/src/bundle.rs:50-145 | Whatever check is made of the manifest: succeeds exactly on the files that satisfy every parsing rule and pass it, and returns what they spell. |
| WireFormat.BundleOnDisk | ctf-format/crates/ctf-format/src/bundle.rs:50-145 | A bundle read off its bytes: header and record fields at their offsets, every rule in numbers, who owns which byte, what the footer commits to. It is this exactly when it parses. |
| WireFormat.HeaderOnDisk | ctf-format/crates/ctf-format/src/header.rs:72-178 | The header's magic, fields and limits, at their offsets. |
| WireFormat.RecordOnDisk | ctf-format/crates/ctf-format/src/section.rs:392-618 | A record's fields at their offsets, and its rules on flag bits, kinds, places and chunk sizes. |
| WireFormat.LayoutOnDisk | ctf-format/crates/ctf-format/src/section.rs:727-798 | One manifest, distinct names, everything before the footer, at most one owner a byte, and zero where there is none. |
| WireFormat.FooterOnDisk | ctf-format/crates/ctf-format/src/footer.rs:115-216 | The footer's fields from its start, the slot lengths of the suite, and the root as the hash of label, header and table. |
| GoBundle.GoFooterAgrees | ctf-format/go/ctf/bundle.go:266-324 | Reads the same footers, the slot lengths of the suite included. |
| GoBundle.GoParse | ctf-format/go/ctf/bundle.go:32-121 | The contract of the other reader, word for word, for every manifest check: the two accept the same files and return the same parts. |
| ManifestText.AnyBidi | ctf-format/crates/ctf-format/src/manifest.rs:683-711 | Walking a name character by character finds a bidirectional control exactly where its three bytes stand, in any byte string. |
| ManifestText.CheckName | ctf-format/crates/ctf-format/src/manifest.rs:701-711 | Accepts exactly the names: length, no dot names, no separator or control byte, no bidirectional control. |
| ManifestText.ValidName | ctf-format/go/ctf/manifest.go:362-381 | The early-exit loops accept the same names. |
| ManifestText.CheckPath | ctf-format/crates/ctf-format/src/manifest.rs:726-738 | Splitting at slashes and checking the pieces accepts exactly the paths all of whose components, empty ones included, are names. |
| ManifestText.ValidRelativePath | ctf-format/go/ctf/manifest.go:383-398 | One scan that checks a component at each slash and at the end accepts the same paths. |
| ManifestText.ValidChallengeId | ctf-format/go/ctf/manifest.go:341-356 | Accepts exactly the ids: 1 to 64 lower-case letters, digits and interior hyphens. |
| ManifestSchema.NameIff | ctf-format/crates/ctf-format/src/manifest.rs:683-711 | A text is an accepted name exactly when it is 1 to 255 bytes of Unicode scalar values without controls, separators or bidirectional controls, and no dot name. |
| ManifestSchema.PathIff | ctf-format/crates/ctf-format/src/manifest.rs:726-738 | A text is an accepted path exactly when it is 1 to 4096 bytes of such names joined by slashes. |
| ManifestSchema.SchemaIff | ctf-format/crates/ctf-format/src/manifest.rs:148-346 | The local rules in terms of the entries of the map: which keys, of which kinds, with which limits. |
| ManifestSchema.AgreesIff | ctf-format/crates/ctf-format/src/manifest.rs:467-560 | The cross-checks in the same terms: every section named, paths of sections only, external sections described and no others. |
| ManifestSchema.ManifestIff | ctf-format/crates/ctf-format/src/bundle.rs:134-136 | A manifest is accepted for a table exactly when its bytes mean a map that keeps the schema and agrees with the table. |
| RustManifest.AllDifferent | ctf-format/crates/ctf-format/src/manifest.rs:267-277 | Comparing neighbours after sorting finds exactly the duplicates. |
| RustManifest.ParseExternal | ctf-format/crates/ctf-format/src/manifest.rs:596-650 | Succeeds exactly on a size, a 32-byte root and a non-empty list of mirrors of legal length, and returns the two numbers. |
| RustManifest.CheckLocal | ctf-format/crates/ctf-format/src/manifest.rs:148-346 | Accepts exactly the values that keep the schema by themselves. |
| RustManifest.ValidateAgainst | ctf-format/crates/ctf-format/src/manifest.rs:467-560 | For any table: accepts exactly when names reach every section, paths name sections, and the described sections are the external ones with the size and root of their records. |
| GoManifest.Index | ctf-format/go/ctf/manifest.go:97-103 | The index, where a later entry replaces an earlier one, has exactly what looking a key up from the front finds. |
| GoManifest.ValidateLocal | ctf-format/go/ctf/manifest.go:105-259 | In another order, through the index and the sets: the same schema. |
| GoManifest.ValidateAgainst | ctf-format/go/ctf/manifest.go:266-337 | For any table: exactly the entry-by-entry rules, over the last external section under each name id. |
| GoManifest.SizeAndRoot | ctf-format/go/ctf/manifest.go:289-298 | On what the local checks let through, the switch that looks at no kind reads exactly the size and the root. |
| GoManifest.TableRulesExact | ctf-format/go/ctf/manifest.go:266-337 | For every manifest and table: what the Rust cross-checks accept is what these accept, on uniform tables only. Uniform: whatever shares its name id with an external section is external too, with the same size and root. |
| GoManifest.TableRulesAgree | ctf-format/go/ctf/manifest.go:266-337 | So on tables with distinct name ids the two accept the same manifests. |
| CrossChecks.GoAcceptsSome | ctf-format/go/ctf/manifest.go:266-337 | For every table at all, there is a manifest that decodes, keeps the schema and passes the Go cross-checks. |
| CrossChecks.JudgedAlikeIff | ctf-format/crates/ctf-format/src/manifest.rs:467-560 | The two implementations judge every manifest alike for a table if and only if the table is uniform. |
| CrossChecks.HiddenSection | ctf-format/go/ctf/manifest.go:276-301 | One way to fail: of two external sections under one id that differ in size or root the Go code looks at the later alone, and passes a manifest that Rust refuses. |
| CrossChecks.InlineBeside | ctf-format/crates/ctf-format/src/manifest.rs:505-560 | The other: of an external and an inline section under one id, in either order, the Go code never looks at the inline one, which Rust refuses. |
| RustManifest.CheckManifest | ctf-format/crates/ctf-format/src/bundle.rs:134-136 | Decoding and both groups of checks accept exactly the manifests of the specification. |
| GoManifest.CheckManifest | ctf-format/go/ctf/manifest.go:57-83 | Re-encoding included, for every table: the specification accepts exactly what this accepts on a uniform table. |
| Readers.ReadBundle | ctf-format/crates/ctf-format/src/bundle.rs:50-145 | With the manifest's own rules in place of the parameter: `Ok(b)` exactly when the file is the bundle `b`, and exactly when it is `b` on disk with a manifest of the schema. |
| Readers.GoReadBundle | ctf-format/go/ctf/bundle.go:32-121 | The same, over every byte string: both readers accept the same files and return the same header, table, footer and manifest. |
| Commitment.VerifyInline | ctf-format/crates/ctf-format/src/bundle.rs:496-545 | Stops exactly on a compressed section over the caps or one in reach that does not expand. Otherwise clean exactly when every section is external or hashes to its root; the mismatches are the names of those that do not, in table order; the counts are of those that do, those out of reach, the external ones and those with an index. |
| Commitment.ReportCountsAll | ctf-format/crates/ctf-format/src/bundle.rs:496-545 | Every section is counted once, in one of the four classes. |
| Commitment.CleanReport | ctf-format/crates/ctf-format/src/bundle.rs:496-545 | The same of the report as such: what its counts and mismatches say of the stored bytes, their plaintexts and roots. |
| Commitment.VerdictMeans | ctf-format/crates/ctf-format/src/bundle.rs:509-540 | What is decided about one section, in terms of caps, decompressor, plaintext and root. |
| Commitment.ChunkIndexOf | ctf-format/crates/ctf-format/src/bundle.rs:255-274 | Hands out the index of its own, known, unsealed records, verified against the record's root; none where there is none; and refuses exactly otherwise. |
| Commitment.HandedOutAcceptsExactly | ctf-format/crates/ctf-format/src/bundle.rs:255-274 | The index handed out for a record rooted in a plaintext accepts exactly its chunks if and only if the record's declared length makes as many chunks as the plaintext. |
| Commitment.PlainSectionAcceptsExactly | ctf-format/crates/ctf-format/src/bundle.rs:255-274 | The record of a plain section in the file that verifies cannot declare another length, so the index handed out accepts exactly the chunks of the stored bytes. |
| Commitment.LyingRecord | ctf-format/crates/ctf-format/src/bundle.rs:255-274 | A parsed record that declares twice the length and carries the index of half-size chunks has that index handed out, and half a chunk is accepted. |
| Commitment.SameHeaderAndTable | ctf-format/crates/ctf-format/src/footer.rs:326-332 | Equal commitment roots, without colliding calls, mean the same header and the same records. |
| Commitment.RootDeterminesFile | ctf-format/crates/ctf-format/src/bundle.rs:50-145 | Two bundles with one commitment root, every inline section plain and verified and every index reducing to its root, are byte-identical before the footer. |
| WriterPlan.PlanPlain | ctf-format/crates/ctf-format/src/bundle.rs:1010-1041 | Taking the root from the index instead of hashing again gives the same plan. |
| WriterPlan.PlanSection | ctf-format/crates/ctf-format/src/bundle.rs:940-1050 | Whichever arm a section takes: what is stored is the payload, the envelopes, or what the transform made of them, and length and root describe the plaintext. |
| WriterPlan.PadTo | ctf-format/crates/ctf-format/src/bundle.rs:1287-1298 | Adds the fewest zeros that align the file offset. |
| WriterPlan.PlaceSection | ctf-format/crates/ctf-format/src/bundle.rs:947-1067 | One payload more at an aligned offset, nothing before it touched, all padding zero; fails only past 2^64. |
| WriterPlan.PlaceSections | ctf-format/crates/ctf-format/src/bundle.rs:933-1067 | Pass 1: every plan placed, the body a tiling of its payloads; fails only where a transform fails or the file outgrows 2^64. |
| WriterIndices.PlaceIndices | ctf-format/crates/ctf-format/src/bundle.rs:1069-1083 | Pass 2: every pending index placed and its own record patched, no other; still a tiling. |
| Writer.Assemble | ctf-format/crates/ctf-format/src/bundle.rs:1085-1105 | Pass 3: table, header, commitment and footer around the body, aligned and last; fails only past 2^64. |
| Writer.PlainIsBack | ctf-format/crates/ctf-format/src/bundle.rs:1010-1041 | The original bytes of every plain inline section come back from the file, and hash to the record's root. |
| WrittenSections.AsPlanned | ctf-format/crates/ctf-format/src/bundle.rs:940-1083 | Each record copies its section, and the bytes it points to are the payload, the envelopes or their transform, and the chunk values of an index. |
| WrittenSections.PlannedIff | ctf-format/crates/ctf-format/src/bundle.rs:940-1050 | Pass 1 takes a section exactly when this can be checked of it: lengths, transforms that succeed, legal chunking, and an index that reduces to the declared root. |
| Writer.WriteBundle | ctf-format/crates/ctf-format/src/bundle.rs:857-1107 | Succeeds only on lists that keep the rules, with a bundle whose every section came out as asked (`WrittenSections.AsAsked`); where a list keeps them and fits, it can fail only because the manifest is refused. |
| Writer.LyingIsPlanned | ctf-format/crates/ctf-format/src/bundle.rs:953-965 | The writer adopts an index of half-size chunks for an external section declared at twice its length. |
| Writer.LyingIsWritten | ctf-format/crates/ctf-format/src/bundle.rs:953-965 | In a written file with such a section, that index is handed out as verified and accepts half a chunk. |
| WriterFile.TiledIsLaidOut | ctf-format/crates/ctf-format/src/section.rs:727-798 | A body tiled by the regions of its table passes every layout check. |
| WriterFile.CarriedIsBundle | ctf-format/crates/ctf-format/src/bundle.rs:1105-1106 | What is written parses, once its manifest passes. |
| WriterFile.CarriedIsRead | ctf-format/crates/ctf-format/src/bundle.rs:1105-1106 | What is parsed back is exactly the header, records and footer that were built. |
| WriterFile.ReadBackIsGood | ctf-format/crates/ctf-format/src/bundle.rs:1105-1106 | If a reader accepts the output, the sections kept every rule. |
| WriterFile.ReadBack | ctf-format/crates/ctf-format/src/bundle.rs:1105-1106 | Reading the output back accepts exactly when the rules are kept and the manifest passes, and gives back what was built. |
| GoWriterLayout.GoPlanAgrees | ctf-format/go/ctf/writer.go:134-168 | With no override, both writers store the same bytes under the same root and list the same index entries. |
| GoWriterLayout.BeginAll | ctf-format/go/ctf/writer.go:74-124 | The first loop takes exactly the sections this writer implements, the manifest in front. |
| GoWriterLayout.WantsIndex | ctf-format/go/ctf/writer.go:142-151 | An index is written from two chunks on, unless the first section of that name says otherwise. |
| GoWriterLayout.PlaceOne | ctf-format/go/ctf/writer.go:129-168 | One payload and its index placed behind the body, nothing before them touched, all padding zero; fails only without a plan or past 2^64. |
| GoWriterLayout.LayOut | ctf-format/go/ctf/writer.go:126-170 | The loop that updates the list in place leaves every record finished over a tiled body. |
| GoWriter.CopySections | ctf-format/go/ctf/writer.go:198-207 | Copying at the recorded offsets into a zeroed buffer gives the body that was laid out. |
| GoWriter.WriteRecord | ctf-format/go/ctf/writer.go:269-284 | Clearing and writing fields gives the record's bytes and touches nothing before them. |
| GoWriter.Fill | ctf-format/go/ctf/writer.go:183-225 | The buffer is header, body, table and unsigned footer, with the commitment over its own bytes. |
| GoWriter.WriteGoBundle | ctf-format/go/ctf/writer.go:62-234 | Succeeds only on sections it takes that keep the rules, with a bundle whose every section came out as asked (`GoWrittenSections.GoAsAsked`); where they also fit, it can fail only because the manifest is refused. |
| GoWrittenSections.GoCarriedAsAsked | ctf-format/go/ctf/writer.go:62-234 | The manifest first, then each record a copy of its section, pointing to the payload and to the chunk values of an index where one is asked for or due. |
| GoWriter.GoPlainIsBack | ctf-format/go/ctf/writer.go:126-139 | The original bytes of every plain inline section come back from the file, and hash to the record's root. |
| GoWriter.WritersAgree | ctf-format/go/ctf/writer.go:126-170 | The files of the two writers hold the same sections: records equal but for offsets, stored bytes and index entries equal. |
| Signing.OtherFooter | ctf-format/crates/ctf-format/src/bundle.rs:1199-1265 | Another well-formed footer with the same root, on the same front, is the same bundle but for the footer. |
| Signing.SignWith | ctf-format/crates/ctf-format/src/bundle.rs:1230-1264 | Succeeds exactly when the signature has the suite's widths and verifies over the transcript fixed beforehand. |
| Signing.SignBundle | ctf-format/crates/ctf-format/src/bundle.rs:1199-1265 | Succeeds exactly on an unsigned bundle it may rewrite and a signature that verifies; bytes before the footer, header, records, root and manifest are unchanged. |
| Signing.SignsIff | ctf-format/crates/ctf-format/src/bundle.rs:1199-1265 | When signing succeeds, spelled out: the one feature bit, no signature yet, room for two, the widths of the suite, and a signature accepted over its transcript. |
| Signing.SignedSays | ctf-format/crates/ctf-format/src/footer.rs:292-307 | The transcript signed names the suite, both lengths, the root and the length of the signed file. |
| Signing.SignedHolds | ctf-format/crates/ctf-format/src/bundle.rs:1230-1264 | Where the root and the two signatures are in the signed file. |
| Stream.StreamNonce | ctf-format/go/ctf/crypto.go:244-254 | Writing the fields into a zeroed array gives the nonce. |
| Stream.NonceInjective | ctf-format/go/ctf/crypto.go:244-254 | A nonce says which section, which index and whether it is the last. |
| Stream.NonceReuse | ctf-format/go/ctf/crypto.go:281-303 | Under one key two chunks share a nonce exactly when section and final flag agree and the indices agree modulo 2^32. |
| Stream.NoncesDistinct | ctf-format/crates/ctf-format/src/crypto/stream.rs:39-53 | Up to 2^32 chunks a section, no nonce repeats under one key. |
| Stream.NonceAt | ctf-format/go/ctf/crypto.go:244-254 | The nonce byte by byte: section, zeros, index big-endian, final flag. |
| Stream.AadAt | ctf-format/go/ctf/crypto.go:257-266 | The 29 bytes of associated data: label, section, index, declared length, suite. |
| Stream.AadInjective | ctf-format/crates/ctf-format/src/crypto/stream.rs:116-126 | So they fix section, index, length and suite. |
| Stream.OpenIff | ctf-format/crates/ctf-format/src/crypto/stream.rs:206-251 | With an ideal AEAD, a body opens to a list of chunks exactly when it is their frames: nothing truncated, extended, reordered or re-chunked. |
| StreamBinding.FrameInBody | ctf-format/go/ctf/crypto.go:270-303 | Chunk `j` of a body lies at `j * (chunk size + 20)`: its length, then the chunk sealed under the nonce and data of its place. |
| StreamBinding.FramesAre | ctf-format/crates/ctf-format/src/crypto/stream.rs:140-200 | The body of any chunks is one such frame after the other. |
| StreamBinding.OnlyInPlace | ctf-format/crates/ctf-format/src/crypto/stream.rs:206-251 | Chunks sealed under one key, taken from any of its bodies and put together, open only where each was sealed to stand, the last and no other with the final flag. |
| StreamBinding.OnlyWhole | ctf-format/crates/ctf-format/src/crypto/stream.rs:206-251 | Frames of a sealed body in any order, repeated or left out, open only if they are the whole body in order, under the section, length and suite it was sealed for. |
| StreamBinding.SealedElsewhere | ctf-format/go/ctf/crypto.go:307-378 | A non-empty body sealed for one section, length and suite is misplaced under any other, which `OpenStream` and `OpenChunked` refuse. |
| Stream.ChunksOfJoined | ctf-format/crates/ctf-format/src/crypto/stream.rs:257-289 | Chunks of the expected number and lengths are the chunks of what they join to. |
| GoStream.SealStream | ctf-format/go/ctf/crypto.go:270-303 | Seals every plaintext for a known suite, legal chunk size and 32-byte key, to the body `SealedStreamAt` spells; an empty one needs no key. |
| GoStream.SealedStreamAt | ctf-format/go/ctf/crypto.go:270-303 | That body chunk by chunk: length prefix, and the chunk of the plaintext sealed under the AEAD of the key with nonce and data of this suite, section, length and place. |
| GoStream.AcceptsSound | ctf-format/go/ctf/crypto.go:307-378 | What the opening loop and its final checks accept is the sealed body of what they return. |
| GoStream.AcceptsComplete | ctf-format/go/ctf/crypto.go:307-378 | A sealed body is accepted wherever the chunk index stays straight. |
| GoStream.OpenStream | ctf-format/go/ctf/crypto.go:307-378 | Returns `p` exactly when `p` has the declared length, the body is `p` sealed, and there are at most 2^32 chunks or no short last one. Refuses what was sealed for another section, length or suite, and any splice of sealed frames. |
| GoStream.WrapExample | ctf-format/go/ctf/crypto.go:322-361 | One byte past 2^32 chunks of 4096, the 32-bit index wraps over a short last chunk, and the loop accepts the sealed body of such a plaintext as no list of chunks. |
| RustStream.SealChunked | ctf-format/crates/ctf-format/src/crypto/stream.rs:175-197 | Seals exactly legal chunk sizes, 32-byte keys and at most 2^32 chunks, to the same body as the other implementation. |
| RustStream.OpenChunkedFrames | ctf-format/crates/ctf-format/src/crypto/stream.rs:206-251 | Returns every chunk of a body, provided there are fewer than 2^32. |
| RustStream.OpenChunked | ctf-format/crates/ctf-format/src/crypto/stream.rs:257-289 | Returns `p` exactly when the body is `p` sealed, `p` has the declared length and fewer than 2^32 chunks. Refuses what was sealed for another section, length or suite, and any splice of sealed frames. |
| RustStream.SealedButNotOpened | ctf-format/crates/ctf-format/src/crypto/stream.rs:245-248 | Sealing and opening disagree at exactly 2^32 chunks, and nowhere else. |
| RustStream.GapExample | ctf-format/crates/ctf-format/src/crypto/stream.rs:245-248 | A length at which they do: 2^32 chunks of 4096 are sealed, and the body opens to nothing. |
| SealedSections.CompressFrames | ctf-format/crates/ctf-format/src/compress.rs:94-108 | One frame per chunk, and one for an empty plaintext; fails exactly where a frame does. |
| SealedSections.EncryptSection | ctf-format/crates/ctf-format/src/bundle.rs:1122-1175 | Compresses and then seals, each frame its own chunk; fails exactly without a chunk size, on an uncompressible or oversized frame, or past 2^32 chunks. |
| SealedSections.UnpackFrames | ctf-format/crates/ctf-format/src/bundle.rs:418-439 | Every frame must give exactly its share of the plaintext; the length left over never goes below zero. |
| SealedSections.DecryptSection | ctf-format/crates/ctf-format/src/bundle.rs:355-452 | Succeeds exactly on its own, known, inline, encrypted sections within the caps whose body decrypts under a 32-byte key to the record's root. |
| SealedSections.DecryptIff | ctf-format/crates/ctf-format/src/bundle.rs:391-450 | A body decrypts to `p` exactly when it is the frames of `p` sealed in order under this key, and `p` has the record's root. |
| SealedWriter.PrePass | ctf-format/crates/ctf-format/src/bundle.rs:871-931 | Seals every encrypted section and renders the envelopes; fails exactly where sealing or wrapping does, or where envelopes have no keys section. |
| SealedWriter.PreparedIff | ctf-format/crates/ctf-format/src/bundle.rs:871-931 | When it succeeds: every encrypted section inline, chunked, wrapped and in at most 2^32 sealable chunks, and the envelopes encodable into a keys section, or none. |
| SealedWriter.SealedComesBack | ctf-format/crates/ctf-format/src/bundle.rs:1150-1164 | A sealed section decrypts to its plaintext, except one of exactly 2^32 chunks. |
| SealedWriter.EncryptedIsBack | ctf-format/crates/ctf-format/src/bundle.rs:980-1000 | Every encrypted section of a written file decrypts, under its content key, to the bytes it was given, exactly when it is within the caps and below 2^32 chunks. |
| SealedWriter.EncryptedIsFrames | ctf-format/crates/ctf-format/src/bundle.rs:1122-1175 | What an encrypted section stores, frame by frame: its chunks, or what each compressed to, sealed for their places. |
| SealedWriter.SectionComesBack | ctf-format/crates/ctf-format/src/bundle.rs:966-1050 | Uncompressed, or compressed without loss: a plain section gives its bytes back, share by share, and a keys section bytes that decode to the canonical array of what wrapping gave for every encrypted section, in list order; both with the length and root of their record. |
| SealedWriter.WriteSealed | ctf-format/crates/ctf-format/src/bundle.rs:857-1107 | Pre-pass and passes together: a bundle that holds and gives back what was asked (`Delivers`), the envelopes included; when the pre-pass succeeds on sections that keep the rules and fit, only the manifest can be refused. |
| CborFields.HoldsIff | ctf-format/crates/ctf-format/src/entitlement.rs:333-428 | With distinct keys, a map has exactly these fields and no unknown key if and only if its entries are theirs. |
| CborFields.FieldsInjective | ctf-format/crates/ctf-format/src/entitlement.rs:226-273 | A field map determines its fields, over every combination of absent ones. |
| EntitlementRecord.ComputeRecordId | ctf-format/crates/ctf-format/src/entitlement.rs:458-464 | Never fails, and is the hash of the label "ctf/entitlement/record/v1" and the canonical encoding of the record without signatures. |
| EntitlementRecord.RecordEntries | ctf-format/crates/ctf-format/src/entitlement.rs:226-273 | The entries of a record's map, key by key, with its signatures or without. |
| EntitlementRecord.SigEntries | ctf-format/crates/ctf-format/src/entitlement.rs:276-287 | The two entries of a signature's map. |
| EntitlementRecord.SignaturesLeaveId | ctf-format/crates/ctf-format/src/entitlement.rs:458-464 | Signatures do not enter the id. |
| EntitlementRecord.IdDetermines | ctf-format/crates/ctf-format/src/entitlement.rs:226-273 | Without colliding calls, records with one id agree on every field but the signatures. |
| EntitlementCodec.RecordCodec | ctf-format/crates/ctf-format/src/entitlement.rs:333-428 | A value reads as record `r` exactly when it is the canonical map of `r`. |
| EntitlementCodec.ReadIff | ctf-format/crates/ctf-format/src/entitlement.rs:763-775 | Every item of a decoded array reads as its record exactly when the bytes spell those records. |
| EntitlementChain.TranscriptInjective | ctf-format/crates/ctf-format/src/entitlement.rs:507-514 | A signed transcript fixes the number, the id and the suite. |
| EntitlementChain.TranscriptAt | ctf-format/crates/ctf-format/src/entitlement.rs:507-514 | The 60 bytes of the transcript, field by field. |
| EntitlementChain.NoCrossReplay | ctf-format/crates/ctf-format/src/entitlement.rs:500-514 | No record transcript is a footer transcript. |
| EntitlementChain.Sign | ctf-format/crates/ctf-format/src/entitlement.rs:475-495 | Succeeds exactly with a known suite and keys that sign. The platform's signature goes into its slot, the holder's into its own on a transfer and nothing otherwise; after a failure a platform signature already made stays. |
| EntitlementChain.SignedVerifies | ctf-format/crates/ctf-format/src/entitlement.rs:475-495 | Signed with the keys it is checked against, a record is authentic. |
| EntitlementChain.Validate | ctf-format/crates/ctf-format/src/entitlement.rs:719-759 | Accepts exactly the non-empty chains that start with a grant under a root after 32 zeros, number from zero, link each record to its predecessor's id, and carry the platform's signature everywhere and a holder's exactly on transfers. |
| EntitlementChain.Chain.AppendGrant | ctf-format/crates/ctf-format/src/entitlement.rs:628-657 | The chain is that grant alone, signed by the platform, or unchanged; it fails only on a chain begun already or where signing does. |
| EntitlementChain.Chain.AppendTransfer | ctf-format/crates/ctf-format/src/entitlement.rs:668-701 | One transfer more, numbered, linked to the last record and signed by both keys, or unchanged; it fails only on an empty or full chain or where signing does. |
| EntitlementChain.Chain.SignRecord | ctf-format/crates/ctf-format/src/entitlement.rs:828-839 | Nothing but the signatures of that record moves; on success both are over its transcript. |
| EntitlementChain.SigningKeepsIds | ctf-format/crates/ctf-format/src/entitlement.rs:828-839 | Signing or re-signing any record changes no record's id. |
| EntitlementChain.StepKeeps | ctf-format/crates/ctf-format/src/entitlement.rs:628-701 | Every operation, failing ones included, keeps a chain empty or valid. |
| EntitlementChain.ReachableIsValid | ctf-format/crates/ctf-format/src/entitlement.rs:628-839 | Every chain reachable from the empty one by any run of operations is empty or valid. |
| EntitlementChain.StepVerifies | ctf-format/crates/ctf-format/src/entitlement.rs:628-839 | With matching keys, no operation, failing or not, makes an authentic chain another. |
| EntitlementChain.ReachableVerifies | ctf-format/crates/ctf-format/src/entitlement.rs:628-891 | Every chain reached by operations that sign with matching keys under one suite is authentic throughout, so `VerifySignatures` accepts it. |
| EntitlementChain.HistoryFixed | ctf-format/crates/ctf-format/src/entitlement.rs:719-759 | Equal ids at one position fix every earlier record, signatures apart. |
| EntitlementChain.LastIdFixesChain | ctf-format/crates/ctf-format/src/entitlement.rs:719-759 | Two valid chains whose last ids agree have one length and agree on every record, signatures apart. |
| EntitlementChain.VerifySignatures | ctf-format/crates/ctf-format/src/entitlement.rs:851-891 | Accepts exactly when the suite is known, the platform's key accepts its signature on every record, and on every transfer the key of the holder named by the record before accepts that holder's. |
| EntitlementChain.EncodeChain | ctf-format/crates/ctf-format/src/entitlement.rs:810-817 | Encodes exactly the valid chains, to the bytes of the array of their records. |
| EntitlementChain.FromBytes | ctf-format/crates/ctf-format/src/entitlement.rs:763-775 | Returns a chain exactly when it is valid and the bytes are its encoding. |
| Base32.TextValue | ctf-format/crates/ctf-format/src/derive.rs:183-214 | The symbols, read in base 32, are the input extended by zero bits: symbol `k` is bits `5k` to `5k + 4`. |
| Base32.LetterIs | ctf-format/crates/ctf-format/src/derive.rs:183-214 | The symbols are `a` to `z` and then `2` to `7`. |
| Base32.FirstVector | ctf-format/crates/ctf-format/src/derive.rs:183-214 | The first vector of RFC 4648: "f" is "my". |
| Base32.Base32Injective | ctf-format/crates/ctf-format/src/derive.rs:183-214 | Different inputs have different texts. |
| Base32.Base32Lower | ctf-format/crates/ctf-format/src/derive.rs:183-214 | The masking loop emits that text, `ceil(8n / 5)` symbols long. |
| Base32.Base32LowerNoPad | ctf-format/go/ctf/flags.go:24-41 | The unmasked, wrapping 64-bit loop emits the same text, for every byte string. |

## Left out

- `ChunkIndex.RootOfChunks`: does not model the 64-byte block chain inside a leaf or the permutation;
  a leaf is one uninterpreted call on its bytes and counter. The counter is unbounded.
- `Bundle.ParseBundle`, `GoBundle.GoParse`: take the manifest's checks as a parameter; `Readers.ReadBundle` and
  `Readers.GoReadBundle` put each implementation's own in its place.
- `ChunkAcceptance.AcceptsExactlyIff`: asks about data whose check makes calls among the finite set `s`, since no
  finite set covers all data and no function into 32 bytes is collision-free on all of it.
- `RustManifest.CheckLocal`: the accessors of a decoded manifest and building a new one are not part of this model.
- `Bundle.ParseBundle`: models the container rule set only; the older rule sets a reader can be asked for are not part of
  this model.
- `Commitment.RootDeterminesFile`: needs every inline section plain. For an encrypted section the root commits to the
  plaintext and not to the stored bytes, so no such statement holds of it.
- `Commitment.VerifyInline`: takes the decompressor as a parameter; progress callbacks are left out.
- `WriterPlan.PlanSection`: takes sealing and compression as parameters, which `SealedWriter.TransformsOf` then supplies;
  lengths that do not fit a `u64` are a failure, where the source cannot hold them in memory.
- `GoWriter.WriteGoBundle`: asks for fewer than 2^32 - 1 sections and plaintexts below 2^64 bytes, as Go slices have;
  the encoded manifest is given.
- `SealedWriter.WriteSealed`: takes the content keys and the key envelopes as parameters, and asks that the
  envelopes are well-formed CBOR; drawing keys and the hybrid key encapsulation are not part of this model.
- `EntitlementChain.VerifySignatures`: takes the signature checks and the holders' keys as parameters.
- `CborRustEncoder.Encoder.SortedKeys`, `RustManifest.AllDifferent`: the standard library's sort is a specification
  function, `Sorting.SortBy`; the insertion sorts written out in the Go code are modelled in place.
- `StreamBinding.OnlyWhole`: asks that each ciphertext of the body is `Bound`, and that the body has at most 2^32 chunks,
  past which nonces repeat (`Stream.NonceReuse`).
- Error identities and their order: a failure is a failure.
- Capacity hints and bounds on memory use.
- zstd, BLAKE3 compression, AEADs, HKDF, key encapsulation and signatures themselves.
- The command line, the terminal interface, authoring and packing, descriptors, policies, the serving projection, the
  OCI transport, the conformance runner and the C generator header.
