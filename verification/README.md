# Roughenough, modelled and proved in Dafny

Roughenough is a Roughtime server and client (draft-ietf-ntp-roughtime-14, with a draft-08 variant). A
request travels: parse, batch, Merkle tree, one signature for the whole batch, one framed response
per requester, client parse and validation, and finally the causality check over a chain of
measurements from several servers. This project models that path and proves what each part promises
and what the parts promise together.

How the model is laid out:

- `Primitives`, `Cursor`, `WordList`: bytes, words and their two wire orders; the position-advancing
  cursor over an array; lists of four-byte items that are checked while they are read.
- `Tag`, `Header`, `Versions`, `Certificate`, `SignedResponse`, `Response`, `LegacyResponse`, `Request`,
  `Frame`, `ResponseFrame`: the wire codec. Every message has a pure printer `Encode` and parser
  `Decode` (bytes to value, rest or error, with the error cases of the code), and imperative methods
  over the cursor that are proved equal to them. `Legacy...` is draft-08.
- `MerkleSpec`, `MerkleBinding`, `MerklePath`, `MerkleTree`, `MerkleHistory`: the tree, first row by row
  as the code builds it, then from the root down as an independent reference (`NodeAt`); binding; the
  mutable tree and path buffer; histories of operations.
- `Crypto`, `OnlineKey`, `Batch`, `Service`, `Server`, `Worker`, `WorkerRun`, `WorkerSafety`: keys and
  delegations, what a batch is answered with, the handlers as classes, the worker as a step relation
  over everything the clock, the network and the random generator may bring, the worker as a class that
  refines it, and safety of every run.
- `Validation`, `EndToEnd`: the client's checks, and that it accepts what the server sends.
- `Sequence`, `Causality`, `Reporting`, `TrailedReply`, `MeasuredRun`: chained measurements, the causality
  check, reports of whole runs, a reply that spoils a report, and what a query of an honest worker yields.
- `MerkleReference`, `PlainWire`, `PlainRequest`, `PlainResponse`, `PlainFault`, `ChainedNonce`,
  `PlainValidation`, `PlainAnswer`, `PlainRun`, `ReportChain`: the same things once more on byte strings,
  the digest and the signature functions alone, without the codec's or the tree's own functions. Client
  and server share much code, so agreement of the two says nothing where both are wrong alike; here
  every shared function is tied to an independent description of what is hashed, signed, sent, accepted
  and refused, with the first fault of what is refused.
- `ServiceCount`, `WorkerAccount`: exact accounts of a round and of whole runs: every counter by kind of
  datagram or send, what is published when, who is answered, when keys rotate.

Modelling choices. SHA-512 cut to 32 bytes and Ed25519 are arbitrary functions (`Crypto.Suite`).
Acceptance assumes only that what was signed verifies (`Suite.Ideal`). Soundness assumes nothing of
the hash: it concludes "or two different strings that were actually hashed share a digest, or one of
them has the all-zero digest". Clock readings, random bytes, datagrams and outcomes of sends are
arguments. The callback that receives each response is the sequence of what it would be given. Words
of 32 and 64 bits are bounded integers; sums that the code computes in them are proved to fit, required
to fit, or written with the cast. Draft sections are those of draft-ietf-ntp-roughtime-14.

Where a promise is not met for all inputs, the exact condition is proved:

- A header comes back from its printed form exactly when its offsets and tags are in order.
- A response or signed response comes back exactly when it is `Coherent`; a parsed frame reprints to
  the received bytes exactly when nothing trails it, its announced length is its length and no
  version was sent as the legacy zero.
- Recomputing the root gives the root of the reference tree if and only if no leaf was pushed behind a
  padding node since the last clear, up to a break of the hash on what the two trees hash; a history of
  four leaves that meets the other case is given.
- The nonce of a query hashes the bytes of the response before it as they were received exactly when
  nothing trailed them, the announced length was exact and no version was sent as zero; otherwise it
  hashes the frame that the parsed response prints to, which for a draft-08 response is that of its
  converted form. Equal nonces mean equal frames and equal random
  bytes, or a collision on two strings that are named.
- Any report, of a run or not, passes the chaining check if and only if it has two entries or more, all
  parse, the first has no random bytes, and each later nonce is the digest of the frame of the response
  before and the random bytes. So changing a response or random bytes is refused, up to a collision,
  with one exception: a response that parses to one that prints to the same frame, as with bytes put
  behind the message.
- A byte string is a request, or a response of either draft, if and only if it is a header with the tags
  of its form, ordered and aligned offsets in bounds, and then the values with their version words; a
  request's TYPE word must be zero and a response's one.
- A worker publishes in exactly the turns that begin at or after the due time, and the published
  snapshots together with what is not published yet add up, counter by counter, to what the run
  received, accepted and sent.
- A draft-08 client accepts its response exactly when its nonce lies at bytes 40 to 72 of its request, up to
  breaking the digest; requests that announce one version meet this, and an accepted request that
  announces two and does not is given.
- The report of a successful run passes the chaining check if and only if, in every recorded response,
  the last header offset and SREP's offset of ROOT stay within the message itself. A parse compares both
  with all the bytes that were received, so a server can send bytes behind a message that make the client
  accept what its report cannot carry; such a frame, and the refusal of every run that begins with it,
  are given.
- Signing within one second of the worker's clock reading keeps every signature inside the delegation
  window; with two seconds a run oversteps it, for every configuration.
- `root_from_paths` binds the low bits of INDX only, so inclusion is stated modulo 2^depth and
  indices that differ by a multiple of 2^depth climb alike. The code
  hashes the current node on the left where the bit is 0; the operand order printed in section 5.3.1 is
  the reverse, and the code is followed.

## Model

| member | source | states |
|---|---|---|
| MerkleSpec.RootIsTopNode | crates/roughenough-merkle/src/lib.rs:128-170 | The root obtained by padding and pairing row after row is the top node of the tree defined from the root down, where every position without a real node is zero |
| MerkleSpec.RowIsNodeAt | crates/roughenough-merkle/src/lib.rs:128-170 | Every intermediate row agrees node by node with that independent definition, at every level |
| MerkleSpec.WidthIsCeiling | crates/roughenough-merkle/src/lib.rs:145-156 | A level has ceil(n / 2^level) real nodes |
| MerkleSpec.DepthIsCeilLog2 | crates/roughenough-merkle/src/lib.rs:100-126 | The depth of every path is the least d with n <= 2^d |
| MerkleSpec.BitsAreDivision | crates/roughenough-merkle/src/lib.rs:200-224 | The side bits taken while climbing are INDX mod 2^d, those left over INDX / 2^d |
| MerkleSpec.RootOfPadded | crates/roughenough-merkle/src/lib.rs:148-152 | Computing the root again over the row that was padded in place gives the same root |
| MerkleSpec.BatchPathVerifies | crates/roughenough-merkle/src/lib.rs:100-224 | Completeness: every leaf of every batch, climbed along the path extracted for it, reaches the root |
| MerkleBinding.ProofBindsLeaf | crates/roughenough-merkle/src/lib.rs:200-224 | Binding: if any index, data and path climb to a batch's root, the path has the tree's depth and the data is the leaf at index mod 2^depth, or a collision or zero preimage among the hashed inputs is exhibited; covers paths too short and too long |
| MerkleBinding.IndexBoundModuloDepth | crates/roughenough-merkle/src/lib.rs:200-224 | No more than that is bound: indices that differ by a multiple of 2^depth climb to the same hash along every path |
| MerkleBinding.RootBindsBatch | crates/roughenough-merkle/src/lib.rs:128-170 | Two batches of any sizes with equal roots are equal, or the hash is broken on what was hashed |
| MerkleBinding.OctetsInjective | crates/roughenough-merkle/src/lib.rs:182-198 | The 0x00 and 0x01 tweaks keep leaf and node inputs apart: equal octets come from equal inputs |
| MerkleBinding.BrokenTreeBreaksDigest | crates/roughenough-merkle/src/lib.rs:182-198 | A break of the tree hash is a collision or zero value of the digest on concrete byte strings |
| MerkleTrees.ReserveMatchesDepth | crates/roughenough-merkle/src/lib.rs:61-92 | The level count that reserve computes, by trailing zeros or logarithm, is the path depth plus one for every n |
| MerkleTrees.RaisedAllBuilds | crates/roughenough-merkle/src/lib.rs:128-170 | All rounds of compute_root leave every level equal to the padded row of the specification, whatever stale rows were there |
| MerkleTrees.MerkleTree.PushLeaf | crates/roughenough-merkle/src/lib.rs:55-58 | Appends the tweaked leaf hash to the leaf row and changes nothing else |
| MerkleTrees.MerkleTree.Reserve | crates/roughenough-merkle/src/lib.rs:61-92 | Adds empty levels up to the target count and no others |
| MerkleTrees.MerkleTree.ComputeRoot | crates/roughenough-merkle/src/lib.rs:128-170 | Returns the root of the leaf row, each node the digest of 0x01, first and second child, and leaves the levels built, with in-place padding |
| MerkleTrees.MerkleTree.GetPathsTo | crates/roughenough-merkle/src/lib.rs:100-126 | Collects exactly the sibling path of the specification from the built levels |
| MerkleTrees.MerkleTree.RootFromPaths | crates/roughenough-merkle/src/lib.rs:200-224 | The loop computes the climb of the path from the digest of 0x00 and the leaf, by the bits of the index, as bytes |
| MerkleTrees.MerkleTree.Clear | crates/roughenough-merkle/src/lib.rs:172-176 | Empties every level and keeps their number |
| MerkleReference.NodeIsPlain | crates/roughenough-merkle/src/lib.rs:182-198 | A node is the digest of 0x01, the first child and the second child, in this order, as bytes |
| MerkleReference.BatchRootIsPlain | crates/roughenough-merkle/src/lib.rs:128-198 | The root of every batch equals a reference on byte strings: leaves are digests of 0x00 and the request, neighbours are hashed in order, one that is left over with 32 zero bytes, until one is left |
| MerkleReference.BatchProofIsPlain | crates/roughenough-merkle/src/lib.rs:100-126 | The path of every leaf of every batch is, row by row, the neighbour in that reference, or zeros where there is none |
| MerkleReference.ClimbIsPlain | crates/roughenough-merkle/src/lib.rs:200-224 | For every index and path the climb equals a reference on byte strings in which the current node goes first where INDX is even, and INDX is halved |
| MerkleHistory.HistoryRefinesReferenceTree | crates/roughenough-merkle/src/lib.rs:55-180 | After any history that pushes before it computes, whatever came before the last clear and however often roots were computed, the root is the top node of the reference tree over the leaves since that clear |
| MerkleHistory.RootIsReferenceExactly | crates/roughenough-merkle/src/lib.rs:55-180 | For every history with leaves since the last clear, the computed root is the top node of the reference tree if and only if no leaf was pushed behind a padding node, or the hash is broken on what the two trees hash |
| MerkleHistory.MisplacedRootDiffers | crates/roughenough-merkle/src/lib.rs:55-180 | The other half alone: a leaf behind a padding node gives another root, at equal depth and at different depths, or a collision or zero preimage among the hashed inputs |
| MerkleHistory.CleanExactly | crates/roughenough-merkle/src/lib.rs:148-152 | The leaf row is the batch, plus at most one padding node, if and only if no leaf was pushed behind a padding node |
| MerkleHistory.LeafRowOfRun | crates/roughenough-merkle/src/lib.rs:55-180 | The leaf row depends only on the operations since the last clear |
| MerkleHistory.PushAfterPaddingIsMisplaced | crates/roughenough-merkle/src/lib.rs:148-152 | The counterexample: a fourth leaf pushed after the root of three lands in fifth place, and the root is not that of four leaves, up to a break |
| MerklePaths.MerklePath.PushElement | crates/roughenough-protocol/src/tags/path.rs:51-63 | Appends one element in the fixed buffer and keeps all earlier ones |
| MerklePaths.MerklePath.CopyFrom | crates/roughenough-protocol/src/tags/path.rs:65-69 | The elements become those of the other path, whatever stale bytes were there |
| MerklePaths.PathParsePrinted | crates/roughenough-protocol/src/tags/path.rs:96-145 | A printed path is read back from its announced length |
| MerklePaths.PathPrintParsed | crates/roughenough-protocol/src/tags/path.rs:121-145 | A path that is read has the announced length, and reprints to its bytes |
| MerklePaths.GetPath | crates/roughenough-protocol/src/tags/path.rs:121-145 | The reader agrees with the parser, including the errors for long, ragged and cut-off paths |
| PlainFaults.PathFault | crates/roughenough-protocol/src/tags/path.rs:121-145 | Which error each kind of bad path length gives, and in which order |
| Cursors.ParseCursor.TryGetFixed | crates/roughenough-protocol/src/cursor.rs:160-167 | Yields the next n bytes and advances by them, or fails and stays, naming both sizes |
| Cursors.ParseCursor.TryGetU32 | crates/roughenough-protocol/src/cursor.rs:48-57 | Reads four bytes as a little-endian word |
| Cursors.ParseCursor.TryGetU64 | crates/roughenough-protocol/src/cursor.rs:96-105 | Reads eight bytes as a little-endian word |
| Cursors.ParseCursor.TryGetU32BE | crates/roughenough-protocol/src/cursor.rs:71-80 | Reads four bytes as a big-endian word |
| Cursors.ParseCursor.TryGetU64BE | crates/roughenough-protocol/src/cursor.rs:121-130 | Reads eight bytes as a big-endian word |
| Cursors.ParseCursor.PutSlice | crates/roughenough-protocol/src/cursor.rs:188-195 | Writes the bytes behind those already written and changes no other byte of the buffer |
| Cursors.ParseCursor.TryPutFixed | crates/roughenough-protocol/src/cursor.rs:176-186 | The same, or an error with nothing written when they do not fit |
| Cursors.WordsReprint | crates/roughenough-protocol/src/cursor.rs:37-130 | A word that is read, in either order, prints to the bytes it was read from |
| Tags.OrderIsNumeric | crates/roughenough-protocol/src/tag.rs:39-50 | Comparing little-endian images byte by byte orders tags as the numbers of section 4.2 |
| Tags.InvalidIsLeast | crates/roughenough-protocol/src/header.rs:68-84 | Nothing is below the invalid tag with which the tag check starts |
| Tags.WireIsName | crates/roughenough-protocol/src/tag.rs:60-97 | On the wire a tag is the four letters of its name |
| Headers.ParsePrinted | crates/roughenough-protocol/src/header.rs:23-88 | For every number of tags, a printed header is accepted back, unchanged, if and only if its offsets are multiples of four in non-decreasing order and its tags are known and non-decreasing as numbers |
| Headers.PrintParsed | crates/roughenough-protocol/src/header.rs:23-88 | Every accepted header meets that condition and reprints to the bytes it was read from |
| Headers.BoundsMeanLast | crates/roughenough-protocol/src/header.rs:90-98 | The bounds check passes exactly when the last offset is within the length, cast to 32 bits |
| Headers.ToWire | crates/roughenough-protocol/src/header.rs:23-39 | The printing loops write exactly the specified header, or fail before writing |
| Headers.FromWire | crates/roughenough-protocol/src/header.rs:41-88 | The parsing loops agree with the parser on values and on every error |
| Headers.GetOffsets | crates/roughenough-protocol/src/header.rs:53-66 | The loop with its running prior offset reads and checks each offset as specified |
| Headers.GetTags | crates/roughenough-protocol/src/header.rs:68-85 | The loop with its running prior tag reads and checks each tag as specified |
| PlainWire.HeaderIsPlain | crates/roughenough-protocol/src/header.rs:23-39 | For any number of tags, a printed header is the count and the offsets as little-endian words, byte by byte, and then the letters of the tags |
| PlainFaults.HeaderFault | crates/roughenough-protocol/src/header.rs:41-88 | Another count is reported first; then the first offset that is unaligned or below the one before, with its index and value; only then the first tag that is unknown or out of order |
| PlainFaults.BoundsFault | crates/roughenough-protocol/src/header.rs:90-98 | The first offset beyond the values is reported, with its index |
| WordLists.ReadPrinted | crates/roughenough-protocol/src/header.rs:53-85 | A printed list is read back exactly when every item passes its running check |
| WordLists.FitMeansInOrder | crates/roughenough-protocol/src/header.rs:53-85 | Checking each item against the one before accepts exactly the lists that are valid and ordered throughout |
| Versions.VersionPrintParsed | crates/roughenough-protocol/src/protocol_ver.rs:46-68 | A parsed version reprints to its bytes unless they were the legacy zero, which stands for draft-08 |
| Versions.VersionsParsePrinted | crates/roughenough-protocol/src/version_list.rs:68-111 | A printed version list comes back exactly when it ascends, repeats allowed |
| Versions.VersionsPrintParsed | crates/roughenough-protocol/src/version_list.rs:87-111 | A parsed list ascends and reprints to its bytes exactly when no version word was the legacy zero |
| Versions.GetVersions | crates/roughenough-protocol/src/version_list.rs:87-111 | The bounded loop reads ceil(n / 4) versions, at most 32, or stops at the first error; only the inputs on which its countdown underflows are excluded |
| Versions.PutVersions | crates/roughenough-protocol/src/version_list.rs:73-79 | The loop prints the versions in order |
| Versions.TypeRoundTrip | crates/roughenough-protocol/src/tags/mtype.rs:16-38 | Message types come back from their printed form, and print to the bytes they were read from |
| PlainFaults.VersionFault | crates/roughenough-protocol/src/version_list.rs:87-111 | A list is refused for its first word that stands for no version, or for an older one than the word before, with the index |
| Certificates.NewDelegation | crates/roughenough-protocol/src/tags/dele.rs:27-34 | A new window carries the given key, starts now, is never empty and is as long as asked, or ends at the end of time where the sum overflows |
| Certificates.CertParsePrinted | crates/roughenough-protocol/src/tags/cert.rs:67-98 | Every certificate, with its nested delegation, comes back from its printed form |
| Certificates.CertPrintParsed | crates/roughenough-protocol/src/tags/cert.rs:67-98 | Every parsed certificate reprints to the bytes it was read from |
| Certificates.DelePrintParsed | crates/roughenough-protocol/src/tags/dele.rs:81-114 | Every parsed delegation reprints to the bytes it was read from |
| Certificates.CertFromWire | crates/roughenough-protocol/src/tags/cert.rs:67-85 | Reads values first, then checks offsets, then tags, as the parser specifies |
| Certificates.DeleFromWire | crates/roughenough-protocol/src/tags/dele.rs:81-100 | The same for the nested delegation |
| Certificates.CertToWire | crates/roughenough-protocol/src/tags/cert.rs:92-97 | Writes the printed certificate; in a shorter buffer, the error of the first value that does not fit, behind exactly the values before it |
| Certificates.DeleToWire | crates/roughenough-protocol/src/tags/dele.rs:107-113 | The same for the delegation; only buffers that cut off the unchecked puts of the two times, which panic, are excluded |
| PlainWire.DeleIsPlain | crates/roughenough-protocol/src/tags/dele.rs:107-113 | A delegation on the wire, byte by byte: offsets 32 and 40, PUBK, MINT, MAXT, key and both times |
| PlainWire.CertIsPlain | crates/roughenough-protocol/src/tags/cert.rs:92-97 | A certificate on the wire: offset 64, SIG, DELE, signature and delegation |
| SignedResponses.ParsePrinted | crates/roughenough-protocol/src/tags/srep.rs:108-166 | A printed SREP is parsed back, unchanged, if and only if its ROOT offset is aligned, beyond 16 and within the rest, its versions ascend and are as many as the offset announces |
| SignedResponses.PrintParsed | crates/roughenough-protocol/src/tags/srep.rs:129-166 | Whatever is accepted meets that condition, and reprints to its bytes exactly when no version in it was sent as zero |
| SignedResponses.CheckHeadExact | crates/roughenough-protocol/src/tags/srep.rs:130-153 | The header checks pass for exactly the one header with a fitting ROOT offset |
| SignedResponses.SetVersCoherent | crates/roughenough-protocol/src/tags/srep.rs:77-82 | Setting 1 to 32 ascending versions makes any SREP meet the condition |
| SignedResponses.FromWire | crates/roughenough-protocol/src/tags/srep.rs:129-166 | The cursor parser agrees with the parser on values, rest and errors |
| SignedResponses.ToWire | crates/roughenough-protocol/src/tags/srep.rs:118-127 | Writes the printed SREP; in a shorter buffer, the error for header or ROOT behind exactly what comes before; only the panicking puts of words are excluded |
| LegacySignedResponses.ParsePrinted | crates/roughenough-protocol/src/tags/srep.rs:256-290 | A printed draft-08 SREP is parsed back exactly when its two offsets are ordered, aligned and in bounds; their values are not compared with the layout |
| LegacySignedResponses.PrintParsed | crates/roughenough-protocol/src/tags/srep.rs:256-276 | Every parsed draft-08 SREP reprints to the bytes it was read from |
| LegacySignedResponses.FromWire | crates/roughenough-protocol/src/tags/srep.rs:256-276 | The cursor parser agrees with the parser |
| LegacySignedResponses.ToWire | crates/roughenough-protocol/src/tags/srep.rs:283-289 | The same for the draft-08 SREP |
| PlainWire.SrepIsPlain | crates/roughenough-protocol/src/tags/srep.rs:118-127 | A draft-14 SREP on the wire, byte by byte |
| PlainWire.LegacySrepIsPlain | crates/roughenough-protocol/src/tags/srep.rs:283-289 | A draft-08 SREP on the wire, byte by byte |
| PlainFaults.SrepFault | crates/roughenough-protocol/src/tags/srep.rs:130-153 | Within bounds, other tags are reported before another layout, and that before the absence of versions |
| Responses.ParsePrinted | crates/roughenough-protocol/src/response.rs:139-204 | A printed response followed by any bytes is parsed back, unchanged, if and only if its offsets are ordered, aligned and in bounds, its PATH offsets announce the path's size and its SREP is coherent there |
| Responses.PrintParsed | crates/roughenough-protocol/src/response.rs:139-172 | Every parsed response meets that condition, consumes exactly its wire size and reprints to its bytes exactly when no version was sent as zero |
| Responses.ReparsedIsCoherent | crates/roughenough-protocol/src/response.rs:139-204 | If a response that was once parsed, with anything behind it, parses at all from its printed form, it comes back unchanged |
| Responses.ParsedAtLeastMinimum | crates/roughenough-protocol/src/response.rs:27-29 | No parsed response is smaller than 404 bytes |
| Responses.SettersKeepOffsets | crates/roughenough-protocol/src/response.rs:75-137 | After any history of setters the offsets are the running sums of the value sizes if PATH or SREP was ever set, and untouched zeros otherwise |
| Responses.RefreshedCoherent | crates/roughenough-protocol/src/response.rs:109-116 | With refreshed offsets a response survives printing and parsing exactly when its SREP does |
| Responses.MutableResponse.UpdateOffsets | crates/roughenough-protocol/src/response.rs:109-116 | Sets the offsets to the running sums, within 32 bits, and nothing else |
| Responses.MutableResponse.CopyPath | crates/roughenough-protocol/src/response.rs:90-93 | Takes over the elements of another path into the own buffer and refreshes the offsets |
| Responses.MutableResponse.SetMerklePath | crates/roughenough-protocol/src/response.rs:84-87 | Replaces the path and refreshes the offsets |
| Responses.MutableResponse.SetSignedResponse | crates/roughenough-protocol/src/response.rs:95-98 | Replaces the SREP and refreshes the offsets |
| Responses.MutableResponse.SetCertificate | crates/roughenough-protocol/src/response.rs:100-102 | Replaces the certificate and leaves the offsets alone |
| Responses.FromWire | crates/roughenough-protocol/src/response.rs:139-172 | The cursor parser agrees with the parser on values, rest and every error |
| Responses.ToWire | crates/roughenough-protocol/src/response.rs:188-203 | Writes exactly the printed response, or fails with both sizes when the capacity is too small |
| LegacyResponses.ParsePrinted | crates/roughenough-protocol/src/response.rs:360-421 | The draft-08 form of the exact round trip |
| LegacyResponses.PrintParsed | crates/roughenough-protocol/src/response.rs:360-391 | The draft-08 form of exact reprinting |
| LegacyResponses.SettersKeepOffsets | crates/roughenough-protocol/src/response.rs:299-358 | The draft-08 form of the setter histories, where CERT refreshes too |
| LegacyResponses.ConvertedCoherent | crates/roughenough-protocol/src/response.rs:425-439 | Converting a draft-08 response keeps its signature, path, certificate, index and time, and yields refreshed offsets that survive printing and parsing |
| LegacyResponses.FromWire | crates/roughenough-protocol/src/response.rs:360-391 | The cursor parser agrees with the parser |
| LegacyResponses.ToWire | crates/roughenough-protocol/src/response.rs:402-411 | Writes the printed response; in a shorter buffer, the error of the first of header, SIG, PATH, SREP, CERT or a value inside them that does not fit, behind exactly what comes before |
| LegacyResponses.ConvertedExactly | crates/roughenough-protocol/src/response.rs:425-439 | All fields of a converted response: zero nonce, draft-08 as version and only supported version, explicit offsets, everything else as it was |
| PlainWire.ResponseIsPlain | crates/roughenough-protocol/src/response.rs:188-203 | A draft-14 response on the wire, byte by byte, with TYPE one |
| PlainWire.LegacyResponseIsPlain | crates/roughenough-protocol/src/response.rs:402-411 | A draft-08 response on the wire, byte by byte |
| PlainResponses.DecodesExactly | crates/roughenough-protocol/src/response.rs:139-172 | For every byte string: it is accepted as a draft-14 response, with this value and rest, if and only if it is the header of the seven tags, ordered offsets in bounds that announce the size of PATH, and the values with TYPE one and an SREP whose version words mean its versions |
| PlainResponses.AcceptedIsDescribed | crates/roughenough-protocol/src/response.rs:139-172 | The version words that were sent can be named, and a response is free of the legacy zero exactly when none of them is zero |
| PlainResponses.LegacyDecodesExactly | crates/roughenough-protocol/src/response.rs:360-391 | The same for draft-08 responses, whose SREP offsets need only be in order and in bounds |
| Frames.UnframeFramed | crates/roughenough-protocol/src/wire.rs:44-89 | Framing and unframing gives a message of at least 100 bytes back, and a shorter one the framing error |
| Frames.FrameUnframed | crates/roughenough-protocol/src/wire.rs:70-89 | An unframed message is the frame from byte 12 on; the frame is its framing exactly when the announced length is its length |
| Frames.FrameHeadFromWire | crates/roughenough-protocol/src/wire.rs:70-88 | Magic, length and their checks in the order of the code |
| Frames.FrameHeadToWire | crates/roughenough-protocol/src/wire.rs:44-46 | Magic and length in front of the message; with less than 8 bytes left an error and nothing written, with less than 12 an error behind the magic |
| PlainWire.FrameIsPlain | crates/roughenough-protocol/src/wire.rs:44-58 | A frame is the letters ROUGHTIM, the length of the message as a little-endian word, and the message |
| PlainWire.UnframesExactly | crates/roughenough-protocol/src/wire.rs:70-89 | A byte string is unframed, to all behind its twelfth byte, if and only if it begins with those letters and a length of at least 100 that does not exceed what follows |
| PlainFaults.FrameFault | crates/roughenough-protocol/src/wire.rs:70-89 | Which error any other byte string gives, in the order of the checks |
| ResponseFrames.FrameRoundTrip | crates/roughenough-protocol/src/wire.rs:40-89 | A framed response is parsed back with nothing left over if and only if it is coherent |
| ResponseFrames.SettersRoundTrip | crates/roughenough-protocol/src/response.rs:75-204 | Whatever setters built a response, its frame is parsed back exactly when PATH or SREP was set and the SREP is coherent |
| ResponseFrames.FrameReprints | crates/roughenough-protocol/src/response.rs:139-204 | A parsed frame prints to the bytes received if and only if nothing trails, the announced length is exact and no version was sent as zero |
| ResponseFrames.ReadFrame | crates/roughenough-protocol/src/wire.rs:70-89 | Reading a frame through the cursor agrees with the parser on every byte string |
| ResponseFrames.AsFrameBytes | crates/roughenough-protocol/src/wire.rs:53-58 | The fresh buffer ends up holding exactly the frame |
| LegacyResponseFrames.FrameRoundTrip | crates/roughenough-protocol/src/wire.rs:40-89 | The draft-08 form of the framed round trip |
| LegacyResponseFrames.ReadFrame | crates/roughenough-protocol/src/wire.rs:70-89 | The draft-08 form of reading a frame |
| PlainResponses.FrameDecodesExactly | crates/roughenough-protocol/src/wire.rs:70-89 | Which frames are draft-14 responses, and of what value, on bytes |
| PlainResponses.LegacyFrameDecodesExactly | crates/roughenough-protocol/src/wire.rs:70-89 | Which frames are draft-08 responses, and of what value, on bytes |
| Requests.ParsePrinted | crates/roughenough-protocol/src/request.rs:102-518 | Any request, of any of the three forms, is parsed back from its printed form, leaving the padding, if and only if it has 1012 bytes, ordered offsets in bounds and as many ascending versions as announced |
| Requests.FreshRoundTrip | crates/roughenough-protocol/src/request.rs:33-47 | Each constructor prints to exactly 1024 framed bytes which parse to the same form with equal fields, for all nonces and commitments |
| Requests.NonceInFrame | crates/roughenough-protocol/src/request.rs:299-309 | Where the nonce of any accepted request lies in the frame that was received, in terms of its form and number of versions |
| Requests.FromWire | crates/roughenough-protocol/src/request.rs:102-124 | Size check, peeked tag count, restored position and dispatch agree with the parser, whose accepted bytes `PlainRequests.DecodesExactly` describes |
| Requests.FromWireAs | crates/roughenough-protocol/src/request.rs:173-493 | The three variant parsers agree with the specified one, including the refusal of another TYPE |
| Requests.ToWire | crates/roughenough-protocol/src/request.rs:203-519 | Writes exactly the printed request with its zero padding, or fails with both sizes |
| PlainRequests.DecodesExactly | crates/roughenough-protocol/src/request.rs:102-518 | For every byte string: it is accepted as a request, with this value and rest, if and only if it has 1012 bytes and is the header of a form, its offsets ordered and in bounds, the version words as sent, SRV, NONC, the zero TYPE word where the form has one, and the rest |
| PlainRequests.FrameDecodesExactly | crates/roughenough-protocol/src/request.rs:102-518 | The same for frames of 1024 bytes |
| PlainRequests.OtherTypeIsRefused | crates/roughenough-protocol/src/request.rs:195-197 | What would be a request but for its TYPE word is refused, and with that word in the error where it is the one of responses |
| PlainRequests.FreshIsPlain | crates/roughenough-protocol/src/request.rs:33-47 | The frames that clients send, byte by byte, for each of the three forms |
| PlainFaults.RequestFault | crates/roughenough-protocol/src/request.rs:102-124 | A message of another size is refused for its size, and one with a number of tags that no form has for that number |
| OnlineKeys.OnlineKey.Sign | crates/roughenough-keys/src/online/onlinekey.rs:94-110 | The signing buffer holds prefix and printed SREP when it is signed, and keeps its prefix for the next time; the SREP is the template with root and time |
| OnlineKeys.LongTermIdentity.MakeOnlineKey | crates/roughenough-keys/src/longterm/identity.rs:47-107 | The new key carries a certificate in which the identity signs exactly prefix and printed delegation, valid from now on |
| PlainAnswers.KeyIsPlain | crates/roughenough-keys/src/longterm/identity.rs:47-107 | A new key carries the window from now for the asked length, cut at the end of time, signed as the context string, a zero byte and the delegation byte by byte |
| Validation.ResponseValidator.ValidateDraft14 | crates/roughenough-client/src/validation.rs:107-145 | The checks run in the order of the code and return its errors or the midpoint |
| Validation.ResponseValidator.ValidateDraft08 | crates/roughenough-client/src/validation.rs:157-190 | The same for draft-08, with the nonce cut out of the request |
| Validation.ResponseValidator.CheckDeleSignature | crates/roughenough-client/src/validation.rs:192-209 | The filled buffer that is verified is prefix and printed delegation |
| Validation.ResponseValidator.CheckSrepSignature | crates/roughenough-client/src/validation.rs:221-270 | The filled buffer that is verified is prefix and the slice of the received bytes, or an error when the slice reaches beyond them |
| Validation.ResponseValidator.CheckMerkleProof | crates/roughenough-client/src/validation.rs:298-318 | Accepts exactly when the climb from the leaf gives the ROOT |
| PlainValidation.Validate14Exactly | crates/roughenough-client/src/validation.rs:107-145 | Validation succeeds, with MIDP, if and only if on bytes: the known key signed the delegation, the version is listed, MIDP is in the window, RADI is not zero, the request climbs to ROOT, and the delegated key signed the slice that was received; otherwise the first of these that fails decides on the error |
| PlainValidation.Validate08Exactly | crates/roughenough-client/src/validation.rs:157-190 | The same for draft-08, with bytes 40 to 72 of the request as the leaf and the error for shorter requests |
| PlainValidation.ContextsSeparate | crates/roughenough-protocol/src/protocol_ver.rs:21-35 | No signed delegation is a signed response, nor a signed delegation of the other draft: the context strings keep all signed strings apart |
| Validation.ParsedCanBeValidated14 | crates/roughenough-client/src/validation.rs:221-249 | The slice bounds of any parsed response are ordered, so no offset difference underflows |
| Validation.SliceIsSrep | crates/roughenough-client/src/validation.rs:221-249 | With refreshed offsets, the slice of the frame that is verified is exactly the printed SREP |
| Validation.LegacySliceIsSrep | crates/roughenough-client/src/validation.rs:355-383 | The same for draft-08 frames |
| Validation.ReceivedSliceIsSrep | crates/roughenough-client/src/validation.rs:221-249 | For received frames with running-sum offsets and no legacy zero, the slice that is verified is the printed form of the SREP that was parsed |
| EndToEnd.Draft14Accepted | crates/roughenough-server/src/responses.rs:91-150 | For every batch, frame i parses with nothing left over to the intended response, and the sender of request i accepts it if and only if the signing time is in the delegation's window |
| EndToEnd.Draft08Accepted | crates/roughenough-server/src/responses.rs:152-186 | The same for draft-08, for every request with its nonce at bytes 40 to 72, whatever else is in the batch |
| EndToEnd.Draft08Rejected | crates/roughenough-client/src/validation.rs:390-412 | That condition is needed: a request with other bytes there than its nonce has its response rejected, or the digest is broken on hashed strings |
| EndToEnd.TwoVersionsRejected | crates/roughenough-client/src/validation.rs:390-412 | Such requests exist: a draft-08 request that announces both versions is accepted by the server with its nonce, holds a version at byte 40, and has its response rejected by its sender, up to a break |
| EndToEnd.LegacyNonceSlice | crates/roughenough-client/src/validation.rs:390-412 | Bytes 40 to 72 of a framed draft-08 request with one version are the nonce that the server hashed |
| EndToEnd.FrameSizes | crates/roughenough-server/src/responses.rs:131-149 | Frames are 416 + 32 depth bytes, 352 + 32 depth for draft-08; up to 64 requests none is longer than the request it answers (section 9.7) |
| PlainAnswers.FrameIsAnswer14 | crates/roughenough-server/src/responses.rs:115-150 | The frame sent to requester i of any batch, byte by byte from key, time and batch alone: header, signature over context and SREP, the nonce of the request, the path of leaf i, SREP with the root, five seconds of radius and the one version, certificate, i |
| PlainAnswers.FrameIsAnswer08 | crates/roughenough-server/src/responses.rs:152-186 | The same for draft-08 |
| EndToEnd.AcceptedWasBatched14 | crates/roughenough-client/src/validation.rs:107-145 | Soundness: an accepted response with the root of some batch proves that the request is in it at INDX mod 2^depth, or breaks the digest on hashed strings; window, version and both signatures hold |
| EndToEnd.AcceptedWasBatched08 | crates/roughenough-client/src/validation.rs:157-190 | The same for the nonce of a draft-08 request, with both signatures |
| Handlers.ResponseHandler.AddRequest | crates/roughenough-server/src/responses.rs:62-76 | The request joins the batch, and the leaf row stays the row of nonces or of whole frames, by version |
| Handlers.ResponseHandler.ReplaceOnlineKey | crates/roughenough-server/src/responses.rs:78-87 | The key becomes a newly issued one and the batch is untouched |
| Handlers.ResponseHandler.ProcessResponses | crates/roughenough-server/src/responses.rs:91-186 | The frames handed out are exactly the specified answers, in order, each to its requester; the 1024-byte buffer is never overrun |
| Handlers.ResponseHandler.Clear | crates/roughenough-server/src/responses.rs:195-198 | Empties tree and batch, so that padding does not reach the next batch |
| Handlers.RequestHandler.CollectRequest | crates/roughenough-server/src/requests.rs:24-44 | Classifies one datagram as runt, jumbo, bad or accepted, with one counter each |
| Handlers.RequestHandler.GenerateResponses | crates/roughenough-server/src/requests.rs:46-52 | Answers the batch and leaves nothing pending |
| Handlers.NetworkHandler.CollectRequests | crates/roughenough-server/src/network.rs:33-55 | The bounded loop agrees with the specified collection and never exceeds the batch |
| Handlers.NetworkHandler.SendResponse | crates/roughenough-server/src/network.rs:57-66 | Counts each send once, as successful or failed |
| ServiceCounts.CollectExactly | crates/roughenough-server/src/requests.rs:24-44 | Each request counter grows by the number of received datagrams of its kind: shorter than 1024 bytes, accepted, or refused; and exactly the accepted ones, with their senders and in their order, join the batch |
| ServiceCounts.CollectReturns | crates/roughenough-server/src/network.rs:33-55 | A round reports an empty socket exactly when the first result that is no datagram says so, and counts that result by its kind |
| ServiceCounts.SendExactly | crates/roughenough-server/src/network.rs:57-66 | Sends are counted by their outcomes, and no other counter moves |
| ServiceCounts.AnswersExactly | crates/roughenough-server/src/responses.rs:131-149 | The bytes counted for a batch are those of all its frames |
| Service.CollectCounts | crates/roughenough-server/src/requests.rs:24-44 | Collecting counts every datagram once, none as jumbo, and as many accepted as join the batch; every pending request was parsed from its frame |
| Service.SendCounts | crates/roughenough-server/src/network.rs:57-66 | Successful and failed sends together grow by the number of sends |
| Batches.PathTo | crates/roughenough-server/src/responses.rs:131-137 | Paths for any batch fit the 32-element buffer and have the depth of the tree |
| WorkerModel.PublishedSnapshotsBalance | crates/roughenough-server/src/worker.rs:122-142 | In every snapshot that any run publishes, at the turns that `WorkerAccounts.RunPublishes` names, ok + bad + runt + jumbo is the number of datagrams received since the last one, jumbo is zero, and accepted requests, responses and attempted sends are equal |
| WorkerModel.RunAccounts | crates/roughenough-server/src/worker.rs:66-98 | That balance is kept by every turn of every run |
| WorkerModel.RunSchedules | crates/roughenough-server/src/worker.rs:54-120 | In every run with a monotone clock and signing at most a second after the turn's reading, every answer is signed inside its delegation's window, for any jitter, and answers exactly the accepted requests |
| WorkerModel.PrepareSchedules | crates/roughenough-server/src/worker.rs:66-120 | The invariant: the next rotation is due or comes before the current delegation ends, and after rotation the window is open for a second beyond the turn's start |
| WorkerModel.StartSchedules | crates/roughenough-server/src/worker.rs:30-52 | A new worker meets the invariant because it rotates at once |
| WorkerAccounts.TurnPublishes | crates/roughenough-server/src/worker.rs:66-142 | A turn publishes the counters as they stand, once, exactly when its first clock reading has reached the due time; then it starts from zero, and the next due time is the time of publishing plus the interval |
| WorkerAccounts.RunPublishes | crates/roughenough-server/src/worker.rs:66-142 | The log of every run holds exactly one publication for each turn that reaches the due time and none for the others, in order |
| WorkerAccounts.DueExactly | crates/roughenough-server/src/worker.rs:66-71 | Which turns those are |
| WorkerAccounts.DuePublicationAt | crates/roughenough-server/src/worker.rs:122-142 | Each holds the counters of the run up to its turn |
| WorkerAccounts.NewWorkerConserves | crates/roughenough-server/src/worker.rs:54-142 | Over every run of a new worker, for each counter: all published snapshots and what is not published yet add up to the number of datagrams, results, answers or sends of that kind in the whole run |
| WorkerAccounts.RunConserves | crates/roughenough-server/src/worker.rs:54-142 | The same for any stretch of a run, from any state |
| WorkerAccounts.RunBalancesBytes | crates/roughenough-server/src/worker.rs:54-142 | The bytes that were counted, published or not, are those of all frames that were handed out |
| WorkerAccounts.RunAnswersEveryone | crates/roughenough-server/src/worker.rs:83-92 | Every acceptable datagram of a run, in the rounds up to the first empty socket of each turn, is answered exactly once, to its sender and in order, and nothing else is |
| WorkerAccounts.RunRotates | crates/roughenough-server/src/worker.rs:73-120 | The key in use is the one issued in the last turn that reached the rotation time, and the next such time is that of the schedule |
| WorkerAccounts.ScheduleExactly | crates/roughenough-server/src/worker.rs:107-120 | After k rotations the next one is due k intervals after the first, less the sum of their jitters |
| WorkerSafety.RunAnswersAreAccepted | crates/roughenough-server/src/worker.rs:54-98 | In every such run every frame goes to a requester whose request was accepted, is no longer than that request, and parses and validates at that requester (for draft-08, if the nonce of its request is in place) |
| PlainAnswers.RunAnswersPlainly | crates/roughenough-server/src/worker.rs:54-98 | Every frame of every such run is that one, byte by byte, under a delegation by the identity for the configured hours |
| WorkerSafety.TwoSecondsOverstep | crates/roughenough-server/src/worker.rs:107-120 | With two seconds instead of one, for every proper configuration, a concrete run of two turns signs after the delegation has ended, whatever the keys, the start time, the batch size and the two intervals |
| MeasuredRuns.HonestAnswerMeasures | crates/roughenough-client/src/sequence.rs:81-132 | Client and server joined: a client that knows the key of an honest worker of its version, and whose own request is answered anywhere in a timely run, obtains a measurement with the signing time and the default radius that reports preserve |
| Workers.Worker.Run | crates/roughenough-server/src/worker.rs:54-98 | The loop over the handlers refines the step relation: state, counters and observable events are the specified ones, publications and rotations included |
| Workers.Worker.ServeRound | crates/roughenough-server/src/worker.rs:83-92 | One pass of collecting, answering and sending agrees with the step and leaves nothing pending |
| Workers.Worker.ReplaceOnlineKey | crates/roughenough-server/src/worker.rs:107-120 | Issues a key and moves the schedule by interval minus jitter, which never underflows |
| Workers.Worker.PublishMetrics | crates/roughenough-server/src/worker.rs:122-142 | Publishes the counters, resets them and schedules the next publication |
| Sequences.RunIsChained | crates/roughenough-client/src/sequence.rs:57-150 | Every successful run has rounds times clients measurements, number k by client k mod n, each linked to the one before |
| Sequences.LinkAt | crates/roughenough-client/src/sequence.rs:81-150 | Measurement 0 has no random value and no prior; each later nonce is the hash of the prior response's frame and its random value; each response validated for its request |
| Chains.ChainedNonceIsPlain | crates/roughenough-common/src/crypto.rs:10-20 | A chained nonce is the digest of the frame of the prior response, written out on bytes, followed by the random bytes |
| Chains.ChainedNonceOfReceived | crates/roughenough-common/src/crypto.rs:10-20 | What is hashed begins with the bytes that were received if and only if nothing trailed, the announced length was exact and no version was sent as zero |
| Chains.ChainBinds | crates/roughenough-common/src/crypto.rs:10-20 | Equal chained nonces mean equal frames and equal random bytes, or a digest collision on the two strings |
| Chains.CommitmentBinds | crates/roughenough-common/src/crypto.rs:29-38 | Equal server commitments mean equal keys, or a digest collision on the two strings |
| PlainRuns.RunIsPlain | crates/roughenough-client/src/sequence.rs:57-132 | Every measurement of every successful run on bytes: whose it is, its nonce, its request with the commitment to the server key, and that the first 1024 bytes of the reply parsed to the recorded response and met every condition of validation |
| PlainRuns.RunNonceIsPlain | crates/roughenough-client/src/sequence.rs:81-150 | The nonce of measurement k is the digest of the frame of response k - 1 and the random bytes of query k |
| PlainRuns.NonceFixesPrior | crates/roughenough-client/src/sequence.rs:81-150 | In any two successful runs, equal nonces of later measurements mean equal frames of the responses before them and equal random bytes, or a digest collision on the two strings |
| Sequences.NewSequence | crates/roughenough-client/src/sequence.rs:42-51 | Fewer than three servers are refused |
| Sequences.MeasurementSequence.Run | crates/roughenough-client/src/sequence.rs:57-79 | Servers without a key are refused before any query; otherwise the nested loops compute the specified chain and stop at the first failure |
| Sequences.MeasurementSequence.QueryServer | crates/roughenough-client/src/sequence.rs:81-132 | One query agrees with its specification: nonce, request by version, parse, validation, conversion |
| Causality.ValidateCausality | crates/roughenough-client/src/validation.rs:418-440 | Returns exactly the pairs i < j with lower_i > upper_j, in dictionary order, each with its bounds; empty if and only if consistent times exist |
| Causality.NoConflictMeansConsistent | crates/roughenough-client/src/validation.rs:414-440 | No pair conflicts if and only if there is a non-decreasing sequence of times with one in every interval (section 8.2) |
| Causality.NewViolation | crates/roughenough-client/src/validation.rs:59-73 | The constructor's assertion holds at every call, and the bounds are recorded |
| Causality.TwoRoundsDetect | crates/roughenough-client/src/sequence.rs:35-79 | In every successful run of two or more rounds, two clients whose intervals are disjoint conflict, whatever their order in the list |
| Causality.CheckRun | crates/roughenough-client/src/main.rs:155-167 | The check of such a run reports violations, and reports none exactly when consistent times exist |
| Causality.OneRoundCanMiss | crates/roughenough-client/src/sequence.rs:35-36 | One pass over an early and then a late server is consistent, which is why the sequence is repeated |
| Reporting.RunPassesExactly | crates/roughenough-reporting-server/src/validation.rs:103-170 | The report of a whole run passes the chaining check if and only if both last offsets of every recorded response stay within the message; otherwise it is refused for the first that does not |
| Reporting.WholeRunPasses | crates/roughenough-reporting-server/src/validation.rs:103-170 | So it passes for every run whose draft-14 responses had nothing behind them; responses of draft-08 servers need nothing, because they are converted |
| Reporting.UntrailedSurvives | crates/roughenough-protocol/src/wire.rs:70-89 | A response read from a draft-14 frame with nothing behind the message is contained in it |
| Reporting.TrailedSurvives | crates/roughenough-protocol/src/tags/srep.rs:129-166 | With running-sum offsets, a response is contained in its message exactly when SREP's ROOT offset is |
| TrailedReplies.TrailedRecorded | crates/roughenough-protocol/src/wire.rs:70-89 | The failing input: a frame with 100 bytes behind the message, 32 versions and ROOT offset 416, from a server that owns its keys, passes every check of a draft-14 client and becomes a measurement that is not contained |
| TrailedReplies.TrailedRunIsRefused | crates/roughenough-reporting-server/src/validation.rs:103-170 | The report of every successful run whose first server answers like this is refused for its first entry |
| Reporting.ValidateReport | crates/roughenough-reporting-server/src/validation.rs:140-170 | The loop carrying the previous response agrees with the specified fold and its errors |
| ReportChains.ReportPassesExactly | crates/roughenough-reporting-server/src/validation.rs:103-170 | Any entries pass the chaining check if and only if there are two or more, all parse, entry 0 has no random bytes, and every later nonce is the digest of the frame of the response before and its random bytes |
| ReportChains.FirstEntryExactly | crates/roughenough-reporting-server/src/validation.rs:103-118 | What the first entry needs, and its error |
| ReportChains.LaterEntryExactly | crates/roughenough-reporting-server/src/validation.rs:119-137 | What a later entry needs, and which error it gives otherwise |
| ReportChains.TamperingIsRefused | crates/roughenough-reporting-server/src/validation.rs:103-170 | In a report that passes, a changed response or changed random bytes, with the next request kept, is refused, unless the response still prints to the same frame, or the digest collides on the two strings |
| ReportChains.ReprintedResponsePasses | crates/roughenough-reporting-server/src/validation.rs:103-170 | That exception is real: any response that parses and prints alike can be put in its place |
| ReportChains.TrailedFrameReprints | crates/roughenough-protocol/src/wire.rs:70-89 | For example the same message with bytes behind it |

## Left out

- Sockets, polling, threads, signal handling: a run is a sequence of turns with clock readings, receive results and send outcomes as arguments; a turn has one readiness event, as one registered socket gives, and its rounds end at the first drained socket. A turn without any has no rounds.
- SHA-512, Ed25519, random bytes: arbitrary functions and arguments.
- Seed storage backends, the envelope code, key commands, command line, display, dumps, clock setting, HTTP submission, JSON server lists: input, output and foreign calls.
- Base64 decoding, storage and routes of the reporting server, and its `validate_entry`, which calls a validator method the client code does not have: only parsing and chaining of entries is modelled.
- The one-shot client query outside measurement sequences: it repeats the steps of `QueryServer`.
- `ResponseMetrics.batch_sizes`: its cells are 8 bits wide and wrap, so the histogram conserves nothing.
- Aggregation and files of snapshots: a snapshot that a full channel drops counts as published here.
- Vec capacity claims of `reserve`: only the number of levels is modelled.
- The two structs for online keys of the two drafts are one class with a template of either form; the key source, its lock and the identity are one class, with one version for both handler and identity as the server's main function sets them up.
- Setters of the draft-08 response work on values, not on a class with a path buffer.
- Equality of path buffers beyond their depth: derived equality there compares stale bytes; only elements are compared here.
- 64-bit overflow of the worker's schedules: next rotation and next publication are unbounded numbers.
- Padding, tag lists and the constant parts of headers are not part of message values, because no operation changes them.
- Versions.GetVersions: excludes the inputs on which the countdown of the source underflows, which panics or wraps by build profile; no message reaches them.
- Puts without a size check, of words: the source panics where exactly they are cut off by the end of the buffer; the printing methods exclude these buffer sizes and no others.
- Responses.ToWire: excludes a cursor that is not at its start and has enough capacity but too little left, which the size check of the source lets through.
- Causality.ValidateCausality: requires RADI <= MIDP and sums within 64 bits, because the code subtracts and adds without checks.
- A malfeasance report built from one violation keeps two measurements only and need not be chained; chaining is stated for whole runs.
