# Verified models of gears-rust

Dafny models of the algorithmic parts of the gears-rust repository, with proofs of what they are
for. `dafny verify dfyconfig.toml` checks the whole project.

The project covers four areas.

* **Release tooling** — the dev-dependency check of `check_release_config.py` (`PublishOrder`), the
  inline-table scanner of `check_packaging_metadata.py` (`InlineTables`, against `TomlText`), canonical OpenAPI JSON
  (`JsonSort`) and the resolution of release tags (`ReleaseTags`).
* **Documentation graph** — from `md-fabric.py`: the glob compiler (`Glob`), directory boxes
  (`PathBoxes`, `SettledBoxes`, `MergedBoxes`), depth-bounded searches (`Bfs`) and the layout of boxes and
  nodes (`Shelves`, `Packing`).
* **TLS provider** — from `rustls-corecrypto-provider`: SHA-2 contexts (`Sha2`), HMAC keys (`Hmac`),
  HKDF (`Hkdf`), AES-GCM over buffers (`Aead`), and TLS 1.2 and 1.3 records (`Records`, `Tls12`,
  `Tls13`).
* **Architecture diagram** — from `architecture_status_svg.py`: assigning status circles to names
  (`Circles`) and applying text edits (`Splice`).

`Common`, `Ordering`, `Paths` and `Bytes` hold what these share.

## How it is modelled

State that the source updates in place is updated in place here: objects are classes, buffers are
arrays, loops are loops with invariants. Each such method is proved against a function or relation
on values, and the theorems are about that function or relation.

Code outside the repository appears as parameters. The SHA-2 compression function is a field of
`Sha2.Alg`; padding, buffering and chaining around it follow FIPS 180-4, and HMAC is built on it as in
section 2 of RFC 2104, so HKDF rests on nothing but the compression function. AES-GCM is
`Aead.Gcm`, with the law that the two directions undo each other; `Aead.ToyIsLawful` shows that the
law can be met. The status codes of the library calls are parameters (`Aead.Calls`). `TomlText` follows the
comments and strings of TOML v1.0.0. The record layer of rustls (nonce, associated data, removal of padding) follows
sections 5.2 to 5.4 of RFC 8446, section 6.2.3.3 of RFC 5246 and section 3 of RFC 5288.

Dictionaries and sets are iterated in any order the code allows, so every result holds for every
insertion order. Lengths, sequence numbers and counters are unbounded integers except where the
width matters: the HKDF counter is a byte that wraps, a record length is cut to 16 bits, a sequence
number is below 2^64, an update call takes at most 2^32 - 1 bytes.

## Where code and documentation differ

* HKDF-Expand cites the limit of 255 hash lengths from section 2.3 of RFC 5869 and guards for it, but
  the test for the wrapped counter after block 255 makes the call fail there. `Hkdf.Expand` states the
  exact bound, 254 hash lengths, and that the bytes are already right when the late error comes.
* A bucket pattern that ends in `**` compiles to an expression that no file path matches.
  `Glob.FaithfulIff` states exactly which patterns lose paths, `Glob.TrailingStarsRejectFiles` gives one.
* Folding multi-line inline tables is meant to respect strings and keep the meaning of a manifest, but the
  scanner does not know comments and reads triple-quoted strings one quote at a time.
  `InlineTables.ReadsRightIff` and `InlineTables.KeepsReadingIff` state exactly when it is right; the four
  lemmas after them in the table give documents for which it is not.
* Longest prefix wins lets a crate named like the front part of another crate's tag claim that tag.
  `ReleaseTags.ComesBackIff` states exactly when, `ReleaseTags.ClaimedTagExample` gives a case. The claiming
  name has a dot in it, which Cargo does not allow in crate names, so for Cargo crates every accepted version
  comes back (`ReleaseTags.DotlessCratesComeBack`).

## Model

| member | source | states |
|---|---|---|
| PublishOrder.PublishedFirst | tools/scripts/check_release_config.py:173-180 | the stack loop ends, with exactly the crates reachable by one or more normal edges |
| PublishOrder.NormalDepGraph | tools/scripts/check_release_config.py:145-158 | the loops build the graph of publishable crates and their normal and build dependencies on other publishable crates |
| PublishOrder.CheckDevDepCycles | tools/scripts/check_release_config.py:161-197 | the report holds exactly the dev-dependency entries of publishable crates that name a publishable crate and carry a version, said by the form of the entry, where no chain of normal dependencies leads to that crate; crate by crate in name order, entry by entry, with table labels |
| PublishOrder.ResolveDepIs | tools/scripts/check_release_config.py:111-125 | which crate an entry names and whether it carries a version: bare entries, own tables, entries deferred to the shared table, and deferred entries without one |
| PublishOrder.ReportedByForm | tools/scripts/check_release_config.py:182-186 | the same for one entry: reported exactly when some dev table of the manifest or of a target has it, in such a form |
| PublishOrder.EdgeByForm | tools/scripts/check_release_config.py:145-158 | a crate depends on another publishable crate exactly when an entry of its normal or build tables, or those of a target, names it, versioned or not |
| PublishOrder.DevEntriesInOrder | tools/scripts/check_release_config.py:128-142 | entries stand in the order of the manifest: its own table, then target by target |
| PublishOrder.ProblemsInOrder | tools/scripts/check_release_config.py:182-196 | problems come in the order of the entries |
| PublishOrder.SortedNamesUnique | tools/scripts/check_release_config.py:173 | there is one name order, so the report is determined |
| PublishOrder.InReports | tools/scripts/check_release_config.py:182-196 | an entry is in the report exactly when it is a versioned dev-dependency of a listed crate outside that crate's transitive normal dependencies |
| PublishOrder.DependencyFirst | tools/scripts/check_release_config.py:164-169 | every publish order puts every transitive normal dependency before its dependant |
| PublishOrder.LateOrder | tools/scripts/check_release_config.py:166-169 | on an acyclic graph, for any crate outside the transitive dependencies there is a publish order that does not publish it first |
| PublishOrder.OrderExistsIffAcyclic | tools/scripts/check_release_config.py:145-158 | a publish order exists exactly when no crate is its own transitive normal dependency |
| PublishOrder.ReportedIff | tools/scripts/check_release_config.py:182-196 | on an acyclic graph, a versioned dev-dependency is reported exactly when some publish order does not publish it before the crate that needs it |
| PublishOrder.EmptyReportIffSafe | tools/scripts/check_release_config.py:161-197 | an empty report means safety in every publish order, and conversely whenever a publish order exists |
| Glob.Compile | tools/scripts/md-fabric.py:243-273 | the loop with its separator flag emits the regular expressions of the parts |
| Glob.CompileSegment | tools/scripts/md-fabric.py:231-240 | the character loop emits one regular expression per character |
| Glob.NormalizeIs | tools/scripts/md-fabric.py:245 | a pattern is normalised by writing slashes for backslashes and cutting off the slashes at both ends, and nothing else |
| Glob.TrimmedUnique | tools/scripts/md-fabric.py:245 | that determines the normal form |
| Glob.NormalizeOwn | tools/scripts/md-fabric.py:245 | a pattern without backslashes and outer slashes is its own normal form |
| Glob.NormalizeBackslashes | tools/scripts/md-fabric.py:245 | slashes and backslashes at the same places give the same parts |
| Glob.NormalizeEnds | tools/scripts/md-fabric.py:245 | slashes added at either end change nothing |
| Glob.LiteralMatch | tools/scripts/md-fabric.py:238-239 | a segment without wildcards matches itself only |
| Glob.QuestionMark | tools/scripts/md-fabric.py:236-237 | `?` takes one character |
| Glob.StarInSegment | tools/scripts/md-fabric.py:234-235 | `*` in a segment takes any run of characters |
| Glob.StarsTake | tools/scripts/md-fabric.py:255-260 | `**` takes any number of non-empty segments |
| Glob.StarTakesOne | tools/scripts/md-fabric.py:263-269 | a lone `*` takes one non-empty segment |
| Glob.PartTakesOne | tools/scripts/md-fabric.py:270-271 | any other part takes one segment, and the parts take all of them |
| Glob.SegmentMeaning | tools/scripts/md-fabric.py:231-240 | a compiled segment matches exactly the slash-free strings its glob matches character by character |
| Glob.AnySegmentsUnfold | tools/scripts/md-fabric.py:255-260 | a leading `**` matches nothing or one non-empty segment with its separator, and then again |
| Glob.CompiledReads | tools/scripts/md-fabric.py:249-273 | the compiled expression matches a text exactly when the parts read its segments left to right |
| Glob.AcceptsMeaning | tools/scripts/md-fabric.py:244-273 | for every pattern and every text, acceptance is segment-wise matching, with the end anchor's newline rule and the trailing `**` case spelled out |
| Glob.PreservesMeaning | tools/scripts/md-fabric.py:244-273 | on one file path the compiled pattern and the glob agree, unless the pattern ends in `**` and the glob accepts the path |
| Glob.FaithfulIff | tools/scripts/md-fabric.py:244-273 | a pattern is compiled to its meaning on all file paths exactly when it does not both end in `**` and lack adjacent slashes |
| Glob.LostPath | tools/scripts/md-fabric.py:244-273 | for each of the other patterns, a file path that it loses |
| Glob.TrailingStarsRejectFiles | tools/scripts/md-fabric.py:255-260 | a file path that the glob `**` accepts and its compiled form rejects |
| PathBoxes.KeyRoundTrip | tools/scripts/md-fabric.py:704-705 | a key text gives back its list of parts |
| PathBoxes.BuildBoxes | tools/scripts/md-fabric.py:709-734 | after pass 1 the boxes together hold exactly the given files; each file is in the deepest box on its path, boxes below the root reach the threshold, and a directory without a box left fewer files than that to the boxes above it |
| PathBoxes.SettledIff | tools/scripts/md-fabric.py:717-734 | what pass 1 leaves, spelled out to depth 3: a box holds files of a deeper directory only if that has no box and fewer of them than the threshold |
| PathBoxes.BubbleUp | tools/scripts/md-fabric.py:718-730 | one round conserves the files and establishes the same for the directories of its depth |
| PathBoxes.RoundDone | tools/scripts/md-fabric.py:718-730 | what a round leaves behind: files of a directory reach a bucket above only if the directory stayed below the threshold and got no box |
| SettledBoxes.OneHome | tools/scripts/md-fabric.py:709-734 | after pass 1 no file is in two boxes |
| SettledBoxes.GroupingUnique | tools/scripts/md-fabric.py:709-734 | the result of pass 1 is determined by the files and the threshold: the same directories get boxes with the same content, whatever the order of visits |
| PathBoxes.FindLonely | tools/scripts/md-fabric.py:743-756 | the scan finds a lonely box of greatest depth, or there is none |
| PathBoxes.LonelyIff | tools/scripts/md-fabric.py:745-756 | lonely means: no other box at the same depth under the same parent reaches the threshold, nor does the parent's box |
| PathBoxes.AbsorbIs | tools/scripts/md-fabric.py:757 | an absorbed box goes, its files join its parent's box behind the files there, nothing else changes |
| PathBoxes.AbsorbConserves | tools/scripts/md-fabric.py:757 | absorbing a box into its parent conserves all files and keeps boxes on their files' paths |
| PathBoxes.AbsorbLowersDepth | tools/scripts/md-fabric.py:757 | absorbing a box strictly lowers the sum of key depths over all boxes |
| PathBoxes.MergeLonely | tools/scripts/md-fabric.py:736-759 | pass 2 terminates, conserves all files, absorbs only lonely boxes with no lonely box below their depth, keeps boxes below the root at the threshold, and stops only when no box is lonely |
| MergedBoxes.Confluent | tools/scripts/md-fabric.py:736-759 | any two finished runs of pass 2 from the same boxes end with the same boxes, whichever lonely box of the greatest depth is taken first |
| MergedBoxes.RunsEndAlike | tools/scripts/md-fabric.py:736-759 | the same for starts that differ only in the order of files within boxes |
| MergedBoxes.BoxesUnique | tools/scripts/md-fabric.py:708-761 | both passes together: the boxes and their contents are determined by the files and the threshold |
| PathBoxes.ComputePathBoxes | tools/scripts/md-fabric.py:708-761 | for every file list and threshold, each file is in exactly one box whose key is a prefix of its directory path of length 3 at most; every box below the root has at least the threshold of files and a sibling or parent with as many; the result is reached from the boxes of pass 1 by absorptions |
| Bfs.BuildAdjacency | tools/scripts/md-fabric.py:2344-2358 | the link lists hold exactly the edges, by source and by target |
| Bfs.WithinIffWalk | tools/scripts/md-fabric.py:2616-2624 | distance is the length of walks: a node is within d steps exactly when a walk along at most d edges, in their direction or either way, leads to it from a root |
| Bfs.Relax | tools/scripts/md-fabric.py:2616-2624 | the inner loop gives every target at most the new depth, queues exactly the nodes it sets or lowers, each once, changes no other depth, and makes measurable progress |
| Bfs.NothingLowered | tools/scripts/md-fabric.py:2619-2620 | where no recorded depth exceeds the new one, nothing is lowered and only unseen nodes are queued |
| Bfs.OrderPushed | tools/scripts/md-fabric.py:2613-2625 | every turn keeps queued depths ascending, with at most one step between first and last, so that case is the only one |
| Bfs.ExpandKeeps | tools/scripts/md-fabric.py:2613-2625 | every turn keeps the invariant that seen nodes are justified by walks and are queued, expanded or at the limit |
| Bfs.SearchDone | tools/scripts/md-fabric.py:2613-2627 | with an empty queue the seen nodes are those within the limit, each at its exact distance |
| Bfs.SearchView | tools/scripts/md-fabric.py:2606-2627 | the search terminates with that result, having taken nodes off the queue in ascending order of their exact distance, each once when no root is repeated |
| Bfs.ComputeActiveSubgraph | tools/scripts/md-fabric.py:2594-2628 | without a view the whole graph; with one, for every depth, nodes are exactly those at directed distance at most the depth, edges exactly the out-edges of nodes at smaller distance |
| Bfs.ComputeFilterExpansion | tools/scripts/md-fabric.py:2630-2654 | terminates for every depth; the result is exactly the nodes at undirected distance at most the depth, taken off the queue in ascending order of distance |
| Shelves.PackApart | tools/scripts/md-fabric.py:1064-1078 | in every packing any two boxes are at least the gap apart along one axis |
| Shelves.PackRowsFit | tools/scripts/md-fabric.py:1064-1078 | every row fits the width limit or holds a single box |
| Shelves.PackGreedy | tools/scripts/md-fabric.py:1069-1077 | a row is left only when the next box does not fit, and the next row starts right below it |
| Packing.ShelfPack | tools/scripts/md-fabric.py:1263-1273 | the packing loop places all boxes apart, in fitting rows, greedily |
| Packing.NodeInside | tools/scripts/md-fabric.py:1250-1255 | every node of a box lies inside the box, clear of the paddings, for any column count |
| Packing.GridDistinct | tools/scripts/md-fabric.py:1282-1285 | two nodes of a box are drawn at different places |
| Packing.GridIs | tools/scripts/md-fabric.py:1282-1285 | node i of a box stands in row i / cols and column i % cols, 80 apart, 40 and 55 from the corner; paths ascend |
| Packing.BoxSizeIs | tools/scripts/md-fabric.py:1250-1255 | the size of a box in numbers, from the number of columns and just as many rows as the files need |
| Packing.DrawAll | tools/scripts/md-fabric.py:1275-1287 | the second loop draws the rectangles and grids of the planned boxes, in order |
| Packing.PlanIsDrawn | tools/scripts/md-fabric.py:1257-1287 | at packed places every file is drawn once, inside its own box, with boxes apart and all node places distinct |
| Packing.PackBoxes | tools/scripts/md-fabric.py:1257-1287 | boxes stand on shelves in the order of the keys, filled greedily to 3200, 80 apart; the nodes of each box are its files in path order, row by row; all files are shown once, each inside its own box, and no two nodes share a place |
| Packing.BuildNodes | tools/scripts/md-fabric.py:1289-1291 | grouping and drawing together: every file is drawn exactly once, at a place of its own, in a box on its directory path, with the boxes of `compute_path_boxes` in the order of their keys |
| Packing.BuildGroupedNodes | tools/scripts/md-fabric.py:1293-1302 | with configured groups: every file is drawn exactly once, at a place of its own, in the box of its group, with the boxes in the order of the group ids |
| Sha2.AbsorbAppend | libs/rustls-corecrypto-provider/src/hash.rs:7-13 | two updates in a row are one update with the concatenated data |
| Sha2.PaddingCompletesBlock | libs/rustls-corecrypto-provider/src/hash.rs:48-64 | the padded message is a whole number of blocks, with less than one block of zeros |
| Sha2.PaddingIs | libs/rustls-corecrypto-provider/src/hash.rs:48-64 | the padding is the byte 0x80, zeros and the number of bits in the last bytes |
| Sha2.ShortHash | libs/rustls-corecrypto-provider/src/hash.rs:48-64 | a message that fits one block is compressed once, from the initial value |
| Sha2.FoldFirst | libs/rustls-corecrypto-provider/src/hash.rs:48-64 | a first block is compressed before everything behind it |
| Sha2.FinalIsHash | libs/rustls-corecrypto-provider/src/hash.rs:101-133 | initialise, absorb and finish give the one-shot hash of the message |
| Sha2.UpdateAll | libs/rustls-corecrypto-provider/src/hash.rs:88-94 | feeding data in pieces of at most 2^32 - 1 bytes is one update with all of it |
| Sha2.OneShot | libs/rustls-corecrypto-provider/src/hash.rs:48-64 | the chunked one-shot entry point computes the hash of its input |
| Sha2.Context.Update | libs/rustls-corecrypto-provider/src/hash.rs:125-132 | an update appends to the byte history of this context and no other |
| Sha2.Context.Fork | libs/rustls-corecrypto-provider/src/hash.rs:112-114 | a fork is a new context with the same history |
| Sha2.Context.ForkFinish | libs/rustls-corecrypto-provider/src/hash.rs:102-110 | the digest of the history, with the context left as it was |
| Sha2.EveryBranchHashesItsHistory | libs/rustls-corecrypto-provider/src/hash.rs:101-133 | in every interleaving of updates, forks and finishes each digest is the one-shot hash of exactly that branch's bytes |
| Sha2.ForkedRun | libs/rustls-corecrypto-provider/src/hash.rs:101-133 | a run with a fork, for any bytes: both branches hash what came before the fork and what each was fed after it |
| Hmac.MacFinalIsMac | libs/rustls-corecrypto-provider/src/hmac.rs:158-174 | streaming through the keyed context gives the HMAC of RFC 2104 of all bytes fed |
| Hmac.MacIs | libs/rustls-corecrypto-provider/src/hmac.rs:103-121 | the HMAC in terms of key bytes: key XOR 0x5c around the hash of key XOR 0x36 and the message, long keys hashed first |
| Hmac.TrailingZerosDoNotMatter | libs/rustls-corecrypto-provider/src/hmac.rs:103-121 | keys that differ by trailing zeros within a block are the same HMAC key |
| Hmac.HmacKey.constructor | libs/rustls-corecrypto-provider/src/hmac.rs:103-121 | a new key object holds the freshly keyed template |
| Hmac.HmacKey.SignConcat | libs/rustls-corecrypto-provider/src/hmac.rs:134-183 | the tag is the HMAC of the concatenated parts, whatever the cut and whichever are empty, and the template is not modified |
| Hmac.HmacKey.SignAll | libs/rustls-corecrypto-provider/src/hmac.rs:134-183 | over any run of requests each tag is the HMAC of its own message |
| Hkdf.Extract | libs/rustls-corecrypto-provider/src/hkdf.rs:86-106 | the pseudo-random key is HMAC(salt, secret), and a missing salt acts as zeros and as an empty salt |
| Hkdf.OkmOfStream | libs/rustls-corecrypto-provider/src/hkdf.rs:157-187 | the output is the front of the block stream, for any number of blocks that covers it |
| Hkdf.BlockIs | libs/rustls-corecrypto-provider/src/hkdf.rs:157-173 | what is signed for a block: the info and 1, or the block before it, the info and its number |
| Hkdf.OkmBlock | libs/rustls-corecrypto-provider/src/hkdf.rs:175-181 | each full block of the output is the block of that number |
| Hkdf.ShorterIsPrefix | libs/rustls-corecrypto-provider/src/hkdf.rs:137-192 | a shorter output is a prefix of a longer one |
| Hkdf.Expand | libs/rustls-corecrypto-provider/src/hkdf.rs:137-192 | succeeds exactly up to 254 hash lengths; up to 255 the buffer holds the output of RFC 5869 for the concatenated info; beyond that it is untouched |
| Hkdf.ExpandLongest | libs/rustls-corecrypto-provider/src/hkdf.rs:137-192 | 255 hash lengths, the most RFC 5869 allows, are all computed and then refused |
| Hkdf.ExpandBlock | libs/rustls-corecrypto-provider/src/hkdf.rs:199-206 | one block of output is the HMAC of the info and the byte 1, and the call cannot fail |
| Aead.Encrypt | libs/rustls-corecrypto-provider/src/aead.rs:158-169 | every argument check and library status in the order of the calls; on success ciphertext at the front of the buffer, the rest untouched, and the tag; an error before the update leaves the buffer untouched |
| Aead.Decrypt | libs/rustls-corecrypto-provider/src/aead.rs:181-200 | the same errors; success only when the tag matches; on a mismatch the written part is zeros and the rest untouched |
| Aead.RunUpdate | libs/rustls-corecrypto-provider/src/aead.rs:105-137 | too small an output, a failing update and a short write are errors; otherwise the text is at the front of the buffer |
| Aead.FailsIffBroken | libs/rustls-corecrypto-provider/src/aead.rs:51-156 | with arguments of the right sizes an operation fails exactly when one of the library calls it makes does |
| Aead.SetupErrorIs | libs/rustls-corecrypto-provider/src/aead.rs:51-111 | which error is returned when several apply, up to the size of the output |
| Aead.LateErrorsAre | libs/rustls-corecrypto-provider/src/aead.rs:115-156 | which error an update or the end of an operation returns |
| Records.NonceInjective | libs/rustls-corecrypto-provider/src/tls12.rs:215-223 | sequence numbers below 2^64 give different nonces, already in the last eight bytes |
| Records.NonceIs | libs/rustls-corecrypto-provider/src/tls12.rs:215-223 | the nonce keeps the first four bytes of its template, and XORed with the rest of the template it is the sequence number |
| Tls12.RoundTrip | libs/rustls-corecrypto-provider/src/tls12.rs:210-296 | opening a sealed record gives the message back, for every key, IV, extra, sequence number, type, version and payload |
| Tls12.SealFields | libs/rustls-corecrypto-provider/src/tls12.rs:235-246 | the body has the announced length, and the receiver cuts out the sender's nonce, ciphertext and tag |
| Tls12.AadFields | libs/rustls-corecrypto-provider/src/tls12.rs:225 | the associated data reads back as sequence number, type, version and length |
| Tls12.SealedUnder | libs/rustls-corecrypto-provider/src/tls12.rs:215-242 | on the wire: the explicit nonce, which XORed with the extra bytes is the sequence number, then ciphertext and tag under the nonce it completes |
| Tls12.OpensExactlySealed | libs/rustls-corecrypto-provider/src/tls12.rs:256-296 | the record that opens to a message under the sender's nonce is the sealed one and no other |
| Tls12.NoncesNeverRepeat | libs/rustls-corecrypto-provider/src/tls12.rs:169-237 | distinct sequence numbers give distinct nonces and distinct explicit nonces on the wire over any run |
| Tls12.Encrypter.DeriveNonce | libs/rustls-corecrypto-provider/src/tls12.rs:219-223 | the in-place loop gives the template with its last eight bytes XORed with the sequence number |
| Tls12.Encrypter.Encrypt | libs/rustls-corecrypto-provider/src/tls12.rs:210-242 | the record is the sealed message, or an error for a key of the wrong length or a failing library call |
| Tls12.Decrypter.Decrypt | libs/rustls-corecrypto-provider/src/tls12.rs:256-296 | in place: the opened payload at the front of the buffer, or an error and an unchanged buffer, also when a library call fails |
| Tls12.SendAndReceive | libs/rustls-corecrypto-provider/src/tls12.rs:158-296 | encrypter and decrypter together, through their buffers, deliver every message unless a library call fails |
| Tls13.UnpadPadded | libs/rustls-corecrypto-provider/src/tls13.rs:181-184 | padding of any length that fits is removed exactly, even when the payload ends in zeros |
| Tls13.OpenInnerOfSeal | libs/rustls-corecrypto-provider/src/tls13.rs:122-143 | the body has the announced length, both sides build the same header, and the inner plaintext comes back |
| Tls13.AadFields | libs/rustls-corecrypto-provider/src/tls13.rs:123 | the associated data is the record header: 23, 3, 3 and the length |
| Tls13.SealedUnder | libs/rustls-corecrypto-provider/src/tls13.rs:115-138 | on the wire: ciphertext of payload and type, and tag, under the nonce that XORed with the IV is the sequence number |
| Tls13.RoundTripExactly | libs/rustls-corecrypto-provider/src/tls13.rs:110-185 | a sealed record opens to its message exactly when the payload is within 2^14 bytes and the type is not zero |
| Tls13.OpensInnerIff | libs/rustls-corecrypto-provider/src/tls13.rs:153-180 | a body gives an inner plaintext exactly when it is that plaintext under protection |
| Tls13.UnpadsIff | libs/rustls-corecrypto-provider/src/tls13.rs:181-184 | the inner plaintexts accepted are exactly payload, non-zero type and zeros, within the limit |
| Tls13.OpensIff | libs/rustls-corecrypto-provider/src/tls13.rs:153-185 | a body opens to a type and a payload exactly when it protects them, with some number of padding zeros within the limit |
| Tls13.SendAndReceive | libs/rustls-corecrypto-provider/src/tls13.rs:110-185 | encrypter and decrypter together, through their buffers, deliver a message exactly when it is within the limits; a failing library call is an error |
| Tls13.NoncesNeverRepeat | libs/rustls-corecrypto-provider/src/tls13.rs:122 | distinct sequence numbers give distinct nonces over any run |
| Tls13.Encrypter.Encrypt | libs/rustls-corecrypto-provider/src/tls13.rs:110-138 | the record is the sealed message, or an error for a key of the wrong length or a failing library call |
| Tls13.Decrypter.Decrypt | libs/rustls-corecrypto-provider/src/tls13.rs:153-185 | in place: the opened message, or an error; a record that fails authentication and a failing library call leave the buffer unchanged |
| Circles.BuildColumns | tools/scripts/architecture_status_svg.py:429-432 | every circle stands once, in the one column of its rounded x; columns are in order of first appearance |
| Circles.RoundIs | tools/scripts/architecture_status_svg.py:432 | columns are by the nearest integer, halves to the even one |
| Circles.GroupsUnique | tools/scripts/architecture_status_svg.py:429-432 | columns, their order and their contents are determined by the circles |
| Circles.TakeIsNearest | tools/scripts/architecture_status_svg.py:457-458 | the circles taken are as many as there are names for, and each is nearer than every one left out, or as near and earlier in the text |
| Circles.PickColumn | tools/scripts/architecture_status_svg.py:444-466 | the first column with the highest score, or none when no column in reach has a free circle in the window |
| Circles.AssignBlock | tools/scripts/architecture_status_svg.py:435-474 | a block gets the nearest free circles of its best column, top to bottom, ties in text order |
| Circles.ServedUnique | tools/scripts/architecture_status_svg.py:435-474 | what a block gets is determined by the columns and the circles still free |
| Circles.ServedIsFree | tools/scripts/architecture_status_svg.py:468-474 | the circles of a block are free, inside its window, distinct, and no more than its names |
| Circles.ServedInReach | tools/scripts/architecture_status_svg.py:437-456 | in numbers: the column is within 45 of the block's x plus 30, the circle within 19 for each name plus 40 of its y |
| Circles.EligibleIff | tools/scripts/architecture_status_svg.py:446-456 | a column is considered exactly when it is within 45 and has a free circle in that window |
| Circles.ScoreIs | tools/scripts/architecture_status_svg.py:457-461 | the score of a column: circles offered, their average distance in y, its distance in x |
| Circles.SumDistIs | tools/scripts/architecture_status_svg.py:459 | the sum of distances grows by the distance of each further circle |
| Circles.AboveIff | tools/scripts/architecture_status_svg.py:460-463 | more circles win, then the smaller average, then the smaller distance in x |
| Circles.AssignBlocksToCircles | tools/scripts/architecture_status_svg.py:418-478 | over all blocks no circle is assigned twice, each block is served from what the earlier ones left, and block by block the names go with the circles from top to bottom |
| Circles.AssignmentUnique | tools/scripts/architecture_status_svg.py:418-478 | the list of assignments is determined by the blocks, the circles and what was used before |
| Circles.EditsAreValid | tools/scripts/architecture_status_svg.py:821-835 | circles assigned once, with spans in text order, give disjoint edits |
| Circles.EditsStyleEach | tools/scripts/architecture_status_svg.py:822-835 | the edits are, for each assignment whose circle and name have a style, that text in the place of the circle |
| Circles.Recolour | tools/scripts/architecture_status_svg.py:808-840 | the recoloured text is the simultaneous replacement of the spans of the circles that the assignment gives to styled names |
| Splice.WeaveOrderIrrelevant | tools/scripts/architecture_status_svg.py:837-840 | the simultaneous replacement does not depend on the order of the edits |
| Splice.SpliceStep | tools/scripts/architecture_status_svg.py:838-840 | one splice from the back keeps the text original in front and finished behind |
| Splice.ApplyEdits | tools/scripts/architecture_status_svg.py:629-630 | applying disjoint edits back to front is the simultaneous replacement of their spans, all other text unchanged |
| InlineTables.CollapseInlineTables | tools/scripts/check_packaging_metadata.py:99-138 | same length; exactly the newlines that the scanner takes to be outside strings and inside braces become spaces; the rows below tell when it is right about that |
| InlineTables.SameStates | tools/scripts/check_packaging_metadata.py:108-138 | input and output drive the scanner through the same states |
| InlineTables.CollapseIdempotent | tools/scripts/check_packaging_metadata.py:102-106 | the output has nothing left to fold, so a second pass changes nothing |
| InlineTables.UnchangedIffNothingFoldable | tools/scripts/check_packaging_metadata.py:102-106 | a text is unchanged exactly when it has no newline outside strings and inside braces |
| InlineTables.ReadsRightIff | tools/scripts/check_packaging_metadata.py:102-106 | against TOML's own comments, strings and triple-quoted strings: the scanner is right about strings and brace depth at every position exactly when no comment holds a quote or a brace (a closing one outside all braces excepted) and no triple-quoted string an unescaped quote of its own kind |
| InlineTables.FoldsTableNewlinesIff | tools/scripts/check_packaging_metadata.py:102-106 | in a document read right, the newlines folded are exactly those between the entries of inline tables if and only if no comment ends inside an inline table |
| InlineTables.KeepsReadingIff | tools/scripts/check_packaging_metadata.py:102-106 | in any document, folding leaves comments, strings and braces where they are exactly when it takes no newline that ends a comment |
| InlineTables.FoldsFaithfully | tools/scripts/check_packaging_metadata.py:99-138 | a document read right, with no comment inside an inline table: the newlines between table entries become spaces, all else stays, and the document is read as before |
| InlineTables.BraceInComment | tools/scripts/check_packaging_metadata.py:128-137 | an opening brace in a comment makes the next line part of the comment |
| InlineTables.ApostropheInComment | tools/scripts/check_packaging_metadata.py:123-127 | an apostrophe in a comment keeps a newline in an inline table |
| InlineTables.CommentInTable | tools/scripts/check_packaging_metadata.py:134-135 | a comment in an inline table swallows the closing brace |
| InlineTables.QuoteInMultiLineString | tools/scripts/check_packaging_metadata.py:114-122 | a quote in a triple-quoted string gets a newline of the string folded |
| JsonSort.SortIsCanonical | tools/scripts/sort_openapi_json.py:14-29 | two values are equal up to field order exactly when their sorted forms are identical |
| JsonSort.SortAscends | tools/scripts/sort_openapi_json.py:14-29 | at every level of the sorted value the keys are ascending |
| Ordering.StringLeIff | tools/scripts/sort_openapi_json.py:25 | ascending means: a prefix first, else the smaller character where two keys first differ |
| JsonSort.SortKeepsValue | tools/scripts/sort_openapi_json.py:14-29 | the sorted value is well formed and equal to the original up to field order |
| JsonSort.SortIdempotent | tools/scripts/sort_openapi_json.py:14-29 | sorting twice is sorting once |
| ReleaseTags.SemVerIff | tools/scripts/resolve_release.py:31 | the accepted versions are exactly MAJOR.MINOR.PATCH with an optional pre-release part |
| ReleaseTags.SemVerMatchIff | tools/scripts/resolve_release.py:31 | the pattern accepts those and one newline behind them |
| ReleaseTags.CharsAre | tools/scripts/resolve_release.py:31 | the characters of numbers and pre-release parts, by their codes |
| ReleaseTags.Best | tools/scripts/resolve_release.py:76-88 | the unit chosen has the longest matching prefix, and is the first of those; none only if no unit matches |
| ReleaseTags.MatchTag | tools/scripts/resolve_release.py:76-88 | the loop returns that unit and the rest of the tag |
| ReleaseTags.ResolvedSpellsTag | tools/scripts/resolve_release.py:129-136 | the `ref` output of a resolved tag is the tag |
| ReleaseTags.ComesBackIff | tools/scripts/resolve_release.py:76-88 | for any list of components, the tag of a component resolves to that component and version exactly when no listed crate is named like the tag up to a `-v` and version inside it, and no earlier component has the same crate |
| ReleaseTags.LongerPrefixClaims | tools/scripts/resolve_release.py:79-86 | a longer prefix that also matches belongs to a crate of that name and no other |
| ReleaseTags.ClaimantHasDot | tools/scripts/resolve_release.py:57-58 | such a crate has a dot in its name |
| ReleaseTags.DotlessCratesComeBack | tools/scripts/resolve_release.py:76-88 | with distinct crates and no dot in a crate name, every accepted version of every component comes back, however prefixes overlap |
| ReleaseTags.PlainVersionComesBack | tools/scripts/resolve_release.py:76-88 | with distinct crates of any name, every version without a hyphen comes back |
| ReleaseTags.ClaimedTagExample | tools/scripts/resolve_release.py:76-88 | with components for the crates `a` and `a-v1.0.0`, the tag of version 1.0.0-v1.0.0 of `a` resolves to the other component, version 1.0.0 |

## Left out

- PublishOrder.CheckDevDepCycles: the sentence printed for a problem and the path of the manifest in it are not modelled; a problem is the crate, the table label, the key and the crate the key names.
- Glob.AcceptsMeaning: models acceptance only; capture groups and bucket labels depend on regex greediness.
- Packing.BoxDims: the column count comes from a floating-point square root; the model takes the rounded root as any integer function.
- Circles.AssignBlocksToCircles: distances and averages are exact reals, not floating-point numbers; blocks have at least one name, as the parsers guarantee.
- Circles.Recolour: regular-expression extraction of circles and labels, the rewriting of a circle's attributes and the drawing of aligned labels are parameters or absent.
- Wiping of keys and buffers on drop, and the fact that a fork is a memory copy, have no counterpart on values.
- Cryptographic strength (collision resistance, unforgeability) is not a property of this code.
- The candidate scoring and rectangle packer behind the category layout, which work in floating point.
- `check_never_publishable` and `check_release_plz`, which are direct case lists.
- Key exchange, certificate verification, random numbers and the FIPS witness of the TLS provider, which are library calls.
- HTML, SVG and CSS rendering, and the GitHub, cargo, docker and pytest drivers.
- The service crates under `gears/`, `libs/toolkit*` and `apps/`, and the examples.
