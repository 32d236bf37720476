# A verified model of the PPSP peer

The repository is a C++ prototype of the peer-to-peer streaming peer protocol (RFC 7574). This project
models four of its parts in Dafny and proves what they do together.

* **Merkle hash tree and remote verifier** (`Bits`, `Dyadic`, `Merkle`, `Verification`, `HashTree`, `Paths`,
  `Sender`, `Completeness`, `Soundness`, `Robustness`, `RootSoundness`, `Peaks`, `PeakExchange`, `LatePeaks`,
  `FirstData`, `FirstContact`, `Verdicts`, `PeakVerdicts`, `Relay`, `Exchange`, `Sizes`). A seeder builds a padded tree
  in place (section 5.1 of RFC 7574), sends peak hashes (section 5.6) and, channel by channel, the hashes a peer still
  lacks; a peer that knows only the root hash learns the size, verifies chunks and serves them in turn. The class
  `HashTree` follows the source's methods and loops; each is proved against a function of the old state, and the
  protocol results are proved about these functions, over all runs.
* **Have map, scheduler and file** (`RangeLists`, `Prefixes`, `Binmap`, `Downloads`, `Reassembly`): an unordered list
  of ranges updated in place with a cached prefix pointer, outstanding requests, completion test, and the file that
  results.
* **SHA-1** (`Sha1Spec`, `Sha1`, `Sha1Answer`): the streaming code against sections 4, 5 and 6.1.2 of FIPS 180-4, and a
  known answer.
* **HANDSHAKE and HAVE codecs** (`Wire`, `HandShake`, `Have`, `WireFormat`; sections 7 and 8.4 of RFC 7574).

Conventions. The hash function of the tree is a parameter of fixed digest length (SHA-1 is shown to be an
instance); completeness holds for every such function, soundness assumes no collision among the strings that were
actually hashed, and where a lemma says so no all-zero digest either. A null hash pointer is `None`. Tree nodes are
values stored under their index, and the pointers between nodes are the indices they point to. Visiting order of hash
maps is arbitrary. Each mutex-guarded method is one atomic step. `pow(2, log2(m) + 1)` is taken as `2 * m`. Aligned
power-of-two ranges are called dyadic; the range of `size` chunks at `start` has index `2 * start + size - 1`.

Where the code does less than one would expect, the lemmas named say exactly when; some give a failing input:

* first contact works for some first chunks only (`FirstContactSucceeds`, `SevenChunks`);
* peak hashes are misjudged when the chunk count is one more than a power of two (`PeakRoundTrip`), and without them
  the right size is found only for powers of two (`FirstDataExact`);
* a peer that does not know the size yet can be shown a pair of digests as a chunk (`AcceptedIsSource`,
  `DigestPairAccepted`), and the size that peak hashes claim is not bound to the root hash (`SizeFromRootHash`);
* the seeder's content size is short by one chunk for exact multiples of the chunk size (`MakeSize`);
* a short last chunk that is stored first makes the file too long (`DownloadedFile`, `ShortLastChunkFirst`);
* inserting a wide range can lose chunks (`InsertExactIff`, `SwallowingExample`);
* the same chunk can be handed out twice while nothing is held (`AskedAgainIff`, `AskedTwiceAtFirst`);
* empty bitmaps and those of 128 bytes and more do not read back (`BitmapRecoveredIff`).

`dafny verify dfyconfig.toml` checks the whole project.

## Model

| member | source | states |
|---|---|---|
| RootSoundness.OnlySourceFromRoot | Src/EtriPPSP/EtriPPSP/HashTree.cpp:559-818 | soundness from the root hash alone: after any hashes, packets and peak checks on any channels, right or wrong, and whatever size the peer has come to believe in, an accepted packet for chunk i holds the source's chunk i, short of coincidences among the strings hashed; the packet and the chunks must not be as long as two digests |
| RootSoundness.AcceptedIsSource | Src/EtriPPSP/EtriPPSP/HashTree.cpp:559-818 | the same for one packet in any state, also for numbers beyond the tree, which count modulo the leaf count; if the size was unknown, the leaf count recorded is right up to that modulus |
| RootSoundness.PacketChain | Src/EtriPPSP/EtriPPSP/HashTree.cpp:718-782 | a climb over any number of levels that ends in the root hash started from the source's chunk at the same place |
| RootSoundness.Located | Src/EtriPPSP/EtriPPSP/HashTree.cpp:718-782 | it started with the hash of the range reached from the source's root by going down the same way |
| RootSoundness.DigestPairAccepted | Src/EtriPPSP/EtriPPSP/HashTree.cpp:577-692 | the length condition is needed: the digests of the two halves of the left half pass as chunk 0 of a content of two chunks |
| RootSoundness.SizeFromRootHash | Src/EtriPPSP/EtriPPSP/HashTree.cpp:820-998 | peak hashes guarantee no size: a message that gives the root hash to chunks 0..1 passes the peak check for every content |
| FirstContact.FirstContactSucceeds | Src/EtriPPSP/EtriPPSP/PPClient.cpp:801-835 | first contact with a peer that knows only the root hash, for every chunk count n and every first chunk i, whatever the order in which the hashes arrive: both checks succeed if and only if n is a power of two, or i is in the left half of the tree and n-1 is no power of two (the only-if unless the root hash is also the hash of a smaller range); then the size is known and the session is honest |
| FirstContact.FirstContactStored | Src/EtriPPSP/EtriPPSP/PPClient.cpp:801-835 | the same from the map in which the messages are stored |
| FirstContact.RightHalfContact | Src/EtriPPSP/EtriPPSP/PPClient.cpp:811-832 | which check fails: for a chunk of the right half without padding on its path the data check succeeds, takes the hash of the left half, a peak, off the channel, and the peak check then fails |
| FirstContact.MisjudgedContact | Src/EtriPPSP/EtriPPSP/PPClient.cpp:811-832 | n-1 a power of two, left half: the data check succeeds, and the peak check exactly if the last chunk has the root hash |
| FirstContact.PaddedContact | Src/EtriPPSP/EtriPPSP/PPClient.cpp:811-819 | padding on the path: the data check fails unless a smaller range has the root hash |
| FirstContact.SevenChunks | Src/EtriPPSP/EtriPPSP/HashTree.cpp:943-950 | the input: seven chunks, chunk 4 first |
| LatePeaks.PeakCheckFails | Src/EtriPPSP/EtriPPSP/HashTree.cpp:820-1009 | once the peaks on the path of a right-half chunk have left the channel, the peak check fails in every visiting order |
| LatePeaks.ClimbLacksLeftHalf | Src/EtriPPSP/EtriPPSP/HashTree.cpp:929-966 | without the left half's hash no peak climb in the right half ends |
| LatePeaks.LastPeakOffPath | Src/EtriPPSP/EtriPPSP/HashTree.cpp:450-474 | the last peak is on no chunk's path, so the check still starts from it |
| FirstData.ApartUnlessCollision | Src/EtriPPSP/EtriPPSP/HashTree.cpp:67-131 | the coincidence named above is excluded when no strings hashed by Make collide and no chunk is as long as two digests |
| FirstData.FirstDataExact | Src/EtriPPSP/EtriPPSP/HashTree.cpp:577-692 | unknown size, every chunk: the data check accepts if and only if the range it can reach has the root hash; it reaches the root exactly if no sibling on the path is padding; it accepts and records the right size if and only if n is a power of two, or a smaller range ending with the last chunk has the root hash |
| FirstData.ReachFacts | Src/EtriPPSP/EtriPPSP/HashTree.cpp:628-650 | the reached range is aligned, is the whole tree exactly if no sibling is padding, and otherwise ends with or behind the last chunk |
| FirstData.PaddedFirst | Src/EtriPPSP/EtriPPSP/HashTree.cpp:586-617 | first sibling is padding: no message is there, and what is compared is the hash of the pair of the chunk and padding |
| FirstData.FirstDataAccepted | Src/EtriPPSP/EtriPPSP/HashTree.cpp:619-680 | unknown size, no padding on the path: accepted, `ChunkRange` = L-1, `LeafNodeCount` = L, and exactly the needed hashes move to the shared tree, peaks among them |
| FirstData.UnknownClimb | Src/EtriPPSP/EtriPPSP/HashTree.cpp:628-650 | the climb that stops at the first missing message ends at the root and uses exactly the path's siblings |
| FirstData.UnknownReach | Src/EtriPPSP/EtriPPSP/HashTree.cpp:628-650 | in general the climb covers the range below the first padding sibling and computes that range's tree hash |
| FirstData.LeftHalfPath | Src/EtriPPSP/EtriPPSP/HashTree.cpp:450-474 | a chunk of the left half has no padding sibling on its path and none that is a peak |
| FirstData.OrderIsIrrelevant | Src/EtriPPSP/EtriPPSP/HashTree.cpp:532-557 | storing messages in any order, with repetitions, gives the same map |
| Completeness.GenuineChunkAccepted | Src/EtriPPSP/EtriPPSP/HashTree.cpp:694-809 | two-sided completeness: after any run of requests, deliveries in any order and number, and packets genuine or forged, on any channels, a requested chunk whose sent hashes have arrived is accepted, although the sender never repeats a hash and the verifier moves hashes between maps |
| Completeness.AcceptedWhenAtHand | Src/EtriPPSP/EtriPPSP/HashTree.cpp:716-784 | one check: in an honest session the genuine chunk is accepted once the hashes it needs have arrived |
| Completeness.AcceptedAtHand | Src/EtriPPSP/EtriPPSP/HashTree.cpp:716-784 | one check: right hashes in the shared tree and on the packet's channel that include what the chunk needs make the genuine chunk accepted, whatever other channels hold |
| Completeness.HonestClimb | Src/EtriPPSP/EtriPPSP/HashTree.cpp:718-778 | with right hashes at hand the climb from any full or partial range ends in the root hash |
| Completeness.RunKeeps | Src/EtriPPSP/EtriPPSP/HashTree.cpp:436-817 | every run of requests, deliveries, hashes sent without a request such as peak hashes, and packets keeps: stored hashes are the source tree's, and every arrived hash is on its channel or in the shared tree |
| Completeness.StepKeeps | Src/EtriPPSP/EtriPPSP/HashTree.cpp:436-817 | the same for one event of any kind |
| Completeness.RequestedIsSent | Src/EtriPPSP/EtriPPSP/HashTree.cpp:436-477 | after a run, what a requested chunk needs has been sent on its channel |
| Soundness.OnlyGenuineAccepted | Src/EtriPPSP/EtriPPSP/HashTree.cpp:694-817 | soundness over all runs: after arbitrary hash and data messages on any channels, a packet for a chunk 0..`ChunkRange` is accepted only if it is the source's chunk, provided the hash function does not collide on the strings hashed by Make and in this run |
| Soundness.TreeStaysGenuine | Src/EtriPPSP/EtriPPSP/HashTree.cpp:796-805 | under the same condition every hash ever moved into the shared tree is the source tree's hash at that index |
| Soundness.PacketIsSound | Src/EtriPPSP/EtriPPSP/HashTree.cpp:694-817 | one packet: accepted content is genuine and the invariant is kept, also for indices outside the content |
| Soundness.HonestDescent | Src/EtriPPSP/EtriPPSP/HashTree.cpp:718-782 | a climb that ends in the root hash began with the range's true hash and used true hashes only |
| Soundness.Descend | Src/EtriPPSP/EtriPPSP/HashTree.cpp:761-768 | a right parent hash makes the child's and the sibling's digest right |
| Robustness.AcceptedIffGenuine | Src/EtriPPSP/EtriPPSP/HashTree.cpp:694-817 | one honest channel among hostile ones: whatever hashes arrive on other channels and whatever packets arrive anywhere, once the honest seeder's hashes for chunk i have arrived, a packet for i on its channel is accepted if and only if it carries the source's chunk, short of a collision among the strings hashed |
| Robustness.HappenKeeps | Src/EtriPPSP/EtriPPSP/HashTree.cpp:436-817 | invariant of all such runs: shared tree sound, honest channel genuine, and every arrived hash still on the channel or in the shared tree |
| Robustness.HostileKeeps | Src/EtriPPSP/EtriPPSP/HashTree.cpp:532-817 | the same for one arbitrary hash message on another channel or one arbitrary packet on any channel |
| Robustness.AskedIsSent | Src/EtriPPSP/EtriPPSP/HashTree.cpp:436-477 | after such a run, all that an asked chunk needs has been sent |
| Robustness.PacketMoves | Src/EtriPPSP/EtriPPSP/HashTree.cpp:794-806 | a packet takes nodes from a channel only to put them into the shared tree, and takes none out of the tree |
| Robustness.HonestIsTrusted | Src/EtriPPSP/EtriPPSP/HashTree.cpp:976-989 | the session that first contact leaves satisfies the invariant |
| Verdicts.GenuineAcceptedIff | Src/EtriPPSP/EtriPPSP/HashTree.cpp:716-784 | exact verdict on a genuine chunk amid hostile messages: accepted if and only if each needed hash is right on its channel, or missing there and in the shared tree; a wrong hash on the channel is not made up for by a right one in the tree |
| Verdicts.RejectedChangesNothing | Src/EtriPPSP/EtriPPSP/HashTree.cpp:559-818 | a rejected packet leaves the whole state as it was, in every branch; only a packet with data for a single chunk is ever accepted |
| Verdicts.RejectedRun | Src/EtriPPSP/EtriPPSP/HashTree.cpp:559-818 | the same for any number of rejected packets on any channels |
| Verdicts.RetriedFirstContact | Src/EtriPPSP/EtriPPSP/PPClient.cpp:811-832 | after any number of rejected packets the genuine first packet still has the outcome of an undisturbed first contact |
| Verdicts.TwoChunksRetried | Src/EtriPPSP/EtriPPSP/HashTree.cpp:682-691 | for instance two chunks: after a corrupted chunk 0 the genuine one is accepted |
| Verdicts.AcceptedMoves | Src/EtriPPSP/EtriPPSP/HashTree.cpp:794-806 | an accepted packet moves hashes from its channel to the shared tree, where nodes already present stay; other channels, peaks and a known size are untouched |
| Verdicts.UsedIsOnPath | Src/EtriPPSP/EtriPPSP/HashTree.cpp:718-745 | known size: exactly the messages on the packet's path whose range begins within the content are used |
| Verdicts.UsedUpToMissing | Src/EtriPPSP/EtriPPSP/HashTree.cpp:620-650 | unknown size: exactly the siblings up to the first missing message are used |
| Verdicts.LoneChunk | Src/EtriPPSP/EtriPPSP/HashTree.cpp:586-617 | a content of one chunk: the peer that knows its root accepts exactly that chunk, learns its size and accepts it again |
| Verdicts.ArrivalFacts | Src/EtriPPSP/EtriPPSP/HashTree.cpp:532-557 | a hash message replaces what its channel had under start + end and touches nothing else |
| PeakVerdicts.FailedPeakCheck | Src/EtriPPSP/EtriPPSP/HashTree.cpp:850-1005 | a failed peak check takes exactly the node it started from off the channel, keeps the leaf count computed from it and changes nothing else |
| PeakVerdicts.SecondCheckSucceeds | Src/EtriPPSP/EtriPPSP/HashTree.cpp:850-998 | one forged single-chunk hash beside the peaks of an even chunk count: if the first check fails, it has removed the forged hash, and the second succeeds |
| PeakVerdicts.SixChunks | Src/EtriPPSP/EtriPPSP/HashTree.cpp:929-943 | for instance six chunks and a forged chunk 5 |
| PeakVerdicts.SevenChunksLeft | Src/EtriPPSP/EtriPPSP/HashTree.cpp:850-943 | seven chunks, chunk 4 first: the failed peak check leaves the peak of chunks 4 and 5 only |
| PeakVerdicts.AcceptedPeakCheck | Src/EtriPPSP/EtriPPSP/HashTree.cpp:970-998 | an accepted peak check moves the node it started from and the siblings it used to the shared tree and the peak map; other messages stay on the channel |
| PeakVerdicts.UsedIsOnLeft | Src/EtriPPSP/EtriPPSP/HashTree.cpp:929-945 | the siblings used are those on the path that lie to the left |
| PeakVerdicts.NothingToCheck | Src/EtriPPSP/EtriPPSP/HashTree.cpp:820-845 | without messages the check succeeds exactly if the channel exists and the size is known |
| PeakVerdicts.LeafCountExact | Src/EtriPPSP/EtriPPSP/HashTree.cpp:912-924 | the leaf count for every chunk count: right except for one chunk and for one more than an even power of two |
| Relay.RelayServes | Src/EtriPPSP/EtriPPSP/HashTree.cpp:436-477 | a peer that has accepted chunk i, whatever has happened since, re-serves it: what it picks from its partial tree, with what the channel was sent before and the peak hashes, covers what the chunk needs, and it picks nothing else and only right hashes |
| Relay.RelayCovers | Src/EtriPPSP/EtriPPSP/HashTree.cpp:450-474 | the climb of a partial tree stops at padding, which a downloader never stores; all it leaves out are peaks |
| Relay.AcceptedIsHeld | Src/EtriPPSP/EtriPPSP/HashTree.cpp:794-806 | after an accepted packet for chunk i all hashes it needs are in the shared tree |
| Relay.PeaksAbove | Src/EtriPPSP/EtriPPSP/HashTree.cpp:507-518 | above a range that ends in padding every sibling is a peak or padding |
| Exchange.StartSeeding | Src/EtriPPSP/EtriPPSP/PPCommon.h:80-99 | a new object after Make is in the state the seeder results start from |
| Exchange.JoinSwarm | Src/EtriPPSP/EtriPPSP/PPCommon.h:74-78 | a peer with only the root hash set |
| Exchange.SendNodes | Src/EtriPPSP/EtriPPSP/PPClient.cpp:764-777 | sending nodes in map order and storing each: exactly these messages are added to the channel |
| Exchange.SendPeaks | Src/EtriPPSP/EtriPPSP/PPClient.cpp:672-688 | the peaks, computed or remembered, are stored with the peer on the channel, and the seeder stays a seeder of the same content |
| Exchange.SendFirst | Src/EtriPPSP/EtriPPSP/PPClient.cpp:690-721 | the first request, for any chunk, stores exactly the peaks and the needed hashes with the peer |
| Exchange.FirstRequest | Src/EtriPPSP/EtriPPSP/PPClient.cpp:801-835 | on a seeder and a peer object, for any first chunk: both checks succeed if and only if first contact works for it, and then the session is honest |
| Exchange.LaterRequest | Src/EtriPPSP/EtriPPSP/PPClient.cpp:764-820 | on the same objects, every later packet is accepted and the session stays honest |
| Sender.NeverSentTwice | Src/EtriPPSP/EtriPPSP/HashTree.cpp:443-464 | over any run of requests no node is returned twice on one channel |
| Sender.SentIsNeeded | Src/EtriPPSP/EtriPPSP/HashTree.cpp:443-464 | a channel has been sent exactly the non-null siblings on the paths of the chunks asked on it |
| Sender.SendingIsNeeded | Src/EtriPPSP/EtriPPSP/HashTree.cpp:450-474 | on a made tree one call returns exactly the path's non-null siblings not yet sent on the channel; nothing for an index beyond the leaves |
| HashTrees.HashTree.GetDataIntegrity | Src/EtriPPSP/EtriPPSP/HashTree.cpp:436-477 | returns the nodes of the climbing specification and adds exactly their indices to the channel's sent set |
| HashTrees.GetSiblingIndex | Src/EtriPPSP/EtriPPSP/HashTree.cpp:417-434 | the remainder test gives the sibling range under the common parent and its index, for every non-empty range |
| Dyadic.RightHalfTest | Src/EtriPPSP/EtriPPSP/HashTree.cpp:422 | for an aligned range the remainder test recognises exactly the right halves |
| Dyadic.SiblingFacts | Src/EtriPPSP/EtriPPSP/HashTree.cpp:417-434 | the sibling is aligned, the sibling of the sibling is the range itself, both have one parent |
| Dyadic.DyadicMeaning | Src/EtriPPSP/EtriPPSP/HashTree.cpp:417-434 | the recursive notion of an aligned range is: power-of-two length that divides the start |
| Dyadic.RangeOfIndex | Src/EtriPPSP/EtriPPSP/HashTree.cpp:433 | every index belongs to an aligned range, and is start + end of it |
| Dyadic.IndexOfRange | Src/EtriPPSP/EtriPPSP/HashTree.cpp:433 | start + end determines the aligned range |
| Dyadic.InsideTree | Src/EtriPPSP/EtriPPSP/HashTree.cpp:718 | an index is at most (L-1)*2 exactly if its range lies within the L leaves |
| Paths.ClimbMeetsPath | Src/EtriPPSP/EtriPPSP/HashTree.cpp:450-474 | from a range the climb meets one new node per doubling up to L, all inside 0..2L-2; the bound test fails exactly at the root |
| Paths.AtRoot | Src/EtriPPSP/EtriPPSP/HashTree.cpp:718-778 | at the root the sibling index is 3L-1 |
| HashTrees.HashTree.Make | Src/EtriPPSP/EtriPPSP/HashTree.cpp:133-378 | the finished map is the recursively defined tree of the file's chunks, the leaf count the least power of two, the root hash the recursive root hash, and the recorded sizes as stated |
| HashTrees.HashTree.ReadLeaves | Src/EtriPPSP/EtriPPSP/HashTree.cpp:155-202 | one leaf per chunk of the file, in order, and the length of the last read |
| HashTrees.HashTree.StoreLeafNode | Src/EtriPPSP/EtriPPSP/HashTree.cpp:176-193 | a leaf is stored and linked both ways with its left neighbour |
| HashTrees.HashTree.PadLeaves | Src/EtriPPSP/EtriPPSP/HashTree.cpp:210-255 | padding leaves up to the least power of two |
| HashTrees.HashTree.JoinSiblings | Src/EtriPPSP/EtriPPSP/HashTree.cpp:286-345 | parent of two nodes with all its fields, and the links of the three |
| HashTrees.HashTree.BuildLevel | Src/EtriPPSP/EtriPPSP/HashTree.cpp:275-348 | one pass of the inner loop turns the map with levels up to z into the map with levels up to 2z |
| Merkle.LeafMapStep | Src/EtriPPSP/EtriPPSP/HashTree.cpp:165-191 | storing a leaf leads from the map of c leaves to the map of c+1 leaves |
| Merkle.StageStep | Src/EtriPPSP/EtriPPSP/HashTree.cpp:277-348 | joining a pair leads to the next intermediate map and touches no other node |
| Merkle.StageNextLevel | Src/EtriPPSP/EtriPPSP/HashTree.cpp:352-354 | a finished level is the start of the next one |
| Merkle.StageLast | Src/EtriPPSP/EtriPPSP/HashTree.cpp:266-355 | the last intermediate map is the recursively defined tree |
| Merkle.NullExactlyForPadding | Src/EtriPPSP/EtriPPSP/HashTree.cpp:67-131 | a range's hash is null exactly when it is all padding, else a digest of the right length |
| Paths.MadeTreeShape | Src/EtriPPSP/EtriPPSP/HashTree.cpp:305-314 | exactly the indices 0..2L-2; aligned ranges with start + end = index; null, all-zero, incomplete and root flags exactly as meant; leaves have no children and the hash of their chunk |
| Paths.MadeTreeLinks | Src/EtriPPSP/EtriPPSP/HashTree.cpp:311-324 | sibling and parent links agree, the children are left and right in order, and the parent's hash is made of theirs |
| Paths.ThreeChunks | Src/EtriPPSP/EtriPPSP/HashTree.cpp:67-131 | the root of three chunks written out: left before right, null hashes as zeros |
| PeakExchange.RootHasNoLinks | Src/EtriPPSP/EtriPPSP/HashTree.cpp:305-324 | the root has no parent and no sibling |
| Bits.ClearLowestBitIsPowerTest | Src/EtriPPSP/EtriPPSP/HashTree.cpp:210 | x & (x-1) is zero exactly for zero and the powers of two |
| Bits.CeilPowerIsLeast | Src/EtriPPSP/EtriPPSP/HashTree.cpp:210-257 | the rounded leaf count is the least power of two that suffices |
| Sizes.SplitLength | Src/EtriPPSP/EtriPPSP/HashTree.cpp:155-202 | all chunks but the last are full and the lengths add up to the content |
| Sizes.SplitSlice | Src/EtriPPSP/EtriPPSP/HashTree.cpp:155-202 | chunk k is the slice of the content at k times the chunk size |
| Sizes.LastReadOf | Src/EtriPPSP/EtriPPSP/HashTree.cpp:157-163 | the last read is empty exactly when the last chunk is full |
| Sizes.MakeSize | Src/EtriPPSP/EtriPPSP/HashTree.cpp:204-205 | the recorded content size is right if and only if the file is no multiple of the chunk size; otherwise it is one chunk short |
| Sizes.PeerSize | Src/EtriPPSP/EtriPPSP/HashTree.cpp:786-792 | a peer that accepts the genuine last chunk records the true content size |
| HashTrees.HashTree.AddIntegrity | Src/EtriPPSP/EtriPPSP/HashTree.cpp:532-557 | stores the message under start + end on its channel and changes nothing else |
| HashTrees.HashTree.CheckDataIntegrity | Src/EtriPPSP/EtriPPSP/HashTree.cpp:559-818 | result and whole new state as the specification says; unchanged on rejection |
| HashTrees.HashTree.CheckKnownSize | Src/EtriPPSP/EtriPPSP/HashTree.cpp:694-817 | the branch for a known size |
| HashTrees.HashTree.CheckUnknownSize | Src/EtriPPSP/EtriPPSP/HashTree.cpp:577-692 | the branch for an unknown size, with its case of no sibling message |
| HashTrees.HashTree.ClimbToRoot | Src/EtriPPSP/EtriPPSP/HashTree.cpp:718-778 | the climb loop computes the recursive climb and collects exactly the messages it used |
| HashTrees.HashTree.ClimbMessages | Src/EtriPPSP/EtriPPSP/HashTree.cpp:620-650 | the climb loop of the unknown-size branch likewise |
| HashTrees.HashTree.MoveToTree | Src/EtriPPSP/EtriPPSP/HashTree.cpp:662-671 | used messages move to the shared tree unless present, and leave the channel |
| PeakExchange.PeakRoundTrip | Src/EtriPPSP/EtriPPSP/HashTree.cpp:848-1005 | fed exactly the seeder's peaks, in every visiting order: accepted exactly if n-1 is no power of two (or the root happens to be the hash of the last chunk), and then `ChunkRange` = n-1, `LeafNodeCount` is the least power of two >= n and every peak is consumed |
| PeakExchange.PeaksAccepted | Src/EtriPPSP/EtriPPSP/HashTree.cpp:886-998 | the accepting case with the whole new state |
| PeakExchange.PeaksMisjudged | Src/EtriPPSP/EtriPPSP/HashTree.cpp:912-926 | n-1 a power of two: the leaf count comes out as n-1, and the check compares the last chunk's hash alone with the root |
| PeakExchange.LeafCountIsRight | Src/EtriPPSP/EtriPPSP/HashTree.cpp:912-924 | the rounding loop's result is the leaf count unless n-1 is a power of two |
| PeakExchange.LastPeakIsPicked | Src/EtriPPSP/EtriPPSP/HashTree.cpp:850-877 | in every visiting order the climb starts from the last peak |
| PeakExchange.PeakClimbReachesRoot | Src/EtriPPSP/EtriPPSP/HashTree.cpp:929-966 | above the last peak every left sibling is a peak, every right one padding, and the climb ends in the root hash |
| PeakExchange.PeakClimbFromLast | Src/EtriPPSP/EtriPPSP/HashTree.cpp:929-966 | the climb from the last peak uses all other peaks |
| PeakExchange.SeederSendsPeaks | Src/EtriPPSP/EtriPPSP/HashTree.cpp:496-522 | the walk from the last chunk finds exactly the cover of the chunks by maximal full ranges; none is sent for a power of two |
| PeakExchange.WalkIsClimb | Src/EtriPPSP/EtriPPSP/HashTree.cpp:505-521 | the pointer walk over flags and links is the arithmetic walk over ranges |
| PeakExchange.PeaksAreMaximal | Src/EtriPPSP/EtriPPSP/HashTree.cpp:496-522 | peaks tile 0..n-1 with strictly decreasing sizes, are as many as the one-bits of n, and are exactly the full ranges whose parent is not full |
| Peaks.CoverTiles | Src/EtriPPSP/EtriPPSP/HashTree.cpp:505-521 | the cover's ranges are aligned and follow each other without gap or overlap |
| Peaks.CoverShrinks | Src/EtriPPSP/EtriPPSP/HashTree.cpp:505-521 | their sizes strictly decrease |
| Peaks.CoverCount | Src/EtriPPSP/EtriPPSP/HashTree.cpp:505-521 | their number is the number of one-bits |
| Peaks.CoverIsMaximal | Src/EtriPPSP/EtriPPSP/HashTree.cpp:507-518 | membership means full with a parent that is not |
| Peaks.ClimbFindsCover | Src/EtriPPSP/EtriPPSP/HashTree.cpp:505-521 | the upward walk collects the cover defined from the root downwards |
| HashTrees.HashTree.GetPeakHashes | Src/EtriPPSP/EtriPPSP/HashTree.cpp:479-530 | computed once and remembered; the first call returns and stores the nodes of the walk |
| HashTrees.HashTree.WalkToRoot | Src/EtriPPSP/EtriPPSP/HashTree.cpp:501-521 | the pointer walk returns exactly the nodes the walk specification names |
| HashTrees.HashTree.CheckPeakHash | Src/EtriPPSP/EtriPPSP/HashTree.cpp:820-1009 | the outcome relation, with all early returns, for every visiting order |
| HashTrees.HashTree.CheckPeakAt | Src/EtriPPSP/EtriPPSP/HashTree.cpp:886-1005 | result and whole new state from the picked node, including what a failed check leaves behind |
| HashTrees.HashTree.PickLastPeak | Src/EtriPPSP/EtriPPSP/HashTree.cpp:850-877 | a single chunk if there is one, else a range that ends last |
| HashTrees.HashTree.RoundUpEven | Src/EtriPPSP/EtriPPSP/HashTree.cpp:919-922 | from an even number the steps of two end, at the least power of two not below it (at once for zero) |
| HashTrees.HashTree.AcceptPeaks | Src/EtriPPSP/EtriPPSP/HashTree.cpp:970-994 | accepted peaks move from the channel to the shared tree and the peak map, nodes already in the tree are kept, and the size is recorded |
| HashTrees.HashTree.RoundUpLeaves | Src/EtriPPSP/EtriPPSP/HashTree.cpp:912-924 | rounds up to even and on to the next power of two |
| HashTrees.HashTree.ClimbPeaks | Src/EtriPPSP/EtriPPSP/HashTree.cpp:926-966 | the climb loop computes the recursive climb and collects exactly the messages it used |
| Sha1.Encrypt | Src/EtriPPSP/EtriPPSP/SHA/sha1.cpp:291-297 | the digest is the FIPS 180-4 one, for every message the length parameter admits |
| Sha1Answer.AbcDigest | Src/EtriPPSP/EtriPPSP/SHA/sha1.cpp:124-297 | known answer: the digest of "abc", by value |
| Sha1Answer.ConstantsAreRoots | Src/EtriPPSP/EtriPPSP/SHA/sha1.cpp:118-122 | the round constants are the integer parts of 2^30 times the roots of 2, 3, 5 and 10 |
| Sha1Answer.BytesOfNumbers | Src/EtriPPSP/EtriPPSP/SHA/sha1.cpp:278-288 | length field and digest words have their most significant byte first |
| Sha1.EncryptLR | Src/EtriPPSP/EtriPPSP/SHA/sha1.cpp:299-310 | two updates hash like the concatenation |
| Sha1.Context.Update | Src/EtriPPSP/EtriPPSP/SHA/sha1.cpp:244-270 | size, chaining value and live buffer bytes are those of everything hashed so far, however it was cut |
| Sha1.Context.Final | Src/EtriPPSP/EtriPPSP/SHA/sha1.cpp:272-289 | the digest of everything hashed so far, for every message below 2^61 bytes |
| Sha1.Context.Block | Src/EtriPPSP/EtriPPSP/SHA/sha1.cpp:124-230 | adds the FIPS compression of the block to the chaining value |
| Sha1.Context.TopUp | Src/EtriPPSP/EtriPPSP/SHA/sha1.cpp:251-262 | filling a started block |
| Sha1.Context.FullBlocks | Src/EtriPPSP/EtriPPSP/SHA/sha1.cpp:263-269 | whole blocks straight from the data, the rest into the buffer |
| Sha1.EightyRounds | Src/EtriPPSP/EtriPPSP/SHA/sha1.cpp:135-223 | 80 rounds with a 16-word window and renamed registers equal 80 rounds of FIPS 180-4 |
| Sha1.FiveRounds | Src/EtriPPSP/EtriPPSP/SHA/sha1.cpp:136-140 | five rounds bring the register names back |
| Sha1.ShaRound | Src/EtriPPSP/EtriPPSP/SHA/sha1.cpp:113-122 | one round in place is one round of FIPS 180-4 after renaming, and the window stays right |
| Sha1.RoundInPlace | Src/EtriPPSP/EtriPPSP/SHA/sha1.cpp:113-116 | updating E and B only is shifting all five registers |
| Sha1.FnIsF | Src/EtriPPSP/EtriPPSP/SHA/sha1.cpp:118-122 | the rewritten Ch and Maj, with + in place of bitwise or, equal the originals |
| Sha1.MixIsSchedule | Src/EtriPPSP/EtriPPSP/SHA/sha1.cpp:111 | the window holds the words 3, 8, 14 and 16 rounds back |
| Sha1.WindowStep | Src/EtriPPSP/EtriPPSP/SHA/sha1.cpp:104 | overwriting slot t mod 16 moves the window on by one |
| Sha1.StateOfMessage | Src/EtriPPSP/EtriPPSP/SHA/sha1.cpp:244-270 | what the invariant of the context, kept by Update, amounts to: contexts that hashed equal bytes agree, however the bytes were cut |
| Sha1.ChainJoin | Src/EtriPPSP/EtriPPSP/SHA/sha1.cpp:263-267 | hashing blocks one after the other is hashing their concatenation |
| Sha1.LengthField | Src/EtriPPSP/EtriPPSP/SHA/sha1.cpp:278-280 | the two length words are the 64-bit bit count |
| Sha1.PaddingBytes | Src/EtriPPSP/EtriPPSP/SHA/sha1.cpp:282-283 | 1 + (63 & (55 - i)) bytes of the pad constant are the one-bit and the zeros |
| Sha1Spec.PadFillsBlocks | Src/EtriPPSP/EtriPPSP/SHA/sha1.cpp:282-284 | the padded message is a whole number of blocks |
| Sha1Spec.PaddedLength | Src/EtriPPSP/EtriPPSP/SHA/sha1.cpp:283 | the zero count is the only one below 64 that does this |
| Sha1.Sha1IsHasher | Src/EtriPPSP/EtriPPSP/HashTree.cpp:51-56 | SHA-1 is an instance of the hash function the tree is built with |
| RangeLists.RunIsExact | Src/EtriPPSP/EtriPPSP/Binmap.cpp:41-139 | after any run of single-chunk insertions: disjoint, non-adjacent ranges covering exactly the inserted chunks, and a right prefix pointer |
| Prefixes.PushedRange | Src/EtriPPSP/EtriPPSP/Binmap.cpp:130-136 | any list: a range apart from all listed ones is put at the end and leaves the prefix pointer as it is |
| Prefixes.CoveredRange | Src/EtriPPSP/EtriPPSP/Binmap.cpp:48-57 | a range covered by the first near one changes nothing |
| Prefixes.GrownRange | Src/EtriPPSP/EtriPPSP/Binmap.cpp:59-94 | otherwise the first near range grows; the pointer becomes its end if it starts at 0, else it stays |
| Prefixes.JoinedRange | Src/EtriPPSP/EtriPPSP/Binmap.cpp:97-129 | a second range that it reaches takes its place, joined with it; the pointer becomes the end of the joined range if that starts at 0; a range strictly inside loses the chunks before it |
| Prefixes.PointerNeedsChange | Src/EtriPPSP/EtriPPSP/Binmap.cpp:41-139 | over runs of calls with any ranges: the pointer is set only if some call changed a listed range |
| Prefixes.ApartRun | Src/EtriPPSP/EtriPPSP/Binmap.cpp:41-139 | a run of ranges that are all apart lists them in order and leaves the pointer at -1 |
| Prefixes.PointerExamples | Src/EtriPPSP/EtriPPSP/PPCommon.h:89-93 | the seeder's first call leaves -1; a lost range can leave the pointer behind |
| RangeLists.InsertExactIff | Src/EtriPPSP/EtriPPSP/Binmap.cpp:41-139 | on a canonical list a call records exactly the old and the new chunks if and only if the second loop's first joinable range is not strictly inside the changed one |
| RangeLists.InsertAddsNothingElse | Src/EtriPPSP/EtriPPSP/Binmap.cpp:41-139 | no call records a chunk that was neither listed nor new |
| RangeLists.InsertAddsAll | Src/EtriPPSP/EtriPPSP/Binmap.cpp:41-139 | without swallowing, any call on any well-formed list is exact |
| RangeLists.SwallowingLoses | Src/EtriPPSP/EtriPPSP/Binmap.cpp:103-127 | swallowing loses the chunk just before the swallowed range |
| RangeLists.SwallowingExample | Src/EtriPPSP/EtriPPSP/Binmap.cpp:103-127 | 1..10 into 0..2, 5..6 leaves 5..10 |
| RangeLists.SingleKeepsCanonical | Src/EtriPPSP/EtriPPSP/Binmap.cpp:41-139 | a single-chunk insertion keeps the ranges disjoint and non-adjacent |
| RangeLists.SingleKeepsPrefix | Src/EtriPPSP/EtriPPSP/Binmap.cpp:59-120 | and keeps CP = e exactly when 0..e with e >= 1 is listed, else -1 |
| RangeLists.SingleIsExact | Src/EtriPPSP/EtriPPSP/Binmap.cpp:41-139 | and records exactly its chunk |
| Binmaps.Binmap.SetHave | Src/EtriPPSP/EtriPPSP/Binmap.cpp:41-139 | list and prefix pointer as the insertion specification says |
| Binmaps.Binmap.FindAndGrow | Src/EtriPPSP/EtriPPSP/Binmap.cpp:46-94 | the first loop changes exactly the first range that meets a case |
| Binmaps.Binmap.JoinOther | Src/EtriPPSP/EtriPPSP/Binmap.cpp:97-129 | the second loop joins exactly the first joinable range and erases the changed one |
| Binmaps.Binmap.IsHaveData | Src/EtriPPSP/EtriPPSP/Binmap.cpp:141-152 | held, or outstanding while the list is not empty |
| Binmaps.Binmap.GetRequestData | Src/EtriPPSP/EtriPPSP/Binmap.cpp:154-213 | the least wanted chunk after the prefix, or the first in the peer's order; -1 exactly if there is none; the answer becomes outstanding |
| Binmaps.Binmap.AfterPrefix | Src/EtriPPSP/EtriPPSP/Binmap.cpp:165-186 | the branch with a prefix pointer |
| Binmaps.Binmap.InPeerOrder | Src/EtriPPSP/EtriPPSP/Binmap.cpp:190-207 | the branch without |
| Binmaps.Binmap.Lists | Src/EtriPPSP/EtriPPSP/Binmap.cpp:171-182 | finds a chunk in a peer's list |
| Binmaps.Binmap.SetRequested | Src/EtriPPSP/EtriPPSP/Binmap.cpp:215-224 | adds to the outstanding chunks and says whether it was new |
| Binmaps.Binmap.ReleaseRequested | Src/EtriPPSP/EtriPPSP/Binmap.cpp:226-233 | removes from them |
| Binmaps.Binmap.CheckFinish | Src/EtriPPSP/EtriPPSP/Binmap.cpp:279-374 | for any well-formed ranges within the content, in any order and overlapping or not, true exactly if they cover 0..`LastChunk`; the merging terminates |
| Binmaps.MergePass | Src/EtriPPSP/EtriPPSP/Binmap.cpp:300-343 | one pass keeps what is covered and leaves nothing mergeable if it removed nothing |
| Binmaps.MergedIsComplete | Src/EtriPPSP/EtriPPSP/Binmap.cpp:345-360 | at the fixpoint the merged span is everything exactly if the list is |
| Binmaps.Binmap.SetData | Src/EtriPPSP/EtriPPSP/Binmap.cpp:376-431 | records, releases and writes, also when the last chunk is not known yet and bytes from behind the packet are written; `LastChunkSize` is undisturbed for chunks within the content |
| Binmaps.Binmap.SetLastChunk | Src/EtriPPSP/EtriPPSP/Binmap.cpp:433-437 | sets the last chunk and its size |
| Downloads.PrefixSkipsNothing | Src/EtriPPSP/EtriPPSP/Binmap.cpp:157-187 | the prefix fast path refines the full scan: the least requestable chunk of the whole content, -1 exactly if none |
| Downloads.ScanFindsRequestable | Src/EtriPPSP/EtriPPSP/Binmap.cpp:188-208 | the other branch returns a requestable chunk, -1 exactly if none, once something is held |
| Downloads.ScanIsFirst | Src/EtriPPSP/EtriPPSP/Binmap.cpp:188-208 | that answer is the first requestable chunk in the order of the peer's list |
| Downloads.FirstAnswer | Src/EtriPPSP/EtriPPSP/Binmap.cpp:188-208 | while nothing is held the answer is the first chunk of the peer's list |
| Downloads.RunKeeps | Src/EtriPPSP/EtriPPSP/Binmap.cpp:154-233 | in every interleaving of requests, deliveries and releases held and outstanding chunks stay disjoint and what is held is exactly what was delivered |
| Downloads.StepKeeps | Src/EtriPPSP/EtriPPSP/Binmap.cpp:154-233 | the same for one step, and the answer is new |
| Downloads.NeverAskedTwice | Src/EtriPPSP/EtriPPSP/Binmap.cpp:143-149 | once something is held, a chunk is handed out again only after delivery or release |
| Downloads.OutstandingAgainIff | Src/EtriPPSP/EtriPPSP/Binmap.cpp:141-208 | one answer: an outstanding chunk is handed out again if and only if nothing is held and the first chunk of the peer's list is outstanding |
| Downloads.AskedAgainIff | Src/EtriPPSP/EtriPPSP/Binmap.cpp:141-208 | over runs: an answer was handed out before, and neither delivered nor released since, if and only if nothing has been delivered yet and the same is true of the first chunk of the asked peer's list |
| Downloads.AskedTwiceAtFirst | Src/EtriPPSP/EtriPPSP/Binmap.cpp:143-151 | the input: chunk 0 asked for twice in a row |
| Downloads.MissingShrinks | Src/EtriPPSP/EtriPPSP/Binmap.cpp:154-233 | the number of missing chunks drops by one with each new delivery and never changes otherwise |
| Downloads.NothingMissing | Src/EtriPPSP/EtriPPSP/Binmap.cpp:157-213 | nothing missing means complete, and then every request answers -1 |
| Reassembly.DownloadedFile | Src/EtriPPSP/EtriPPSP/PPClient.cpp:841-849 | a whole download after a first contact that worked, in any order with repeats: the file begins with the content, and is the content if and only if the first packet did not hold the last chunk or that chunk is full |
| Reassembly.ReceiveAllKeeps | Src/EtriPPSP/EtriPPSP/PPClient.cpp:841-849 | throughout, `SetLastChunk` has been called exactly if the tree knows the content size, and with the right values |
| Reassembly.FileIsContent | Src/EtriPPSP/EtriPPSP/Binmap.cpp:376-437 | any run of `SetLastChunk` and `SetData` with every chunk at least once: the file is the content if and only if the last chunk is full or was known before it was first stored; otherwise it is the content followed by bytes from behind a packet |
| Reassembly.ShortLastChunkFirst | Src/EtriPPSP/EtriPPSP/Binmap.cpp:394-403 | the input: three bytes in chunks of two, the last one first |
| Reassembly.StoredIsRight | Src/EtriPPSP/EtriPPSP/Binmap.cpp:394-403 | the bytes of every stored chunk are right and stay right, and the file is too long exactly if the last chunk was stored too early and is short |
| Reassembly.PieceFacts | Src/EtriPPSP/EtriPPSP/Binmap.cpp:396-403 | what one call writes is the chunk and no more if and only if the last chunk is known, is full, or is not the one written |
| Reassembly.RangeLength | Src/EtriPPSP/EtriPPSP/Binmap.cpp:394-401 | with the last chunk known, a range of chunks is written with its length in the content |
| Reassembly.WriteAtBytes | Src/EtriPPSP/EtriPPSP/Binmap.cpp:394-403 | every byte after a write: the data, what was there, or zero in a gap |
| Reassembly.LastForgotten | Src/EtriPPSP/EtriPPSP/Binmap.cpp:405-428 | the size of the last chunk is forgotten exactly if a call that ended with it is followed by one that ends behind it; then nothing is written for it |
| Reassembly.StoreStep | Src/EtriPPSP/EtriPPSP/Binmap.cpp:394-403 | one call keeps right bytes right, makes those of its chunk right, and makes the file too long only for a last chunk not known to be the last |
| Reassembly.LastIsRight | Src/EtriPPSP/EtriPPSP/Binmap.cpp:405-437 | the last chunk and its size are both unknown or both right after any such run |
| HandShakes.RoundTrip | Src/EtriPPSP/EtriPPSP/PP/HandShake.cpp:58-225 | parsing a printed handshake followed by anything recovers every printed option, whichever optional ones are present, and stops exactly at its end (bitmap length below 128) |
| WireFormat.HandShakeStart | Src/EtriPPSP/EtriPPSP/PP/HandShake.cpp:227-260 | message type 0 at byte 4, the two versions under codes 0 and 1, 255 at the end, by value |
| WireFormat.HandShakeBytes | Src/EtriPPSP/EtriPPSP/PP/HandShake.cpp:244-353 | every option by the values of its bytes, in the order of the message |
| WireFormat.ByteOptions | Src/EtriPPSP/EtriPPSP/PP/HandShake.cpp:92-107 | parsing codes 0, 1, 3, 4, 5 and 6 by value, in any order |
| WireFormat.NumberOptions | Src/EtriPPSP/EtriPPSP/PP/HandShake.cpp:192-213 | parsing codes 9 and 10 by value |
| WireFormat.WindowWidth | Src/EtriPPSP/EtriPPSP/PP/HandShake.cpp:156-173 | the live discard window takes four, eight or no bytes, by the chunk addressing method |
| WireFormat.UnknownCode | Src/EtriPPSP/EtriPPSP/PP/HandShake.cpp:215-221 | codes 11 to 254 end the parse behind the code and change nothing |
| WireFormat.EmptyVariable | Src/EtriPPSP/EtriPPSP/PP/HandShake.cpp:109-190 | zero and negative lengths leave the field alone |
| HandShakes.BitmapRecoveredIff | Src/EtriPPSP/EtriPPSP/PP/HandShake.cpp:175-190 | a bitmap is recovered if and only if its length is between 1 and 127 |
| HandShakes.ReadBitmapsAreShort | Src/EtriPPSP/EtriPPSP/PP/HandShake.cpp:178-188 | no parse yields a bitmap of 128 bytes or more |
| HandShakes.TurnConsumes | Src/EtriPPSP/EtriPPSP/PP/HandShake.cpp:88-222 | every turn of the loop consumes bytes, so the parser terminates |
| HandShakes.ParseSwarm | Src/EtriPPSP/EtriPPSP/PP/HandShake.cpp:109-126 | the length-prefixed swarm identifier reads back |
| HandShakes.ParseBitmap | Src/EtriPPSP/EtriPPSP/PP/HandShake.cpp:175-190 | the length-prefixed bitmap reads back |
| HandShakes.ParseTail | Src/EtriPPSP/EtriPPSP/PP/HandShake.cpp:175-213 | the optional tail reads back in all its combinations |
| HandShakes.HandShake.Create | Src/EtriPPSP/EtriPPSP/PP/HandShake.cpp:58-225 | fields and returned position as the parser specification says |
| HandShakes.HandShake.ParseTurn | Src/EtriPPSP/EtriPPSP/PP/HandShake.cpp:90-221 | the switch does one turn of it |
| HandShakes.HandShake.GetBuffer | Src/EtriPPSP/EtriPPSP/PP/HandShake.cpp:227-353 | a new buffer with exactly the printed message, for everything that fits the 1024 bytes |
| Haves.DatagramRoundTrip | Src/EtriPPSP/EtriPPSP/PPClient.cpp:382-470 | handshake plus HAVE: the handshake parser stops at the HAVE's type byte and the HAVE parses back from there |
| Haves.HaveRoundTrip | Src/EtriPPSP/EtriPPSP/PP/Have.cpp:16-82 | both forms of HAVE read back, whatever follows |
| WireFormat.HaveBytes | Src/EtriPPSP/EtriPPSP/PP/Have.cpp:45-82 | message type 3, by value, in both forms |
| Haves.Have.Create | Src/EtriPPSP/EtriPPSP/PP/Have.cpp:16-43 | fields and returned position in both forms |
| Haves.Have.GetBuffer | Src/EtriPPSP/EtriPPSP/PP/Have.cpp:45-82 | a new buffer with exactly the printed message in both forms |
| Wire.RoundTrip32 | Src/EtriPPSP/EtriPPSP/Common/Util.cpp:179-209 | network order and back, for every 32-bit int |
| Wire.RoundTrip16 | Src/EtriPPSP/EtriPPSP/Common/Util.cpp:174-204 | network order and back, for every 16-bit int |
| Wire.NetworkOrder32 | Src/EtriPPSP/EtriPPSP/Common/Util.cpp:179-182 | most significant byte first, two's complement |
| Wire.NetworkOrder16 | Src/EtriPPSP/EtriPPSP/Common/Util.cpp:174-177 | the same for 16 bits |

## Left out

- HashTrees.HashTree.Make: files of at most one chunk are excluded, because the original dereferences an unset root node for them; an unreadable file is not modelled.
- HashTrees.HashTree.CheckPeakHash: messages whose range ends before it starts are excluded, because the original divides by the length of the range, or by that of its union with the sibling, and both can be zero then; the verdict after a failed check keeps a mutex locked in the original, which is not modelled.
- HandShakes.HandShake.Create: data on which the parser runs past the end is excluded, because nothing tells the original where the datagram ends; what the live discard window option does to memory is reduced to the bytes it reads.
- Sha1.Encrypt: the length parameter is a 32-bit unsigned number, so messages are below 2^32 bytes; Sha1.Context.Final covers everything below 2^61.
- Binmaps.Binmap.SetData: reading behind the end of the allocated memory has no meaning and is excluded, so enough bytes are taken to follow the packet; the file is a byte sequence that is open already; reopening, which truncates it, and failed writes are not modelled.
- Chunk numbers, ranges and channel maps: chunk numbers are natural numbers, so values from the network that turn negative as 32-bit ints, and overflow of indices and byte offsets, are not modelled.
- Exchange.FirstRequest: what a peer asks for again after a failed first contact is not modelled.
- SHA-256: not modelled; the tree results hold for any hash function of fixed digest length.
- Node flags IsLeft and IsPreview: stored by the original but never read.
- Freeing of memory, aliasing of node objects between maps, and the pointer form of links: nodes are values keyed by index.
- Sockets, threads, logging, retries, configuration, tracker options, and the remaining message codecs (fixed layouts that would add only easy round trips).
- GetData, GetBiggestHavedChunkRange, the supported-messages bits and channel numbering: finite or easy claims.
- Hex conversion of the swarm identifier: it is kept as bytes.
