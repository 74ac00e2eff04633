# Backup Studio: archive pipeline, server and snapshot loop, verified

This project models the parts of Backup Studio that decide whether a backup can be trusted, and proves what they
promise. Files are byte sequences, an exception is a failure result, and each loop or object that the program changes
in place is a method with a loop or a class with fields, proved against a specification function. The theorems below
are about those functions.

- **Compression** (`HuffmanOptimal`, `HuffmanLengths`, `HuffmanBuilder`, `CanonicalCodes`, `BitStream`, `HuffmanTrie`,
  `HuffmanCodec`; `Lz77Format`, `Lz77Decoder`, `Lz77Encoder`, `Lz77Codec`; `Rle`). Each decoder undoes its encoder on
  every input, and accepts exactly what its format says. The Huffman table is optimal among all prefix codes, by the
  exchange argument carried through every merge. The LZ77 encoder's hash chains hold exactly the inserted positions,
  so whatever collides and whatever lazy matching skips, the emitted sequences denote the block; and a match is emitted
  exactly where the greedy rule with one byte of look-ahead calls for it.
- **The server** (`Sessions`, `SessionsInvariant`, `SessionsHistory`, `SessionsLogin`, `SessionsProgress`,
  `SessionsServer`, `ListClient`, `IncrementalUpload`). All connections form one state machine whose steps are the sections under the storage lock and
  the single reads and writes between them, each with its points of failure. The invariant holds in every reachable
  state, under every interleaving, fault, disconnection and restart, and every session goes back to a proof against
  the last challenge of its own connection, while the right answer to it always logs in. `Server` is the program's mutable state with the count map of active
  sessions; its methods take exactly the machine's steps. A transfer of an honest client completes whatever other
  connections do meanwhile.
- **Scan, pack, archive, restore** (`Paths`, `Scan`, `SourceEntries`, `Entries`, `Fields`, `EntryCodec`, `Pack`,
  `IndexPack`, `PackFiles`, `ArchiveHeader`, `Archive`, `Restore`, `Pipeline`). The pruned walk yields exactly the
  wanted part of the source; both pack layouts read back what was written; every archive holds at most one pack for a
  password; a validated list restores to exactly its tree; and together: restoring a created archive yields the
  selected part of the source tree, field by field as the system reported it, for every selection, layout, compression
  and encryption.
- **Digests and ciphers** (`ShaBlock`, `ShaConstants`, `Sha`, `CipherStream`, `Algorithms`). Streaming equals the definition on the whole message,
  however it is cut; the keystream can be split at any position; block counters neither repeat nor run
  out, and what is written differs from its input by exactly the keystream.
- **Automatic snapshots** (`Retention`, `Snapshots`). Over every run, no delivered change is lost, the deadline is fixed
  by the first change and met, interval snapshots and retries come at their time and not before, retries are bounded, and retention removes exactly the expired snapshots.

Assumptions that the statements name: an identifier for an upload is not that of another upload in progress and
temporary names are new (`FreshNames`); Huffman frequencies sum to less than 2^64; messages for SHA-256 are shorter than
2^61 bytes; incremental transfer needs the digests of two different blocks at the same place to differ (`NoCollision`),
nothing else about the digest; digests, tags and keystream blocks have their sizes (`Usable`), which
`ProgramSuiteIsUsable` shows of the program's own algorithms.

Where the documentation and the code disagree, the code is modelled: docs/design.md:212 lets an RLE packet count up to
255, but runs are capped at 128 (DataBackup/core/compress_rle.cpp:143); docs/design.md:412 describes a delay that
each change restarts, but the first change fixes the deadline (DataBackup/core/automatic.cpp:181-187). A download
compares the stored archive with its digest only, not with its recorded size (DataBackup/network/session.cpp:273-276);
the invariant shows that the size agrees too.

`dafny verify dfyconfig.toml` checks everything.

## Model

| member | source | states |
|---|---|---|
| `HuffmanOptimal.MergeIsOptimal` | DataBackup/core/compress_huffman.cpp:55-68 | The weight of the inner nodes that repeated merging of the two least trees creates is at most the cost of any lengths for the trees of the forest that satisfy Kraft's inequality: the exchange argument over a whole run of the loop. |
| `HuffmanLengths.LeastIsUnique` | DataBackup/core/compress_huffman.cpp:21-34 | Frequency, then smallest symbol, strictly orders the trees of a forest, so the queue's internal layout cannot influence the result. |
| `HuffmanBuilder.BuildHuffmanLengths` | DataBackup/core/compress_huffman.cpp:17-83 | The program on a node array and a queue of indices stores exactly the depths of the tree the merge of whole trees yields, at least 1 for a single symbol. |
| `HuffmanBuilder.MergeTop` | DataBackup/core/compress_huffman.cpp:57-67 | One round takes the two least nodes and queues their parent; on the forest of trees it is one merge step, and the 64-bit sum cannot wrap. |
| `HuffmanBuilder.PopTop` | DataBackup/core/compress_huffman.cpp:57-60 | The popped index is the one no other queued index is ordered before, and the queue keeps all others. |
| `HuffmanLengths.LengthsMeaning` | DataBackup/core/compress_huffman.cpp:45-83 | For every frequency table: exactly the occurring byte values get a length, none exceeds 255, two or more of them meet Kraft's inequality with equality, and a single one gets length 1. |
| `HuffmanLengths.LengthsAreOptimal` | DataBackup/core/compress_huffman.cpp:17-83 | No assignment that gives every occurring byte value at least one bit and satisfies Kraft's inequality costs fewer bits in total than the lengths built. |
| `Canonical.Increment` | DataBackup/core/compress_huffman.cpp:119-132 | The carry loop turns the code word into its successor among those of its length and says whether there was none. |
| `Canonical.NextStart` | DataBackup/core/compress_huffman.cpp:117-133 | On the scale of Kraft units the next code starts exactly where this one's units end, and a carry is left over exactly when they end the scale. |
| `Canonical.OrderedMeaning` | DataBackup/core/compress_huffman.cpp:90-98 | The sorted list names exactly the used symbols, each once and with its length, strictly by length and then symbol. |
| `Canonical.AssignMeaning` | DataBackup/core/compress_huffman.cpp:104-134 | From the head of the list on, the codes lie end to end on the scale of Kraft units, and assignment fails exactly when they do not fit. |
| `Canonical.CanonicalCodesMeaning` | DataBackup/core/compress_huffman.cpp:87-136 | Assignment fails if and only if the lengths break Kraft's inequality; otherwise every symbol gets a code of its own length, unused symbols none, and the codes are prefix-free. |
| `Canonical.AssignCanonicalCodes` | DataBackup/core/compress_huffman.cpp:87-136 | The loop over the sorted pairs computes that assignment. |
| `Canonical.EncoderCodesExist` | DataBackup/core/compress_huffman.cpp:231-232 | The lengths the encoder built always have canonical codes, and every byte of the input has one. |
| `BitStream.BitWriter.Write` | DataBackup/core/compress_huffman.cpp:142-152 | Appends exactly the bits given to those written so far. |
| `BitStream.BitWriter.Finish` | DataBackup/core/compress_huffman.cpp:153-160 | The output is the header and the shortest whole bytes holding all bits written, zero-padded. |
| `BitStream.BitReader.Read` | DataBackup/core/compress_huffman.cpp:178-194 | Returns the next unread bit, most significant first, and -1 exactly at the end. |
| `BitStream.BitReader.HasOnlyZeroPaddingAndEof` | DataBackup/core/compress_huffman.cpp:195-199 | True exactly when less than a byte is left and all of it is zero bits. |
| `BitStream.BitsOfPack` | DataBackup/core/compress_huffman.cpp:138-172 | The bits of the packed bytes are the bits written followed by zero padding shorter than a byte. |
| `BitStream.PackOfBits` | DataBackup/core/compress_huffman.cpp:174-199 | Packing the bits of whole bytes returns the bytes. |
| `HuffmanTrie.InsertCode` | DataBackup/core/compress_huffman.cpp:296-310 | Inserting a code succeeds exactly when no earlier code is a prefix of it or it of an earlier one, and then the nodes are the prefixes of the codes so far. |
| `HuffmanTrie.BuildTrie` | DataBackup/core/compress_huffman.cpp:287-311 | The trie is accepted if and only if the code table is prefix-free; its nodes are exactly the prefixes of the codes and carry a symbol exactly at a code. |
| `HuffmanCodec.DecodingIsUnique` | DataBackup/core/compress_huffman.cpp:327-347 | Two outputs whose code bits begin alike begin alike: a prefix-free table decodes in at most one way. |
| `HuffmanCodec.CompressedIsStream` | DataBackup/core/compress_huffman.cpp:207-262 | What the encoder writes is a stream of its input: header, table, code bits, least zero padding. |
| `HuffmanCodec.StreamIsUnique` | DataBackup/core/compress_huffman.cpp:264-356 | No stream belongs to two outputs that a 64-bit size can declare. |
| `HuffmanCodec.CompressedIsShortest` | DataBackup/core/compress_huffman.cpp:207-262 | No prefix code with a bit or more per occurring byte gives a shorter stream than the encoder's. |
| `HuffmanCodec.CompressedSize` | DataBackup/core/compress_huffman.cpp:207-262 | Compression adds at most the 268 bytes of the header: eight bits a byte would be one of the codes it beats. |
| `HuffmanCodec.HuffmanCompress` | DataBackup/core/compress_huffman.cpp:207-262 | Counting, table and bit writing together produce that stream. |
| `HuffmanCodec.DecodePayload` | DataBackup/core/compress_huffman.cpp:322-354 | The bit-by-bit walk returns the one output of the declared size whose code bits, zero-padded, are the payload, and fails when there is none. |
| `HuffmanCodec.HuffmanDecompress` | DataBackup/core/compress_huffman.cpp:264-356 | Accepts exactly the streams of outputs of the expected size and returns that output; every other input is refused. |
| `HuffmanCodec.RoundTrip` | DataBackup/core/compress_huffman.cpp:207-356 | Decompressing what was compressed returns the input, also when it is empty or repeats a single byte. |
| `Lz77Format.DecodePrinted` | DataBackup/core/compress_lz77.cpp:189-266 | Every list of valid sequences that fills the block, written out, is decoded to the bytes the sequences denote. |
| `Lz77Format.AcceptedIsPrinted` | DataBackup/core/compress_lz77.cpp:189-266 | Whatever the decoder accepts is such a written list, with all input consumed and the whole block filled. |
| `Lz77Format.DecodeMeaning` | DataBackup/core/compress_lz77.cpp:52-57 | The decoder accepts exactly the blocks of the token grammar and returns exactly what they denote. |
| `Lz77Decoder.ReadExtension` | DataBackup/core/compress_lz77.cpp:201-216 | Extension bytes are read until one is not 255; the running length never exceeds the block size. |
| `Lz77Decoder.CopyMatch` | DataBackup/core/compress_lz77.cpp:259-264 | The byte-wise copy in the output array, overlapping or not, appends what the one-byte-at-a-time definition says and leaves earlier bytes alone. |
| `Lz77Decoder.DecodeBlock` | DataBackup/core/compress_lz77.cpp:189-266 | For every input and declared size the loop ends, stays in bounds, and succeeds exactly when the block is well formed, with the array then holding what it denotes. |
| `Lz77Encoder.CandidatesDecrease` | DataBackup/core/compress_lz77.cpp:136-141 | The positions on a hash chain strictly decrease, so following it ends. |
| `Lz77Encoder.InsertChained` | DataBackup/core/compress_lz77.cpp:136-141 | Inserting a position at the head of its chain leaves every chain the list of inserted positions of its hash, latest first. |
| `Lz77Encoder.BestIsMatch` | DataBackup/core/compress_lz77.cpp:145-179 | A search result is a real match: equal bytes at that distance, whatever the hash values were. |
| `Lz77Encoder.SearchIsLongest` | DataBackup/core/compress_lz77.cpp:145-179 | No candidate among the first 64 of the chain that lies before the position and within the window matches further than the result. |
| `Lz77Encoder.ChosenIsMatch` | DataBackup/core/compress_lz77.cpp:108-123 | What is emitted after greedy search with one lazy step is a real match of at least the minimum length. |
| `Lz77Encoder.ChosenMeaning` | DataBackup/core/compress_lz77.cpp:105-123 | A match is chosen at a position exactly when some admissible earlier position there agrees for at least 3 bytes and no admissible position for the next byte agrees further than the longest of them; its length is that longest one. |
| `Lz77Encoder.ParseLaw` | DataBackup/core/compress_lz77.cpp:93-132 | At every position the parse reaches: where that law lets a match start, the pending literals and the furthest match are emitted and encoding goes on behind it; anywhere else the byte joins the literals. |
| `Lz77Encoder.EqualBytesSteps` | DataBackup/core/compress_lz77.cpp:93-132 | A block of n equal bytes, 4 <= n <= 65535, becomes one literal and one match of n - 1 bytes. |
| `Lz77Encoder.CopyContinues` | DataBackup/core/compress_lz77.cpp:259-264 | Copying, overlapping or not, from where the same bytes stand continues the data. |
| `Lz77Encoder.ParseContinues` | DataBackup/core/compress_lz77.cpp:93-132 | Whatever real matches are chosen, the emitted sequences denote the block. |
| `Lz77Encoder.BlockRoundTrip` | DataBackup/core/compress_lz77.cpp:93-266 | Decoding the encoding of any block returns the block. |
| `Lz77Encoder.Encoder.Encode` | DataBackup/core/compress_lz77.cpp:93-132 | The encoder object, with head and previous arrays changed in place, writes the bytes of exactly the sequences whose law `ParseLaw` states. |
| `Lz77Encoder.Encoder.Insert` | DataBackup/core/compress_lz77.cpp:136-141 | Keeps the arrays holding the chain of every hash, with the position added. |
| `Lz77Encoder.Encoder.SearchChain` | DataBackup/core/compress_lz77.cpp:145-179 | The chain walk returns the first of the longest matches among the candidates it may look at. |
| `Lz77Encoder.Encoder.AppendStep` | DataBackup/core/compress_lz77.cpp:58-80 | Appends token, literal count, literals, match length and distance of one sequence. |
| `Lz77Codec.CompressedSize` | DataBackup/core/compress_lz77.cpp:270-307 | Compression adds at most 12 bytes and 9 for every block. |
| `Lz77Codec.PayloadIsSmaller` | DataBackup/core/compress_lz77.cpp:294-301 | The payload of a block is the shorter of token stream and plain bytes, and is marked as tokens exactly where these are shorter. |
| `Lz77Codec.CompressedRoundTrip` | DataBackup/core/compress_lz77.cpp:270-361 | Decompressing a compressed file returns it, for every byte string. |
| `Lz77Codec.DecompressedMeaning` | DataBackup/core/compress_lz77.cpp:309-361 | A stream is accepted exactly when it is header and blocks that make up the declared size, each stored verbatim or as a smaller token stream denoting it, and their bytes are returned. |
| `Lz77Codec.Lz77Compress` | DataBackup/core/compress_lz77.cpp:270-307 | The block loop writes the header and, for each block, its token stream or, when that is not smaller, the block itself. |
| `Lz77Codec.Lz77Decompress` | DataBackup/core/compress_lz77.cpp:309-361 | The reading loop, with the array decoder for token blocks, computes that decoding. |
| `Rle.RunsExpand` | DataBackup/core/compress_rle.cpp:134-153 | The runs the loop forms, none over 128 bytes, stand for the data. |
| `Rle.PacketsRead` | DataBackup/core/compress_rle.cpp:86-161 | Reading the packets for pending literals and remaining runs returns those literals and the runs' bytes. |
| `Rle.CompressedRoundTrip` | DataBackup/core/compress_rle.cpp:75-208 | Decompressing a compressed file returns it, for every byte string, runs longer than 128 included. |
| `Rle.DecompressedMeaning` | DataBackup/core/compress_rle.cpp:167-208 | A stream is accepted exactly when it is header and packets of 1 to 128 bytes that denote the declared size, and what they denote is returned. |
| `Rle.CompressedSize` | DataBackup/core/compress_rle.cpp:75-165 | Compression adds at most 12 bytes and one for every 128 bytes of input, begun ones included. |
| `Rle.LongRunTakesTwo` | DataBackup/core/compress_rle.cpp:106-153 | A run of at least three equal bytes, as far as it goes but at most 128, is written as two bytes, and the rest is encoded on its own. |
| `Rle.RleCompress` | DataBackup/core/compress_rle.cpp:123-165 | The loop over single bytes with a pending run and buffered literals writes exactly the packets of those runs. |
| `Rle.Writer.FlushRun` | DataBackup/core/compress_rle.cpp:106-121 | A run of three or more becomes a packet after the buffered literals; a shorter one joins the literals. |
| `Rle.RleDecompress` | DataBackup/core/compress_rle.cpp:167-208 | The reading loop computes that decoding, refusing truncated packets, packets beyond the declared size and trailing bytes. |
| `SessionsInvariant.NextKeeps` | DataBackup/network/session.cpp:302-440 | Every step of any connection keeps the invariant: user names unique; every live logged-in connection's account still the exact record it proved; no file without an account; every upload's temporary file holds what was received, never more than declared; every visible backup complete with the stated size and digest, and each history within 4096 entries and one frame. |
| `SessionsInvariant.RunsKeep` | DataBackup/network/session.cpp:302-440 | The invariant holds after every interleaving of commands, faults, lost replies, disconnections and restarts. |
| `SessionsInvariant.ReachableKeeps` | DataBackup/network/session.cpp:302-440 | In particular in every state reachable from an empty server. |
| `SessionsInvariant.PublishedSound` | DataBackup/network/session.cpp:229-254 | Wherever publication or its cleanup fails, every visible record still has its complete archive and the history still fits a list response. |
| `SessionsInvariant.AccountDeletedKeeps` | DataBackup/network/session.cpp:50-67 | A deletion keeps the whole invariant: no other session is left on the missing account, and no file. |
| `SessionsInvariant.LoginProvedKeeps` | DataBackup/network/session.cpp:31-48 | A login keeps the whole invariant although the account may have been deleted or replaced since the challenge. |
| `SessionsInvariant.UploadEndedKeeps` | DataBackup/network/session.cpp:213-257 | Ending an upload in any way keeps the whole invariant, whatever fails. |
| `SessionsInvariant.AppendedKeeps` | DataBackup/network/session.cpp:181-212 | Accepted bytes keep the whole invariant: the received count stays the length of the temporary file and within the declared size. |
| `SessionsInvariant.RemoveUserMeaning` | DataBackup/network/session.cpp:64-65 | Removing an account removes that record and no other. |
| `SessionsHistory.ReceivedEffect` | DataBackup/network/session.cpp:317-424 | A frame changes accounts only by registering or deleting its own, visible files only by ending its own upload, and nothing of other connections or their temporary files. |
| `SessionsHistory.BackupsKept` | DataBackup/network/session.cpp:229-254 | A visible backup survives every step unchanged, and one that appears is the complete upload which this very frame ended. |
| `SessionsHistory.RunsKeepBackups` | DataBackup/network/session.cpp:302-440 | A visible backup survives every run unchanged. |
| `SessionsHistory.AccountsKept` | DataBackup/network/session.cpp:50-67 | An account disappears only through a deletion on its one session, with no upload in progress and no file stored. |
| `SessionsLogin.StepOnConnection` | DataBackup/network/session.cpp:354-389 | A step changes a connection's session only from none to the account just proved on it, and its challenge only to none or to one issued on it; no step touches another connection's. |
| `SessionsLogin.LoginsAreProved` | DataBackup/network/session.cpp:354-389 | In every state reachable from an empty server, each session was proved on its own connection by a right answer to the last challenge issued on it, with the same request number and no end of the connection in between. |
| `SessionsProgress.RegisterTakes` | DataBackup/network/session.cpp:326-353 | Without a fault, a well-formed free name is registered when there is room: the record is stored and every connection goes on as before. |
| `SessionsProgress.DeleteTakes` | DataBackup/network/session.cpp:50-67 | The only session of an account without files deletes exactly that account, unless a fault comes before the commit. |
| `SessionsProgress.LoginSucceeds` | DataBackup/network/session.cpp:354-389 | Over a run: a login started for a stored record and answered with the right 32 bytes under the same request number, with no fault, ends live with that session, whatever other connections do in between, as long as the record stays stored. |
| `SessionsProgress.RegisteredCanLogIn` | DataBackup/network/session.cpp:326-389 | Over a run from the registration on: unless its own user deletes it, the account can log in that way, on any connection without a session and whatever the others do. |
| `SessionsProgress.RequestsAreAnswered` | DataBackup/network/session.cpp:397-410 | Asking for the history or for a visible backup succeeds without a fault and changes nothing. |
| `SessionsProgress.NothingStaged` | DataBackup/network/session.cpp:125-126 | However an upload ends, its temporary file is gone, unless removing it fails. |
| `SessionsServer.CountOfOne` | DataBackup/network/session.cpp:53-54 | A count of one means exactly that no other connection uses the account. |
| `SessionsServer.AcquiredCounted` | DataBackup/network/session.cpp:45-47 | Taking a key keeps every count the number of connections holding that key. |
| `SessionsServer.ReleasedCounted` | DataBackup/network/session.cpp:18-29 | Giving a key back keeps every count right, and a count that reaches zero is removed. |
| `SessionsServer.Server.Release` | DataBackup/network/session.cpp:18-29 | The destructor of a connection removes it from the server and gives its key back. |
| `SessionsServer.Server.Register` | DataBackup/network/session.cpp:326-353 | Appends the record unless its name is malformed or taken. |
| `SessionsServer.Server.StartLogin` | DataBackup/network/session.cpp:354-371 | Remembers the stored record and the challenge, or ends the connection. |
| `SessionsServer.Server.Acquire` | DataBackup/network/session.cpp:31-48 | Succeeds exactly for a connection without a key whose challenged record is still stored as it was; then the counts include it. |
| `SessionsServer.Server.ProveLogin` | DataBackup/network/session.cpp:372-389 | A login happens exactly for the challenge just issued, a right proof of 32 bytes under the same request number, and a record that has not changed since. |
| `SessionsServer.Server.StartUpload` | DataBackup/network/session.cpp:91-133 | Checks the declaration and the base, and opens a temporary file under a new name. |
| `SessionsServer.Server.Append` | DataBackup/network/session.cpp:181-211 | Writes the bytes of a chunk or of the referenced range of the base, or refuses the frame. |
| `SessionsServer.Server.Admit` | DataBackup/network/session.cpp:234-236 | True exactly when the history with one more entry still fits a list response. |
| `SessionsServer.Server.EndUpload` | DataBackup/network/session.cpp:213-257 | Publishes the complete upload if it is admitted, with the outcome each failure point leaves behind. |
| `SessionsServer.Server.Delete` | DataBackup/network/session.cpp:50-67 | Deletes the account exactly when the count is one and the directory is empty. |
| `SessionsServer.Server.List` | DataBackup/network/session.cpp:397-406 | In every state the invariant allows, a history is listed, completely, each backup once and the newest first. |
| `SessionsServer.Server.Fetch` | DataBackup/network/session.cpp:260-298 | In every state the invariant allows, a visible backup downloads with the content that was published. |
| `SessionsServer.Server.Handle` | DataBackup/network/session.cpp:317-424 | The command loop on the server's mutable state, with its count map, does exactly the step of the state machine and keeps the invariant. |
| `SessionsServer.ListEntries` | DataBackup/network/auth_store.cpp:248-282 | Lists exactly the visible backups, each once and the newest first, and fails exactly when there are more than 4096. |
| `SessionsServer.ListPayload` | DataBackup/network/session.cpp:73-89 | Yields the encoded entries, and fails exactly when they are too many or too long for a frame. |
| `ListClient.AcceptedMeaning` | DataBackup/network/client.cpp:149-167 | The client accepts exactly the list responses of at most 4096 entries, and takes each for the list it was written for. |
| `ListClient.ReadList` | DataBackup/network/client.cpp:149-167 | The reading loop, on a reader that moves through the payload, computes that list. |
| `ListClient.Reader.Number` | DataBackup/network/io.cpp:267-298 | An unsigned number of the width given is read most significant byte first, and refused exactly when too few bytes are left. |
| `ListClient.Reader.String` | DataBackup/network/io.cpp:299-307 | A string is read back; one that is cut off or contains a zero byte is refused. |
| `ListClient.HistoryArrives` | DataBackup/network/session.cpp:73-89 | What the server writes for a sound history is the response of exactly its entries: identifier, name, time, size and hexadecimal digest of each, in order. |
| `ListClient.HexInjective` | DataBackup/network/auth_store.cpp:248-282 | The digest can be told from its hexadecimal form. |
| `IncrementalUpload.SendIndex` | DataBackup/network/session.cpp:133-168 | The frames, none empty and none with more than 128 digests, hold the digests of the base's blocks in order. |
| `IncrementalUpload.ReceiveIndex` | DataBackup/network/client.cpp:231-263 | Returns the digests of all frames in order, and refuses exactly an empty frame or more digests than the limit. |
| `IncrementalUpload.Upload` | DataBackup/network/client.cpp:264-304 | The read loop sends, block by block, a reference where the base has the same digest at the same place and the bytes elsewhere. |
| `IncrementalUpload.OnlyChangesTravel` | DataBackup/network/client.cpp:264-304 | With no digest collision at the same place: within the reach of the index exactly the blocks that equal the base's at the same place are sent as references, every other block as it is. |
| `IncrementalUpload.FrameRebuilds` | DataBackup/network/session.cpp:181-211 | With no digest collision at the same place, the server's bounds checks pass and it gets exactly the client's next block. |
| `IncrementalUpload.TransferStarts` | DataBackup/network/session.cpp:91-168 | The server accepts the first frame of an honest client and opens the transfer on the whole archive of the backup it names. |
| `IncrementalUpload.TransferCompletes` | DataBackup/network/session.cpp:169-212 | Whatever other connections do in between, every frame of the honest client is accepted and the temporary file ends as exactly the client's file. |
| `IncrementalUpload.TransferPublishes` | DataBackup/network/session.cpp:213-254 | The end frame of a complete transfer publishes the file unless the history has no room, and then changes no history. |
| `IncrementalUpload.HonestUpload` | DataBackup/network/session.cpp:91-258 | From first frame to last, in any interleaving with other connections: every frame of an honest upload is accepted and it ends with exactly the client's file published, unless the history has no room. |
| `Paths.AncestorsOrdered` | DataBackup/core/entry.cpp:518-531 | Two directories above one path are the same or lie one above the other. |
| `Paths.AncestorParts` | DataBackup/core/entry.cpp:127-154 | One path stands above another exactly when its components are a proper beginning of the other's. |
| `Paths.SafeMeaning` | DataBackup/core/entry.cpp:449-470 | A path is accepted exactly when it contains no zero byte and walking it, with `..` going up, leads straight down by the very names it is written with: it never leaves the directory it starts in. |
| `Paths.LowerBound` | DataBackup/core/entry.cpp:132 | Binary search finds the first path that is not before the one sought. |
| `Paths.Contains` | DataBackup/core/entry.cpp:149 | Binary search finds a path exactly when it is in the sorted list. |
| `Entries.ValidateEntries` | DataBackup/core/entry.cpp:471-532 | Accepts exactly the well-formed lists: 1 to the maximum count, safe and distinct paths, one top-level directory first and all else below it, every parent listed as a directory, file bytes inside the pack, and every hardlink to an earlier file with equal metadata. |
| `Entries.CheckEach` | DataBackup/core/entry.cpp:477-502 | The first pass accepts exactly safe, distinct paths with bytes inside the pack and hardlinks to earlier files. |
| `Entries.CheckParents` | DataBackup/core/entry.cpp:520-530 | The walk upwards accepts exactly when everything above the entry is a listed directory. |
| `Restore.AncestorEarlier` | DataBackup/core/restore.cpp:324-333 | Sorted by depth, what is above an entry comes before it, and after it in the reverse order. |
| `Restore.MakeDirectories` | DataBackup/core/restore.cpp:327-334 | In an empty destination the shallow-first loop always finds the parent and makes exactly the listed directories, private to their owner. |
| `Restore.LinkRestored` | DataBackup/core/restore.cpp:404-431 | The target of a validated hardlink has always been restored by the time the link is made. |
| `Restore.EntryReachable` | DataBackup/core/restore.cpp:347 | While files are restored the parent of the next entry can be opened. |
| `Restore.EntryNotYetThere` | DataBackup/core/restore.cpp:458 | The name of the next entry is still free, so committing never collides. |
| `Restore.RestoreEntry` | DataBackup/core/restore.cpp:342-465 | One entry is put in place with its content, link or node and its metadata, and the temporary node is gone; stopped, nothing changes. |
| `Restore.RestoreEntries` | DataBackup/core/restore.cpp:340-466 | Directories and exactly the first entries handled are present; without a stop all of them. |
| `Restore.AllShown` | DataBackup/core/restore.cpp:340-478 | All entries in place and all directories finished is the listed tree. |
| `Restore.ExactAttributes` | DataBackup/core/restore.cpp:131-152 | Field by field: in the listed tree every path has its entry's owner, group, access and modification time, and its mode unless it is a symbolic link. |
| `Restore.ExtractEntries` | DataBackup/core/restore.cpp:291-480 | Into an empty destination every validated list restores to exactly its tree unless stopped, each path with the owner, times and, but for symbolic links, the mode of its entry; stopped, only directories, or the directories and a prefix of the other entries, are there. |
| `Restore.FileSystem.Commit` | DataBackup/core/restore.cpp:99-129 | Gives the temporary node its name; without overwriting only if the name is free. |
| `Scan.UnwantedBelow` | DataBackup/core/entry.cpp:189-198 | Below a path that is not selected, not above and not below a selected one, nothing is wanted. |
| `Scan.WalkIsChosen` | DataBackup/core/entry.cpp:177-209 | The walk that does not enter unwanted directories yields exactly the wanted part of the whole tree. |
| `Scan.SelectsBelow` | DataBackup/core/entry.cpp:127-134 | One probe of the sorted selection decides whether any selected path lies below a directory. |
| `Scan.InsideSelection` | DataBackup/core/entry.cpp:136-154 | The loop over shortened paths decides whether any ancestor is selected. |
| `Scan.WalkSource` | DataBackup/core/entry.cpp:177-209 | The iterator with disabled recursion yields the pruned walk in order. |
| `Scan.EverythingDistinct` | DataBackup/core/entry.cpp:177-209 | No two entries of a source tree have the same path. |
| `Scan.EverythingArchivable` | DataBackup/core/entry.cpp:200-201 | Every path of the tree, put below the root's name, is a safe archive path. |
| `SourceEntries.NormalizedMeaning` | DataBackup/core/entry.cpp:103-119 | The normal form of a selected path has exactly the components that are neither empty nor a dot, in order; it is a safe path and its own normal form. |
| `SourceEntries.NormalizeIncludes` | DataBackup/core/entry.cpp:94-125 | Accepts exactly selections whose paths all have a normal form, and returns these sorted and without duplicates. |
| `SourceEntries.WantedMeaning` | DataBackup/core/entry.cpp:94-154 | In terms of the request alone: a path is taken exactly when nothing was selected, or its components and the meaningful components of some selected path are one the beginning of the other. |
| `SourceEntries.DetectLinks` | DataBackup/core/entry.cpp:229-259 | Later names of a file become links to its first name with its access time and no size; fails exactly when one file was seen with different metadata. |
| `SourceEntries.AliasLinked` | DataBackup/core/entry.cpp:240-257 | Every hardlink follows its content entry in the list and has the same metadata. |
| `SourceEntries.CollectEntries` | DataBackup/core/entry.cpp:173-214 | Root first, then exactly the wanted entries sorted by path, with the sum of their sizes. |
| `SourceEntries.ScannedParents` | DataBackup/core/entry.cpp:185-198 | Everything above a scanned entry was scanned too. |
| `SourceEntries.ScanStructured` | DataBackup/core/entry.cpp:157-261 | The scanned list always has the structure validation demands. |
| `SourceEntries.ScannedOnce` | DataBackup/core/entry.cpp:157-261 | For what was asked for there is exactly one selection and one sorted list of entries, so what a scan finds is determined. |
| `SourceEntries.ScanDirectory` | DataBackup/core/entry.cpp:157-261 | Whenever every selected path is acceptable, the selection is their normal forms and the list exactly the wanted part of the source; the scan succeeds if and only if they are acceptable, every one was found, the list is not too long and no file was seen with differing metadata; then it has hardlinks detected, the structure validation demands, and the byte count of its files. |
| `Fields.FieldsRead` | DataBackup/core/common.cpp:52-119 | Fields written little-endian one after another are read back, with the rest of the input left over. |
| `Fields.FieldsPrinted` | DataBackup/core/common.cpp:83-119 | Fields that were read are exactly the bytes that writing them gives. |
| `Fields.StringRead` | DataBackup/core/common.cpp:121-143 | A written string is read back, with the rest left over. |
| `Fields.StringPrinted` | DataBackup/core/common.cpp:131-143 | An accepted string is exactly the bytes written for it. |
| `EntryCodec.EntryRead` | DataBackup/core/entry.cpp:298-362 | Reading written metadata returns the entry as it can be stored, negative times included, and leaves the rest. |
| `EntryCodec.EntryPrinted` | DataBackup/core/entry.cpp:320-362 | Accepted metadata are exactly the bytes written for the entry returned. |
| `EntryCodec.WriteEntry` | DataBackup/core/pack.cpp:7 | Metadata take 73 bytes besides path and link target, so 74 is exactly the least size of an entry with a path; eight more with an offset. |
| `EntryCodec.FixedLayout` | DataBackup/core/entry.cpp:298-318 | Kind number, permissions, owner, group, size and the three times stand at these offsets of the fixed part, seconds as two's complement. |
| `EntryCodec.EntryLayout` | DataBackup/core/entry.cpp:298-318 | A record is path, fixed part, link target, device, and in the indexed layout the offset of the content, strings with their length before them. |
| `Pack.CountFitsRoom` | DataBackup/core/pack.cpp:79-80 | Records of at least the minimum size always pass the check of their count against the room. |
| `Pack.StreamRead` | DataBackup/core/pack.cpp:9-99 | Reading a written sequential pack returns its entries, each with the position of its own bytes; the count check never refuses one. |
| `Pack.StreamPrinted` | DataBackup/core/pack.cpp:71-99 | An accepted sequential pack is byte for byte the one written for the entries returned and the bytes they address. |
| `IndexPack.IndexRead` | DataBackup/core/pack.cpp:34-147 | Reading a written indexed pack returns its entries, each addressing its own bytes between magic and central directory. |
| `IndexPack.TrailerRead` | DataBackup/core/pack.cpp:63-67 | The fields of the trailer are read back. |
| `PackFiles.PackStream` | DataBackup/core/pack.cpp:9-32 | The writing loop produces the sequential pack, and fails exactly when a file is no longer the inode, size and modification time that were scanned, or a string is too long. |
| `PackFiles.PackContents` | DataBackup/core/pack.cpp:40-53 | Contents are written in order and each entry remembers where its own start. |
| `PackFiles.PackIndex` | DataBackup/core/pack.cpp:34-69 | The two loops produce the indexed pack, and fail exactly when a file is no longer the inode, size and modification time that were scanned, or a string is too long. |
| `PackFiles.ReadStreamEntries` | DataBackup/core/pack.cpp:71-99 | The reading loop returns exactly the parse of the sequential pack. |
| `PackFiles.ReadIndexEntries` | DataBackup/core/pack.cpp:101-147 | The reading loop returns exactly the parse of the indexed pack. |
| `PackFiles.ReadPackedEntries` | DataBackup/core/pack.cpp:149-160 | Accepts a pack exactly when it parses and its entries are well-formed. |
| `CipherStream.XoredSplit` | DataBackup/core/crypto.cpp:241-298 | Encrypting a concatenation at a position is encrypting its parts at their own positions. |
| `CipherStream.XoredTwice` | DataBackup/core/crypto.cpp:241-298 | Applying the keystream twice at the same position returns the bytes. |
| `CipherStream.XorMeaning` | DataBackup/core/crypto.cpp:241-263 | A bit of the combined byte is set exactly when that bit of the two bytes differs. |
| `CipherStream.KeyByteInStream` | DataBackup/core/crypto.cpp:241-298 | The byte combined at a position is the byte of that position in the keystream blocks laid end to end. |
| `CipherStream.AppliedIsEncrypted` | DataBackup/core/crypto.cpp:241-363 | Input and output byte differ at every position by exactly the byte of the keystream there; without a cipher they are equal. |
| `CipherStream.XorInPlace` | DataBackup/core/crypto.cpp:241-263 | The loop over blocks, in place, combines each byte with its keystream byte, and succeeds as long as the block counter stays in range. |
| `CipherStream.AddIndex` | DataBackup/core/crypto.cpp:278-286 | The carry loop, in place, turns the initial block into the counter block of the index. |
| `CipherStream.CounterMeaning` | DataBackup/core/crypto.cpp:278-286 | The counter block is the initial block plus the index modulo 2^128, as section 6.5 of NIST SP 800-38A describes. |
| `CipherStream.CountersDiffer` | DataBackup/core/crypto.cpp:278-286 | Different blocks have different counters. |
| `CipherStream.ChaChaSound` | DataBackup/core/crypto.cpp:330-335 | Below 2^38 bytes the ChaCha20 block counter of section 2.4 of RFC 8439 never leaves its 32 bits. |
| `CipherStream.AesSound` | DataBackup/core/crypto.cpp:267-298 | The CTR keystream has a block for every 64-bit block index. |
| `CipherStream.CryptStage` | DataBackup/core/crypto.cpp:300-363 | Buffer by buffer, a range is transformed as a whole, each byte by the byte of the keystream at its place; it fails exactly without a password, beyond the size limit or outside the input. |
| `CipherStream.AppliedTwice` | DataBackup/core/crypto.cpp:300-363 | The stage undoes itself. |
| `ArchiveHeader.HeaderRead` | DataBackup/core/archive.cpp:13-82 | Reading a written header returns it, whatever follows. |
| `ArchiveHeader.HeaderPrinted` | DataBackup/core/archive.cpp:40-82 | An accepted header is acceptable and writing it again gives the same bytes, so the tag over the re-written header is the tag over the stored one. |
| `ArchiveHeader.HeaderLayout` | DataBackup/core/archive.cpp:13-38 | Each field of the 112 bytes stands at its offset, with flag bits 1, 2 and 4, layouts 1 and 2, compressions 0 to 3 and encryptions 0, 3 and 4. |
| `Archive.CompressedWithin` | DataBackup/core/compress_rle.cpp:25-46 | Every compression keeps a pack within a bound that is known from its size. |
| `Archive.SmallEnough` | DataBackup/core/engine.cpp:57-129 | Where that bound suits the cipher and there is a password if one is needed, creation succeeds. |
| `Archive.CreateArchive` | DataBackup/core/engine.cpp:57-129 | Compression, encryption, header and tag produce an archive with the header asked for that holds the pack, if and only if there is a password where one is needed and the compressed pack has a size the cipher and the header take; the payload differs from the compressed pack, bit by bit, by exactly the cipher's keystream. |
| `Archive.RequestedFile` | DataBackup/core/engine.cpp:57-129 | The file is 112 bytes that begin with magic and the version asked for, the payload, and exactly when it is encrypted the 32 bytes that authenticate all of this. |
| `Archive.DecompressesOnce` | DataBackup/core/archive.cpp:186-193 | At a given size a compressed payload stands for at most one pack. |
| `Archive.HeldParts` | DataBackup/core/archive.cpp:113-157 | An archive splits back into the header, payload and tag it was made of. |
| `Archive.HoldsOnce` | DataBackup/core/archive.cpp:113-208 | For one password an archive holds at most one pack. |
| `Archive.Authentic` | DataBackup/core/archive.cpp:150-167 | The tag over the re-written header and the payload agrees exactly when the file is header, payload and its own tag. |
| `Archive.DecodePayload` | DataBackup/core/archive.cpp:168-208 | Returns the pack that agrees with both digests and the declared sizes, and fails exactly when there is none. |
| `Archive.DecodeArchive` | DataBackup/core/archive.cpp:113-208 | Every check passes, and the pack comes out, exactly when the archive holds a pack for this password and the restore is permitted. |
| `Pipeline.PackReadable` | DataBackup/core/engine.cpp:42-55 | The pack of a scan parses to the same entries, well-formed, each addressing its file's bytes. |
| `Pipeline.SmallIsBackable` | DataBackup/core/engine.cpp:41-129 | A usable selection, unchanged files, a password where one is needed and a pack small enough before compression are all a backup needs. |
| `Pipeline.Backup` | DataBackup/core/engine.cpp:41-129 | An archive is made if and only if selection, entries, files, password and sizes allow it; then it has the layout, compression and encryption asked for and holds, for the password, the pack of exactly the selected part of the source. |
| `Pipeline.RestoreArchive` | DataBackup/core/engine.cpp:174-208 | Success means an exact tree of validated entries; every archive that holds well-formed entries for the password restores to exactly their tree. |
| `Pipeline.ExactIsSource` | DataBackup/core/engine.cpp:184-191 | The exact tree of the parsed entries shows each scanned entry: files with their own bytes, hardlinks as the file they are linked to. |
| `Pipeline.AliasShown` | DataBackup/core/entry.cpp:231-258 | If an inode has one content, a hardlink shows the bytes of the file scanned under its own name too. |
| `Pipeline.RestoredMirrors` | DataBackup/core/restore.cpp:119-152 | Exactly the scanned entries is exactly the picked part of the source tree: no other names, every name with the kind, target, device, mode, owner and times the system reported, names of one file exactly where the source has them, and contents and access time those read under the first name. |
| `Pipeline.BackupThenRestore` | DataBackup/core/engine.cpp:41-208 | For every selection, layout, compression and encryption asked for: the archive is made if and only if it can be, is of the kind asked for, and restoring it with its password yields exactly the selected part of the source tree, field by field as the system reported it. |
| `ShaBlock.ExpandSchedule` | DataBackup/core/sha256.cpp:105-120 | The schedule is filled with the message schedule of section 6.2.2 of FIPS 180-4. |
| `ShaBlock.Transform` | DataBackup/core/sha256.cpp:89-146 | The rounds on eight words and the sums into the state are the compression of one block. |
| `ShaConstants.ConstantsAreCubeRoots` | DataBackup/core/sha256.cpp:81-105 | Each round constant is the first 32 bits of the fraction of the cube root of its prime. |
| `ShaConstants.StateIsSquareRoots` | DataBackup/core/sha256.cpp:81-105 | Each initial word is the first 32 bits of the fraction of the square root of its prime. |
| `ShaBlock.DigestSize` | DataBackup/core/sha256.cpp:51-59 | Every digest has 32 bytes. |
| `Sha.Digester.Update` | DataBackup/core/sha256.cpp:14-30 | Adds the bytes to the message absorbed, for any split between blocks. |
| `Sha.Digester.Finish` | DataBackup/core/sha256.cpp:32-60 | Padding in the block, over one block or two, gives the digest of the message padded as in section 5.1.1 of FIPS 180-4. |
| `Sha.PaddingDiffers` | DataBackup/core/sha256.cpp:32-49 | Different messages below 2^61 bytes are padded to different blocks. |
| `Sha.DigestPieces` | DataBackup/core/sha256.cpp:14-60 | However a message is cut into updates, the digest is that of the whole. |
| `Sha.DigestRange` | DataBackup/core/sha256.cpp:218-247 | Buffer by buffer, the digest of a range of a file, or of all that follows the offset for the largest length; fails exactly when the range is not inside the file. |
| `Sha.Authenticator.constructor` | DataBackup/core/sha256.cpp:152-172 | Both digests start with the masked key block; a key over 64 bytes is replaced by its digest. |
| `Sha.Authenticator.Finish` | DataBackup/core/sha256.cpp:179-184 | Returns the authentication code of section 2 of RFC 2104 for key and message. |
| `Sha.AuthenticateFile` | DataBackup/core/sha256.cpp:198-216 | Buffer by buffer, the authentication code of the first bytes of a file. |
| `Algorithms.DeriveKey` | DataBackup/core/crypto.cpp:6-25 | The key is the digest of password and salt, digested with the salt 4096 times more. |
| `Algorithms.AuthenticateArchive` | DataBackup/core/archive.cpp:100-111 | The tag of an archive is the authentication code of its header and payload under a key set apart by a label from that of the cipher. |
| `Algorithms.ProgramSuiteIsUsable` | DataBackup/core/archive.cpp:100-208 | The digest, tag, key and cipher stages of the program itself meet what the archive theorems ask of them, given block functions of the right size. |
| `Retention.SnapshotNamed` | DataBackup/core/automatic.cpp:18-64 | Every name the program makes is one it recognises. |
| `Retention.SnapshotMeaning` | DataBackup/core/automatic.cpp:41-56 | A file counts as a snapshot exactly when its name is that of some time and some random part under the prefix; every other name is foreign. |
| `Retention.NewerSortsLater` | DataBackup/core/automatic.cpp:18-32 | Names sort by the time in them, so sorting by name is sorting by age. |
| `Retention.RetainSnapshots` | DataBackup/core/automatic.cpp:34-64 | Exactly all foreign files, the current snapshot and the newest other snapshots up to one less than the number to keep remain. |
| `Snapshots.Changed` | DataBackup/core/automatic.cpp:104-130 | Says whether any event it read is a real change; it stops only when nothing is left or after 64 reads, each of which took an event unless it was interrupted. |
| `Snapshots.NextKeeps` | DataBackup/core/automatic.cpp:177-237 | At every loop head a delivered change is covered by a snapshot, still queued, or pending; failed attempts never exceed four in a row. |
| `Snapshots.RunsKeep` | DataBackup/core/automatic.cpp:173-237 | At every head of every run this holds. |
| `Snapshots.DeadlineHolds` | DataBackup/core/automatic.cpp:181-191 | Over a run: from the round that first notices a change on, until the clock reaches the deadline set then, every head still has the change pending and that very deadline, and no attempt was made. |
| `Snapshots.ChangeIsActedOn` | DataBackup/core/automatic.cpp:190-234 | Over a run: the first round whose clock has reached that deadline makes the attempt; a success covers every event delivered before it began, a failure leaves the change pending. |
| `Snapshots.ChangeIsNoticed` | DataBackup/core/automatic.cpp:104-130 | Over a run: a change among the first 64 queued events is noticed by the next poll unless reads are interrupted. |
| `Snapshots.ChangeIsSnapshotted` | DataBackup/core/automatic.cpp:173-237 | Over a run: such a change is in the snapshot that the first successful attempt due one interval later makes. |
| `Snapshots.FirstSnapshot` | DataBackup/core/automatic.cpp:173-234 | Over a run: the first round whose clock has reached the start time makes the first attempt, and no round before it. |
| `Snapshots.IntervalSnapshot` | DataBackup/core/automatic.cpp:190-234 | Over a run without change notification: after a success finished at f, the first round with a clock of at least f plus the interval attempts the next snapshot, and no earlier round does. |
| `Snapshots.RetryFollows` | DataBackup/core/automatic.cpp:203-219 | Over a run: after a failed attempt finished at f, the first round with a clock of at least f plus the interval held between 100 and 5000 milliseconds tries again, and no earlier round does. |
| `Snapshots.QuietRound` | DataBackup/core/automatic.cpp:179-191 | With change notification, a round that meets no change makes no attempt once there is a snapshot and nothing failed. |
| `Snapshots.Automation.Poll` | DataBackup/core/automatic.cpp:179-189 | The poll on the loop's variables does what the step says. |
| `Snapshots.Automation.Attempt` | DataBackup/core/automatic.cpp:199-233 | The attempt on the loop's variables does what the step says, and a success leaves exactly the retained snapshots. |
| `Snapshots.Automatic` | DataBackup/core/automatic.cpp:173-237 | A run of the loop on its variables: each head follows from the one before by what the program does in a round, with attempts at the times the run theorems state; after each success exactly the retained snapshots remain in the directory and otherwise it is untouched, and the loop is done exactly when the requested number of snapshots was made. |

## Left out

- The heap inside `std::priority_queue` and the order of equal elements in `std::sort`: the queue is a list searched for its first element, sorting is insertion; the proofs need no more of them (`LeastIsUnique`; all other sort keys are distinct or their order does not matter).
- SessionsServer.Server.List: the whole response is read at one moment, while the program enumerates the directory without the lock.
- SessionsServer.Server.Fetch: the archive is read at one moment, and its division into frames is not modelled.
- Sockets, TLS, time limits, frame headers and, except where a client reads a history list, the field parser of DataBackup/network/io.cpp: frames arrive whole, in order and parsed, or the connection ends.
- The text formats of the user list and of metadata files: both are stored values; a file that another program damaged is not modelled.
- Two upload steps share one model step where no other connection can interfere: opening the temporary file, announcing the identifier and sending the index.
- A leftover temporary file of a failed metadata write: only the visible metadata file and the archive are modelled, with every combination of their failures.
- How a client derives its verifier from a password: the server's side, a digest of verifier and challenge, is modelled.
- The ChaCha20 and AES block functions and the S-box: parameters that return a block of the right size; their key schedules belong to them.
- Progress reports; cancellation, except as a budget of steps in the restore and as failures of a step on the server.
- Restoring over an existing tree: `FileSystem` models the replacement of names, but the theorems are about an empty destination.
- Restore.ExtractEntries: change of owner, device creation and synchronising to disk are not modelled as able to fail; temporary names are never taken.
- Preflight and free space, conflict preview, inspection, verification without restoring, and the names of algorithms: they only combine what is modelled, or parse a word.
- Buffered file input: a file is one byte sequence; the buffers that matter to a result, those of the cipher, of digests, of LZ77 blocks and of upload blocks, are modelled.
- SourceEntries.ScanDirectory: the source does not change while it is walked; a change before packing makes packing fail, as in the program.
- Path comparison: bytes are compared as bytes; locale and Unicode forms play no role in the program either.
- Lost events: watches are refreshed only after the first snapshot (DataBackup/core/automatic.cpp:194), and the system can drop events; the guarantee is about events that were delivered.
- Retention.RetainSnapshots: a file that cannot be removed, which ends the program's loop, is not modelled.
- The user interfaces, the command line, the server's configuration and packaging.
