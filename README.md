# A verified model of a BitTorrent-style peer

This project models, in Dafny, the protocol core of a small Java peer-to-peer
file-sharing program: a fixed set of peers, each listed in `PeerInfo.cfg`,
exchange one file cut into pieces of `pieceSize` bytes, following the settings
in `Common.cfg`.

The model covers these parts of the peer:

- **Piece bitset** (`BitfieldManager`): one bit per piece, most significant bit
  first, in a byte array updated in place. The model includes the set, test,
  fill and count operations and the `interested`/`missingPieces` diffs.
  Module `Bitfield`, with Java's byte operators in `Bits`.
- **Message frame** (`ActualMessageManager`): a four-byte big-endian length, a
  one-byte type and the payload. Module `Wire`, over a model of the
  `java.nio.ByteBuffer` operations the codec uses (module `Buffers`).
- **Handshake** (`HandshakeMessageManager`): an 18-byte header, ten zero bytes
  and the id as a big-endian `int`. Module `Handshake`.
- **Session record** (`PeerStatus`): the flags, requested pieces, served-piece
  counter, choked list and output stream of one peer. Module `Session`.
- **Piece storage** (`FileManager`): the file as an in-memory byte sequence,
  addressed by `pieceIndex * pieceSize`. Module `Storage`.
- **The two configuration parsers**, over the lines of their files. Modules
  `CommonConfig` and `PeerInfoConfig`. The Java library's `split`,
  `parseInt`, `toString` and byte/text conversions are in `Text`.
- **The choking tasks** of `PeerProcess.java`: preferred neighbours and
  optimistic unchoke. Module `Choking`. Each frame written is recorded as a
  `Send` in a trace.
- **Peer start-up** (`PeerProcess`): the registry built from the
  configuration, and the dial loop that handshakes with the peers listed
  before this one. Module `Process`.
- **One connection's message loop** (`SenderThread`): the bitfield exchange,
  then per-type dispatch until every peer has the whole file. Module
  `Sender`. The input stream is the byte sequence still to be read.

Shared pieces are in `Common`: failure values for the Java exceptions, 32-bit
wrap-around, Java's truncating `/` and `%`, the `Math.ceil` divisions, and
big-endian `putInt`/`getInt`.

In these points the code departs from the protocol's intended behaviour, and
the model follows the code:

- The preferred-neighbour round unchokes every candidate only when there are
  strictly fewer than `numberOfPreferredNeighbors` of them.
- In the other branch it chokes every non-chosen peer other than self, whether
  it is interested or not.
- The last piece reads `fileSize % pieceSize` bytes, which is 0 when the piece
  size divides the file size.
- The optimistic unchoke adds its peer to self's `chokedList` and changes no
  `choked` flag.
- A failing `parseInt` in the peer list ends the parse rather than skipping
  the line.
- The peer process opens its storage with the piece size in place of the file
  size.
- The dial loop stores each new output stream in self's own record, not in the
  dialled peer's.
- Zero and negative sizes in `Common.cfg` are taken as Java treats them:
  `Math.ceil` of a division by zero saturates, `%` by zero raises
  ArithmeticException, and a negative array size raises
  NegativeArraySizeException.

Self is found by reference comparison of id strings in the source. Here it is
the position `selfIdx` of self's entry in the peer list: the entry that
`peerMap.get(peerID)` returns, which is the last one with that id.

## Model

| member | source | states |
|---|---|---|
| Common.Wrap32 | PeerStatus.java:59-61 | the result is a Java `int` congruent to the exact value modulo 2^32, and equal to it when it is already in range |
| Common.JavaDiv | BitfieldManager.java:53 | Java's `/` by a positive divisor agrees with floor division on non-negative dividends |
| Common.JavaRem | FileManager.java:57 | for a non-zero divisor, `a` is the truncated quotient times the divisor plus `r`, and `r` has the sign of the dividend and is smaller in magnitude than the divisor |
| Common.CeilDiv | BitfieldManager.java:35 | the least `r` with `a <= r*b`, for `a >= 0` and `b > 0` |
| Common.JavaCeilDiv | BitfieldManager.java:35 | `(int)Math.ceil((double)a/b)` for every pair of `int`s: an `int`; `a <= r*b < a+b` for `b > 0`; `r*b <= a < r*b-b` for `b < 0`; `INT_MIN / -1` saturates to `INT_MAX`; division by 0 gives `INT_MAX`, `INT_MIN` or 0 (NaN) by the sign of `a`; the least `r` with `a <= r*b` for natural operands |
| Common.NonNeg | BitfieldManager.java:46 | the number of times `for (i = 0; i < x; i++)` runs: `x`, or 0 for negative `x` |
| Common.MulMonotone | BitfieldManager.java:35 | multiplying by a positive number keeps the order |
| Common.FloorDivNegative | BitfieldManager.java:35 | a negative number divided by a positive one is negative, unchanged by 1, and at least halved by 2 or more |
| Common.DivAtMost | BitfieldManager.java:35 | a natural number divided by a positive one stays between 0 and itself |
| Common.BE32 | ActualMessageManager.java:25 | `putInt` writes exactly four bytes |
| Common.BE32Signed | SenderThread.java:93-94 | `getInt` always yields a Java `int` |
| Common.BE32RoundTrip | ActualMessageManager.java:25 | `getInt` reads back every `int` that `putInt` wrote |
| Common.BE32OfSigned | HandshakeMessageManager.java:67 | `putInt` of what `getInt` read rewrites the same four bytes |
| Common.BE32Injective | HandshakeMessageManager.java:45 | distinct ids have distinct four-byte encodings |
| Common.Zeros | HandshakeMessageManager.java:24-29 | `n` bytes, all zero |
| Common.Padded | SenderThread.java:74-76 | a `read` into an `n`-byte array yields the first `n` available bytes, with zeros where the stream ran out |
| Common.Rest | SenderThread.java:74-76 | the bytes left in the stream after such a read |
| Bits.And | BitfieldManager.java:98 | `x & y` is no larger than either operand |
| Bits.NatBitAnd | BitfieldManager.java:98 | bit `k` of `x & y` is set iff it is set in both `x` and `y` |
| Bits.HasBitAnd | BitfieldManager.java:98 | `&` keeps exactly the bits set in both bytes |
| Bits.HasBitNot | BitfieldManager.java:98 | `(byte) ~x` flips each of the eight bits |
| Bits.HasBitOr | BitfieldManager.java:55 | `|` keeps exactly the bits set in either byte |
| Bits.HasBitPow2 | BitfieldManager.java:55 | `1 << k` has bit `k` set and no other |
| Bits.NonZeroHasBit | BitfieldManager.java:101 | a byte is non-zero iff one of its bits is set |
| Bits.BytesEqual | BitfieldManager.java:55 | two bytes with the same eight bits are equal |
| Bits.MaskTest | BitfieldManager.java:62 | `(b & (1 << k)) != 0` holds iff bit `k` of `b` is set |
| Bitfield.MaskReads | BitfieldManager.java:62 | the test with mask `1 << (7-j)` reads bit `j` counted from the most significant end |
| Bitfield.WithPieceBits | BitfieldManager.java:52-56 | after `setPiece(i)` piece `i` is marked, every other piece bit (padding included) is unchanged, and the length is unchanged |
| Bitfield.WithPieceIdempotent | BitfieldManager.java:52-56 | marking a piece twice leaves the same array as marking it once |
| Bitfield.HasPieceAtInRange | BitfieldManager.java:59-63 | on an index inside the array `hasPiece` returns exactly the piece's bit; past the array, or below -7, it raises ArrayIndexOutOfBoundsException |
| Bitfield.NoBitsInZeros | BitfieldManager.java:41 | the freshly allocated, zeroed array marks no piece |
| Bitfield.CountUpToBounds | BitfieldManager.java:70-86 | the count of marked pieces below `n` is at most `n`, and equals `n` iff every piece below `n` is marked |
| Bitfield.CountIgnoresPadding | BitfieldManager.java:70-78 | bits at or beyond `numPieces` never affect the count |
| Bitfield.MissingAtByte | BitfieldManager.java:123-131 | piece `8i+j` is held by the second owner and not the first iff bit `j` (from the top) of `b2[i] & ~b1[i]` is set |
| Bitfield.NoMissingInByte | BitfieldManager.java:127 | a byte whose mask is zero contributes no missing piece, so skipping its inner loop is sound |
| Bitfield.MissingBelowMembers | BitfieldManager.java:111-138 | the pieces listed below `n` are exactly those the second owner has and the first lacks, in strictly ascending order |
| Bitfield.MissingMembers | BitfieldManager.java:111-138 | `missingPieces` lists every piece `b2` has and `b1` lacks, and nothing else, each once, strictly ascending |
| Bitfield.InterestingIffMissing | BitfieldManager.java:88-138 | `interested(b1,b2)` holds iff `missingPieces(b1,b2)` is non-empty |
| Bitfield.BitfieldManager.constructor | BitfieldManager.java:30-42 | when the array size it computes is not negative: `numPieces` is the rounded-up quotient of any two `int` sizes, and the array has `numPieces / 8` rounded up bytes, all zero |
| Bitfield.NewBitfieldManager | BitfieldManager.java:30-42 | for every pair of `int` sizes: NegativeArraySizeException exactly when the computed array size is negative; otherwise a fresh manager with the sizes given, the computed piece count and a zeroed array of the computed size |
| Bitfield.BitfieldSizes | BitfieldManager.java:30-42 | natural sizes give the exact rounded-up quotients; the array size is negative iff there are at most -8 pieces, which a negative file size in positive pieces reaches from `-8*pieceSize` down; a piece size of 0 gives `INT_MAX` pieces (2^28 bytes) for a non-empty file, none for an empty one and `INT_MIN` for a negative size |
| Bitfield.BitfieldManager.ValidCovers | BitfieldManager.java:45-49 | the array holds a bit for every piece the loops visit, and its bit count fits an `int` index range |
| Bitfield.BitfieldManager.SetPiece | BitfieldManager.java:52-56 | the array afterwards is the old one with exactly the piece's bit or-ed in |
| Bitfield.BitfieldManager.HasPiece | BitfieldManager.java:59-63 | for every `int` index, including negative and out-of-range ones, the result is what Java computes, exception included |
| Bitfield.BitfieldManager.FillBitfield | BitfieldManager.java:45-49 | afterwards a bit is set iff it is below `numPieces` or was set before; a negative `numPieces` sets nothing |
| Bitfield.BitfieldManager.GetBitField | BitfieldManager.java:66-68 | returns a freshly allocated array with the same contents |
| Bitfield.BitfieldManager.SetBitfield | BitfieldManager.java:12-14 | the manager adopts the given array itself, not a copy |
| Bitfield.BitfieldManager.GetNumContainedPieces | BitfieldManager.java:70-78 | the number of marked pieces below `numPieces` (none for a negative count); it raises exactly when the array is too short for `numPieces` |
| Bitfield.BitfieldManager.HasCompleteFile | BitfieldManager.java:80-86 | true iff `numPieces` is not negative and every piece below it is marked (a negative count has the loop finish at once and the final check fail); it raises exactly when the array is too short |
| Bitfield.BitfieldManager.Interested | BitfieldManager.java:88-108 | IllegalArgumentException iff the lengths differ; otherwise true iff some byte has `b2[i] & ~b1[i] != 0` |
| Bitfield.BitfieldManager.ScanByte | BitfieldManager.java:128-133 | the inner loop appends exactly the missing pieces of byte `i`, most significant bit first |
| Bitfield.BitfieldManager.MissingPieces | BitfieldManager.java:111-138 | IllegalArgumentException iff the lengths differ; otherwise exactly the specification list that `MissingMembers` characterises |
| Buffers.ByteBuffer.Allocate | ActualMessageManager.java:24 | `allocate(n)` gives `n` zero bytes at position 0 |
| Buffers.ByteBuffer.Wrap | HandshakeMessageManager.java:56 | a wrapped buffer reads the given array itself from position 0 |
| Buffers.ByteBuffer.PutInt | ActualMessageManager.java:25 | writes the four big-endian bytes at the position and advances it by 4; with fewer than four bytes left, it overflows and writes nothing |
| Buffers.ByteBuffer.Put | ActualMessageManager.java:26 | writes one byte and advances by 1, or overflows on a full buffer and writes nothing |
| Buffers.ByteBuffer.PutBytes | ActualMessageManager.java:28-30 | copies the source at the position and advances past it, or overflows and writes nothing when it does not fit |
| Buffers.ByteBuffer.GetInt | ActualMessageManager.java:45 | the big-endian `int` at the position, advancing by 4; it underflows exactly when fewer than four bytes remain |
| Buffers.ByteBuffer.Get | ActualMessageManager.java:48 | the byte at the position, or underflow on an exhausted buffer |
| Buffers.ByteBuffer.GetBytes | ActualMessageManager.java:51-52 | the next `n` bytes, or underflow with the position unchanged |
| Text.Split | CommonConfigParser.java:39 | `split("\\s+")` of the empty string is one empty token, and the last token of any other line is never empty; its tokens are fixed by `SplitIsWords` and the four equations below |
| Text.SplitTokens | CommonConfigParser.java:39 | no token of `split("\\s+")` contains whitespace, and only the first can be empty |
| Text.SplitWord | CommonConfigParser.java:39 | a line that is one word splits into that word alone |
| Text.SplitBlank | CommonConfigParser.java:39 | a non-empty line of whitespace only splits into no tokens |
| Text.SplitTrailing | CommonConfigParser.java:39 | whitespace at the end of a line that has a word adds no token |
| Text.SplitAppend | CommonConfigParser.java:39 | a whitespace run and a word after a prefix that is empty or ends in a word add exactly that word as the next token (after an empty prefix, the first token is empty) |
| Text.SplitIsWords | CommonConfigParser.java:39 | `Split` equals `Words`, an independent split that works from the end of the line, on every string: the tokens are exactly the maximal runs of non-whitespace, with one empty token first when the line starts with whitespace, and none for a blank line |
| Text.DigitChar | HandshakeMessageManager.java:67 | each digit character has the digit's value |
| Text.ParseInt | HandshakeMessageManager.java:39 | `Integer.parseInt` of an optionally signed string of ASCII digits only ever returns a Java `int` |
| Text.NatDigits | HandshakeMessageManager.java:67 | `Integer.toString` of a natural number is a non-empty string of digits |
| Text.IntToString | HandshakeMessageManager.java:67 | `Integer.toString(n)` is non-empty, starts with `-` iff `n` is negative, and is digits after that; `ParseIntOfIntToString` proves that `parseInt` reads it back |
| Text.ParseIntOfIntToString | HandshakeMessageManager.java:67 | `parseInt(toString(n)) == n` for every `int` |
| Text.IntToStringOfParseInt | PeerProcess.java:369 | `toString(parseInt(s)) == s` for every canonical decimal string |
| Text.AsciiBytes | HandshakeMessageManager.java:43 | `getBytes` of an ASCII string has one byte per character |
| Text.DecodeText | HandshakeMessageManager.java:60 | `new String(bytes)` keeps the length: a byte below 0x80 decodes to its ASCII character and any other byte to U+FFFD |
| Text.DecodeTextAscii | HandshakeMessageManager.java:60 | bytes decode to an ASCII string iff they are that string's bytes |
| Wire.SignedByte | SenderThread.java:100 | a `byte` read as a Java `int` lies in -128..127 and has the same bit pattern |
| Wire.GenerateActualMessage | ActualMessageManager.java:16-33 | the allocate/putInt/put/put sequence yields the frame specification, failures included |
| Wire.FrameLayout | ActualMessageManager.java:24-32 | a produced frame has `L+4` bytes: `L` big-endian (read back by `getInt`), the type, the payload from byte 5, then zeros |
| Wire.FrameExact | ActualMessageManager.java:24-32 | with `L == 1+|p|` the frame is exactly length, type and payload, with no padding |
| Wire.FrameNoPayload | ActualMessageManager.java:28 | `generateActualMessage(1, t, null)` is `[0,0,0,1,t]` |
| Wire.FrameFailure | ActualMessageManager.java:24-30 | the encoder fails iff `L < 1+|p|` or `L+4` overflows an `int`; the failure is IllegalArgumentException for a negative capacity and BufferOverflowException otherwise; it never truncates |
| Wire.ReadActualMessage | ActualMessageManager.java:42-60 | `getInt`, `get` and `get(new byte[length])` yield the decimal type followed by `length` payload characters, or the exception Java raises |
| Wire.ReadActualMessageUnderflows | ActualMessageManager.java:51-52 | on every frame the encoder builds with the protocol's length, the reader underflows |
| Wire.ReadActualMessageInterested | ActualMessageManager.java:51-52 | the interested frame `[0,0,0,1,2]` underflows |
| Wire.ReadFrame | SenderThread.java:141-154 | the reader with `length - 1` payload bytes computes the corrected decoding |
| Wire.DecodeFrameRoundTrip | SenderThread.java:141-154 | decoding an encoded frame recovers its type and payload exactly |
| Wire.SignedByteInjective | SenderThread.java:100 | distinct type bytes are distinct message types |
| Handshake.HeaderIsAscii | HandshakeMessageManager.java:23 | the header is 18 ASCII characters |
| Handshake.HandshakeMessageManager.constructor | HandshakeMessageManager.java:21-30 | the header is "P2PFILESHARINGPROJ" and `zeroBits` is ten zero bytes |
| Handshake.HandshakeMessageManager.GenerateHandshakeMessage | HandshakeMessageManager.java:38-48 | parse, then three puts into a 32-byte buffer, yields the handshake specification, NumberFormatException included |
| Handshake.HandshakeMessageManager.ReadHandshakeMessage | HandshakeMessageManager.java:56-77 | the three gets yield header text, zero-block text and `toString` of the id, consuming exactly 32 bytes; fewer than 32 underflow |
| Handshake.HandshakeLayout | HandshakeMessageManager.java:38-48 | a handshake is produced iff the id parses; it is 32 bytes: header ASCII, ten zeros, and the id big-endian |
| Handshake.ZerosText | HandshakeMessageManager.java:73 | ten zero bytes decode to ten NUL characters |
| Handshake.HandshakeRoundTrip | HandshakeMessageManager.java:56-77 | reading a generated handshake gives the header, ten NULs and `toString(parseInt(id))`, which is the id itself when it is in canonical decimal form |
| Handshake.HandshakeMatches | PeerProcess.java:364-372 | a 32-byte answer passes the three checks for a canonical id iff it is exactly that id's handshake |
| Session.WithItemProperties | PeerStatus.java:36-41 | `addToChokedList` never introduces a duplicate, adds exactly the item, and leaves the list unchanged when the item is already present |
| Session.PeerStatus.constructor | PeerStatus.java:43-49 | when the bitset size is not negative: the new record is not choked and not interested, with nothing requested, an empty choked list, a zero counter, no stream, and an empty bitset sized from the two sizes |
| Session.NewPeerStatus | PeerStatus.java:43-49 | for every pair of `int` sizes: NegativeArraySizeException exactly when the bitset size is negative; otherwise a fresh record in the initial state with a fresh, zeroed bitset of the computed size |
| Session.PeerStatus.SetChokedList | PeerStatus.java:29-34 | the stored list equals the given one, element for element, as the record's own value |
| Session.PeerStatus.AddToChokedList | PeerStatus.java:36-41 | the list becomes `WithItem` of the old one |
| Session.PeerStatus.AddRequestedPiece | PeerStatus.java:71-73 | the set gains exactly that piece |
| Session.PeerStatus.IsRequestedPiece | PeerStatus.java:75-77 | true iff the piece is in the requested set |
| Session.PeerStatus.IncrementPiecesDownloadSincePreviousChokingInterval | PeerStatus.java:59-61 | the counter becomes `++` of the old value on a Java `int` |
| Session.PeerStatus.SetPiecesDownloadSincePreviousChokingInterval | PeerStatus.java:55-57 | the counter holds the value set |
| Session.PeerStatus.GetPiecesDownloadSincePreviousChokingInterval | PeerStatus.java:51-53 | returns the counter |
| Session.PeerStatus.SetInterested | PeerStatus.java:123-125 | `interested` holds the value written, and no other field changes |
| Session.PeerStatus.IsInterested | PeerStatus.java:119-121 | returns the last value written |
| Session.PeerStatus.SetChoked | PeerStatus.java:131-133 | `choked` holds the value written, and no other field changes |
| Session.PeerStatus.IsChoked | PeerStatus.java:127-129 | returns the last value written |
| Session.PeerStatus.SetOut | PeerStatus.java:91-93 | the stream holds the value written |
| Session.PeerStatus.GetOut | PeerStatus.java:87-89 | returns the stream |
| Session.PeerStatus.FillBitfield | PeerStatus.java:143-145 | every piece below `numPieces` is marked, and padding bits keep their values |
| Session.IncrementWraps | PeerStatus.java:59-61 | the increment adds exactly 1 below `INT_MAX` and wraps to `INT_MIN` at it |
| Storage.WrittenProperties | FileManager.java:34-39 | `data` lands at `start`, every byte outside the written range keeps its value, the file grows to cover the write, and any gap is zero |
| Storage.PieceLengths | FileManager.java:56-60 | for a natural file size and a positive piece size, every piece but the last reads `pieceSize` bytes; the last reads `fileSize % pieceSize`, which is less than `pieceSize` and is 0 when the piece size divides the file size |
| Storage.FileManager.constructor | FileManager.java:15-22 | for every pair of `int` sizes, `numPieces` is `Math.ceil` of their quotient as Java computes it (zero divisor included), and the file holds its current contents |
| Storage.FileManager.SavePiece | FileManager.java:24-44 | the data is written at the wrapped `int` offset `pieceIndex*pieceSize`, and a negative offset writes nothing |
| Storage.FileManager.ReadPiece | FileManager.java:46-71 | in the Java order: null for a negative `long` offset; ArithmeticException for a zero piece size at the last index; NegativeArraySizeException for a negative length; an empty array for a zero length, wherever the offset lies; null for a non-empty read past the end; otherwise the bytes at the offset |
| Storage.ReadAfterWrite | FileManager.java:34-65 | saving data of a piece's length at an in-range offset, then reading that piece, returns the data |
| Storage.EmptyLastPieceReadsEmpty | FileManager.java:56-65 | when the piece size divides the file size the last piece reads as an empty array, even from a file shorter than its offset |
| Storage.CeilDivSelf | FileManager.java:19 | a non-zero size divided by itself is one piece, with remainder 0 |
| Storage.StorageSizedByPieceSize | PeerProcess.java:276-277 | with the piece size passed as the file size, a non-zero piece size gives one piece, and piece 0 reads as empty; a positive size reads every other index as `pieceSize` bytes; a zero size gives no pieces, the last index -1 raises ArithmeticException and every other index reads as empty |
| CommonConfig.ApplyLinesInts | CommonConfigParser.java:42-61 | every numeric setting the parse stores is a Java `int` |
| CommonConfig.CommonConfigParser.constructor | CommonConfigParser.java:23-25 | the settings are what the lines give when applied to the Java defaults |
| CommonConfig.CommonConfigParser.ParseInput | CommonConfigParser.java:32-67 | the loop computes the line-by-line specification: lines 1 to 6 assign their setting, the first exception stops the loop, and later lines change nothing |
| CommonConfig.ApplyLinesAppend | CommonConfigParser.java:37-39 | lines that all parse compose: the next line is numbered after them and starts from the settings they leave |
| CommonConfig.StopsAtFailure | CommonConfigParser.java:33-66 | the first line that raises ends the parse; earlier assignments stay, and nothing from that line on applies |
| CommonConfig.LaterLinesIgnored | CommonConfigParser.java:42-61 | lines after the sixth change nothing |
| CommonConfig.ApplySix | CommonConfigParser.java:42-61 | six well-formed lines parse without an exception into the six settings, in order |
| CommonConfig.SixLines | CommonConfigParser.java:32-67 | a file whose first six lines are well formed sets the six settings from them in order, whatever follows |
| PeerInfoConfig.PeerInfoConfigParser.constructor | PeerInfoConfigParser.java:27-30 | the peers are what the lines give, and the map is built from them |
| PeerInfoConfig.PeerInfoConfigParser.ParseInput | PeerInfoConfigParser.java:75-98 | the loop computes the specification: four-token lines become peers in order, other lines are skipped, and the first exception keeps the peers so far |
| PeerInfoConfig.PeerInfoConfigParser.CreatePeerMap | PeerInfoConfigParser.java:59-67 | the map is each peer put under its id in list order |
| PeerInfoConfig.ParsePeersAppend | PeerInfoConfigParser.java:80-91 | lines that do not raise contribute their peers in order |
| PeerInfoConfig.ParsePeersStops | PeerInfoConfigParser.java:77-97 | a four-token line with a bad port or flag ends the parse, and the peers before it are kept |
| PeerInfoConfig.ParsedPeersFromLines | PeerInfoConfigParser.java:81-87 | every peer comes from a line of exactly four tokens: the id and host are its first tokens, and `hasFile` holds iff the fourth parses to 1 |
| PeerInfoConfig.PeerMapOfKeys | PeerInfoConfigParser.java:59-67 | the map's keys are exactly the listed ids |
| PeerInfoConfig.PeerMapOfLast | PeerInfoConfigParser.java:59-67 | each id maps to the last listed peer with that id |
| Choking.NoticeFrameGenerated | PeerProcess.java:121-122 | a choke or unchoke notice is the five-byte frame of length 1 with type 0 or 1 |
| Choking.UnchokeTargets | PeerProcess.java:117-124 | the unchoke-all branch has as many notices as candidates (their content is stated by `UnchokeBranchLists` and `UnchokeTargetsFlags`) |
| Choking.Sends | PeerProcess.java:120-123 | one frame per notice carried out |
| Choking.FirstNull | PeerProcess.java:120-123 | every notice before the returned position has a stream, and the notice at it does not |
| Choking.PickRandomElements | PeerProcess.java:77-91 | IllegalArgumentException iff `k` exceeds the list; otherwise `k` elements (none for a negative `k`) taken from distinct positions without replacement, the rest being exactly the others (as multisets) |
| Choking.Notify | PeerProcess.java:137-151 | the record's flag becomes `!unchoke`, and the notice frame goes to its stream, if it has one |
| Choking.PreferredNeighboursTask.constructor | PeerProcess.java:42-53 | the task captures the preferred-neighbour count, the peer list, self and the registry |
| Choking.PreferredNeighboursTask.CollectCandidates | PeerProcess.java:105-113 | the candidates are the non-self interested peers, in configuration order |
| Choking.PreferredNeighboursTask.SplitPeers | PeerProcess.java:129-153 | one notice per non-self peer in configuration order, unchoking exactly the chosen ones; the two lists record which |
| Choking.PreferredNeighboursTask.ApplyNotices | PeerProcess.java:115-153 | notices are carried out in order until the first null stream raises; frames go out for those before it; each record's flag is decided by its last notice carried out |
| Choking.PreferredNeighboursTask.Run | PeerProcess.java:94-161 | fewer than `k` candidates: all are chosen. Otherwise: exactly `k` chosen from the candidates. Notices, frames and flags follow `RoundTargets`; the logged list is the unchoked ids; self's `chokedList` becomes the round's choked list unless a write raised |
| Choking.OptimisticUnchokeTask.constructor | PeerProcess.java:184-194 | the task captures the peer list, self and the registry |
| Choking.OptimisticUnchokeTask.Run | PeerProcess.java:206-238 | at most one unchoke frame, to the first non-self interested peer in configuration order, which then joins self's `chokedList`; a null stream raises first; no `choked` flag changes |
| Choking.FirstInterested | PeerProcess.java:215-233 | the found peer is non-self and interested, and every non-self peer before it is not interested |
| Choking.UnchokeBranchLists | PeerProcess.java:115-124 | in the unchoke-all branch the logged list equals the candidate list and the choked list is empty |
| Choking.CandidatesMembers | PeerProcess.java:105-113 | a peer is a candidate iff it is a non-self configured peer whose record is interested |
| Choking.FirstInterestedIsFirstCandidate | PeerProcess.java:215-222 | the optimistic task picks the preferred task's first candidate, and finds none iff there are no candidates |
| Choking.ElseTargetsMembers | PeerProcess.java:129-153 | the second branch has one notice for each non-self peer, unchoking it iff it was chosen |
| Choking.UnchokedIdsMembers | PeerProcess.java:119 | the unchoked list holds exactly the ids of the unchoke notices |
| Choking.ChokedIdsMembers | PeerProcess.java:146 | the choked list holds exactly the ids of the choke notices |
| Choking.ElseBranchLists | PeerProcess.java:125-156 | in the second branch the unchoked and choked lists partition the non-self peers into chosen and not chosen |
| Choking.ElseTargetsFlags | PeerProcess.java:129-153 | after a full second-branch round a non-self peer is choked iff it was not chosen; a record that belongs to no non-self peer (self's) keeps its flag |
| Choking.UnchokeTargetsFlags | PeerProcess.java:117-124 | after a full unchoke-all round every candidate is unchoked and every other record keeps its flag |
| Process.StopFrom | PeerProcess.java:333-372 | the stop point of the dial loop lies between the start and the end of the list; what it means is stated by `StopPoint` |
| Process.LinksBetweenMembers | PeerProcess.java:374-384 | the threads in a range are exactly those for its connected peers |
| Process.SendsBetweenMembers | PeerProcess.java:351-353 | the handshakes in a range go exactly to its connected peers |
| Process.SendEnd | PeerProcess.java:364-372 | the end of the handshakes lies between the start and the end of the list; `StopPoint` states that it is one past the stop point exactly when the loop stopped at a failed answer |
| Process.StopPoint | PeerProcess.java:333-372 | every peer before the stop point is not self and was refused or answered correctly; the loop stops at the end of the list, at self, or at a connected peer whose answer failed; the handshakes go one past the stop point, to that peer, exactly in the last case |
| Process.DialNumericLinks | PeerProcess.java:332-389 | with a numeric self id the loop never raises, and starts a thread for each connected peer before the stop point, in list order |
| Process.DialNumericSends | PeerProcess.java:347-372 | with a numeric self id the handshake goes to each connected peer before the stop point and to the peer whose answer failed, in list order |
| Process.DialThreads | PeerProcess.java:332-389 | the stop point is never past self, and a thread starts for a peer iff it was connected and is listed before the stop point |
| Process.DialNonNumeric | PeerProcess.java:351 | with a non-numeric self id nothing is written and no thread starts; the loop raises NumberFormatException iff some peer before self accepts the connection |
| Process.StopBeforeSelf | PeerProcess.java:333-336 | the loop never dials self or a peer listed after it |
| Process.AcceptedIsHandshake | PeerProcess.java:355-372 | an answer passes the check iff its 32 bytes are the dialled peer's own handshake |
| Process.SelfListedTwiceLinksSelf | PeerProcess.java:333-384 | when self's id is also listed before self and that entry accepts the connection, the dial loop starts a thread whose peer id is self's |
| Process.PeerProcess.constructor | PeerProcess.java:271-291 | when self is configured and the bitset size is not negative: the settings and peers come from the parsers; self is `peerMap.get(peerID)`; the file manager is sized by the piece size twice; there is one fresh record per configured id |
| Process.PeerProcess.InitRegistry | PeerProcess.java:282-290 | NegativeArraySizeException iff the bitset size is negative; otherwise one record per configured id, records kept distinct, each in its initial state; no bit is set except self's first `numPieces` bits when self has the file |
| Process.PeerProcess.SelfIndex | PeerProcess.java:279 | self is the last listed peer with the id, the one `peerMap.get` returns |
| Process.PeerProcess.FillSelfBitfield | PeerProcess.java:288-290 | only self's bitset changes, and it changes only when self has the file, in which case its first `numPieces` bits are set |
| Process.PeerProcess.BuildRegistry | PeerProcess.java:284-286 | NegativeArraySizeException iff some peer is configured and the bitset size is negative; otherwise a fresh, initial record for every configured id, no two sharing a record, bitset manager or array |
| Process.PeerProcess.ReadResponse | PeerProcess.java:355-361 | the answer is read from a 32-byte array that one `read` fills, and never underflows |
| Process.PeerProcess.StartConnectionWithOtherPeers | PeerProcess.java:332-389 | the outcome, the handshakes written, the threads started and self's stream follow `DialFrom` |
| Process.NewPeerProcess | PeerProcess.java:271-291 | for any configuration: NegativeArraySizeException iff some peer is listed and the bitset size is negative; otherwise NullPointerException iff the id is not configured; otherwise the settings and peers are those of the two files, and self is the peer the map gives for the id |
| Sender.NextMessage | SenderThread.java:141-154 | each message read consumes at least one byte of a non-empty stream |
| Sender.NextMessageOfFrame | SenderThread.java:141-154 | a frame that `generateActualMessage` built reads back off the stream as its type and payload, leaving what follows unread |
| Sender.BitfieldReplyInterested | SenderThread.java:115-131 | the answer to a bitfield is interested iff the peer has a piece self lacks, and not interested iff no piece is missing |
| Sender.HaveRoundTrip | SenderThread.java:271-285 | a `have` for piece `p` reads back as such, and is answered with interested iff self lacks `p` |
| Sender.RequestRoundTrip | SenderThread.java:287-301 | a request for a readable piece reads back as such, and its answer reads back on the other side as exactly that piece |
| Sender.CompleteFromMeans | SenderThread.java:60-67 | `allPeersDownloadCompleted` is true iff every listed peer's bitset is complete (a non-negative piece count, all marked); it raises only for a peer whose array is too short |
| Sender.CompleteWithCurrent | SenderThread.java:60-67 | the completion check with self's bitset taken from a state is the check itself when that state's bitset is the current one, so a state of the loop records what the check said in it |
| Sender.Outs | SenderThread.java:225 | the stream of every listed peer's record, in list order |
| Sender.HaveSendsMembers | SenderThread.java:223-249 | the have loop writes to a stream iff a listed peer other than self has it; each frame is the `have`, or not interested when self has lost interest in this connection's peer |
| Sender.IntBytes | SenderThread.java:186 | `allocate(4).putInt(x).array()` is the big-endian encoding of `x` |
| Sender.PayloadInt | SenderThread.java:273-274 | `wrap(payload).getInt()` reads the first four bytes, or underflows on a shorter payload |
| Sender.ChosenDetermined | SenderThread.java:167-181 | a length mismatch, nothing missing, and everything requested are each forced by the state; a picked piece is one the peer has, self lacks and self has not requested |
| Sender.ChosenExists | SenderThread.java:173-180 | some outcome is always possible, and a piece can be picked iff some missing piece is not yet requested |
| Sender.SenderThread.constructor | SenderThread.java:44-58 | the thread captures its peer, the registry, the file, its stream and the bytes to come, with nothing written yet |
| Sender.SenderThread.Read | SenderThread.java:74-76 | a read takes the next `n` bytes (zeros past the end) and leaves the rest |
| Sender.SenderThread.ReadMessage | SenderThread.java:141-154 | the three reads compute `NextMessage` of the stream |
| Sender.SenderThread.AllPeersDownloadCompleted | SenderThread.java:60-67 | the loop computes the completion check over the listed peers, which is also the check `Done` records for the current state |
| Sender.SenderThread.ExchangeBitfields | SenderThread.java:82-132 | `Opened`: self's bitset is sent first and one message is read; a bitfield becomes the peer's (fresh) bitset and is answered with exactly one interested or not interested; any other type sends nothing more; an unreadable frame or a failing answer ends the thread; nothing else in the observed state changes |
| Sender.SenderThread.SendBitfield | SenderThread.java:83-88 | one frame: length `|bitset|+1`, type 5, then self's bitset |
| Sender.SenderThread.ReceiveBitfield | SenderThread.java:109-131 | the peer's bitset becomes the received bytes, and the reply to them is written |
| Sender.SenderThread.AnswerBitfield | SenderThread.java:112-131 | interested iff the peer has a piece self lacks, not interested otherwise; IllegalArgumentException on a length mismatch |
| Sender.SenderThread.HandleHave | SenderThread.java:271-285 | interested iff self lacks the announced piece; no state changes |
| Sender.SenderThread.HandleRequest | SenderThread.java:287-301 | a type-7 frame of length `|piece|+1` carrying the stored piece, and the peer's served counter goes up by one; a short payload, a null piece or an exception from `readPiece` ends the thread, writing and counting nothing |
| Sender.SenderThread.ChoosePiece | SenderThread.java:167-181 | the choice satisfies `Chosen` for the two bitsets and the requested set |
| Sender.SenderThread.FetchPiece | SenderThread.java:181-209 | the piece joins the requested set; a request frame is sent (length 5, type 6, big-endian index); the answer's payload is written at the piece's offset and the piece is marked |
| Sender.SenderThread.Broadcast | SenderThread.java:223-249 | the frames written are exactly `HaveSends` over the listed peers' streams |
| Sender.SenderThread.HaveStep | SenderThread.java:225-248 | one pass of the have loop adds that peer's announcement |
| Sender.SenderThread.AnnounceTo | SenderThread.java:231-248 | one peer receives the `have`, then not interested iff self is no longer interested in this connection's peer, judged by this connection's peer's bitset |
| Sender.SenderThread.Download | SenderThread.java:181-249 | `Downloaded`: the piece is requested and its request written; a readable answer is written at the piece's offset, the piece is marked, and every other listed peer with a stream receives the `have` (and not interested when due); an unreadable answer ends the thread; the peer's bitset, flag and counter and the streams are unchanged |
| Sender.SenderThread.HandleUnchoke | SenderThread.java:161-251 | `Unchoked`: the choice satisfies `Chosen`; a bitset length mismatch crashes with IllegalArgumentException, nothing missing returns and all requested is the endless draw, each leaving the whole observed state unchanged; a picked piece is `Downloaded` |
| Sender.SenderThread.Dispatch | SenderThread.java:158-301 | `Handled`, over the whole observed state (input, output, file, both bitsets, the requested set, the peer's flag and counter, every stream): unchoke is `Unchoked`; interested and not interested set the flag alone; `have` and request write exactly their answer, a request also counting one piece served, or end the thread changing nothing; choke and unknown types change nothing |
| Sender.SenderThread.Run | SenderThread.java:78-308 | the opening exchange is `Opened` from the initial state; if it ended the thread, that is the result; otherwise the rest of the run is `Served` from the state it left. The thread finishes only when every listed peer's bitset is complete, and goes idle only on an empty stream while some peer is incomplete |
| Sender.SenderThread.Serve | SenderThread.java:134-157 | `Served` over the states it passes through, from the initial to the final state: before each turn the completion check said false and input was left; each turn is a `Turn` (the turns before the last go on); the result is the halt of the last turn, or the check that stops the loop (true: finished; an exception: crashed; false on an empty stream: idle) |
| Sender.SenderThread.LoopCheck | SenderThread.java:134-138 | the head of the loop changes nothing; it stops the loop as `Served` with the check's result (an exception: crashed; true: finished, and then every listed bitset is complete; false on an empty stream: idle), and otherwise lets a turn follow, with the check false and input left |
| Sender.SenderThread.RecordedStep | SenderThread.java:140-158 | one turn, after a check that said false, extends the record of the loop: a turn that ends the thread (crashed or spinning) completes `Served`, any other continues it |
| Sender.SenderThread.Step | SenderThread.java:140-158 | `Turn`: each turn consumes input; a frame that cannot be read (a length from `INT_MIN + 1` to 0 raises NegativeArraySizeException) ends the thread with only the input consumed; a frame read is `Handled` from the state after reading it |

## Left out

- Sockets, `ServerSocket`, thread start-up and the scheduled executor that runs
  the two choking tasks are not modelled. Each task and each connection is a
  sequential step over the registry; writes are appended to a trace and reads
  come from a given byte sequence.
- `synchronized` blocks and `ConcurrentHashMap` are not modelled: concurrency
  is out of scope. No interleaving of threads is explored.
- The busy poll on `in.available()` becomes the `Idle` outcome. A read past the
  end of the stream fills with zeros instead of blocking or returning a short
  count.
- `java.util.Random` becomes a nondeterministic choice (`:|`) constrained by
  what the source guarantees. There is no distribution. A draw that can never
  end, because every missing piece is already requested, is the `Spinning`
  outcome.
- `DataLogger` is not part of this model. Log calls are dropped. The calls to
  `getNumContainedPieces` and `hasCompelteFile` after a download only feed the
  log and are omitted.
- `PeerConnectionHandler`, the accept-side handler, and `startServerPort` are
  not part of this model.
- `IOException` from a stream never arises: streams and the file are
  in-memory. A file opened with its current contents stands for
  `RandomAccessFile`. A file that cannot be opened is not modelled.
- Configuration files are given as their lines.
- Text.DecodeText: `new String(bytes)` decodes UTF-8; the model decodes ASCII
  and maps every other byte to U+FFFD, so multi-byte sequences are not
  modelled. The handshake only carries ASCII text and zero bytes.
- Text.ParseInt: accepts ASCII digits only; Java's `parseInt` also accepts the
  other Unicode decimal digits.
- Allocation limits are not modelled: an array the JVM cannot allocate raises
  OutOfMemoryError in Java, such as the 2^28-byte bitset of a zero piece size,
  or an `INT_MIN` frame length whose `length - 1` wraps to `INT_MAX`. The model
  allocates any non-negative size.
- Session.PeerStatus.SetChokedList: the call with the record's own list is not
  modelled. Java's `clear()` would empty the argument first and leave the list
  empty; the model stores a copy of the given value.
- `getChokedList`, `getRequestedPieces` and `getBitfieldManager` are
  modelled as reads of the fields `chokedList`, `requestedPieces` and
  `bitfieldManager` of `Session.PeerStatus`.
- Accessors that no modelled operation uses are left out, together with the
  fields behind them: `getIn`, `setIn`, `getSocket`, `setSocket`,
  `getClientPeerID`, `setClientPeerID`, `setRequestedPieces`,
  `setBitfieldManager`, the `requestedPiece` flag (`isRequestedPiece()` and
  `setRequestedPiece`), `setNumPieces` and the unsynchronised
  `getBitfield`.
- `sortByValue`, the `toString` methods and the `main` methods are omitted.
  They are never called, or only format text.
- `Wire.ReadActualMessage`: no modelled caller uses it, so the message loop
  reads frames itself, as the source does.
- Process.PeerProcess.constructor: requires that self is configured and that
  the bitset size is not negative, the case in which Java completes. The two
  exceptions it raises otherwise are modelled by `NewPeerProcess`, and the
  registry's by `InitRegistry` and `BuildRegistry`. Its own contract states the
  fields and the registry's keys and freshness; the records' initial state and
  self's filled bitset are stated by `InitRegistry`, which it calls.
- Bitfield.BitfieldManager.constructor and Session.PeerStatus.constructor:
  require a non-negative array size, as a constructor cannot return an
  exception. `NewBitfieldManager` and `NewPeerStatus` take every pair of `int`
  sizes and return NegativeArraySizeException for the rest.
- Sender.SenderThread.constructor: requires that the connection's peer is not
  self and that self's and the peer's bitsets are distinct objects. The
  registry keeps distinct ids' records apart, but a `PeerInfo.cfg` that lists
  self's id a second time, before self's own entry, makes the dial loop start a
  thread whose peer is self (`SelfListedTwiceLinksSelf`). That thread, in which
  both roles share one record, is not modelled.
- Sender.SenderThread.Serve: the completion check recorded for each state in
  `Served` takes self's bitset from that state and every other listed bitset
  as it is when the loop ends. Within one thread's loop only self's bitset
  changes; updates that other threads make to the registry meanwhile are not
  modelled.
- Choking.PreferredNeighboursTask.Run: the `unchokedList` it returns is stated
  only for a completed run. A run that raises never logs it.

## Findings

| source | as written | input that shows it | evidently intended | confidence | as-written member | corrected member |
|---|---|---|---|---|---|---|
| ActualMessageManager.java:51-52 | `readActualMessage` reads `length` payload bytes after the type byte, but the frame's length already counts the type byte | the interested frame `[0,0,0,1,2]`, split as `[0,0,0,1]` and `[2]`, raises BufferUnderflowException, as does every frame the encoder builds with length `1+|payload|` | read `length - 1` payload bytes, as the connection loop in SenderThread.java does | not executed | Wire.ReadActualMessageUnderflows | Wire.DecodeFrameRoundTrip |
