# Minesweeper server: verified model

Dafny models of those parts of the minesweeper server whose behaviour is subtle enough to need a
proof, and theorems about them:

* `wire/` - the byte codec `parameter_bytestream_t` (writer, reader, 13-byte header, CRC-32), the
  growing buffer, and the byte-only boundary between the host and its handlers and plugins;
* `game/` - the board, the flood fill, the handlers, whole runs of the game, many clients on clones
  of shared templates, and the client's own picture of its board;
* `server/` - where the two meet: the game's answers as the maps the handlers build, and the board
  size up to which they fit the boundary's output buffer;
* `envelope/` - base64, the compression frame, and the compress/encrypt/sign/base64 pipeline.

`dafny verify dfyconfig.toml` checks the whole project.

## How the models are built

What the source updates in place is a class here (`ParameterByteStream` over a byte array, `Board`
over an array of cells, `UiBoard`, `Game`, `Server`, `Registry`), with the source's loops as loops.
Every such method is proved against a function or predicate on values: bytes for the codec
(`Frame`, `Unframe`, `Enc`, `Parse`), grids for the game (`Step`, `Run`, `Reach`), six-bit groups for
base64 (`Pack`, `Unpack`). The theorems are lemmas about those.

* An `unordered_map` is, for the writer, the sequence of entries its iteration happens to yield
  (`Value`), and for everyone else a map (`Param`); a statement about every `Value` that forgets to a
  `Param` is a statement about every iteration order.
* `uint64_t` parameters are written as `int64_t` (src/server/plugins/api.hxx:749), so round trips
  hold up to `Norm`, which reads an unsigned number as the signed number with the same 64 bits.
* A flood fill's result is specified without an algorithm: `Reach` is the intersection of all sets
  that contain the seed and are closed under stepping from a zero-count cell to its unflagged,
  unrevealed neighbours.
* What a specification and its method have in common is stated once more without either:
  `BoardLaws` and `Screens` in sets of cells, `CrcPolynomial` in polynomials, `Format`, `ReplyBodies`
  and `Layouts` in literal bytes, keys and texts.
* zlib, AES-256-GCM and HMAC-SHA256 are parameters constrained only by being inverse to each other
  and by the sizes of their tags (`Compression.Inverse`, `Envelopes.Sound`).

## Main results

* A payload changed in any way inside 32 consecutive bits, wherever they start, is always rejected
  (`Crc32.BurstDetected`, `Buffers.BurstRejected`): the byte loops are a stream of bits into a
  register that loses nothing and that 32 bits fill exactly.
* That checksum is the IEEE 802.3 CRC-32: the remainder of the message polynomial by long division,
  with the generator given by its exponents (`CrcPolynomial.ChecksumIsRemainder`,
  `CrcPolynomial.CheckValue`).
* Storing and loading returns every nested value, for every iteration order of its maps and whatever
  bytes follow the payload (`Buffers.StoreLoad`, `Buffers.StoreLoadAnyOrder`); which buffers load at all
  is stated in literal bytes (`Format.Accepted`); `store` succeeds
  exactly when 13 bytes plus the encoding fit; `store_growing` exactly up to 16 MiB.
* Calling any handler through bytes is calling it directly, on normalised parameters and with a
  normalised result, exceptions as 500, up to two size limits (`HandlerBoundary.Dispatch`); on boards of up to 32765
  cells the answers of reveal and check never meet the second one (`Replies.AnswerArrives`).
* The queue loop of the flood fill computes `Reach`, and lists every opened cell once with its count
  (`Boards.Board.RevealCells`); the chord computes the union of the neighbours' reach sets in the
  state before it (`Handlers.RevealNeighbors`); reveals commute (`Runs.RevealsCommute`).
* What each command accepts and changes, in sets of cells (`BoardLaws.CheckAccepted`,
  `BoardLaws.RevealChanges`, `BoardLaws.WhyRevealed`, `BoardLaws.FlagChanges`), and a chord as a row of
  reveals (`BoardLaws.ChordIsReveals`).
* Over whole runs: `Runs.RunInvariant`, `Runs.RevealedGrow`, `Runs.MineRevealedExactly`,
  `Runs.WinExactly`, `Runs.ChordSafety`, `Runs.UnrevealedWasFlagged`.
* For every interleaving of clients each client's board is its template after its own commands, and
  so is every answer it gets (`Sessions.Server.ServeAll`, `Sessions.BoardIsolation`).
* For every sequence of keys, and whatever becomes of the requests they cause, the client's screen is
  the server's board up to the first boom or the first lost answer (`GameLoop.Game.Play`,
  `Screens.ShownKeepsFaithful`); and each key does to board and picture what its command is for
  (`GameLoop.Game.PressKey`).
* Base64 round trips, its exact acceptance condition and when re-encoding is faithful
  (`Base64.RoundTrip`, `Base64.Acceptance`, `Base64.Reencoding`), with the bit stream of RFC 4648 as an
  independent reading (`Base64.TextBits`); and the envelope round trip for every pair of
  configurations (`Envelopes.UnwrapWrap`).

## Where the code and its documentation differ

The models follow the code.

* `cell/reveal` on a mine answers "boom" but sets no revealed bit and ends nothing on the server
  (src/server/handlers.cxx:88-97); the comment at src/server/handlers.cxx:154-157 says a boom is how a
  mine gets its bit. Exactly a `cell/check` that answers "boom" does that
  (`Runs.MineRevealedExactly`).
* The flood fill "can never open a mine" (src/server/plugins/api.hxx:251-253): given true counts it
  opens one exactly when its seed is a mine that is neither flagged nor revealed
  (`Grids.FloodOpensMine`). `cell/check` seeds it so: `MineInPlay.FloodOpensMineInPlay` is a created
  board and a run of three commands after which a mine is revealed.
* `unwrap` is documented to return what was given to `wrap`
  (libs/envelope/include/envelope/envelope.hxx). It does so exactly when the data was not compressed
  or is at most 256 MiB; larger compressed data wraps and is then refused (`Envelopes.UnwrapWrap`,
  with `Envelopes.RefusedPastCap` one byte past the cap).
* The signature is said to cover the mask so that a changed mask cannot switch verification off
  (libs/envelope/include/envelope/envelope.hxx:227-230, libs/envelope/changelog.md:17). `unwrap` takes
  the decision to verify from the sign bit of the header it was given
  (libs/envelope/src/envelope.cxx:105) and never from its own configuration. The claim therefore holds
  exactly for masks that keep that bit: a signed envelope with another mask is refused for its
  signature if and only if the new mask has the sign bit and changes the tag
  (`Envelopes.ChangedMaskRefused`), and the key is consulted if and only if the header has the bit
  (`Envelopes.KeyConsultedExactly`). `Envelopes.ZeroedMaskOpens` is an input on which the claim fails.
* The 1 MiB output buffer is said to cover the project's boards comfortably (src/server/api.cxx:161-163).
  It covers every answer on boards of up to 32765 cells (`Replies.AnswerFits`); on a board without
  mines of 34951 cells or more the first reveal changes the board and its answer is always lost
  (`Replies.FirstAnswerLost`).
* `check_capacity` adds in `size_t` (src/server/plugins/api.hxx:484-488). The model adds without a
  bound, as the comment above it intends. For `load` the two agree exactly when the header claims
  fewer than 2^64 - 13 payload bytes (`Buffers.LoadCheckExact`); `Buffers.LoadCheckFails` is a 13-byte
  buffer on which they do not.

## Model

| member | source | states |
|---|---|---|
| ByteOrder.LittleEndianRoundTrip | src/server/plugins/api.hxx:799-806 | bytes written least significant first read back as the number they came from |
| ByteOrder.LittleEndianByte | src/server/plugins/api.hxx:600-602 | byte i of that layout is the number shifted by 8i and masked |
| CrcRegister.ShiftLoop | src/server/plugins/api.hxx:514-517 | the bit loop with its mask is eight rounds of the one-bit shift |
| CrcRegister.WidenIsNumber | src/server/plugins/api.hxx:513 | the register value of a byte's bits is the byte's number |
| CrcRegister.RoundsAreBits | src/server/plugins/api.hxx:513-517 | folding up to 32 bits in at once and shifting them out is feeding them to the register one by one |
| CrcRegister.WordInjective | src/server/plugins/api.hxx:513 | up to 32 bits are determined by the register value they make |
| CrcBurst.BytesAreBits | src/server/plugins/api.hxx:510-520 | the register after a message is the register after its bits, lowest bit of each byte first |
| CrcBurst.WindowSurvives | src/server/plugins/api.hxx:510-520 | a change inside at most 32 bits still shows in the register after any following bits |
| CrcBurst.ByteWindow | src/server/plugins/api.hxx:510-520 | a change of up to four consecutive bytes is one inside 32 consecutive bits |
| Crc32.Compute | src/server/plugins/api.hxx:510-520 | the byte loop over a buffer's window returns the checksum of exactly that window, which `CrcPolynomial.ChecksumIsRemainder` says is the IEEE 802.3 CRC-32 |
| CrcPolynomial.RemainderUnique | src/server/plugins/api.hxx:502-520 | a message polynomial has one remainder modulo x^32+x^26+x^23+x^22+x^16+x^12+x^11+x^10+x^8+x^7+x^5+x^4+x^2+x+1, by comparing coefficients of multiples of that list of exponents |
| CrcPolynomial.DivideIsRemainder | src/server/plugins/api.hxx:502-520 | long division finds it |
| CrcPolynomial.ChecksumIsRemainder | src/server/plugins/api.hxx:510-520 | for every payload: the checksum is the complement of a remainder if and only if that is the remainder of the payload's bits, lowest of each byte first, times x^32, with the first 32 coefficients complemented |
| CrcPolynomial.CheckValue | src/server/plugins/api.hxx:510-520 | the nine bytes "123456789" have the published check value 0xCBF43926 |
| Crc32.BurstDetected | src/server/plugins/api.hxx:502-520 | two different payloads of any length that differ only inside 32 consecutive bits, aligned to bytes or not, have different checksums |
| Crc32.ToFieldInjective | src/server/plugins/api.hxx:367 | the four header bytes determine the checksum |
| Parameters.ForgetNorm | src/server/plugins/api.hxx:282-286 | normalising a value and forgetting its iteration order commute |
| Parameters.NormWellFormed | src/server/plugins/api.hxx:743-759 | normalising keeps sizes and distinct keys, and doing it twice changes nothing |
| Parameters.HasIteration | src/server/plugins/api.hxx:282-286 | a parameter has an iteration order if and only if all sizes inside it fit size_t |
| Grammar.WidthFromIsLeast | src/server/plugins/api.hxx:495-500 | the width is the least number of bytes, up to eight, that holds the number |
| ByteStream.BytesNeeded | src/server/plugins/api.hxx:495-500 | the loop of bytes_needed computes that width |
| ByteStream.WidthByThreshold | src/server/plugins/api.hxx:533-592 | the chain of thresholds picks the width that was reserved up front |
| ByteStream.MagnitudeIsAbsolute | src/server/plugins/api.hxx:604-608 | two's-complement negation gives the absolute value, for the least int64 too |
| Grammar.ParseEnc | src/server/plugins/api.hxx:743-882 | for every well-formed nested value, parsing its encoding followed by any bytes yields the normalised value and exactly those bytes: all eight widths, both signs, every nesting |
| Grammar.EncPrefixFree | src/server/plugins/api.hxx:743-882 | when one encoding begins another (followed by anything), both values normalise to the same and nothing is left over |
| Grammar.ParseWellFormed | src/server/plugins/api.hxx:815-882 | on arbitrary bytes parsing ends, and what it accepts is well formed and without unsigned alternatives |
| Grammar.CollectDistinct | src/server/plugins/api.hxx:824-846 | collecting entries by emplace keeps all entries whose keys are distinct |
| Format.NumberBytes | src/server/plugins/api.hxx:425-455 | a number is tag 8 + w, or 16 + w below zero, and w bytes of its magnitude for the least w that holds it |
| Format.TextBytes | src/server/plugins/api.hxx:532-592 | a text is tag w, w bytes of its length and its characters |
| Format.ListBytes | src/server/plugins/api.hxx:726-732 | a list is tag 26, its size and its items in order |
| Format.MapBytes | src/server/plugins/api.hxx:734-741 | a map is tag 27, its size and each key with its value |
| Format.AnyWidth | src/server/plugins/api.hxx:799-882 | a reader accepts a number at every width that the tag names, least or not, modulo 2^64 |
| Format.AnyTextWidth | src/server/plugins/api.hxx:784-790 | and a text likewise |
| Format.OtherTags | src/server/plugins/api.hxx:848-882 | byte 0 is the empty text, 25 a bool that any non-zero byte makes true, above 27 nothing |
| Format.BadLength | src/server/plugins/api.hxx:761-774 | only tags 9 to 16 are the size of a list or map |
| Format.BadKey | src/server/plugins/api.hxx:828-842 | only tags 1 to 8 are a key |
| Format.FirstValueKept | src/server/plugins/api.hxx:843 | among entries with one key the first is kept |
| Format.SameKeyTwice | src/server/plugins/api.hxx:824-846 | the bytes of a map with one key twice read as the map with its first value |
| Format.OnlySignsChange | src/server/plugins/api.hxx:743-759 | at every depth, normalising changes a value in nothing but the signedness of its numbers modulo 2^64 |
| Format.FrameLayout | src/server/plugins/api.hxx:348-372 | a stored buffer is byte 2, eight length bytes, four checksum bytes and the payload |
| Format.Accepted | src/server/plugins/api.hxx:374-413 | a buffer loads as a value if and only if it starts with byte 2, the claimed length lies inside, the checksum of those bytes is the one in bytes 9 to 12, and they are that one value and nothing else |
| Format.RefusedHow | src/server/plugins/api.hxx:374-402 | the refusals in their order: overrun, version, length, checksum |
| Format.FrameOfA | src/server/plugins/api.hxx:348-372 | the sixteen bytes that store the text "a" |
| ByteStream.ParameterByteStream.CheckCapacity | src/server/plugins/api.hxx:484-488 | refuses exactly the requests that would run past the bound, and changes nothing |
| ByteStream.ParameterByteStream.WriteNumber | src/server/plugins/api.hxx:604-717 | writes the number's encoding, or stops inside the bound with an overrun exactly when it does not fit |
| ByteStream.ParameterByteStream.WriteText | src/server/plugins/api.hxx:532-592 | the same for strings |
| ByteStream.ParameterByteStream.WriteMap | src/server/plugins/api.hxx:734-741 | the same for maps, in the iteration order given |
| ByteStream.ParameterByteStream.Serialize | src/server/plugins/api.hxx:743-759 | the same for every nested value: the bytes at the offset become the encoding, all others stay, and it succeeds exactly when the encoding fits |
| ByteStream.ParameterByteStream.Store | src/server/plugins/api.hxx:348-372 | on a fresh stream succeeds exactly when 13 bytes plus the encoding fit; then the buffer holds version, length, checksum, payload and its old tail; nothing past the capacity is ever touched; a used stream is refused untouched |
| ByteStream.ParameterByteStream.ReadInteger | src/server/plugins/api.hxx:799-806 | reads what the grammar says from the remaining bytes, never past the bound |
| ByteStream.ParameterByteStream.ReadMap | src/server/plugins/api.hxx:824-846 | the loop agrees with the grammar, duplicates included |
| ByteStream.ParameterByteStream.Deserialize | src/server/plugins/api.hxx:848-882 | terminates on every input with the remaining bytes as its measure, and agrees with the grammar on value, rest and error |
| ByteStream.ParameterByteStream.Load | src/server/plugins/api.hxx:374-413 | the result is a function of the bytes inside the bound; the buffer is left alone; success has consumed exactly the declared payload; the source's own outcome exactly when the header claims fewer than 2^64 - 13 bytes (`Buffers.LoadCheckExact`) |
| Buffers.StoreLoad | src/server/plugins/api.hxx:348-413 | load after store is the normalised value, whatever bytes follow the payload |
| Buffers.StoreLoadAnyOrder | src/server/plugins/api.hxx:734-741 | the same with maps compared as maps, for every iteration order the writer may have met |
| Buffers.BurstRejected | src/server/plugins/api.hxx:400-402 | a stored buffer whose payload is changed inside 32 consecutive bits fails to load with a checksum mismatch |
| Buffers.ByteBurstRejected | src/server/plugins/api.hxx:400-402 | in particular one changed inside four consecutive bytes |
| Buffers.LoadIgnoresTail | src/server/plugins/api.hxx:389-398 | buffers that agree up to the declared end of the payload load alike |
| Buffers.AcceptedIsStable | src/server/plugins/api.hxx:374-413 | any accepted bytes give a value that survives another store and load unchanged |
| Buffers.CapacityCheckExact | src/server/plugins/api.hxx:484-488 | the size_t comparison is right exactly when the sum does not wrap to a value inside the buffer |
| Buffers.LoadCheckExact | src/server/plugins/api.hxx:384-398 | for every buffer, the size_t check of the claimed payload length is the unbounded one if and only if the claim is below 2^64 - 13 |
| Buffers.LoadCheckFails | src/server/plugins/api.hxx:384-398 | a 13-byte buffer whose claim passes the size_t check although it overruns the buffer |
| Buffers.StoreGrowing | src/server/api.cxx:117-131 | returns the stored bytes, independent of the capacity that sufficed, and fails exactly above 16 MiB |
| Buffers.StoreThenLoad | src/server/plugins/api.hxx:348-413 | storing into and loading from one caller's buffer gives the normalised value, or the overrun exactly when it does not fit |
| HandlerBoundary.EnvelopeRoundTrip | src/server/plugins/api.hxx:1152-1186 | a result put into its envelope, normalised and taken out again is the normalised result, for successes and errors |
| HandlerBoundary.BoardHandlerAdapter | src/server/plugins/api.hxx:1217-1235 | for any handler: writes the encoding of what the handler returned or, when it threw, of a 500 with the exception's text; the board is the handler's in both cases; writes nothing for parameters that are no map, without a call, or for a result that does not fit |
| Format.InputReads | src/server/plugins/api.hxx:1218-1222 | the handler is called exactly with an input that loads as a map, and with that map |
| HandlerBoundary.UnwrapHandlerOutput | src/server/api.cxx:167-177 | reads a result out of the bytes written, with the two 500 results for none and for malformed ones |
| HandlerBoundary.UnwrapEncoded | src/server/api.cxx:167-177 | what the host reads of what a handler stored is the normalised result, or the 500 result exactly when it did not fit |
| HandlerBoundary.Dispatch | src/server/api.cxx:784-814 | for any handler, in terms of the call alone: what it returns on the normalised parameters comes back normalised, what it throws comes back as a 500 with its text, and the board is the one it left; only parameters above 16 MiB, without a call, and results above 1 MiB each get a 500 of the host's instead |
| Format.OutputReads | src/server/plugins/api.hxx:1168-1186 | the host reads a success exactly for "ok" = true with a "body" map, the handler's error for "ok" = false with "http_code" and "message", and any error but a 500 from these keys only |
| Format.OutputFails | src/server/api.cxx:167-177 | an output that does not load as a map is a 500 |
| Format.OutputHas | src/server/plugins/api.hxx:1152-1164 | the keys and alternatives of the envelope the handler's side writes |
| ResourceBoundary.SpecRoundTrip | src/server/plugins/api.hxx:1064-1114 | a resource description survives its wire form, up to the signedness of default values |
| Format.SpecReads | src/server/plugins/api.hxx:1095-1114 | an accepted description was read from the seven keys of the format, every parameter included |
| ResourceBoundary.Registry.Add | src/server/plugins/api.hxx:1138-1146 | registering through bytes appends exactly the description given (normalised), or nothing above 16 MiB |
| ResourceBoundary.Registry.AddEncoded | src/server/api.cxx:141-151 | malformed descriptions are dropped and change nothing |
| EncodedSize.MapSize | src/server/plugins/api.hxx:734-741 | the encoding of a map is bounded by what its keys and values may take, for every iteration order |
| EncodedSize.ListSize | src/server/plugins/api.hxx:726-732 | the same for lists |
| EncodedSize.MapAtLeast | src/server/plugins/api.hxx:734-741 | and from below, by what the keys and values in it must take |
| Replies.CellsOnBoard | src/server/api.cxx:357 | a board has width times height cells |
| Replies.ReportsSmall | src/server/handlers.cxx:104-119 | a list of opened cells is no longer than the board, with counts from -1 to 8 |
| Replies.AnswerSize | src/server/handlers.cxx:83-121 | an answer with n cells takes at most 81 + 32n bytes in all, for every iteration order |
| Replies.AnswerFits | src/server/api.cxx:153-165 | on a board of up to 32765 cells every answer of a reveal or a check fits the 1 MiB output buffer |
| Replies.AnswerArrives | src/server/api.cxx:167-177 | and is what the host reads back, unchanged |
| Replies.AnswerAtLeast | src/server/handlers.cxx:83-121 | an answer with n counted cells takes at least 53 + 30n bytes, for every iteration order |
| Replies.FirstAnswerLost | src/server/api.cxx:153-170 | on a board without mines of at least 34951 cells the first reveal opens every cell and the host reads the 500 result in place of its answer |
| ReplyBodies.BoomListsMine | src/server/plugins/cell_check.cxx:68-87 | an answer says "boom" if and only if it lists a mine, and every listed count is -1 for a mine and otherwise the number of neighbouring mines |
| ReplyBodies.BodyReads | src/server/handlers.cxx:83-121 | in the map that is sent, "status" is "boom" exactly when a listed cell is a mine and "ok" otherwise, "info" is there exactly for a revealed cell, and every element of "cells" has its place and, if counted, the right "count" and "bomb" |
| Grids.ReachIsClosed | src/server/api.cxx:442-479 | the reach of a seed, which lies in every closed set that contains the seed, is itself one of them |
| Grids.ReachIsHidden | src/server/api.cxx:467-468 | everything reached but the seed was hidden and lies beside a reached zero-count cell |
| Grids.FloodAvoidsMines | src/server/plugins/api.hxx:251-254 | with true counts a flood fill opens no mine except as its seed |
| Grids.FloodOpensMine | src/server/api.cxx:442-479 | with true counts a flood fill opens a mine if and only if its seed is a mine, unflagged and unrevealed |
| MineInPlay.FloodOpensMineInPlay | src/server/plugins/cell_check.cxx:57-66 | a created three-cell board and a run on it in which a check's flood fill opens a mine |
| Grids.OpenedAfter | src/server/api.cxx:442-479 | after a closed set has been opened, a flood fill opens exactly the part of its original reach that is left |
| BoardLayout.IndexInRange | src/server/api.cxx:382-384 | a coordinate inside the board indexes inside the vector |
| BoardLayout.IndexInjective | src/server/api.cxx:382-384 | different coordinates index different cells |
| BoardLayout.CoordOfIndex | src/server/api.cxx:382-384 | every index is the index of a coordinate on the board |
| BoardLayout.GridOfUpdate | src/server/api.cxx:297-305 | writing one element changes one cell of the board and no other |
| BoardLayout.CountIfGrid | src/server/api.cxx:513-527 | counting over the vector is the number of coordinates whose cell satisfies the predicate |
| Boards.Board.Clone | src/server/api.cxx:288-292 | an equal board over its own fresh cells |
| Boards.Board.NeighborsOf | src/server/api.cxx:414-435 | exactly the neighbours on the board, each once: as many as the columns within one of the cell times the rows within one of it, less one |
| BoardLaws.NeighborsAround | src/server/api.cxx:414-435 | an offset leads from a cell to a neighbour if and only if it is not (0, 0), both parts are within -1..1, and it stays on the board |
| Boards.Board.CountCells | src/server/api.cxx:513-527 | the number of cells that satisfy a predicate |
| Boards.Board.CountNeighbors | src/server/api.cxx:492-511 | the number of neighbours that satisfy a predicate |
| Boards.Board.NoneOfCell | src/server/handlers.cxx:163 | true exactly when no cell of the board satisfies the predicate |
| Boards.Board.RevealOne | src/server/api.cxx:437-440 | sets one revealed bit, and returns the count shown, -1 for a mine |
| Boards.Board.RevealCells | src/server/api.cxx:442-479 | opens exactly the least closed set around a hidden seed and nothing otherwise; changes only revealed bits; lists each opened cell once with its count; the queue loop terminates |
| Boards.CountedIsFresh | src/server/api.cxx:573-578 | an empty board given mines and counts has true counts and nothing flagged or revealed |
| Boards.Board.ComputeNeighborCounts | src/server/api.cxx:573-578 | stores the true number of neighbouring mines in every cell and changes nothing else |
| Boards.LandsRowsOn | src/server/api.cxx:382-384 | a coordinate k board widths to the right of a cell and k rows above it indexes that cell |
| Boards.CreateFixedBoard | src/server/api.cxx:587-591 | a fresh board whose mines are where the given coordinates index the vector; those on the board land where they say |
| Boards.CreateBoard | src/server/api.cxx:581-585 | a fresh board, with exactly the requested number of mines once the placement loop has finished |
| Handlers.CellReveal | src/server/handlers.cxx:69-122 | the board steps as specified, and status, info and cells are those the state before determines |
| Handlers.CellFlag | src/server/handlers.cxx:124-151 | the flag is toggled or one of the three refusals is given, the flag budget included |
| Handlers.BoardFullyRevealed | src/server/handlers.cxx:63-67 | as many unrevealed cells as mines, and as many flags |
| Handlers.BoardChecked | src/server/handlers.cxx:153-165 | refused while other cells are left; otherwise "win" exactly when no mine is unflagged or revealed |
| Handlers.RevealNeighbors | src/server/plugins/cell_check.cxx:56-66 | the loop over the neighbours opens the union of what each would have opened before the loop, and the joined lists name each opened cell once |
| Handlers.UnionIsChord | src/server/plugins/cell_check.cxx:57-66 | that union does not depend on the order of the neighbours |
| Handlers.CellCheck | src/server/plugins/cell_check.cxx:25-88 | the board steps as specified and the answer is the one the state before determines; what that step and that answer are, `BoardLaws.CheckAccepted` and `BoardLaws.CheckChanges` say in sets of cells |
| BoardLaws.CheckAccepted | src/server/plugins/cell_check.cxx:33-53 | a check is accepted if and only if its cell is on the board, revealed, no mine, and has as many neighbouring flags as neighbouring mines; which refusal there is otherwise |
| BoardLaws.CheckChanges | src/server/plugins/cell_check.cxx:56-66 | then every neighbour without a flag is revealed afterwards; otherwise nothing changes |
| BoardLaws.ChordIsReveals | src/server/plugins/cell_check.cxx:56-66 | with no covered mine beside it, an accepted check leaves the board that revealing each covered neighbour does, in any order and with repetitions |
| BoardLaws.RevealAccepted | src/server/handlers.cxx:69-101 | a reveal is accepted exactly on the board and off the flags, and answers "boom" exactly on a mine |
| BoardLaws.RevealChanges | src/server/api.cxx:442-479 | nothing for a mine or a revealed cell; a cell with neighbouring mines opens alone; one without takes every unflagged neighbour along |
| BoardLaws.ListsWhatChanged | src/server/handlers.cxx:104-120 | an answer without a boom lists exactly the cells that became revealed, once each, with their numbers of neighbouring mines |
| BoardLaws.ZerosSpread | src/server/api.cxx:454-475 | a newly revealed cell without neighbouring mines takes every covered neighbour with it |
| BoardLaws.WhyRevealed | src/server/api.cxx:454-475 | nothing else is revealed than the cell itself, the neighbours of a checked cell, and neighbours of newly revealed cells without neighbouring mines |
| BoardLaws.FlagsProtect | src/server/api.cxx:442-446 | no command reveals a flagged cell or covers a revealed one |
| BoardLaws.FlagAccepted | src/server/handlers.cxx:124-142 | a flag command is accepted exactly on an unrevealed cell that is flagged or may still get one of as many flags as there are mines |
| BoardLaws.FlagChanges | src/server/handlers.cxx:142-150 | an accepted one moves one cell into the flags or out of them and the bomb counter by one the other way; nothing else changes |
| BoardLaws.FlagTwice | src/server/handlers.cxx:124-151 | a flag just placed can be taken off, which restores the board |
| BoardLaws.Verdicts | src/server/handlers.cxx:153-165 | the check is refused exactly while the numbers of unrevealed cells and of mines differ, and is lost exactly when they agree and some mine is revealed or has no flag |
| BoardLaws.UnflaggedMineLoses | src/server/handlers.cxx:153-165 | with every safe cell open and a mine without its flag the verdict is "lose" and not the refusal |
| Rules.ChordClosed | src/server/plugins/cell_check.cxx:57-66 | what a chord opens is closed under flooding |
| Runs.StepKeeps | src/server/handlers.cxx:69-151 | every command keeps true counts, disjoint flags and revealed cells, the flag budget and the mines, and reveals exactly what it opens |
| Runs.RunInvariant | src/server/api.cxx:513-578 | in every run from a created board all of that holds and the bomb counter stays between 0 and the total |
| Runs.RevealedGrow | src/server/handlers.cxx:69-151 | along a run revealed cells are never covered again |
| Runs.MineRevealedByBoom | src/server/plugins/cell_check.cxx:57-87 | a mine becomes revealed only in a check, and that check answers "boom" |
| Runs.MineRevealedExactly | src/server/plugins/cell_check.cxx:57-87 | a command reveals a mine if and only if it is a check that answers "boom" |
| Runs.RevealsCommute | src/server/handlers.cxx:69-122 | any two reveals leave the same board in either order, from any state |
| Runs.RevealsOpenUnion | src/server/handlers.cxx:69-122 | any number of reveals in a row open the union of what each would have opened first |
| Runs.WinExactly | src/server/handlers.cxx:63-67 | in reachable states the check says "win" exactly when the board is fully revealed and no mine is, and then unrevealed cells, flags and mines coincide |
| Runs.ChordSafety | src/server/plugins/cell_check.cxx:44-87 | with no revealed mine beside the cell, an accepted check answers "boom" exactly when a neighbouring flag is wrong |
| Runs.Pigeonhole | src/server/plugins/cell_check.cxx:44-53 | among cells with as many flags as mines, a mine is missed exactly when a flag is wrong |
| Runs.ChordMines | src/server/plugins/cell_check.cxx:57-66 | a chord opens a mine exactly when a neighbouring mine was hidden |
| Runs.UnrevealedWasFlagged | src/server/api.cxx:454-475 | in every run an unrevealed neighbour of a revealed zero-count cell was flagged at some moment of that run |
| Sessions.Isolation | src/server/api_impl.hxx:141-158 | for every interleaving, deleting all other clients' commands leaves a client's entry in the session table (template and own commands) as it was |
| Sessions.OnlyIsOwn | src/server/api.cxx:549-570 | what that deletion leaves holds no other client's command and all of this one's, in order |
| Sessions.BoardIsolation | src/server/api.cxx:549-570 | and so its board and every answer it can get |
| Sessions.ReplayKeepsInv | src/server/api.cxx:513-578 | every client's board keeps the run invariants and the mines of its template |
| Sessions.OwnLog | src/server/api.cxx:565-570 | a client's log grows by exactly its own commands, in order |
| Sessions.Server.AddBoard | src/server/api_impl.hxx:141-146 | the next id, one more template, all others and all sessions as before |
| Sessions.Server.AddNewClient | src/server/api.cxx:549-563 | a session on a clone of the template, or none for a missing board; the id is used up either way |
| Sessions.Server.StartSession | src/server/handlers.cxx:16-45 | ids out of range are refused without using up an id; otherwise a new client holds a board equal to that template, and no other client's entry changes |
| Sessions.Server.PlayCommand | src/server/api.cxx:565-570 | a command is answered as on the template after the client's own commands; that client's board takes the step and the cells of every other client's stay as they were |
| Sessions.Server.ServeAll | src/server/api.cxx:549-570 | after any interleaving every client's board is its template after its own commands, every request was answered as by that board, and the templates are what they were |
| Sessions.Server.EveryClientSound | src/server/api.cxx:549-578 | with templates as created, every client's board satisfies the run invariants |
| UiBoards.PictureOfOpen | src/client/ui.cxx:269-272 | opening cells on the server and showing the answered cells give the same picture |
| UiBoards.UiBoard.ShowRevealed | src/client/ui.cxx:269-272 | the loop shows exactly the listed cells with their counts |
| UiBoards.UiBoard.ShowBoom | src/client/ui.cxx:261-263 | the loop shows exactly the listed cells as exploded and keeps their counts |
| Screens.AnswerReads | src/client/ui.cxx:257-274 | an answer tells the client exactly what happened: a refusal means nothing changed, "boom" that a mine went off and which cells are listed, otherwise which cells were opened, none of them a mine |
| Screens.ShownKeepsFaithful | src/client/ui.cxx:254-320 | one command, obeyed and answered, keeps the screen faithful to the whole history, whichever of the following queries fail: the picture is the server's up to the first boom, the boom ending comes exactly with the first command that sets off a mine and explodes the answered cells, a win is announced only on a won board and exactly on a fully revealed one when the queries are answered, a loss never while no answer has been lost |
| Screens.LostKeepsFaithful | src/client/ui.cxx:257-259 | a command obeyed without its answer reaching the client costs the client its synchrony and nothing else |
| Screens.StaysSafe | src/client/ui.cxx:254-320 | a command that sets off no mine leaves no mine revealed |
| Screens.SafeWins | src/client/ui.cxx:213-227 | while no mine is revealed, a fully revealed board always checks as "win" |
| Screens.RepaintMirrors | src/client/ui.cxx:257-309 | repainting what an answer lists gives the picture of the server's board after the command |
| GameLoop.Game.constructor | src/client/ui.cxx:197-208 | a new session starts faithful: everything hidden, the server's counters if they could be fetched |
| GameLoop.Game.CheckGameEnd | src/client/ui.cxx:213-227 | announces the server's verdict exactly when both queries are answered and the board is fully revealed |
| Screens.SeenAfter | src/client/ui.cxx:254-320 | after a command on a synchronous screen the picture is the server's board, or, exactly when a mine went off, the board before with the answered cells exploded |
| Screens.RevealSeen | src/client/ui.cxx:250-277 | revealing a covered cell shows it with its number of neighbouring mines, or as exploded exactly when it is a mine |
| Screens.FlagSeen | src/client/ui.cxx:300-319 | flagging a covered cell adds it to the flags and shows it so exactly while flags are left; on a flagged one it takes the flag off |
| Screens.CheckSeen | src/client/ui.cxx:278-299 | checking an unrevealed cell changes nothing; an accepted check reveals every covered neighbour, which show their numbers of neighbouring mines, or all explode exactly when a mine is among them |
| GameLoop.Game.PressKey | src/client/ui.cxx:231-331 | each arrow moves the cursor by one in its direction unless that leaves the board, and no other key moves it; Enter reveals the cell under it on the server and in the picture and never changes a flag, Space flags or unflags it and never reveals one, Backspace chords it, and the other keys change nothing; the screen stays faithful, whether requests are answered, dropped or answered in vain |
| GameLoop.Game.Play | src/client/ui.cxx:231-331 | for every sequence of keys and fates of their requests: the cursor and the commands obeyed are those of the keys used, the loop ends early only when the game does, the screen is faithful to the whole history, and trust is lost only to lost answers and failed queries |
| Sextets.WordOfGroups | libs/envelope/src/base64.cxx:56-60 | the four groups of a 24-bit word make up the word |
| Sextets.UnpackPack | libs/envelope/src/base64.cxx:48-156 | regrouping bytes into six-bit groups and back loses nothing |
| Sextets.PackUnpack | libs/envelope/src/base64.cxx:48-156 | the other way round the groups come back exactly when the unused trailing bits are zero |
| Sextets.PackBits | libs/envelope/src/base64.cxx:55-81 | bit k of the groups is bit k of the bytes, and zero after them (RFC 4648, section 4) |
| Base64.MakeDecodeTable | libs/envelope/src/base64.cxx:29-38 | the table inverts the alphabet and holds -1 elsewhere |
| Layouts.TestVectors | libs/envelope/src/base64.cxx:48-84 | the texts of "f", "fo" and "foo" that RFC 4648, section 10, gives, and without padding the url-safe ones |
| Layouts.LastTwoSymbols | libs/envelope/src/base64.cxx:9-23 | the bytes 0xFB, 0xFF are "+/8=" in one alphabet and "-_8" in the other |
| Layouts.TextRefused | libs/envelope/src/base64.cxx:101-117 | too much padding is refused before a wrong length, and that before a wrong character |
| Base64.Base64Encode | libs/envelope/src/base64.cxx:48-84 | the loops produce the characters of the packed groups, and padding in the standard alphabet only |
| Base64.Base64Decode | libs/envelope/src/base64.cxx:86-156 | the loops produce the specified bytes, or the first applicable of the three errors |
| Base64.RoundTrip | libs/envelope/src/base64.cxx:48-156 | decoding undoes encoding in both alphabets, also with the padding removed or with up to two "=" of one's own |
| Base64.Acceptance | libs/envelope/src/base64.cxx:97-117 | accepted exactly: some number, not 1 modulo 4, of characters of the alphabet, followed by at most two "=" and nothing else |
| Base64.Reencoding | libs/envelope/src/base64.cxx:48-156 | re-encoding accepted text gives the same characters exactly when the unused trailing bits are zero |
| Base64.EncodedInjective | libs/envelope/src/base64.cxx:48-84 | different data have different texts |
| Base64.TextBits | libs/envelope/src/base64.cxx:48-84 | the text has ceil(4n/3) characters of the alphabet, which spell the bits of the data in order |
| Compression.AppendU64LE | libs/envelope/src/compress.cxx:23-27 | the shift loop appends the eight little-endian bytes |
| Compression.ReadU64LE | libs/envelope/src/compress.cxx:29-35 | the shift loop reads them back |
| Compression.ZlibCompress | libs/envelope/src/compress.cxx:38-57 | the size prefix followed by zlib's output |
| Compression.ZlibDecompress | libs/envelope/src/compress.cxx:59-77 | the three refusals in order, or zlib's output for the claimed size |
| Compression.DecompressCompress | libs/envelope/src/compress.cxx:38-77 | decompression undoes compression up to 256 MiB and refuses the library's own output above |
| Envelopes.DecryptEncrypt | libs/envelope/src/crypto.cxx:55-144 | splitting nonce, ciphertext and tag undoes joining them |
| Layouts.EnvelopeLayout | libs/envelope/src/envelope.cxx:33-77 | an envelope is "ENV1", a byte with bits 1, 2 and 4 for compressed, encrypted and signed, the compressed and then encrypted body, and the tag over all of that |
| Layouts.HeaderRefused | libs/envelope/src/envelope.cxx:92-97 | anything shorter than five bytes or without "ENV1" is refused for every configuration |
| Layouts.NoLayers | libs/envelope/src/envelope.cxx:97-144 | a header with none of the three bits opens as what follows it, whatever its other bits are |
| Layouts.CapIs | libs/envelope/src/compress.cxx:64-67 | refused as implausible exactly for a claim above 0x10000000 bytes |
| Envelopes.MaskBits | libs/envelope/src/envelope.cxx:60 | the three bits of the mask say which layers there are |
| Envelopes.Envelope.Wrap | libs/envelope/src/envelope.cxx:33-77 | the stages build the specified envelope, or fail for a missing key |
| Envelopes.Envelope.Unwrap | libs/envelope/src/envelope.cxx:79-144 | the stages, with the signature first, give the specified result |
| Envelopes.UnwrapWrap | libs/envelope/src/envelope.cxx:33-144 | a receiver with the sender's base64 mode and keys, whatever its own switches, unwraps every envelope of every combination of layers to the data, except exactly compressed data above 256 MiB |
| Envelopes.RefusedPastCap | libs/envelope/src/compress.cxx:59-67 | one byte past 256 MiB, wrapped compressed, is refused when unwrapped |
| Envelopes.KeyConsultedExactly | libs/envelope/src/envelope.cxx:97-120 | the signature key influences the outcome if and only if the header's sign bit is set |
| Envelopes.ChangedMaskRefused | libs/envelope/src/envelope.cxx:105-120 | a signed envelope with its mask replaced is refused for its signature if and only if the new mask has the sign bit and the changed header has another tag; without the sign bit it is opened as an unsigned one |
| Envelopes.ZeroedMaskOpens | libs/envelope/src/envelope.cxx:97-122 | an input on which the documented refusal fails: signed data with the mask set to zero opens, for every receiver, as the data followed by the tag |
| Envelopes.SoundPrimitivesExist | libs/envelope/src/crypto.hxx:11-45 | the assumptions made about the primitives can be met |

## Left out

- ByteStream.ParameterByteStream.CheckCapacity: adds without a bound where the source adds in `size_t`; `Buffers.CapacityCheckExact` gives the exact set of requests on which they differ.
- ByteStream.ParameterByteStream.Load: what the source does once it has let a claim of 2^64 - 13 bytes or more pass is not modelled; a string length inside the payload that wraps in the same way ends in the string constructor's length error, so that `load` fails there as it does here.
- Boards.CreateBoard: `rand()` is a list of picks inside the board, and running out of it stands for a placement loop that is still looking; that it ever finishes is not claimed.
- Boards.CreateFixedBoard: coordinates whose index lies outside the vector, which the source would write to unchecked.
- HandlerBoundary.BoardHandlerAdapter: the board is a value handed to and returned by the handler, not an object it updates; aliasing is covered in `game/` only. Sizes of the result's texts and containers are below 2^64, as `size_t` makes them.
- Sessions.Server.StartSession: starts from the parsed board id; for an empty parameter the id is the number that `rand()` picks, so any number may be given; an empty parameter on a server without boards is not modelled.
- Sessions.Server.AddNewClient: client ids are unbounded, so the 64-bit counter never wraps.
- GameLoop.Game.PressKey: an answer that arrives but cannot be parsed counts as a lost one; parsing the JSON of a good one is not part of this model.
- Envelopes.Envelope.Wrap: data of 2 GiB and more, whose size the source narrows to `int` on the way into OpenSSL, is treated like any other.
- Header fields are little-endian and `bool` is one byte, any non-zero byte reading as true, as on the platforms the server is built for.
- Texts of errors are constructors; the host's 500 messages and the text of a caught exception are abbreviated.
- Handlers receive the two coordinates as integers: looking them up in the parameter map and narrowing them to `int` is not part of this model; the maps they answer with are modelled for reveal and check (`Replies.ResultOf`).
- Depth of recursion on nested input is not bounded, as in the source; the stack it needs is not part of this model.
- zlib, AES-256-GCM, HMAC-SHA256, random nonces and key cleansing: only the inverse and size assumptions are used; allocation failures are not modelled.
- Coordinates of more than two dimensions, the order on coordinates, and the counting queries over revealed neighbours that no handler uses.
- Threads: every handler call is one atomic step.
- HTTP, restbed, JWT, RSA and X.509, plugin loading, JSON/YAML/XML, logging, drawing and command lines.
