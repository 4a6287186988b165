# Proofs about the CedarC decoder driver

A model, in Dafny, of the buffer and picture management of the CedarC video decoder
driver: what happens to bytes between the feeder and the decoder, and to pictures between
the decoder and the renderer. `dafny verify dfyconfig.toml` checks everything.

Objects that the driver updates in place are classes here, and their methods have the
driver's loops and branches. Each class is specified by a value on which the properties of
whole runs are proved. Each locked region of the driver is one atomic step; a test made before the
lock whose answer another client can change is a step of its own.

| files | what they are about |
|---|---|
| `Common`, `Ring`, `NodeList`, `CursorFifo` | bytes, ring addresses, linked lists over a node pool, a fixed array used as a queue with three cursors |
| `NalUnits`, `SbmFlow`, `SbmRuns` | the frame-mode stream buffer manager as a pipeline of byte strings, and its detectors for H.264 and H.265, behind start codes or length prefixes |
| `SbmUnits`, `SbmRoundTrip`, `SbmDrain` | the units in those bytes: how pictures group them, over any run and until the pipeline is drained |
| `SbmSnap`, `SbmFrame` | the same manager on its ring, descriptors and cursors; it implements the pipeline |
| `FbmPool`, `FbmProofs`, `FbmRelease`, `Fbm` | the frame buffer manager: flags, three linked queues and counters under a decoder, a renderer and a release |
| `MessageQueue`, `QueueProtocol`, `SbmWorker` | the message queue, its semaphore protocol, and the worker and reset protocol on top of it |
| `Emulation` | loading a header and taking its emulation prevention bytes out in place |
| `DelayOrder`, `DelaySteps`, `DelayHandover`, `DelayedPictures` | the H.264 picture delay list: joining, choosing, holding back, flushing |
| `SbmStream`, `FeedChannel`, `VideoFeeder` | the stream-mode buffer manager and the entry points that ask for room and submit parts of frames |
| `Pixels`, `PixelFormat`, `TurnedChroma` | turning pictures by quarter turns and converting between 4:2:0 layouts |

## Main results

- **Writer safety and tiling.** The detectors free chunk descriptors long before the bytes are
  free; only flushing a picture gives bytes back. Until a pass strands bytes or goes astray (see
  below for exactly when) pictures, the picture being built and the chunks are consecutive stretches of the ring that cover the
  valid bytes once and in order, so granted room never meets a byte still needed
  (`SbmFrame.SbmFrame`, `SbmSnap.WriteKeepsData`, `SbmSnap.LiveBytes`, `SbmRuns.RunsAreAccounted`).
- **Round trip.** Lists of units packed behind start codes, with any number of zero bytes before each,
  or behind length prefixes come out of the frame pictures in order, over any interleaving of
  feeder, detector and decoder, whatever the feeder writes behind the chunks and wherever they lie in the ring, and each call ends
  (`SbmDrain.RoundTrip`, `SbmRoundTrip.RunsKeepUnits`, `SbmFrame.SbmFrame.DetectOneFramePic`). The pictures
  hold exactly the units cut before each one that opens an access unit behind a first slice
  (`SbmRoundTrip.RunsGroupUnits`, `SbmRoundTrip.ExpectFed`); in the H.264 detector, one each
  (`SbmDrain.AvcRoundTrip`). What that means on the bytes of a unit, for one pass and for the pictures of a round trip,
  is `SbmUnits.HevcEndsExactly`, `SbmUnits.AvcEndsExactly` and `SbmDrain.RoundTripIsCut`; and each picture has the first
  known time stamp of its first ten units (`SbmUnits.PassStamps`).
- **Frame states.** Seven flag combinations, queues that are exactly what the flags say, and exact
  counters, over every run of both clients; the client discipline needed is exact
  (`FbmProofs.RunLegal`, `FbmProofs.DisciplineIsExact`). The renderer is shown what the decoder shares or returns as valid, in that order, and once
  (`FbmProofs.RunShows`, `FbmProofs.RunShowsOnce`); reclamation follows (`FbmProofs.AllReclaimed`). From a
  release call on each frame is queued, given away and rebound exactly once, if and only if it is not left
  behind by a share that the call has overtaken (`FbmRelease.ReleasedExactlyOnce`).
- **No lost wake-up, no starved worker** (`QueueProtocol.NoLostWakeup`, `SbmWorker.WorkerNeverStarves`).
- **Emulation bytes.** The in-place copies invert the escaping of section 7.4.1 of H.264 for every
  payload with less than 1024 emulation bytes, and of every long slice for its first 683 payload bytes at least
  (`Emulation.HeaderBuffer.ProcessData`).
- **Output order.** When a decoded picture makes another one leave the list, and when the list waits, is stated on
  list, counts and order counts (`DelaySteps.JoinExactly`). A flush hands pictures over in the order given by cutting the list before each
  key frame and stably sorting each piece by picture order count, and what is missing from it where
  an entry has lost its picture is declared too; over any run each picture leaves at most once, and how long
  the list gets is stated (`DelayOrder.FlushIsShownOrder`, `DelayedPictures.DelayedPictures.FlushDelayedPictures`,
  `DelaySteps.RunConserves`, `DelaySteps.RunBounded`).
- **Feeder channel.** Bytes submitted in any number of parts, with the decoder at work in between, are read
  back as the frames they form, each with its first known time stamp (`VideoFeeder.VideoFeeder.SubmitVideoStreamData`, `FeedChannel.FramesArrive`).
- **Pictures.** The loops put every byte of luma and chroma where the turn or the format wants it; turns cancel and
  add, conversions cancel, and the two commute for even sizes (`PixelFormat.Rotate`, `PixelFormat.ConvertPixelFormat`, `Pixels`).

## Where the code does less than one might expect

Each of these has its exact condition, given for all inputs.

- The detectors emit a picture in front of a unit that opens the next one, also when the chunk holds less
  than five bytes; the next call for data then counts those bytes to a picture without a start. When
  a pass does so is `SbmFlow.StrandedExactly`, on the bytes `SbmFlow.StrandsStartCode` and `SbmFlow.StrandsLength`; what it does to the
  ring are `SbmSnap.StrandedView`, `SbmSnap.StrandedLosesStart` and
  `SbmFrame.SbmFrame.DropCurStream`. `SbmRuns.EndOfSequenceStrands` is a run from the empty manager to
  it. Behind start codes shorter chunks than those of four bytes are only given up.
- A length can pass the check although no unit of that size is there: an H.264 length from 2^31 on is a
  negative number, and with fewer than four bytes the unsigned check of H.265 wraps (`NalUnits.WildExactly`,
  `NalUnits.WildWhenLong`). The detector then counts off bytes that are not there
  (`SbmFlow.AstrayExactly`, `SbmFlow.CountsOffExactly`). All results about passes are for
  those that do not; `SbmFlow.SaneStep` and `SbmRuns.RegularPassesAreFine` say which chunks lead to no other.
- Whether an H.265 slice of less than three bytes at the end of a chunk is a first slice is read off a byte behind
  the chunk, which the feeder may write between two passes (`SbmUnits.MetTheSameExactly`). `SbmRoundTrip.ShortSliceIsMetTwice`
  is such a slice; units are kept all the same, and the grouping is stated for chunks that do not end so.
- Zero bytes before a start code stay on the unit before it: the units read are the units packed if and only if
  no zero byte stands between two units of a chunk (`SbmDrain.AllReceivedAsPacked`), and they
  are once trailing zero bytes are taken off (`SbmDrain.AllStripped`).
- A last unit that leaves less than five bytes to look at is not listed: `NalUnits.UnpackPack` holds if and only
  if a packed list does not end so.
- More units in a picture than the detectors accept are given up: a pass keeps all units if and only if the picture
  has room (`SbmUnits.StepKeepsUnitsExactly`).
- `FbmShareBuffer` does not look whether the renderer holds the frame, and a frame to be released that
  both clients hold is queued twice if the decoder returns it first: `FbmProofs.DisciplineIsExact`.
- `FbmShareBuffer` looks whether the frame is to be released before it takes the lock (vdecoder/fbm.c:705-711). If a
  release call comes in between, the frame is queued although it is to be released, and a later flush can put it
  into the empty queue with its old buffer. That is the only way a release is missed in a disciplined run:
  `FbmRelease.ReleasedExactlyOnce`, with a run in `FbmRelease.LateShareIsLeftBehind`.
- `nDecoderHoldingNum` is not counted down on the early release exit and `nWaitForDispNum` not by a
  flush. `FbmPool.Legal` states both counters with these histories in it.
- An empty chunk ends a picture early if the end of the stream is already announced, since the
  detectors take it for the end of the data. No unit is lost by that (`SbmRoundTrip.RunsKeepUnits`), and the
  grouping stays if and only if the next unit opens a picture (`SbmUnits.EndsEarlyExactly`), as
  every unit does for H.264 (`SbmDrain.AvcRoundTrip`).
- A first part submitted while bytes of an unopened frame are pending, or while the queue is full, lies
  behind the write address at which it is then added: `VideoFeeder.VideoFeeder.SubmitVideoStreamData`
  keeps the ring tidy if and only if the part does not strand bytes in this way;
  `VideoFeeder.OrphanStrandsFrame` is an example.
- The places of emulation bytes are noted in an array of 1024, without a check. A unit other than a slice overruns it
  if and only if it has 1024 of them or more (`Emulation.HeaderBuffer.ProcessData`); there are such units of every length from 3072
  bytes on (`Emulation.OverrunExactly`), and the escaped form of 2048 zero bytes is one (`Emulation.ZeroPayloadOverruns`).
- With scaled output the delay list holds back pictures however many wait: `DelaySteps.RunBounded` says when it
  stays bounded, and `DelaySteps.ScaledFillList` is a run that fills it, after which the program aborts.
- The turns move half the width and height rounded down, conversions half rounded up, so a turn
  reaches every chroma sample if and only if both sizes are even (`Pixels.TurnReachesChroma`), and there
  and back keeps every picture of a size if and only if it is even (`Pixels.TurnsCancelExactly`).
- The turn by 270 degrees never says where the interleaved chroma of its result lies (`pData1` at
  vdecoder/pixel_format.c:1123-1141). All pictures of a size come out turned if and only if the
  result said before that it starts where the luma ends, or there is no two-by-two block
  (`TurnedChroma.TurnedChromaExactly`).
- A delayed entry behind the head of its piece that owns no picture any more ends the list when a flush
  strikes it out; pictures behind it are returned without being displayed. Which are displayed, and in what order,
  is `DelayOrder.ShownOrder`; that is all of them in display order if and only if every such
  entry is a key frame (`DelayOrder.ShowsAllExactly`).
- With picture order counts of 2^31 - 1 the scan of the delay list may find no entry, and the program reads
  through NULL: `DelaySteps.UndecidedExactly`, `DelayedPictures.DelayedPictures.SortDisplayFrameOrder`.

## Model

| member | source | states |
|---|---|---|
| NalUnits.FirstStartCode | vdecoder/sbm/sbmFrameH265.c:355-402 | the first `00 00 01` with a byte behind it: none lies before it, and none exists if none is returned |
| NalUnits.CutBehindStartCode | vdecoder/sbm/sbmFrameH265.c:643-664 | on the bytes: a unit is cut off exactly from behind the first `00 00 01` that a byte follows to the next one, or to the end of the data; and none exactly if there is no such start code |
| NalUnits.BigEndianReadsBack | vdecoder/sbm/sbmFrameH265.c:717-724 | a length written in one to four bytes reads back, whatever follows it |
| NalUnits.CutBehindLength | vdecoder/sbm/sbmFrameH264.c:803-826 | on the bytes: behind a length of one to four bytes, most significant first, exactly that many bytes are cut off if they are there; four bytes from 2^31 on are negative in the H.264 detector |
| NalUnits.WildExactly | vdecoder/sbm/sbmFrameH264.c:803-826 | a length is let through without a unit of that size exactly if it is an H.264 length from 2^31 on that, as a negative number, passes the signed check, or an H.265 chunk is shorter than the length itself and the unsigned check wraps |
| NalUnits.WildWhenLong | vdecoder/sbm/sbmFrameH264.c:803-826 | with five bytes to look at, exactly for four-byte H.264 lengths from 2^31 on |
| NalUnits.SpillIsIdle | vdecoder/sbm/sbmFrameH265.c:556-585 | with five bytes to look at, what the ring holds behind the chunk plays no part |
| NalUnits.CutPacked | vdecoder/sbm/sbmFrameH264.c:576-741 | a packed unit in front of more packed data is cut off with the zero bytes of the next start code, and the rest is left over |
| NalUnits.UnpackPack | vdecoder/sbm/sbmFrameH265.c:679-799 | any packed list is cut up unit by unit without a byte left if and only if it does not end in a unit too short to be looked at; then its units come back in order, each with the zero bytes of the start code behind it |
| NalUnits.StrippedAsPacked | vdecoder/sbm/sbmFrameH265.c:643-664 | without trailing zero bytes the units cut off are the units packed |
| NalUnits.ReceivedAsPacked | vdecoder/sbm/sbmFrameH265.c:643-664 | with them they are exactly if no zero byte stands before a start code between two units |
| Ring.LinSplit | vdecoder/sbm/sbmFrameBase.c:845-872 | a stretch of the ring followed by the next stretch reads as one, also across the turn |
| Ring.WriteAgrees | vdecoder/sbm/sbmFrameBase.c:747-789 | a write behind the first n cells of a stretch leaves them as they were |
| CursorFifo.CursorFifo.constructor | vdecoder/sbm/sbmFrameBase.c:263-300 | an empty queue of the given size |
| CursorFifo.CursorFifo.Put | vdecoder/sbm/sbmFrameBase.c:1217-1244 | filling the slot at the write position changes no published entry |
| CursorFifo.CursorFifo.Publish | vdecoder/sbm/sbmFrameBase.c:1246-1285 | the slot at the write position becomes the newest entry; the number handed out stays |
| CursorFifo.CursorFifo.Request | vdecoder/sbm/sbmFrameBase.c:1045-1090 | hands out the oldest entry not handed out, exactly when there is one |
| CursorFifo.CursorFifo.Return | vdecoder/sbm/sbmFrameBase.c:1109-1148 | takes the last one handed out back and so undoes the request |
| CursorFifo.CursorFifo.Flush | vdecoder/sbm/sbmFrameBase.c:1167-1214 | frees the oldest entry; the others keep their order |
| CursorFifo.CursorFifo.Reset | vdecoder/sbm/sbmFrameBase.c:555-573 | empty, with every cursor and count at zero |
| SbmFlow.FirstKnown | vdecoder/sbm/sbmFrameH265.c:315-328 | the first time stamp in the list that is known, or -1 if none is |
| SbmFlow.Step | vdecoder/sbm/sbmFrameH265.c:556-668 | a pass that goes on has consumed a chunk or bytes of one, so every call of a detector ends |
| SbmFlow.AstrayExactly | vdecoder/sbm/sbmFrameH264.c:803-826 | a pass counts off a length that is not there exactly if it is to store a unit whose length was let through without being there |
| SbmFlow.CountsOffExactly | vdecoder/sbm/sbmFrameH264.c:803-912 | what the record holds after counting off a length can be left, and can be a unit, exactly if the pass has not gone astray |
| SbmFlow.StrandedExactly | vdecoder/sbm/sbmFrameH265.c:556-641 | a pass leaves less than five bytes of a chunk to no picture exactly if it emits the picture in front of an opening unit in a chunk of less than five bytes |
| SbmFlow.StrandsStartCode | vdecoder/sbm/sbmFrameH265.c:603-641 | behind start codes that chunk is `00 00 01 x`, with x of an opening type or, for H.265 slices, the second byte behind the chunk from 128 on |
| SbmFlow.StrandsLength | vdecoder/sbm/sbmFrameH264.c:803-862 | behind a length of n bytes an H.264 chunk does it exactly if it is shorter than five bytes and the length passes the signed check: the length of a unit that is there, or one from 2^31 on that is no more, as a negative number, than what is left; an H.265 chunk exactly if the length passes the check, which may wrap, and the type read behind it opens a picture |
| SbmFlow.StoreSteps | vdecoder/sbm/sbmFrameH265.c:649-664 | storing a unit is to skip its framing, list it, and skip it |
| SbmFlow.EmitBytes | vdecoder/sbm/sbmFrameBase.c:1246-1285 | publishing a picture moves no byte |
| SbmFlow.SupplyBytes | vdecoder/sbm/sbmFrameH265.c:404-445 | freeing a chunk descriptor and opening the next loses no byte |
| SbmFlow.DisposeBytes | vdecoder/sbm/sbmFrameH265.c:447-488 | giving up invalid data loses no byte |
| SbmFlow.StepConservesBytes | vdecoder/sbm/sbmFrameH265.c:537-668 | after any pass that does not go astray pictures, picture being built, chunk and waiting chunks spell the same bytes in the same order |
| SbmFlow.StepKeepsInvariant | vdecoder/sbm/sbmFrameH265.c:603-641 | every such pass keeps every picture well-formed: units inside it, apart and in order, and behind a first slice no unit of a later access unit, also after invalid data |
| SbmFlow.DetectKeeps | vdecoder/sbm/sbmFrameH265.c:801-813 | the same two facts for a whole call of a detector |
| SbmFlow.StartCodesAreSane | vdecoder/sbm/sbmFrameH265.c:643-664 | behind start codes all lengths are there |
| SbmFlow.SaneWhenLong | vdecoder/sbm/sbmFrameH265.c:717-727 | and so they are behind H.265 lengths and short H.264 lengths in chunks of five bytes |
| SbmFlow.SaneStep | vdecoder/sbm/sbmFrameH264.c:803-912 | while the lengths in the chunks are there, no pass goes astray |
| SbmUnits.ItemsArePlain | vdecoder/sbm/sbmFrameH265.c:603-641 | units that hold their header say by themselves whether they open a picture |
| SbmUnits.MetTheSameExactly | vdecoder/sbm/sbmFrameH265.c:603-641 | the bytes the ring holds behind a chunk have no say in the units met in it exactly if its last unit holds its own header: only an H.265 slice of less than three bytes does not |
| SbmUnits.WriteWaits | vdecoder/sbm/sbmFrameBase.c:747-789 | whatever the feeder writes behind chunks, the units that wait stay the same, and are met as before if every chunk ends in a unit that holds its header |
| SbmUnits.StepKeepsSaid | vdecoder/sbm/sbmFrameH265.c:556-799 | a pass keeps it so |
| SbmUnits.StepMoves | vdecoder/sbm/sbmFrameH265.c:556-799 | one pass stores the first unit that waits, or ends the picture in front of it if it opens the next one, or ends it because the stream has ended; it does nothing else to the units |
| SbmUnits.HevcEndsExactly | vdecoder/sbm/sbmFrameH265.c:603-641 | behind a first slice an H.265 pass that meets a unit of at least three bytes ends the picture in front of it exactly if the six type bits of its first byte say 32, 33, 34, 35 or 39, or at most 21 with the top bit of the third byte set; every other unit it stores, with that type and size |
| SbmUnits.HevcStoresExactly | vdecoder/sbm/sbmFrameH265.c:603-641 | before the first slice it stores every unit, and the first slice is found exactly with a type of at most 21 and that bit |
| SbmUnits.AvcEndsExactly | vdecoder/sbm/sbmFrameH264.c:656-672 | an H.264 pass stores the first unit, with the low five bits of its first byte as type, and ends the picture in front of the next |
| SbmUnits.EndOfDataExactly | vdecoder/sbm/sbmFrameH265.c:556-583 | with nothing to look at a picture is complete exactly if it has its first slice and the stream has ended |
| SbmUnits.GivesUpExactly | vdecoder/sbm/sbmFrameH265.c:447-488 | without a unit, or with more than 1024 stored, the chunk is counted to the picture, which is given up and marked invalid exactly if nothing but that chunk is in it or it is longer than 1048576 bytes |
| SbmUnits.PassStamps | vdecoder/sbm/sbmFrameH265.c:315-328 | over the passes that build a picture: the time stamp it is finished with is the first known one among those of the chunks in which its first ten units lay |
| SbmUnits.PicturesByBytes | vdecoder/sbm/sbmFrameH265.c:603-641 | a well-formed H.265 picture lists its units with the types in their bytes, and behind a first slice none whose bytes open a picture |
| SbmUnits.GroupsAreCut | vdecoder/sbm/sbmFrameH265.c:603-641 | H.265 units of at least three bytes are grouped by cutting in front of each whose bytes open a picture behind a first slice, and nowhere else |
| SbmUnits.StepKeepsUnitsExactly | vdecoder/sbm/sbmFrameH265.c:585-600 | a pass keeps the units stored followed by the units waiting exactly if the picture is within its limit of units or nothing is looked at |
| SbmUnits.EndsEarlyExactly | vdecoder/sbm/sbmFrameH265.c:556-583 | an empty chunk taken for the end of the stream keeps the grouping of the units behind it exactly if the next of them opens a picture |
| SbmUnits.FeedAllAddsUnits | vdecoder/sbm/sbmFrameH265.c:603-641 | however units are grouped, they stay the same units in the same order |
| SbmUnits.AllFirstAreSingled | vdecoder/sbm/sbmFrameH264.c:656-672 | if every unit opens a picture, as the H.264 detector has it, each makes a picture of its own |
| SbmUnits.AvcHasRoom | vdecoder/sbm/sbmFrameH264.c:656-672 | in the H.264 detector no picture gets too many units |
| SbmRoundTrip.CleanPassIsFine | vdecoder/sbm/sbmFrameH265.c:556-668 | over chunks cut at unit boundaries no pass goes astray or strands bytes |
| SbmRoundTrip.RunsKeepUnits | vdecoder/sbm/sbmFrameBase.c:747-1285 | over any interleaving of writes behind chunks, submissions, passes and flushes, wherever the end of the stream is announced, the units flushed, stored and waiting are the units submitted, in order |
| SbmRoundTrip.RunsGroupUnits | vdecoder/sbm/sbmFrameH265.c:603-641 | over any such run the pictures hold those units in the groups to expect, as long as no write turns a unit that waits into a first slice or back, and no empty chunk is taken for the end of the stream in the middle of a picture |
| SbmRoundTrip.ExpectFed | vdecoder/sbm/sbmFrameH265.c:603-641 | before the end of the stream is announced, and if every chunk ends in a unit that holds its header, those are the units submitted, cut before each opening unit behind a first slice, whatever is written behind the chunks |
| SbmRoundTrip.ShortSliceIsMetTwice | vdecoder/sbm/sbmFrameH265.c:603-641 | an H.265 slice of two bytes at the end of a chunk: a first slice in one pass, by the byte behind it, and none in the next; then the pictures group the units as no byte behind the chunk would |
| SbmRoundTrip.FittingRunIsFair | vdecoder/sbm/sbmFrameH265.c:585-600 | if the groups of the units submitted are within the limit, no run meets a full picture |
| SbmDrain.StepProgress | vdecoder/sbm/sbmFrameH265.c:404-445 | a pass leaves less to do, or there was nothing to do and it changes nothing |
| SbmDrain.DetectProgress | vdecoder/sbm/sbmFrameH265.c:801-813 | with a free picture slot at the end of the stream a call leaves less to do |
| SbmDrain.DrainReturnsAll | vdecoder/sbm/sbmFrameH265.c:801-813 | calling the detector until nothing is left hands over all units, in well-formed pictures grouped as expected; only a tail without a first slice stays behind |
| SbmDrain.RoundTrip | vdecoder/sbm/sbmFrameH265.c:537-799 | unit lists packed one list to a chunk, each ending in a unit that holds its header, and submitted in any interleaving with detector, decoder and writes behind the chunks come out of the pictures in order and in their groups, for both framings |
| SbmDrain.RoundTripIsCut | vdecoder/sbm/sbmFrameH265.c:537-799 | the pictures of a round trip of H.265 units of at least three bytes hold the units cut where their header bytes say, and nowhere else |
| SbmDrain.AvcRoundTrip | vdecoder/sbm/sbmFrameH264.c:576-912 | for H.264 each unit comes out as a picture of its own and nothing stays behind, wherever the end of the stream is announced and whatever is written behind the chunks |
| SbmDrain.AllStripped | vdecoder/sbm/sbmFrameH265.c:643-664 | the units received, without trailing zero bytes, are the units packed |
| SbmDrain.AllReceivedAsPacked | vdecoder/sbm/sbmFrameH265.c:643-664 | with them, exactly if no zero byte stands between two units of a chunk |
| SbmRuns.ApplyKeeps | vdecoder/sbm/sbmFrameBase.c:747-1285 | each step of feeder, detector and decoder, a write behind chunks among them, keeps the account of bytes and the shape of the pictures |
| SbmRuns.FillIsAWrite | vdecoder/sbm/sbmFrameBase.c:747-789 | filling granted room, as SbmFrame.Fill changes the pipeline, is a step of such runs |
| SbmRuns.RunsAreAccounted | vdecoder/sbm/sbmFrameBase.c:747-1285 | over any interleaving of passes that are fine the flushed pictures are well-formed and spell a prefix of what was submitted |
| SbmRuns.PassIsFineExactly | vdecoder/sbm/sbmFrameH265.c:556-799 | a pass neither goes astray nor strands bytes exactly if the unit it finds does not open a picture in a chunk of less than five bytes, and its length is there if it is to be stored |
| SbmRuns.RegularPassesAreFine | vdecoder/sbm/sbmFrameH265.c:556-799 | while chunks are empty or hold five bytes, with lengths that are there, every pass is fine |
| SbmRuns.WriteKeepsRegular | vdecoder/sbm/sbmFrameBase.c:747-789 | no write behind chunks makes a pass over them go astray |
| SbmRuns.EndOfSequenceStrands | vdecoder/sbm/sbmFrameH264.c:576-672 | a run from the empty manager to a pass that strands bytes: an H.264 delimiter, then an end-of-sequence unit alone in a chunk |
| SbmSnap.DropView | vdecoder/sbm/sbmFrameH265.c:408-421 | freeing a chunk descriptor keeps the tiling exactly if the picture its bytes are counted to has begun, or nothing of the chunk is left |
| SbmSnap.OpenView | vdecoder/sbm/sbmFrameH265.c:422-445 | opening a chunk keeps the tiling |
| SbmSnap.SkipView | vdecoder/sbm/sbmFrameH265.c:490-504 | moving the data pointer on, around the turn, moves the border between picture and chunk |
| SbmSnap.StoreNaluView | vdecoder/sbm/sbmFrameH265.c:506-525 | a listed unit starts where the data pointer is, counted from the start of its picture |
| SbmSnap.EmitView | vdecoder/sbm/sbmFrameBase.c:1246-1285 | publishing a picture keeps pictures consecutive stretches of the ring; the detector can go on exactly if five bytes of the chunk are left |
| SbmSnap.DiscardView | vdecoder/sbm/sbmFrameH265.c:447-488 | so does giving up invalid data |
| SbmSnap.SubmitView | vdecoder/sbm/sbmFrameBase.c:845-872 | a chunk written at the write address joins the end of the tiling |
| SbmSnap.SubmitExactly | vdecoder/sbm/sbmFrameBase.c:808-878 | a chunk joins the tiling exactly if it starts at the write address and leaves 64 bytes clear |
| SbmSnap.FlushPicView | vdecoder/sbm/sbmFrameBase.c:966-1016 | flushing the oldest picture takes its stretch off the front |
| SbmSnap.WriteKeepsData | vdecoder/sbm/sbmFrameBase.c:747-789 | a write beyond the valid data changes no picture and no chunk, although chunk descriptors may have been freed before |
| SbmSnap.LiveBytes | vdecoder/sbm/sbmFrameBase.c:845-872 | the valid bytes of the ring are the bytes of pictures, picture being built and chunks, once and in order |
| SbmSnap.DescriptorsReadBack | vdecoder/sbm/sbmFrameH265.c:506-525 | reading the ring at a picture's address, or at one of its units', gives the bytes of the pipeline; time stamp and validity are those of the descriptor |
| SbmSnap.StrandedView | vdecoder/sbm/sbmFrameH265.c:404-421 | the detector can go on from a state of the ring exactly if the pipeline it stands for has nothing stranded |
| SbmSnap.StrandedLosesStart | vdecoder/sbm/sbmFrameH265.c:404-421 | once bytes are stranded the next call for data breaks the tiling |
| SbmFrame.SbmFrame.constructor | vdecoder/sbm/sbmFrameBase.c:148-419 | an empty pipeline over a ring of the given size |
| SbmFrame.SbmFrame.RequestBuffer | vdecoder/sbm/sbmFrameBase.c:747-789 | room is granted exactly when fewer than 2048 chunks wait and 64 bytes stay clear; no granted cell is a valid byte |
| SbmFrame.SbmFrame.Fill | vdecoder/sbm/sbmFrameBase.c:747-789 | bytes written into granted room change no picture and no chunk, but only what the ring holds behind chunks |
| SbmFrame.SbmFrame.AddStream | vdecoder/sbm/sbmFrameBase.c:808-878 | accepted exactly when fewer than 2048 chunks wait and the chunk fits; the ring stays tiled, and the chunk joins the pipeline with the bytes that lie there and its time stamp, exactly if it starts at the write address and leaves 64 bytes clear |
| SbmFrame.SbmFrame.RequestFramePic | vdecoder/sbm/sbmFrameBase.c:881-920 | hands out the oldest picture not handed out |
| SbmFrame.SbmFrame.ReturnFramePic | vdecoder/sbm/sbmFrameBase.c:923-963 | undoes the last request |
| SbmFrame.SbmFrame.FlushFramePic | vdecoder/sbm/sbmFrameBase.c:966-1016 | frees the oldest picture and gives back exactly its bytes |
| SbmFrame.SbmFrame.SetEos | vdecoder/sbm/sbmFrameBase.c:1018-1029 | marks the end of the stream and nothing else |
| SbmFrame.SbmFrame.Reset | vdecoder/sbm/sbmFrameBase.c:1566-1618 | the empty pipeline, all cursors, counts and the write address at zero |
| SbmFrame.SbmFrame.ReadByteIdx | vdecoder/sbm/sbmFrameH265.c:65-77 | the byte i cells on, around the turn |
| SbmFrame.SbmFrame.PtrPlusOne | vdecoder/sbm/sbmFrameH265.c:79-85 | the next cell, around the turn |
| SbmFrame.SbmFrame.DropCurStream | vdecoder/sbm/sbmFrameH265.c:408-421 | what is left of the chunk counts to the picture, its descriptor is freed, its bytes are not; they keep their place exactly if the picture has begun or there are none |
| SbmFrame.SbmFrame.OpenNextStream | vdecoder/sbm/sbmFrameH265.c:422-445 | opens the next chunk, or throws an empty one away |
| SbmFrame.SbmFrame.SupplyStreamData | vdecoder/sbm/sbmFrameH265.c:404-445 | the two together are the pipeline's supply |
| SbmFrame.SbmFrame.ClaimFramePic | vdecoder/sbm/sbmFrameBase.c:1217-1244 | a cleared picture is taken up exactly when one is free |
| SbmFrame.SbmFrame.SkipCurStreamDataBytes | vdecoder/sbm/sbmFrameH265.c:490-504 | n bytes pass from the chunk to the picture |
| SbmFrame.SbmFrame.StoreNaluInfo | vdecoder/sbm/sbmFrameH265.c:506-525 | the unit at the data pointer is listed with its type, place and size, and its time stamp among the first ten |
| SbmFrame.SbmFrame.ChooseFramePts | vdecoder/sbm/sbmFrameH265.c:315-328 | the first known time stamp of the list |
| SbmFrame.SbmFrame.EmitFramePic | vdecoder/sbm/sbmFrameH265.c:563-573 | the picture is published with that time stamp; the detector can go on exactly if five bytes of the chunk are left |
| SbmFrame.SbmFrame.JudgeInvalidData | vdecoder/sbm/sbmFrameH265.c:447-488 | whether the picture is given up, and what it becomes |
| SbmFrame.SbmFrame.DisposeInvalidStreamData | vdecoder/sbm/sbmFrameH265.c:447-488 | the pipeline's disposal of invalid data |
| SbmFrame.SbmFrame.SearchRing | vdecoder/sbm/sbmFrameH265.c:364-382 | finds the first start code of the straightened bytes |
| SbmFrame.SbmFrame.SearchFlat | vdecoder/sbm/sbmFrameH265.c:383-402 | so does the search that does not wrap |
| SbmFrame.SbmFrame.SearchStartCode | vdecoder/sbm/sbmFrameH265.c:355-402 | either way the first start code of what is left of the chunk |
| SbmFrame.SbmFrame.PeekByte | vdecoder/sbm/sbmFrameH265.c:604-606 | byte i from the data pointer, or of the bytes behind the chunk |
| SbmFrame.SbmFrame.JudgeUnit | vdecoder/sbm/sbmFrameH265.c:603-641 | the picture is emitted exactly when it has its first slice and the unit opens another; which bytes open one is SbmUnits.HevcEndsExactly and SbmUnits.AvcEndsExactly |
| SbmFrame.SbmFrame.StoreUnit | vdecoder/sbm/sbmFrameH265.c:785-796 | the unit and its framing pass to the picture and the unit is listed |
| SbmFrame.SbmFrame.StoreUnitToNextStartCode | vdecoder/sbm/sbmFrameH265.c:643-664 | the unit ends at the next start code or at the end of the chunk |
| SbmFrame.SbmFrame.LookWithStartCode | vdecoder/sbm/sbmFrameH265.c:585-664 | one pass behind start codes is the pipeline's look |
| SbmFrame.SbmFrame.ReadNaluSize | vdecoder/sbm/sbmFrameH264.c:803-809 | the length in front of the data, in the configured number of bytes; a signed word in the H.264 detector |
| SbmFrame.SbmFrame.LookWithoutStartCode | vdecoder/sbm/sbmFrameH265.c:717-796 | one pass behind length prefixes is the pipeline's look, with the unsigned check of H.265 and the signed one of H.264; it is lost exactly when the pipeline goes astray |
| SbmFrame.SbmFrame.PassOnce | vdecoder/sbm/sbmFrameH265.c:556-668 | one pass of a detector on ring and cursors is one step of the pipeline; the detector can go on after it exactly if nothing is stranded |
| SbmFrame.SbmFrame.DetectOneFramePic | vdecoder/sbm/sbmFrameH265.c:801-813 | a call of a detector on ring and cursors is a call on the pipeline, for both codecs and framings; its passes decide on the bytes as SbmUnits.HevcEndsExactly, AvcEndsExactly, EndOfDataExactly and GivesUpExactly say |
| NodeList.LinkedUnique | vdecoder/fbm.c:57-107 | the links from a head determine the list: it is acyclic and free of duplicates |
| NodeList.Enqueue | vdecoder/fbm.c:57-79 | the node hangs behind the last one, and no other node changes |
| NodeList.Dequeue | vdecoder/fbm.c:93-107 | the first node comes off, and no other node changes |
| FbmProofs.CreateLegal | vdecoder/fbm.c:109-349 | a new pool is legal |
| FbmProofs.ApplyLegal | vdecoder/fbm.c:443-1843 | every disciplined call by either client, also during a release, keeps the pool legal: seven flag states, queues that are what the flags say, exact counts |
| FbmProofs.DisciplineIsExact | vdecoder/fbm.c:659-736 | a call keeps the pool legal if and only if it is disciplined |
| FbmProofs.RunLegal | vdecoder/fbm.c:443-1843 | so every disciplined run stays legal |
| FbmProofs.ChecksNeverFire | vdecoder/fbm.c:472-492 | the status checks that only log an error cannot fail |
| FbmProofs.FlushLegal | vdecoder/fbm.c:958-1017 | a flush leaves nothing waiting and forgets nothing shown |
| FbmProofs.ShownGrows | vdecoder/fbm.c:738-801 | the renderer gets pictures in the order they were queued, none twice, between flushes |
| FbmProofs.ReturnBufferExactly | vdecoder/fbm.c:520-657 | where a frame goes that the decoder returns: with the release to come, last into the release queue; queued or with the renderer, nowhere; otherwise, if the flag says valid and it has not been displayed, last into the valid queue, and if not, last into the empty queue; no other frame changes |
| FbmProofs.ReturnPictureExactly | vdecoder/fbm.c:803-921 | where a frame goes that the renderer returns: it is marked displayed if the decoder holds it, else it joins the release queue or the empty queue |
| FbmProofs.FlushExactly | vdecoder/fbm.c:958-1017 | after a flush no picture waits; those of them that nobody uses have joined the empty queue in their order, and those that the decoder holds count as displayed |
| FbmProofs.FlushCounts | vdecoder/fbm.c:958-1017 | it leaves the count of pictures waiting for display as it was, although none waits |
| FbmProofs.RunShows | vdecoder/fbm.c:520-801 | over any run without a flush the renderer is handed, in that order, exactly the frames that waited, those the decoder shares, and those it returns as valid without having shown them; what it has not been handed yet waits |
| FbmProofs.RunShowsOnce | vdecoder/fbm.c:443-1017 | over any run, flushes included, the renderer gets a frame at most once each time the decoder has got it |
| FbmProofs.QueuesAreServedInOrder | vdecoder/fbm.c:57-107 | empty and release queue are left at the front only and joined at the end; a draining moves the empty queue as it is |
| FbmProofs.ReturnReleaseExactly | vdecoder/fbm.c:1778-1843 | the first slot that is to be released and tagged 0xee takes the new buffer and its own number, and is empty; without one nothing happens |
| FbmProofs.AllReclaimed | vdecoder/fbm.c:803-921 | when the clients hold nothing and nothing waits, every frame is in the empty queue, or in its release, or empty after a share behind its marking |
| FbmRelease.StepAdvances | vdecoder/fbm.c:1711-1843 | between two markings each call takes a frame at most one stage on in its release, and the stages are passed by what a client sees: it enters the queue, is given away, takes a new buffer |
| FbmRelease.RunCounts | vdecoder/fbm.c:1711-1843 | over any run each of the three happens once or not at all, as the stages before and after say |
| FbmRelease.ReleasedExactlyOnce | vdecoder/fbm.c:1711-1843 | from the marking on, until all is settled, each frame enters the release queue, is given away and takes a new buffer exactly once, if and only if it is not left behind: tested for a share before the marking, queued by that share after it, taken back by a flush behind the draining, and not requested by the decoder again; then none of the three happens |
| FbmRelease.StepStrays | vdecoder/fbm.c:958-1017 | a step leaves a frame that is to be released in the empty queue for good exactly if it is a flush that takes it back, or it was there and does not go to the decoder |
| FbmRelease.LateShareIsLeftBehind | vdecoder/fbm.c:705-728 | a run from a new pool in which that happens: test of a share, whole release call, locked part of the share, return, flush |
| FbmRelease.ReleaseAllStarts | vdecoder/fbm.c:1711-1743 | after the release call every bound frame is to be released, and is queued or given away exactly if nobody uses it |
| Fbm.Fbm.constructor | vdecoder/fbm.c:109-349 | the new pool, with its links |
| Fbm.Fbm.RequestBuffer | vdecoder/fbm.c:443-518 | an empty frame goes to the decoder exactly when there is one |
| Fbm.Fbm.ReturnBuffer | vdecoder/fbm.c:520-657 | the pool operation, branch by branch, with the early release exit; where the frame goes is FbmProofs.ReturnBufferExactly |
| Fbm.Fbm.ShareTest | vdecoder/fbm.c:684-709 | what is tested before the lock is taken: the frame is this one and is not to be released |
| Fbm.Fbm.ShareLocked | vdecoder/fbm.c:711-736 | what is done under the lock, whatever has happened since the test: the frame is queued for display while the decoder keeps it |
| Fbm.Fbm.ShareBuffer | vdecoder/fbm.c:659-736 | the two with no other client between them |
| Fbm.Fbm.RequestPicture | vdecoder/fbm.c:738-801 | the oldest queued picture goes to the renderer exactly when there is one |
| Fbm.Fbm.ReturnPicture | vdecoder/fbm.c:803-921 | accepted exactly for a frame the renderer holds |
| Fbm.Fbm.Flush | vdecoder/fbm.c:958-1017 | the loop over the valid queue is the pool's flush; what it leaves is FbmProofs.FlushExactly |
| Fbm.Fbm.SetFbmBufAddress | vdecoder/fbm.c:1610-1668 | a buffer from outside is bound to the next slot |
| Fbm.Fbm.MarkForRelease | vdecoder/fbm.c:1726-1738 | every frame with an outside buffer is marked |
| Fbm.Fbm.NewDispRelease | vdecoder/fbm.c:1670-1709 | every empty frame moves to the release queue |
| Fbm.Fbm.SetNewDispRelease | vdecoder/fbm.c:1711-1743 | the pool is drained after flushing after marking; nothing waits for display and nothing is empty |
| Fbm.Fbm.RequestReleasePicture | vdecoder/fbm.c:1745-1776 | the oldest frame to be released is given away and tagged |
| Fbm.Fbm.ReturnReleasePicture | vdecoder/fbm.c:1778-1843 | the first tagged slot takes the new buffer; which, and what it then holds, is FbmProofs.ReturnReleaseExactly |
| MessageQueue.SomeNodeIsFree | base/CdcMessageQueue.c:140-149 | fewer queued nodes than nodes: one is free |
| MessageQueue.MessageQueue.constructor | base/CdcMessageQueue.c:43-93 | an empty queue without signals |
| MessageQueue.MessageQueue.PostLocked | base/CdcMessageQueue.c:121-167 | the message joins the end exactly when the queue is below its maximum |
| MessageQueue.MessageQueue.FindFree | base/CdcMessageQueue.c:140-149 | finds the first node that holds no message; there always is one |
| MessageQueue.MessageQueue.Post | base/CdcMessageQueue.c:121-173 | a whole post: as many signals are added as messages |
| MessageQueue.MessageQueue.GetLocked | base/CdcMessageQueue.c:191-223 | the oldest message, exactly when there is one |
| MessageQueue.MessageQueue.TryGet | base/CdcMessageQueue.c:191-223 | a whole get: the oldest message exactly if there is one and a signal; a signal is spent either way |
| MessageQueue.MessageQueue.Flush | base/CdcMessageQueue.c:225-256 | no message and no signal is left |
| QueueProtocol.RunsStaySignalled | base/CdcMessageQueue.c:121-256 | over any interleaving the queued messages are at most the signals available, on their way, or held; messages leave in the order of posting |
| QueueProtocol.NoLostWakeup | base/CdcMessageQueue.c:121-256 | with nothing in flight a non-empty queue never blocks a getter, which gets the oldest message |
| QueueProtocol.SignalsAreMessages | base/CdcMessageQueue.c:121-223 | until the queue is flushed there are exactly as many signals, available, on their way or held, as messages, so every getter finds one |
| SbmWorker.StepKeeps | vdecoder/sbm/sbmFrameBase.c:549-573 | each step of worker and resetting client keeps the protocol's account of READ and RESET |
| SbmWorker.RunsKeep | vdecoder/sbm/sbmFrameBase.c:1527-1635 | so does every run |
| SbmWorker.WorkerNeverStarves | vdecoder/sbm/sbmFrameBase.c:1527-1635 | until QUIT a READ is queued or handled or a reset is in progress; at most three other messages are queued and no post is lost; the reset answer comes after the clearing |
| SbmWorker.OneRead | vdecoder/sbm/sbmFrameBase.c:1527-1635 | while nobody resets or quits there is one READ, queued or being handled, and nothing else |
| Emulation.StripInvertsEscape | vdecoder/videoengine/h264/h264.c:1176-1216 | taking out each 03 behind two zeros inverts the escaping of section 7.4.1 of H.264, for every payload |
| Emulation.StripPrefix | vdecoder/videoengine/h264/h264.c:1145-1152 | a cut-off stream strips to a prefix of the payload |
| Emulation.StripLength | vdecoder/videoengine/h264/h264.c:1203-1216 | the stripped stream is shorter by the number of emulation bytes |
| Emulation.StripNextMark | vdecoder/videoengine/h264/h264.c:1207-1214 | from one marked byte to the next exactly the mark goes |
| Emulation.MarkStep | vdecoder/videoengine/h264/h264.c:1179-1189 | the 32-bit window reads 00 00 03 exactly at an emulation byte |
| Emulation.HeaderBuffer.constructor | vdecoder/videoengine/h264/h264.c:300-308 | a buffer of 1024 bytes |
| Emulation.HeaderBuffer.Load | vdecoder/videoengine/h264/h264.c:1166-1175 | the bytes are those of the ring from the read pointer on, around the turn |
| Emulation.EmulationsAreApart | vdecoder/videoengine/h264/h264.c:1179-1189 | each emulation byte takes three bytes of the unit |
| Emulation.OverrunExactly | vdecoder/videoengine/h264/h264.c:1179-1203 | units with too many of them are there for every length from 3072 bytes on, and for no other |
| Emulation.ZeroPayloadOverruns | vdecoder/videoengine/h264/h264.c:1179-1203 | a payload of 2048 zero bytes is escaped to one |
| Emulation.HeaderBuffer.FindEmulations | vdecoder/videoengine/h264/h264.c:1177-1190 | the marks are exactly the emulation bytes, ascending, and their number; the array overruns exactly if there are more than 1024 |
| Emulation.HeaderBuffer.CopyDown | vdecoder/videoengine/h264/h264.c:1210-1211 | an ascending copy onto an overlapping place moves the bytes unchanged |
| Emulation.HeaderBuffer.Compact | vdecoder/videoengine/h264/h264.c:1203-1216 | the segment copies leave the stripped stream as a prefix of the buffer; noting the end of the unit overruns the array exactly if it is full |
| Emulation.HeaderBuffer.ProcessData | vdecoder/videoengine/h264/h264.c:1117-1232 | an escaped payload in the ring ends up unescaped in the header buffer: all of it, unless the unit is a slice (type 1, 5, 14 or 20) of more than 1024 bytes, of which 1024 are kept and at least the first 683 payload bytes come out; the marks are the third bytes of 00 00 03; the array of places overruns exactly with 1024 emulation bytes or more, and never for a slice |
| DelayOrder.FirstIsFirst | vdecoder/videoengine/h264/h264.c:355-369 | the scan's strict comparison picks the first entry of least order count |
| DelayOrder.SortIsStable | vdecoder/videoengine/h264/h264.c:342-418 | the declared order sorts by picture order count and keeps equal entries in order |
| DelayOrder.SortTakesFirst | vdecoder/videoengine/h264/h264.c:355-378 | taking the first least entry each time is that stable sort |
| DelayOrder.DisplayPlaces | vdecoder/videoengine/h264/h264.c:342-418 | the display order on the fields: of two entries waiting, the one that joined first is displayed first if a key frame joined behind it, up to the other one, or if its picture order count is not greater; otherwise the other one is |
| DelayOrder.FlushIsShownOrder | vdecoder/videoengine/h264/h264.c:342-418 | what the rounds of a flush take out: pieces between key frames in list order, each stably sorted, up to the first piece with an entry behind its head that owns no picture; of that piece only what stands before the gap, and one entry from behind it if that is the earliest |
| DelayOrder.ShowsAllExactly | vdecoder/videoengine/h264/h264.c:355-369 | all waiting entries are taken out, in display order, exactly if every entry behind the head that owns no picture is a key frame |
| DelayOrder.FlushTakesOnce | vdecoder/videoengine/h264/h264.c:342-418 | no entry is taken out twice |
| DelayOrder.FlushTakesAll | vdecoder/videoengine/h264/h264.c:342-418 | each is taken out once exactly under the same condition |
| DelaySteps.ChosenIsEarliest | vdecoder/videoengine/h264/h264_dec.c:1519-1542 | the entry chosen is no later than any entry before the first restart of the order count |
| DelaySteps.ChosenMovesOn | vdecoder/videoengine/h264/h264_dec.c:1527-1556 | an entry behind what was shown last is chosen only at the head of the list, or as a negative count beside zero |
| DelaySteps.UndecidedExactly | vdecoder/videoengine/h264/h264_dec.c:1406-1542 | nothing is found exactly if every entry before the first restart has the order count 2^31 - 1 |
| DelaySteps.ChosenExactly | vdecoder/videoengine/h264/h264_dec.c:1519-1556 | which entry is chosen, on the fields: the first of least order count before the first restart; but if that is zero behind a picture shown and a negative one waits, the first of least count of all |
| DelaySteps.CrashesExactly | vdecoder/videoengine/h264/h264_dec.c:1544-1556 | the program reads through NULL exactly if it has shown a picture and every entry before the first restart has the order count 2^31 - 1 |
| DelaySteps.JoinExactly | vdecoder/videoengine/h264/h264_dec.c:1544-1592 | when the chosen entry is shown, on list, counts and order counts: with nothing shown before; or if it is the next expected, save for the second picture of a stream; or else if its count is zero, or an entry is no reference, or it is at most 32 ahead, without scaled frame, and at least as many waited as there are references; and what the list remembers in each case |
| DelaySteps.JoinTakesOne | vdecoder/videoengine/h264/h264_dec.c:1485-1680 | each call takes out none or exactly one entry; nothing else leaves the list |
| DelaySteps.EventConserves | vdecoder/videoengine/h264/h264_dec.c:1485-1680 | a call loses a picture exactly if it is a flush that meets a gap |
| DelaySteps.RunConserves | vdecoder/videoengine/h264/h264_dec.c:1485-1680 | over any run of pictures and flushes no picture leaves twice, and each has left once or still waits if and only if no flush meets a gap |
| DelaySteps.FlushedRunShowsAll | vdecoder/videoengine/h264/h264.c:342-446 | a run that ends in a flush shows exactly the pictures decoded if and only if no flush meets a gap |
| DelaySteps.RunBounded | vdecoder/videoengine/h264/h264_dec.c:1485-1680 | over any run the list stays within a bound, no less than the number of references, if and only if no call stalls when the list has reached it: finds nothing, or finds only references and a scaled one or one out of range to show, or holds back the second picture of a stream |
| DelaySteps.ScaledFillList | vdecoder/videoengine/h264/h264_dec.c:1566-1578 | a run with scaled output and one reference that shows its first picture and holds the next 31; the program aborts on the one after |
| DelayHandover.ShowConserves | vdecoder/videoengine/h264/h264_dec.c:1594-1658 | showing a picture gives back exactly the frames its record lets go of; a reference stays owned |
| DelayHandover.ShowDisplays | vdecoder/videoengine/h264/h264_dec.c:1594-1658 | which frames of a picture are displayed: the scaled one with scaled output, else its own, by a share if it stays as reference; none if it is in error, unless error pictures are displayed or the stream is 3D; a frame that is no reference goes back either way |
| DelayHandover.HandOneConserves | vdecoder/videoengine/h264/h264.c:390-413 | so does handing it over in a flush |
| DelayHandover.DropAllConserves | vdecoder/videoengine/h264/h264.c:424-445 | and returning what records still own |
| DelayHandover.HandStep | vdecoder/videoengine/h264/h264.c:347-419 | one round of the flush hands over the first entry of the order and keeps what the round leaves |
| DelayedPictures.DelayedPictures.constructor | vdecoder/videoengine/h264/h264_dec.c:77-85 | an empty list |
| DelayedPictures.DelayedPictures.Scan | vdecoder/videoengine/h264/h264_dec.c:1502-1542 | one pass finds the entry to take out, the least entry, and whether all are references |
| DelayedPictures.DelayedPictures.Judge | vdecoder/videoengine/h264/h264_dec.c:1544-1592 | the verdict of the hold-back conditions, which DelaySteps.JoinExactly states on the fields; it reads through NULL exactly if nothing is found after a picture was shown |
| DelayedPictures.DelayedPictures.ShowPicture | vdecoder/videoengine/h264/h264_dec.c:1594-1658 | the record and the calls on the frame buffer managers after showing it |
| DelayedPictures.DelayedPictures.Remove | vdecoder/videoengine/h264/h264_dec.c:1659-1674 | the list without that entry, compact again |
| DelayedPictures.DelayedPictures.SortDisplayFrameOrder | vdecoder/videoengine/h264/h264_dec.c:1461-1680 | the array keeps compact and changes as declared for one joining picture, by DelaySteps.JoinExactly; it aborts exactly with 31 entries or more, and otherwise crashes exactly when nothing is found after a picture was shown |
| DelayedPictures.DelayedPictures.ScanPiece | vdecoder/videoengine/h264/h264.c:350-369 | finds the first least entry that owns a picture, or the head, before the next key frame; strikes out exactly the entries behind the head without a picture |
| DelayedPictures.DelayedPictures.ShiftToNull | vdecoder/videoengine/h264/h264.c:371-378 | closes the gap up to the next NULL; the list ends earlier |
| DelayedPictures.DelayedPictures.TakeOut | vdecoder/videoengine/h264/h264.c:348-378 | one round takes out the entry to take and leaves the list declared |
| DelayedPictures.DelayedPictures.FlushOne | vdecoder/videoengine/h264/h264.c:348-419 | one round keeps the frames in balance and the outcome of the flush |
| DelayedPictures.DelayedPictures.FlushDelayedPictures | vdecoder/videoengine/h264/h264.c:342-446 | terminates with an empty list, no frame owned in the pool's slots and every frame given back once; if no record waits twice, pictures are handed over in the declared order and the others go back undisplayed |
| SbmStream.TiledAppend | vdecoder/sbm/sbmStream.c:500-522 | the ring stays tidy exactly when a frame starts at the write address |
| SbmStream.ReadAgrees | vdecoder/sbm/sbmStream.c:403-445 | frames read the same while their cells agree |
| SbmStream.SbmStream.constructor | vdecoder/sbm/sbmStream.c:60-140 | an empty ring |
| SbmStream.SbmStream.Reset | vdecoder/sbm/sbmStream.c:202-226 | the same state again |
| SbmStream.SbmStream.RequestBuffer | vdecoder/sbm/sbmStream.c:403-445 | room is granted exactly when a descriptor is free and 64 bytes stay clear; no granted cell is a valid byte |
| SbmStream.SbmStream.Fill | vdecoder/sbm/sbmStream.c:403-445 | bytes written beyond the valid data change no frame |
| SbmStream.SbmStream.AddStream | vdecoder/sbm/sbmStream.c:464-527 | the frame joins with the bytes at the write address; tidiness is kept exactly when it starts there |
| SbmStream.SbmStream.RequestStream | vdecoder/sbm/sbmStream.c:543-585 | hands out the oldest frame not handed out, and its descriptor reads its bytes |
| SbmStream.SbmStream.ReturnStream | vdecoder/sbm/sbmStream.c:604-645 | undoes the last request |
| SbmStream.SbmStream.FlushStream | vdecoder/sbm/sbmStream.c:664-708 | frees the oldest frame and exactly its bytes |
| FeedChannel.FrameAssembles | vdecoder/vdecoder.c:1106-1308 | however a frame is cut into parts it is put together whole with its first known time stamp, whatever comes after it |
| FeedChannel.FirstPts | vdecoder/vdecoder.c:1214-1240 | the first time stamp of the parts that is known, or -1 if none is |
| FeedChannel.BytesJoin | vdecoder/vdecoder.c:1214-1240 | each part's bytes go behind those of the parts before it |
| FeedChannel.FramesArrive | vdecoder/vdecoder.c:1106-1308 | frames submitted in parts, with the decoder taking, giving back and freeing frames in between, arrive whole and in order, each once with its first known time stamp, if and only if there is room whenever one of them ends |
| FeedChannel.RunKeepsOrder | vdecoder/sbm/sbmStream.c:403-708 | over any run frames leave in the order they were closed, each once |
| VideoFeeder.VideoFeeder.constructor | vdecoder/vdecoder.c:218-228 | nothing pending, nothing queued |
| VideoFeeder.VideoFeeder.RequestVideoStreamBuffer | vdecoder/vdecoder.c:993-1079 | one or two regions that together are the cells behind the pending bytes, four at least; refused exactly when the ring refuses |
| VideoFeeder.VideoFeeder.Fill | vdecoder/vdecoder.c:1062-1076 | bytes written into the regions lie there and disturb neither frames nor pending bytes |
| VideoFeeder.VideoFeeder.BeginFrame | vdecoder/vdecoder.c:1134-1213 | a frame not ended is added as it is, and the new one begins |
| VideoFeeder.VideoFeeder.FinishFrame | vdecoder/vdecoder.c:1220-1305 | the frame is added if there is room, and the record is cleared either way |
| VideoFeeder.VideoFeeder.SubmitVideoStreamData | vdecoder/vdecoder.c:1106-1308 | the ring goes on as the channel of frames if and only if the part does not strand pending bytes |
| VideoFeeder.VideoFeeder.RequestStream | vdecoder/sbm/sbmStream.c:543-585 | the decoder takes the oldest frame of the channel not taken yet, and its descriptor reads that frame |
| VideoFeeder.VideoFeeder.ReturnStream | vdecoder/sbm/sbmStream.c:604-645 | it gives the one taken last back |
| VideoFeeder.VideoFeeder.FlushStream | vdecoder/sbm/sbmStream.c:664-708 | the oldest frame leaves the channel with its bytes; what is pending stays |
| VideoFeeder.OrphanStrandsFrame | vdecoder/vdecoder.c:1214-1219 | a part without a frame followed by a first part is such a case |
| Pixels.CellInjective | vdecoder/pixel_format.c:890-897 | two samples of a plane never share a cell |
| Pixels.ChromaFits | vdecoder/pixel_format.c:611-631 | for every layout both chroma planes lie behind the luma, inside the buffer, and apart |
| Pixels.SamplesOfFormats | vdecoder/pixel_format.c:611-641 | which byte is which sample: NV21 has V before U in each pair, NV12 the other way round; YV12 has the V plane first, the other planar layout the U plane |
| Pixels.TurnsCancel | vdecoder/pixel_format.c:875-1160 | a quarter turn and then three quarters come back to the picture |
| Pixels.TurnsAdd | vdecoder/pixel_format.c:875-1055 | two quarter turns are a half turn |
| Pixels.ConversionsCancel | vdecoder/pixel_format.c:559-712 | to another format and back shows the same picture, every luma and chroma sample |
| Pixels.ConvertThenTurn | vdecoder/pixel_format.c:559-1160 | for even sizes converting and turning may change places |
| Pixels.TurnReachesChroma | vdecoder/pixel_format.c:901-904 | a turn reaches every chroma sample if and only if width and height are even |
| Pixels.TurnsCancelExactly | vdecoder/pixel_format.c:875-1160 | so there and back keeps every chroma sample of every picture of a size if and only if that size is even |
| PixelFormat.MoveSample | vdecoder/pixel_format.c:890-897 | one assignment moves one sample and no other |
| PixelFormat.MovePlane | vdecoder/pixel_format.c:890-897 | the nested loops move every sample of a plane to its turned place and touch no other cell |
| PixelFormat.MoveChroma | vdecoder/pixel_format.c:919-954 | so for the two chroma planes, side by side or interleaved |
| PixelFormat.Rotate | vdecoder/pixel_format.c:875-1160 | on the bytes of the buffers: the sample in column x of row y goes to column h - 1 - y of row x by 90 degrees, column w - 1 - x of row h - 1 - y by 180, and column y of row w - 1 - x by 270; so do luma and both chroma planes, the chroma where the result says for three quarters of interleaved chroma and behind the luma otherwise; the result shows the picture turned if that is behind the luma |
| PixelFormat.TurnChroma | vdecoder/pixel_format.c:919-954 | the chroma of the whole blocks is placed turned, and nothing else changes |
| TurnedChroma.TurnedChromaExactly | vdecoder/pixel_format.c:1065-1160 | all pictures of a size come out turned exactly if the chroma is placed behind the luma, or there is no two-by-two block |
| PixelFormat.SwapChroma | vdecoder/pixel_format.c:632-641 | two block copies exchange the chroma planes |
| PixelFormat.ConvertChroma | vdecoder/pixel_format.c:614-631 | the chroma loops move both planes and leave the luma alone |
| PixelFormat.ConvertPixelFormat | vdecoder/pixel_format.c:559-712 | the bytes of luma and both chroma planes, half the size rounded up, are where the other format has them, so the result shows the same picture; it is untouched exactly if the pair is none of NV21 or planar to YV12 and YV12 or planar to NV21 |

## Left out

- SbmFrame.SbmFrame.PassOnce: what a detector does once it has counted off a length that is not there, or lost the start of a picture, is not modelled.
- SbmDrain.RoundTrip: chunks are cut at unit boundaries, as the detectors assume, and the groups of the units submitted stay within the number of units the detectors accept.
- SbmRoundTrip.RunsGroupUnits: after an early end that splits a picture, or a write that turns a short slice, the groups are no longer stated; the units still are.
- FbmPool.ReturnBuffer: the id of a picture is read before the lock in the code; here it is read under it, which is the same for a frame the caller holds, since its id does not change meanwhile, and any other is refused either way (so for the other calls that name a frame).
- FbmPool.InOrder: frames are shared one at a time, as one decoder thread does, and buffers are bound and handed back outside a release call.
- Emulation.HeaderBuffer.ProcessData: what is overwritten when the array of places overruns is not modelled.
- NalUnits.CutUnit: the H.265 prefix always has four bytes in the code; here it may have one to four, like that of H.264.
- DelayedPictures.DelayedPictures.SortDisplayFrameOrder: differences of two picture order counts do not overflow.
- DelayedPictures.DelayedPictures.FlushDelayedPictures: no order is stated for a list that holds a record twice; that it ends and gives every frame back once is stated for all lists.
- PixelFormat.Rotate: chroma of odd sizes only for whole two-by-two blocks, as the code moves it; the two chroma planes are cells of the luma's buffer.
- Fbm.Fbm.SetNewDispRelease: its three locked regions run in a row here; interleavings with other clients, also between test and lock of a share, are in FbmProofs.ApplyLegal and FbmRelease.ReleasedExactlyOnce.
- The key-frame-only path of H264SortDisplayFrameOrder (vdecoder/videoengine/h264/h264_dec.c:1422-1459) hands over the current picture and touches no list.
- Reference marking and slice headers: picture records may change between calls in any way the run lemmas allow.
- Two-stream 3D sharing and forbidden-use frames in the frame buffer manager.
- The new-memory program: CopySbmFrameData, the frame functions ending in New, and the motion-vector buffer queues.
- Recognising the kind of bit stream (checkBitStreamType) and the copy for secure buffers (selectCheckBuffer).
- readGolomb and the grouping of H.264 units into frames, which are compiled out.
- Stream information carried along: pVideoInfo, nPcr, nFrameNaluType, nNalRefIdc, bIsFirstPart and bIsLastPart in stored descriptors.
- Growing the unit list of a picture (realloc), allocation failures and NULL arguments.
- Timeouts of semaphores: a wait either gets its signal or is tried again.
- Sizes and addresses are unbounded integers; a ring has fewer than 2^31 bytes.
- MB32 conversions and scaling in assembly, GPU alignment in the turn by 0 degrees, and crop offsets of turned pictures.
- Cache flushes, video engine registers, ION memory, plugin loading, logging and file dumps.
