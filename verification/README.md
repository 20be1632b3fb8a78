# punkos: verified core

A Dafny model of the in-memory logic of the punkos kernel, with proofs about it. It covers five
pieces:

- **Paging, frames and the heap.** The boot memory map flattened into a frame list (`Frames`), the
  four-level walk `virt_to_phys` (`Paging`), the page mapper (`Mapper`), the loop of `init_heap`
  that draws data frames and table frames from one allocator (`Heap`), what the mapped heap
  guarantees (`HeapFacts`), and what a device sees of a heap buffer (`Dma`).
- **xHCI.** The command ring as a producer/consumer protocol on cycle bits (`CommandRing`), the
  No-Op check (`Noop`), and controller bring-up as register accesses against any controller
  (`BringUp`).
- **The renderer.** Framebuffers byte by byte (`Pixels`), and the incremental renderer that draws
  only circles and copies only a band of rows (`Render`).
- **The keyboard pipeline.** The ring buffer (`KeyBuffer`), decoding and line editing (`Keyboard`),
  and the whole pipeline with both interrupt handlers and both spin locks as interleaved steps on
  one processor (`Kernel`).
- **PCI.** Enumeration over an arbitrary configuration space and the BAR walk (`Pci`).

`Bits` and `Wrappers` hold arithmetic and option types. Verify everything with
`dafny verify dfyconfig.toml`.

## How the hardware and the libraries enter the model

- Physical memory is a map from frame number to 512 entries; frames not listed read as zero. A page
  table entry is kept decoded (frame, present, writable, huge, other flags). An entry of the tree is
  addressed by its depth and the number of its slot at that depth, so that the tree of tables can be
  compared entry by entry before and after an operation.
- `map_to` belongs to the x86_64 crate. Its body in `Mapper` follows that crate and is an
  assumption of the model: unused entries get a new zeroed table from the allocator, used ones gain
  the new flags, a huge entry or a used leaf is an error. The walk follows 4-level paging, section
  4.5 of the Intel SDM Volume 3A.
- Starting conditions for mapping (`Mapper.Ready`): the tables form a tree, entries above the leaves
  are zero or present, and no frame still to be issued is a table or listed twice. No condition is put
  on the heap range: whether it is free to map is part of what decides success.
- The xHCI controller is arbitrary. Status reads return anything; only the Run/Stop and HCRST bits
  of USBCMD are tracked, and they change by driver writes and by completion of a reset.
- Interrupts arrive at any point where they are enabled. A spin lock that is held is modelled as a
  step that is not possible. Handlers run with interrupts disabled.
- A framebuffer must be one the kernel can index without a panic (`Pixels.Usable`): room for the
  colour bytes in a pixel, at least one column and row, stride at least the width, and a buffer that
  holds every row.
- Regions of the memory map need not be page-aligned: as in the code, a region contributes the frames
  containing the addresses stepped through, and disjointness is stated on those.
- PCI configuration space is an arbitrary function from a 32-bit address to a dword.

## Where the code differs from what it says or seems to promise

- The comment in `kernel/src/keyboard.rs:32` says the oldest character is dropped; the code drops the
  newest (`KeyBuffer.RingBuffer.Push`).
- `skip_below` counts from the start of the list, so a later call can rewind the allocator
  (`Frames.RewindReissues` says exactly when).
- Frames on the two sides of a region boundary can be adjacent, so a boundary alone does not break
  DMA contiguity (`Dma.TouchingRegionsAreSeamless`), and on an unordered map pages can be adjacent
  although a table frame was drawn between them (`Dma.UnorderedMapsHideADraw`);
  `Dma.AdjacentPagesIff` gives the exact condition for every map.
- `push` never flips the cycle bit and there is no Link TRB. A controller that keeps its cycle state
  can take stale TRBs exactly from the `len`-th push on (`CommandRing.StaleIffALapWasPushed`); one that
  flips it loses TRBs exactly when more than `len` are pushed (`CommandRing.LostIffMoreThanALap`).
- The stop write of bring-up repeats whatever HCRST bit was read first, so on a controller found in the
  middle of a reset it asks for a reset before the controller has halted
  (`BringUp.BringUpIsOrderlyIff`, `BringUp.StoppingAResetExample`). The reset write also sets Run/Stop again if it was set at first.
- After a No-Op that succeeded, a second one fails unless the controller has gone round the event
  ring twice by then (`Noop.SendTwoNoops`).
- A key pressed while the main line holds the keyboard buffer lock stops the machine for good
  (`Kernel.StuckOnlyOnBuf`, `Kernel.StuckIsReachable`).

## Model

| member | source | states |
|---|---|---|
| `Frames.Listed` | kernel/src/memory.rs:58-65 | a frame is in the flattened list exactly when it contains an address stepped through, from the start by 4096 bytes, in a region of kind Usable |
| `Frames.DistinctIffDisjoint` | kernel/src/memory.rs:58-65 | no frame is listed twice if and only if the frame spans of the usable regions are pairwise disjoint |
| `Frames.IncreasingIffAscending` | kernel/src/memory.rs:58-65 | frames come out in strictly increasing order if and only if the regions are in address order without overlap |
| `Frames.FrameAllocator.SkipBelow` | kernel/src/memory.rs:50-56 | the cursor moves to the first frame at or above the bound, counted from the start of the list |
| `Frames.FrameAllocator.AllocateFrame` | kernel/src/memory.rs:69-73 | the frame under the cursor is issued, None past the end, and the cursor always advances |
| `Frames.SkipsExactlyTheFramesBelow` | kernel/src/memory.rs:50-56 | on an ordered map the frames still to come are exactly the usable ones at or above the bound, in increasing order |
| `Frames.RewindReissues` | kernel/src/memory.rs:50-74 | after allocations, a skip makes an issued frame come out again exactly when its count is below the cursor and below the list length |
| `Frames.RewindExample` | kernel/src/memory.rs:50-74 | such a call on a map of two frames |
| `Paging.WalkReadsItsPath` | kernel/src/memory.rs:81-120 | the walk depends on exactly four entries, those on the path of the page, and on nothing else in memory |
| `Paging.WalkFindsTheLeaf` | kernel/src/memory.rs:81-120 | translation succeeds exactly when the path ends in a leaf; a leaf of 1 GiB, 2 MiB or 4 KiB adds the offset within it to the frame it names |
| `Paging.TranslationKeepsOffset` | kernel/src/memory.rs:100-119 | on all three leaf sizes the low 12 bits survive translation |
| `Paging.PutKeepsLinks` | kernel/src/allocator.rs:28-34 | in a tree-shaped table structure, writing an entry that keeps its link changes the entry at one place and at no other |
| `Paging.PutNewTable` | kernel/src/allocator.rs:28-34 | linking a zeroed fresh table changes the entry at one place and at no other |
| `Mapper.PageMapper.CreateNextTable` | kernel/src/allocator.rs:33-33 | one level of the descent: a new table from the next frame, or flags added to the existing entry, or the error, with every other entry unchanged |
| `Mapper.PageMapper.MapTo` | kernel/src/allocator.rs:33-33 | succeeds exactly when nothing on the path is huge, the page is unmapped and enough frames are left; then the path is complete, the page maps to the frame, and every other entry is as before; a failure names its cause and how far it got |
| `Mapper.MappingKeepsOtherTranslations` | kernel/src/allocator.rs:28-34 | mapping one page changes the translation of no address in another page |
| `Mapper.MappedPageTranslates` | kernel/src/allocator.rs:28-34 | every address of the mapped page translates to its frame plus its offset |
| `Mapper.MappedPathIsWritable` | kernel/src/allocator.rs:32-33 | every entry on the path of a mapped page is present and writable and none is huge |
| `Mapper.TablesKeepTranslations` | kernel/src/allocator.rs:28-34 | the tables made by a mapping that fails change no translation at all |
| `Heap.MissingIsDraws` | kernel/src/allocator.rs:28-34 | at every point of the loop the tables the next page needs are those the starting tree lacks and no earlier page has made |
| `Heap.ProgressStep` | kernel/src/allocator.rs:28-34 | each round carries the whole loop invariant one page further: leaves, tables, frames drawn, and data frames apart from tables |
| `Heap.OthersUntouched` | kernel/src/allocator.rs:28-34 | at every point of the loop, pages outside the range mapped so far translate as before it |
| `Heap.InitHeap` | kernel/src/allocator.rs:16-41 | succeeds if and only if every page is free to map and the frames left cover data and missing tables; then the whole range is mapped; a failure at page i, with its cause, leaves the first i pages mapped, part of the tables of page i made and the cursor moved accordingly; whatever the outcome nothing outside the range translates differently |
| `Heap.StoppedTranslates` | kernel/src/allocator.rs:28-34 | after a failure at page i the pages before it translate to their frames and every other address as before |
| `HeapFacts.HeapTranslates` | kernel/src/allocator.rs:13-41 | every address of the 8 MiB from 0x4444_4444_0000 translates to the frame issued for its page plus its low 12 bits |
| `HeapFacts.HeapIsWritable` | kernel/src/allocator.rs:32-33 | every entry on the path of every heap page is present and writable, the leaf has no other flag, and older table entries keep their frame and other flags |
| `HeapFacts.HeapIsInjective` | kernel/src/allocator.rs:16-41 | distinct heap addresses have distinct physical addresses |
| `HeapFacts.HeapFramesAreUsable` | kernel/src/allocator.rs:28-34 | every heap frame lies in a region of kind Usable and is no page table, old or new |
| `HeapFacts.TablesOldOrDrawn` | kernel/src/allocator.rs:28-34 | every table afterwards was one before, or is a frame of a Usable region drawn during the run |
| `HeapFacts.DrawsTheMissingTables` | kernel/src/allocator.rs:28-34 | the number of table frames a run draws is the number of tables missing along it in the starting tree |
| `HeapFacts.HeapDrawsAtMostSevenTables` | kernel/src/allocator.rs:13-34 | the 2048-page heap never draws more than seven table frames |
| `HeapFacts.EnoughFramesForTheHeap` | kernel/src/allocator.rs:28-34 | 2055 frames suffice whatever the starting tree, if the range is free to map |
| `HeapFacts.EmptyTreeFits` | kernel/src/allocator.rs:16-41 | the starting conditions can be met, with an empty level-4 table, and then the heap fits |
| `Dma.AdjacentPagesIff` | kernel/src/allocator.rs:28-34 | on any map without overlaps, consecutive pages get adjacent frames if and only if they are in one region and mapping the first drew no table, or the first ends a region and the second begins one that touches it |
| `Dma.AdjoiningOnOrderedMap` | kernel/src/allocator.rs:28-34 | on an address-ordered map that is exactly: mapping the first drew no table and the map has no hole there |
| `Dma.UnorderedMapsHideADraw` | kernel/src/memory.rs:58-65 | a map and a tree on which two pages are adjacent although a table frame was drawn between them |
| `Dma.TouchingRegionsAreSeamless` | kernel/src/memory.rs:58-65 | a memory map in which frames across a region boundary are adjacent |
| `Dma.RingVisibleIff` | kernel/src/xhci.rs:262-283 | TRB i of a heap ring of any length is at phys + 16 * i for every i if and only if the pages it spans are in consecutive frames |
| `Dma.RingVisibleIffEdgesAdjoin` | kernel/src/xhci.rs:262-283 | the same in terms of table draws and the memory map: if and only if every page edge inside the ring adjoins, for every memory map |
| `Dma.AlignedBlockFits` | kernel/src/xhci.rs:264-271 | the block aligned to 64 bytes stays within the allocation of rings, context array and segment table |
| `Dma.CommandRingPointer` | kernel/src/xhci.rs:122-125 | a 64-byte-aligned ring has a 64-byte-aligned physical address, setting bit 0 changes only the cycle state, and the two halves written recombine to that value |
| `Bits.MaskIsMod` | kernel/src/xhci.rs:293-293 | masking with a power of two less one is the remainder, which is why the ring length must be a power of two |
| `CommandRing.MarkedKeepsTheRest` | kernel/src/xhci.rs:287-292 | storing a TRB sets its cycle bit and keeps every other bit |
| `CommandRing.Ring.constructor` | kernel/src/xhci.rs:262-283 | a new ring holds zero TRBs, cycle state 1 and nothing pushed |
| `CommandRing.Ring.Push` | kernel/src/xhci.rs:287-294 | the slots are always those of the history of pushes, and the enqueue index its length modulo the ring length |
| `CommandRing.SlotHoldsTheLatest` | kernel/src/xhci.rs:287-294 | after any number of pushes slot i holds the latest TRB whose number is congruent to i |
| `CommandRing.CycleShowsWritten` | kernel/src/xhci.rs:225-227 | slot i carries cycle 1 exactly when more than i TRBs were pushed, so from the len-th push on all do |
| `CommandRing.FirstLapIsInOrder` | kernel/src/xhci.rs:261-294 | under every interleaving with fewer pushes than slots the controller takes exactly the pushed TRBs in order, and waits only when it has them all |
| `CommandRing.StaleIffALapWasPushed` | kernel/src/xhci.rs:287-294 | a controller that keeps its cycle state can be made to take more TRBs than were pushed if and only if a whole lap was pushed |
| `CommandRing.TogglingTakesOneLap` | kernel/src/xhci.rs:287-294 | a controller that flips its cycle state at the end of the ring never takes more than one lap, in any run |
| `CommandRing.FullLapIsInOrder` | kernel/src/xhci.rs:287-294 | that controller takes exactly the pushed TRBs in order as long as at most a full lap is pushed |
| `CommandRing.LostIffMoreThanALap` | kernel/src/xhci.rs:287-294 | it is left with pushed TRBs it will never take if and only if more than a lap was pushed |
| `Noop.EventRing.Post` | kernel/src/xhci.rs:424-425 | the controller's events go round the ring with a cycle bit flipped at every lap; slot 0 follows their history |
| `Noop.EventRing.Clear` | kernel/src/xhci.rs:430-430 | slot 0 is zeroed after the events posted so far |
| `Noop.ShowsIff` | kernel/src/xhci.rs:225-231 | slot 0 shows a completion if and only if it was written since it was cleared, last on an even lap, with an event of type 33 |
| `Noop.CompletionBits` | kernel/src/xhci.rs:225-231 | a completion is a TRB with cycle bit 1 and type 33 in bits 15-10, and success is 1 in the top byte of its status |
| `Noop.SendNoop` | kernel/src/xhci.rs:414-437 | one No-Op is pushed; the result is true exactly when the first completion slot 0 shows in time has code 1; polling stops there and the slot is cleared exactly when one shows |
| `Noop.SendTwoNoops` | kernel/src/xhci.rs:414-437 | after a check that succeeded, a second one is decided by the later events alone and fails unless more than two laps of events have been posted |
| `Noop.ThirdLapShows` | kernel/src/xhci.rs:424-432 | during the third lap slot 0 shows a completion exactly when the event that began it is one |
| `Noop.NothingShowsForTwoLaps` | kernel/src/xhci.rs:424-432 | once slot 0 was cleared it shows no completion until the controller's third lap of the event ring |
| `BringUp.StepKeepsInv` | kernel/src/xhci.rs:366-408 | every move keeps what the driver has done and seen at each of its steps |
| `BringUp.BringUpIsOrderlyIff` | kernel/src/xhci.rs:353-412 | in every run reset follows a seen halt, configuration follows a seen reset and readiness with Run/Stop 0, and only the last write starts the controller, if and only if HCRST was clear in the first read |
| `BringUp.AccessesFollowTheScript` | kernel/src/xhci.rs:366-409 | in every run the accesses, in register values, are those of the script and no others: stop, seen halted, reset, seen reset, seen ready, twelve writes with Run/Stop 0, start, seen running |
| `BringUp.RegistersAreProgrammed` | kernel/src/xhci.rs:393-403 | when bring-up is done each register was written once, low half then high half, with the slot count, the context array, the command ring plus cycle state 1, the segment table and size 1, and the event ring; the interrupter got 2 and then 1 |
| `BringUp.StoppingAResetExample` | kernel/src/xhci.rs:367-368 | a controller found resetting is asked to reset again before it was seen halted |
| `Pixels.WritePixel` | kernel/src/framebuffer.rs:31-54 | exactly the colour bytes of one pixel change: red, green, blue or blue, green, red as the format says, or the weighted grey |
| `Pixels.Clear` | kernel/src/framebuffer.rs:19-27 | exactly the colour bytes of every whole pixel get the colour; every other byte is kept |
| `Pixels.ColoursWholePixels` | kernel/src/framebuffer.rs:24-26 | the bytes cleared are the colour bytes of the pixels that lie wholly within the buffer |
| `Pixels.BytesAt` | kernel/src/render.rs:71-72 | the bytes at the computed offset are those of column x of row y and no others |
| `Pixels.RowBytes` | kernel/src/render.rs:79-84 | a byte is in row y or later exactly when it is at or after the start of row y |
| `Render.Mix` | kernel/src/render.rs:24-27 | a mixed component is the weighted mean of foreground and background rounded down, lies between them, and the sum fits 16 bits |
| `Render.MixEnds` | kernel/src/render.rs:24-27 | full opacity gives the foreground and none the background |
| `Render.ShadesInNumbers` | kernel/src/render.rs:108-114 | the leader is (0xD6, 0xFF, 0x3F), the next bubble (134, 158, 44) and the one after (73, 85, 30) |
| `Render.EachOpacityOnce` | kernel/src/render.rs:108-114 | the leader is opaque and each opacity is used by exactly one bubble |
| `Render.FillCircle` | kernel/src/render.rs:58-76 | exactly the on-screen pixels with dx * dx + dy * dy <= r * r change, for every centre and radius and every stride at least the width |
| `Render.BubblesApartIff` | kernel/src/render.rs:94-105 | the three bubbles share no point if and only if the height is at least 24 |
| `Render.LayoutMeasures` | kernel/src/render.rs:94-105 | the mark is centred, the radius a twelfth of the height, the gap 2.6 radii, and the bubbles are in order from left to right |
| `Render.Draw` | kernel/src/render.rs:108-114 | every byte becomes what drawing the three bubbles over it gives |
| `Render.DrawForgetsEarlierFrames` | kernel/src/render.rs:108-114 | redrawing over a frame gives what drawing on the canvas before it would |
| `Render.OnlyTheLastFrameShows` | kernel/src/render.rs:108-114 | after any sequence of frames the canvas is the first canvas drawn once with the last leader |
| `Render.PresentRows` | kernel/src/render.rs:79-84 | exactly the bytes of the rows given are copied |
| `Render.DrawStaysInBand` | kernel/src/render.rs:123-125 | drawing changes no byte outside the rows that are presented |
| `Render.Run` | kernel/src/render.rs:117-144 | after any number of rounds the screen equals the back buffer on every colour byte, and both show what clearing and drawing once with the last leader would |
| `Render.Animate` | kernel/src/main.rs:51-53 | from a screen cleared at boot, band-only presentation shows what full presentation would, on every colour byte |
| `Render.SceneShowsTheMark` | kernel/src/render.rs:94-114 | pixel by pixel the screen shows the last bubble covering the point, or the background |
| `Render.LeaderIsGreenOnBlack` | kernel/src/render.rs:108-114 | a pixel that only the leader covers shows full acid green, one that no bubble covers the black background |
| `Render.LeaderWalksRight` | kernel/src/render.rs:134-138 | the leader moves one bubble to the right, and round, every 12 ticks |
| `KeyBuffer.RingBuffer.constructor` | kernel/src/keyboard.rs:22-28 | a new buffer is empty |
| `KeyBuffer.RingBuffer.Push` | kernel/src/keyboard.rs:30-38 | for every capacity N the character is appended, or dropped with the contents unchanged exactly when N - 1 are pending |
| `KeyBuffer.RingBuffer.Pop` | kernel/src/keyboard.rs:40-48 | the oldest character is removed, None exactly when the buffer is empty |
| `KeyBuffer.FirstInFirstOut` | kernel/src/keyboard.rs:15-49 | in every history the accepted characters are the popped ones followed by the pending ones, at most N - 1 of them |
| `Keyboard.DecodeIsPositional` | kernel/src/keyboard.rs:56-84 | each key is decoded under the shift decided by the last shift press or release before it |
| `Keyboard.UsQwerty` | kernel/src/keyboard.rs:128-177 | the four rows of keys give the characters of the US layout, without and with shift |
| `Keyboard.ControlKeys` | kernel/src/keyboard.rs:122-126 | escape, backspace, tab, enter and space, whatever the shift |
| `Keyboard.PrintingCodes` | kernel/src/keyboard.rs:120-180 | exactly which scancodes produce a character |
| `Keyboard.ShiftCodes` | kernel/src/keyboard.rs:63-73 | the shift keys are 0x2A and 0x36 and a release is the press with bit 7 set |
| `Keyboard.BackspaceErasesOne` | kernel/src/keyboard.rs:108-110 | a backspace cancels the character before it anywhere in a line, and does nothing at its beginning |
| `Keyboard.NothingErased` | kernel/src/keyboard.rs:111-113 | a line without backspaces is kept as typed |
| `Keyboard.SegmentsCutAtNewlines` | kernel/src/keyboard.rs:101-116 | the segments of a text are the text cut at its newlines |
| `Keyboard.LinesAreFoldedSegments` | kernel/src/keyboard.rs:103-116 | successive lines are the segments, each with its backspaces folded |
| `Keyboard.ReadLine` | kernel/src/keyboard.rs:103-116 | returns at the first newline with the folded characters before it, and waits exactly when none comes |
| `Kernel.StepKeepsLocks` | kernel/src/interrupts.rs:57-63 | who holds which lock, and when interrupts are enabled, at every step |
| `Kernel.StuckOnlyOnBuf` | kernel/src/interrupts.rs:89-103 | in every run no handler waits on PICS, a handler is stuck exactly when it has a character to store while the main line holds BUF, and then nothing can ever step again |
| `Kernel.LockSafeRunsNeverStick` | kernel/src/keyboard.rs:80-89 | if no character-producing key interrupt lands while the main line holds BUF, no stuck state is reachable |
| `Kernel.UnsafeInterruptSticks` | kernel/src/keyboard.rs:80-84 | every such interrupt leads to the stuck state at the handler's next step |
| `Kernel.StuckIsReachable` | kernel/src/keyboard.rs:80-89 | a run that ends stuck |
| `Kernel.TicksCountTimerInterrupts` | kernel/src/interrupts.rs:89-95 | in every run the tick counter is the number of timer interrupts, less one whose handler has just been entered |
| `Kernel.NothingAcceptedIsLost` | kernel/src/keyboard.rs:51-99 | in every interleaved run accepted characters are those returned, then the one in hand, then those pending |
| `Kernel.LinesFollowTheKeys` | kernel/src/keyboard.rs:56-116 | in every run that drops nothing the lines returned are the folded segments of a prefix of the decoded scancodes, and of all of them once none is pending |
| `Kernel.NoLostWakeUp` | kernel/src/keyboard.rs:92-99 | in every lock-safe continuation a pending character, such as one that arrived between the empty check and hlt, is the next one returned, is returned once steps of the main line and wake-ups number at most five, needs at most one wake-up, and some step is always possible until then |
| `Kernel.HandlersEnd` | kernel/src/interrupts.rs:89-103 | while a handler runs only it can step, and each of its at most five steps brings it nearer its end |
| `Kernel.UnsafeRunsCanStarve` | kernel/src/keyboard.rs:80-99 | without lock safety a letter key taken while BUF is held leaves a pending character pending for ever |
| `Pci.AddressesDistinct` | kernel/src/pci.rs:162-168 | distinct functions and aligned offsets never share a configuration address |
| `Pci.AddressFields` | kernel/src/pci.rs:162-168 | the address has bit 31 set and bus, device, function and aligned offset in their fields |
| `Pci.ReadsItsOwnFunction` | kernel/src/pci.rs:38-47 | a read goes to the address that names its own function and offset |
| `Pci.Bar64RoundTrip` | kernel/src/pci.rs:87-115 | any 16-byte-aligned 64-bit base survives encoding into two registers and decoding |
| `Pci.Bar64Inverse` | kernel/src/pci.rs:87-115 | whatever decodes as a 64-bit BAR is the encoding of what it decodes to |
| `Pci.BarKinds` | kernel/src/pci.rs:92-113 | which register contents decode as I/O, 32-bit, 64-bit or unknown |
| `Pci.Bar32RoundTrip` | kernel/src/pci.rs:95-102 | an aligned 32-bit base and its prefetch bit survive encoding and decoding |
| `Pci.IoRoundTrip` | kernel/src/pci.rs:92-93 | an aligned port survives encoding and decoding |
| `Pci.BarRegisters` | kernel/src/pci.rs:87-89 | BAR i is the dword at 0x10 + 4 * i, and its high half the next one |
| `Pci.ReadBars` | kernel/src/pci.rs:198-207 | the walk ends within six slots; a slot is empty exactly when the one before it is a 64-bit BAR, and otherwise holds its decoding |
| `Pci.Enumerate` | kernel/src/pci.rs:173-247 | the result lists every visible function once, with its own data, in strictly increasing order, and nothing else |
| `Pci.ListedExactlyWhenSeen` | kernel/src/pci.rs:173-247 | in register bits: a function is listed exactly when its vendor and that of function 0 are not 0xFFFF and, beyond function 0, bit 23 of the header dword of function 0 is set |
| `Pci.KeyOrder` | kernel/src/pci.rs:175-212 | the order of the list is by bus, then device, then function |
| `Pci.IdFields` | kernel/src/pci.rs:63-70 | vendor and device id are the low and high halves of the dword at 0 |
| `Pci.ClassFields` | kernel/src/pci.rs:78-84 | class, subclass and programming interface are the three upper bytes of the dword at 8, from the top down |
| `Pci.HeaderField` | kernel/src/pci.rs:73-75 | the header type is byte 2 of the dword at 0x0C |
| `Pci.ListingIsUnique` | kernel/src/pci.rs:173-247 | only one list meets that description |
| `Pci.EveryControllerIsFound` | kernel/src/pci.rs:250-255 | filtering the scan gives exactly the visible xHCI controllers, each with its own data, in bus order |
| `Pci.FoundByItsRegisters` | kernel/src/pci.rs:250-255 | a function is found exactly when it is visible and its class dword is 0x0C0330 above the revision |

## Left out

- Paging.VirtToPhys: entries are decoded records, so the 64-bit layout of an entry and the 52-bit limit on physical addresses, beyond which the kernel panics, are not modelled.
- Mapper.PageMapper.MapTo: TLB flushes and the order of the individual memory writes inside one table creation are not modelled.
- Frames.FrameAllocator.AllocateFrame: the cursor is unbounded; it would take 2^64 calls to wrap.
- Heap.InitHeap: handing the range to the linked-list allocator is not modelled; that allocator is a library.
- Kernel.NoLostWakeUp: states how many interrupts and steps are needed, not that the timer will fire.
- Kernel.LinesFollowTheKeys: the other reader of the buffer, the echo loop of the renderer, is not part of the machine.
- BringUp.BringUpIsOrderlyIff: the values of capability registers and the allocations between reset and configuration enter as the addresses in the setup; the polling loops are not shown to end, since that is up to the controller.
- Render.Run: colour bytes only; the unused fourth byte of a pixel is copied inside the band and left alone outside it.
- `initialise_ports`: its acknowledging write also writes back PED, which clears it under section 5.4.8 of xHCI 1.2; modelling it would add only single-register facts.
- Port I/O, volatile accesses, CR3, descriptor tables, serial output, PIT programming, class names and unused register accessors: no state to reason about.
- Ownership and release of the ring memory: a matter of the Rust memory model.
- Host-side image building and the quad store described in the documents, for which there is no code.
