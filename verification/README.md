# Peer positions and double buffer of a threaded raycaster, in Dafny

This project models three pieces of sequential logic from a multiplayer
raycaster, in which peers exchange player positions over UDP.

- **Peer registry and receive handling.** A `std::map<std::string,int>` maps
  each remote sender ("ip:port") to a player slot. A sender seen for the first
  time takes the round-robin counter `nextPlayerIndex`, and the counter then
  advances modulo the number of configured peers `nbPlayers`. Each valid
  sample overwrites its sender's slot in the map of player positions
  (`map.movePlayer`). Version 4 runs this in a bounded drain inside the frame
  loop. Version 3 runs it on a receiver thread that stops when `running` is
  cleared.
- **Send coalescing** (version 4). A sender thread waits for
  `positionChanged || !running`. On waking it exits if stopped; otherwise it
  sends the current position to every peer and clears the flag.
- **Double buffer.** Two `width*height` cell arrays in row-major order.
  `drawPixel` and `drawVertLine` write the front buffer, `getBackBuffer`
  exposes the back buffer, and `swap` exchanges the two.

Modules, one per component:

| file | module | models |
|---|---|---|
| `wire.dfy` | `Wire` | positions, receive results, the per-frame send to every peer |
| `peer_registry.dfy` | `PeerRegistry` | the sender-to-slot map and its counter |
| `position_store.dfy` | `PositionStore` | receive handling and the version-4 drain |
| `receiver_thread.dfy` | `ReceiverThread` | the version-3 receiver thread and its stop flag |
| `send_coalescing.dfy` | `SendCoalescing` | the version-4 sender thread and its flags |
| `color.dfy` | `Color` | 32-bit colours, the darken mask, the `int` cell reading |
| `double_buffer.dfy` | `DoubleBuffering` | the double buffer |
| `arith.dfy` | `Arith` | multiplication, division and remainder facts the proofs need |

Modelling choices:

- **State and threads.** All state is an immutable value and every operation
  is a pure function. Threads are state machines: each event is one atomic
  step of one thread, and a trace is any interleaving of events. The mutexes
  make these steps atomic in the program. They do not appear in the model.
- **Positions.** A position is a pair of opaque 64-bit values (the doubles'
  bit patterns). They are only stored, copied and compared.
- **Receive results.** A receive result is a `Received(valid, sender,
  position)`. For the drain, `inbox[i]` is what the i-th receive call of the
  frame returns.
- **Colours.** Colours are `bv32`, matching the source's `unsigned int`. A
  buffer cell keeps the 32 bits assigned to it. `Color.CellValue` gives the
  `int` a reader of `std::vector<int>` sees: the two's-complement value.
- **Reduction modulo the peer count.** `nextPlayerIndex % nbPlayers` runs
  only for a new sender. With no configured peers it would divide by zero.
  So `Register` needs a positive capacity only when the sender is new, and
  the multi-result functions need every result to be invalid when the
  capacity is 0. The version-4 drain needs nothing extra: with zero peers it
  makes no receive calls.
- **Pixel bounds.** The drawing calls check no bounds. They require the flat
  cell index `x + y*width` to lie inside the buffer and the `int` arithmetic
  not to overflow. That the 2-D rectangle bounds imply this is a separate
  lemma.
- **Constructor errors.** A negative product `width*height` makes the vector
  constructor throw (`Err(LengthError)`). An `int` overflow of the product is
  undefined behaviour, so it is a precondition.

Behaviour of the code worth noting:

- `drawVertLine` takes no lock, while `drawPixel` and `swap` do.
- Whether `UDPReceiver::receive` blocks cannot be told from the code: its
  definition is not part of this model, and its documentation
  (2/include/UDPReceiver.h:39) says an invalid result comes back when no data
  is received. The model covers both readings. In the drain, an invalid
  `inbox` entry is a call that returned without data. In the version-3
  thread, a `Deliver` of an invalid result is such a call, and a call that
  never returns is a `Deliver` that never happens.
- The movement keys and the turn keys both set `positionChanged`. A turn does
  not move the player, so the sender may resend an unchanged position.
- `getBackBuffer` (4/include/DoubleBuffer.h:31) is modelled as returning the
  back buffer.
- Version 3's receiver thread has no guard for an empty peer list (see
  Findings). Its model handles results with the guarded
  `PositionStore.Accept`.

## Model

| member | source | states |
|---|---|---|
| Wire.Broadcast | 3/src/main.cpp:130-132 | each frame sends exactly one datagram per configured peer, in the peer list's order, each carrying the current position |
| Wire.BroadcastReachesEachPeerOnce | 3/src/main.cpp:131-132 | with distinct peers, each peer is the destination of exactly one datagram of a round |
| Color.Darken | 2/src/DoubleBuffer.cpp:19-20 | the mask clears the top byte and halves the red, green and blue bytes independently |
| Color.Shade | 2/src/DoubleBuffer.cpp:17-20 | the colour written is the sample itself, or the sample with each channel halved and the top byte cleared when darkening |
| Color.CellValue | 2/src/DoubleBuffer.cpp:28 | an `unsigned int` colour stored in an `int` cell reads back as a 32-bit signed value congruent to it modulo 2^32, negative exactly when the top bit is set |
| Color.DarkenedCellIsNonNegative | 2/src/DoubleBuffer.cpp:20-21 | a darkened colour is stored in an `int` cell as its own value, which is non-negative |
| DoubleBuffering.Create | 2/src/DoubleBuffer.cpp:4 | the constructor fails (length error) exactly when `width*height` is negative; otherwise both buffers have `width*height` cells, all zero, and the dimensions are the arguments |
| DoubleBuffering.RowMajorInBounds | 2/src/DoubleBuffer.cpp:28 | a pixel inside the width-by-height rectangle has its cell `x + y*width` inside the buffer |
| DoubleBuffering.RowMajorInjective | 2/src/DoubleBuffer.cpp:28 | distinct pixels of the rectangle have distinct cells |
| DoubleBuffering.RowMajorDecode | 2/src/DoubleBuffer.cpp:28 | every cell is the cell of the pixel (i mod width, i div width) of the rectangle |
| DoubleBuffering.DrawPixel | 2/src/DoubleBuffer.cpp:25-29 | exactly the front cell of (x, y) takes the colour; every other front cell, the back buffer and the dimensions are unchanged |
| DoubleBuffering.DrawVertLine | 2/src/DoubleBuffer.cpp:11-23 | for every row yStart..yEnd the front cell of (x, y) takes that row's sample, shaded; front cells outside that column segment and the whole back buffer are unchanged |
| DoubleBuffering.ColumnCellsStayInColumn | 2/src/DoubleBuffer.cpp:15-21 | every cell the vertical line may write lies in column x |
| DoubleBuffering.Swap | 2/src/DoubleBuffer.cpp:31-34 | the new displayed buffer is the old front buffer and the new front buffer is the old displayed one; dimensions unchanged |
| DoubleBuffering.SwapInvolution | 2/src/DoubleBuffer.cpp:34 | swapping twice gives back the original buffers |
| DoubleBuffering.GetWidth | 2/src/DoubleBuffer.cpp:8 | the reported width is the row length: each buffer holds width times height cells |
| DoubleBuffering.GetHeight | 2/src/DoubleBuffer.cpp:9 | the reported height is the number of rows: each buffer holds width times height cells |
| DoubleBuffering.GetBackBuffer | 4/include/DoubleBuffer.h:26-31 | the buffer returned for display has one cell per pixel, width times height |
| DoubleBuffering.SwapPublishesFront | 4/include/DoubleBuffer.h:11-13 | after a frame's drawing calls and a swap, `getBackBuffer` returns exactly the frame drawn, and the next frame starts over the previously displayed buffer, which is not cleared |
| DoubleBuffering.Run | 4/include/DoubleBuffer.h:74-78 | any sequence of drawing calls and swaps keeps both buffers at `width*height` cells and the dimensions fixed, and without a swap leaves the displayed buffer unchanged |
| DoubleBuffering.DimensionsFixed | 2/src/DoubleBuffer.cpp:4-9 | after construction and any sequence of calls, `getWidth` (`GetWidth`) and `getHeight` (`GetHeight`) return the constructor's arguments |
| DoubleBuffering.PresentedFrameIsStable | 4/include/DoubleBuffer.h:8-14 | after a frame and a swap, the displayed buffer equals that frame's front buffer and stays so while the next frame is drawn |
| DoubleBuffering.PaintFrame | 2/src/DoubleBuffer.cpp:25-29 | drawing every pixel of a frame in row-major order leaves exactly that frame in the front buffer, whatever it held before, and leaves the displayed buffer alone |
| DoubleBuffering.RunAppend | 4/include/DoubleBuffer.h:47-72 | running two sequences of buffer calls one after the other equals running their concatenation |
| PeerRegistry.Register | 4/src/main.cpp:188-193 | a new sender takes the counter and the counter becomes (old+1) mod nbPlayers; a known sender keeps its slot and the registry is unchanged; slots stay in [0, nbPlayers) |
| PeerRegistry.RegisterAll | 3/src/main.cpp:82-86 | registering a list of senders adds exactly those senders, never moves an existing one, and keeps all slots in range |
| PeerRegistry.FirstSeen | 4/src/main.cpp:188-191 | reference order: the distinct senders in the order each is first heard from, each once |
| PeerRegistry.RegisterFollows | 4/src/main.cpp:188-192 | one registration keeps the registry in step with the first-seen list |
| PeerRegistry.RegisterAllFollows | 3/src/main.cpp:82-85 | from the empty registry, the registry after a list of senders is in step with the first-seen order of that list |
| PeerRegistry.RegistryFollowsFirstSeen | 4/src/main.cpp:188-192 | the k-th distinct sender, in first-seen order, holds slot k mod nbPlayers; the counter is the number of distinct senders mod nbPlayers |
| PeerRegistry.FirstSlotsInOrder | 3/src/main.cpp:82-85 | the first nbPlayers distinct senders get slots 0..nbPlayers-1 in first-seen order |
| PeerRegistry.WrapAliases | 4/src/main.cpp:190-191 | with more distinct senders than peers, the first and the (nbPlayers+1)-th distinct senders share slot 0 |
| PeerRegistry.ReRegisterIsStable | 3/src/main.cpp:82-86 | looking up a known sender returns its slot and leaves the registry unchanged |
| PositionStore.Receive | 3/src/main.cpp:79-88 | an invalid receive result leaves the registry, the counter and the positions unchanged; slots stay in range |
| PositionStore.Accept | 3/src/main.cpp:80-87 | with at least one peer, handling a result is exactly `Receive`; with no peers, a result from an unknown sender changes nothing; slots stay in range |
| PositionStore.ValidResultWritesOnlyItsSlot | 3/src/main.cpp:82-87 | a valid result registers its sender and overwrites exactly that sender's slot with the sample; other slots keep their positions |
| PositionStore.ReceiveFirst | 3/src/main.cpp:83-84 | after any number of results, every assigned slot and the counter lie in [0, nbPlayers) |
| PositionStore.ReceiveFirstKeepsRegistrations | 3/src/main.cpp:82-86 | handling results never moves a registered sender and never removes a slot |
| PositionStore.SenderRegistered | 4/src/main.cpp:187-193 | after handling, the sender of every valid result is registered |
| PositionStore.ReceiveKeepsOtherSlots | 4/src/main.cpp:193-194 | one result keeps every registration and the position of every slot it does not write |
| PositionStore.LastSampleWins | 3/src/main.cpp:86-87 | a slot holds the position of the last valid sample applied to it: a sample survives unless a later one lands on the same slot |
| PositionStore.LaterSampleOfOnePeerWins | 4/src/main.cpp:193-194 | a peer's samples p1 then p2, applied in order, leave p2 in its slot |
| PositionStore.Drain | 4/src/main.cpp:181-195 | the frame's drain makes at most nbPlayers receive calls and stops early only at an invalid result; the session is the valid results applied in order, and the invalid result changes nothing |
| ReceiverThread.Next | 3/src/main.cpp:77-90 | the thread changes positions only by handling (with `Accept`) a valid result of its pending receive call, exits only after reading `running` clear, and stays exited |
| ReceiverThread.Run | 3/src/main.cpp:78-89 | along any interleaving, slots stay in range, and an exited thread has `running` clear |
| ReceiverThread.StoppedIdleThreadChangesNothing | 3/src/main.cpp:78 | once `running` is clear and no receive call is pending, no event changes the positions or starts a receive call |
| ReceiverThread.StoppedThreadAppliesAtMostTheCallInFlight | 3/src/main.cpp:78-88 | a receive call pending when `running` is cleared still completes and is applied; after it nothing changes |
| ReceiverThread.NoDeliveryNoChange | 3/src/main.cpp:79 | while no receive call returns, the positions do not change and a blocked thread stays blocked |
| ReceiverThread.JoinedThreadIsInert | 3/src/main.cpp:123-127 | once the thread has exited (the join can return), no event changes anything |
| ReceiverThread.ZeroPeersReachModuloByZero | 3/src/main.cpp:62-84 | with no peers configured, the thread still makes a receive call, and a valid result from any sender fails the nonzero divisor `Receive` needs; the guarded handling leaves the session unchanged |
| ReceiverThread.StopBeforeFirstCheckMeansNoReceive | 3/src/main.cpp:73-78 | a stop before the thread's first test of `running` makes it exit without any receive call |
| SendCoalescing.Next | 4/src/main.cpp:86-100 | a send happens only on a wake with the flag set while running, sends the current position and clears the flag; a wake with the predicate false changes nothing |
| SendCoalescing.RunAppend | 4/src/main.cpp:104-178 | running two event sequences one after the other equals running their concatenation |
| SendCoalescing.NoSendAfterStop | 4/src/main.cpp:88-90 | once `running` is clear, no interleaving of events sends anything more |
| SendCoalescing.InputsOnlySetFlag | 4/src/main.cpp:124-166 | input events only record the latest position and set the flag |
| SendCoalescing.Coalescing | 4/src/main.cpp:89-98 | several position changes before a wake give exactly one send, of the latest position, and leave the flag clear; a further wake sends nothing |
| SendCoalescing.SendsBoundedByInputs | 4/src/main.cpp:124-166 | a run sends at most once per input event, plus once for a flag already set |
| SendCoalescing.UpToDateIsPreserved | 4/src/main.cpp:92-98 | every event keeps the invariant that a clear flag means the last position sent is the current one |
| SendCoalescing.AlwaysUpToDate | 4/src/main.cpp:80-100 | from the start, between key-press handlers, whenever the flag is clear, the peers were last sent the current position, or nothing has moved yet |
| SendCoalescing.StopThenWakeExits | 4/src/main.cpp:167-175 | a stop followed by its notification's wake ends the sender thread without any further send |

## Left out

- Sockets, `UDPReceiver` and `UDPSender`: binding, the 16-byte payload of native doubles, and send failures. `receive` is an abstract result and a send is a datagram value.
- Threads, `std::mutex`, `std::condition_variable` and `join`: modelled as interleavings of atomic events. That includes the lock `drawPixel` and `swap` take on a `mutex` member that `4/include/DoubleBuffer.h` does not declare.
- SendCoalescing.AlwaysUpToDate: the invariant is promised only between key-press handlers. Inside a handler, after `player.move` (4/src/main.cpp:128) and before `positionChanged = true` (4/src/main.cpp:131), the player has moved while the flag may be clear and nothing has been sent. The model's key press is one event, so that window is not represented.
- SendCoalescing.Next: a key press is one event, although the program moves the player under one lock and sets the flag under another. The flag is always set after the move, so splitting the event could only add a send of a position already sent.
- DoubleBuffering.DrawVertLine: the floating-point texture stepping (`step`, `texY`, `texture.get`) is left out. The texel of each row is an input sample.
- `Player::move` and `Player::turn` (floating-point maths) are left out. The new position is the payload of an input event.
- `Map::generateMap` and `Map::movePlayer` are not part of this model. The initial positions are any table, and `movePlayer` overwrites one slot.
- The X11 window and key handling, `parseArgs`, `parseIPs` and the FPS `Average`: configuration, I/O and timing outside the core.
- The raycaster's casting of floors, walls and sprites. It is the external writer of the buffer and the reader of the positions.
- PeerRegistry.Peers: the counter is an unbounded `nat`. The program keeps it in an `int` that stays below `nbPlayers`, so it cannot overflow while `nbPlayers` fits in an `int`. The model does not state that bound on `capacity`.

## Findings

| source | as written | input that shows it | evidently intended | confidence | as-written member | corrected member |
|---|---|---|---|---|---|---|
| 3/src/main.cpp:77-87 | the receiver thread runs with any number of peers, and for a valid datagram from a new sender it evaluates `nextPlayerIndex %= nbPlayers`, a remainder by zero when `nbPlayers` (3/src/main.cpp:62) is 0 | an empty peer list, then any valid datagram | with no peers there is no slot for a sender, so the datagram is dropped | not executed; medium: `parseIPs` is not part of this model and may reject an empty list | ReceiverThread.ZeroPeersReachModuloByZero | PositionStore.Accept |
