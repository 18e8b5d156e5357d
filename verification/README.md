# PongOn in Dafny

PongOn is a two-player networked Pong. One process runs as the server and the
other as the client. They share one TCP connection. Each process simulates the
ball on its own and sends only its own paddle's velocity every frame. The
repository has two iterations of the same program:

- `Source/main.cpp` exchanges only the paddle velocity per frame.
- `src/main.cpp` adds a console chat. The chat packet is exchanged every
  frame, before the velocity. Both files read a nickname at startup, cut it to
  10 characters and exchange it once the connection is up.

This project models the logic of both files:

- **Connection** (`connection.dfy`). The transfer primitives `Send` and
  `Receive` succeed only on `Done`. `ExchangeFun` orders them by role: the
  server sends then receives, the client receives then sends, and the second
  transfer is skipped when the first fails. A peer's use of the connection is
  a list of exchanges. A critical exchange ends the program when it fails (the
  nick and the velocity). A non-critical one has its result discarded (the
  chat packet).
- **Lockstep** (`lockstep.dfy`). The socket is an unbuffered rendezvous
  channel between the two peers. The link carries a given number of
  rendezvous and then dies. A peer that runs out of exchanges also kills it.
  After that every transfer fails with `Disconnected` instead of blocking.
- **Physics** (`physics.dfy`). `update_positions`, `update_velocities`,
  `update_shapes` and `process_input` are pure functions of boxes and
  velocities.
- **Chat** (`chat.dfy`). The nickname prompt, message formatting, the
  history bookkeeping of `UpdateChat`, and the trim and 20-row window of
  `PrintChat`.
- **Game** (`game.dfy`). The frame loop of both iterations, run by a server
  and a client together: the initial placement, the nick handshake, one joint
  tick per frame, and the end of a session when a window is closed or the
  link dies. Its headline results:
  - two peers never deadlock;
  - each receives exactly what the other sent;
  - both complete the same ticks (after a one-sided window close the survivor
    starts one more frame, which fails);
  - the two simulations stay mirror images of each other: same ball, and each
    peer's own paddle where the other draws its remote paddle.

The ball's right-wall bounce follows the code. `update_positions` gives the
ball box the radius 10.5 as its full width. So the ball turns back once its
center passes x = 506.75, not at 501.5, which would be the bounce for a ball of
radius 10.5 touching the wall (`Physics.RightBounceThreshold`).

## Model

| member | source | states |
|---|---|---|
| `Connection.Order` | src/main.cpp:373-380 | The server's exchange sends first and receives second; the client's does the reverse. |
| `Connection.ExchangeFun` | src/main.cpp:346-380 | The exchange succeeds iff both transfers report `Done`. The transfers tried are a prefix of the role's order, and the second is tried iff the first reported `Done`. The stored status is that of the last transfer tried. Same code at Source/main.cpp:295-329. |
| `Connection.DeliveredIff` | src/main.cpp:373-380 | A receive buffer is filled iff the receive completed and was tried: the client always tries it, the server only after its send completed. |
| `Connection.RunPeer` | src/main.cpp:146-154 | A peer performs its exchanges in order. It keeps one receipt per exchange it performed, all of them unless it halted, and a halted run performed at least one. |
| `Connection.RunPeerRecords` | src/main.cpp:146-154 | Each receipt is what that exchange delivered. No exchange before the last one ended the program. A halt happens exactly at a failed critical exchange (the velocity at :151-154; the chat exchange at :397 is not critical). The stored status is the last exchange's. |
| `Connection.HaltsIff` | src/main.cpp:151-154 | A peer stops early iff some critical exchange of its program fails. |
| `Lockstep.Channel` | src/main.cpp:346-358 | The socket under `Send` and `Receive`, as a rendezvous channel: each peer gets one outcome per transfer it offered, and a link that carries no more rendezvous never blocks. |
| `Lockstep.Play` | src/main.cpp:373-380 | Two peers running their exchanges against each other over one connection. On a dead link neither blocks. |
| `Lockstep.Offer` | src/main.cpp:376-379 | The two transfers of one exchange, in role order; the transfer that sends carries the exchange's value. |
| `Lockstep.DeadlockIff` | src/main.cpp:376-379 | The rendezvous channel is stuck iff, before the link dies, two paired transfers go the same way (both sending or both receiving). |
| `Lockstep.ChannelAligned` | src/main.cpp:376-379 | When paired transfers always go opposite ways, the channel does not deadlock. The transfers the link carries complete on both sides with the same value, the others fail with `Disconnected`, and unused rendezvous remain only when both peers finished together. |
| `Lockstep.StuckIff` | src/main.cpp:373-380 | Two peers deadlock iff they hold the same role, both have something to exchange, and the link is alive. So a server and a client never deadlock. |
| `Lockstep.InStep` | src/main.cpp:373-380 | A server and a client running programs of the same shape: no deadlock. Each completed receive yields exactly the value the other peer sent, and a failed one yields nothing. Both stop at the same exchange, with status `Disconnected`, and stop early iff a critical exchange lies beyond the link's life. |
| `Physics.BoxAround` | src/main.cpp:187-196 | A shape's box is exactly as wide and as high as the shape, its midpoint is the shape's center, and it reaches half the width and half the height from the center on each side. |
| `Physics.FramesSize` | src/main.cpp:187-196 | Such a box has `right - left` equal to the width and `bottom - top` equal to the height, and its midpoint is the center. |
| `Physics.UpdatePositions` | src/main.cpp:185-200 | The ball's box uses the radius as its full width and height; each paddle's box is 15 by 60 around its center. Same code at Source/main.cpp:162-177. |
| `Physics.CollidedIffSharedPoint` | src/main.cpp:208-211 | For proper boxes, the inclusive overlap test holds iff the ball's box and the paddle's box share a point. |
| `Physics.WallBounce` | src/main.cpp:215-225 | Without a paddle hit, each velocity component keeps its magnitude. It is turned away from a wall the ball box has crossed: the left wall is tested before the right, the top before the bottom. With no wall crossed it is unchanged. |
| `Physics.ReflectsIff` | src/main.cpp:215-225 | The wall rules admit exactly one result: a velocity satisfies the bounce property iff it is `WallBounce`'s. |
| `Physics.BallVelocity` | Source/main.cpp:185-202 | A hit on either paddle, edges included, negates the horizontal component exactly once and leaves the vertical one alone; no wall rule runs then. Otherwise the wall rules apply. |
| `Physics.ClampLocal` | Source/main.cpp:204-211 | The local paddle's velocity becomes 0 iff it was 0, or points up with the box top at or above 0, or points down with the box bottom at or below 256. Otherwise it is unchanged. |
| `Physics.UpdateVelocities` | src/main.cpp:203-235 | The paddle collision takes priority over the walls. The local clamp is as in `ClampLocal`, and the remote velocity is never modified. Same code at Source/main.cpp:180-212. |
| `Physics.RightBounceThreshold` | src/main.cpp:197-219 | With the ball clear of the paddles and of the top and bottom walls, and moving right, it turns back iff its center x exceeds 512 - 10.5 / 2. |
| `Physics.UpdateShapes` | src/main.cpp:237-251 | The ball moves by its velocity and each paddle by its vertical velocity; paddles keep their x. The zero-velocity guards change nothing. Same code at Source/main.cpp:214-228. |
| `Physics.ProcessInput` | src/main.cpp:254-266 | Pressing W sets the local velocity to -8.8 and pressing S to 8.8. Any other key press, or any release, sets it to 0. Nothing else is written. Same code at Source/main.cpp:231-243. |
| `Physics.LastKeyIff` | src/main.cpp:130-144 | `LastKey` finds exactly the key event of a frame that no other key event follows. |
| `Physics.LastKeyNone` | src/main.cpp:130-144 | `LastKey` finds nothing exactly when no event of the frame is a key event, so the board then keeps its velocity. |
| `Physics.ProcessEvents` | src/main.cpp:130-144 | After a frame's events, the local velocity is what the last key event sets, or unchanged without one. Ball and remote velocity are untouched, and a window-close event does not change velocities. |
| `Chat.Truncate` | src/main.cpp:278-279 | The result is the first `min(n, cap)` characters of the input. |
| `Chat.LocalNick` | src/main.cpp:273-279 | The nick is the first non-empty line read, cut to at most 10 characters. It is non-empty. There is no nick (the prompt never ends) iff every line is empty. Same code at Source/main.cpp:249-255. |
| `Chat.Handed` | src/main.cpp:322-328 | The input thread hands a line over as the next message iff it is not blank: not empty, and not a lone space, newline or tab. The comparison with `"\0"` is one with the empty string. |
| `Chat.Format` | src/main.cpp:388-391 | A chat line is the nick, then `":> "`, then the message's first 50 characters, with length to match. |
| `Chat.TrimAsWritten` | src/main.cpp:419-425 | Below 100 entries the history is kept. From 100 entries on it becomes exactly old[80..100). |
| `Chat.Trim` | src/main.cpp:419-425 | Corrected trim: below 100 entries it keeps the history; from 100 on it keeps the newest 20, always a suffix. |
| `Chat.TrimsAgreeUpTo100` | src/main.cpp:419-425 | The written and the corrected trim agree on every history of at most 100 entries. |
| `Chat.UpdateChat` | src/main.cpp:383-407 | The own message, if any, and the received line, if any, are appended in that order, and the pending slot is cleared. The window is redrawn iff something was appended, and without a redraw the history is unchanged. With a redraw the history is trimmed as written: below 100 entries all lines are kept, from 100 on it is exactly entries 80 to 99. A history below 100 stays below 100. When the tick does not go past 100 entries, the new lines are the newest ones kept. |
| `Chat.UpdateChatCorrected` | src/main.cpp:383-407 | `UpdateChat` with the corrected trim: from any history below 100 entries, the tick's own message and received line are always the newest entries kept, in order. |
| `Chat.UpdateChatsAgree` | src/main.cpp:383-407 | Both versions give the same result whenever the tick does not take the history past 100 entries. |
| `Chat.NewestMessageLost` | src/main.cpp:420-425 | With 99 entries, a tick that both sends and receives leaves 101 entries. The written trim drops the line just received; the corrected one keeps it. |
| `Chat.PrintChat` | src/main.cpp:418-431 | The history kept is the written trim: all entries below 100, exactly old[80..100) from 100 on. The window has exactly 20 rows: the newest `min(n, 20)` kept entries in order, each ending in a newline, then newline-only rows. |
| `Chat.Window` | src/main.cpp:427-431 | The 20-row layout on its own: the last `min(n, 20)` entries in order, then blank padding. |
| `Game.InitialShapes` | Source/main.cpp:113-119 | The server puts its own paddle at x = 7.5 and the other at x = 504.5, and the client mirrors this. Both paddles are at mid height, the ball at the center (Source/main.cpp:24). Same placement at src/main.cpp:170-183. |
| `Game.InitialPlacementMirrors` | Source/main.cpp:113-119 | Each peer's own paddle starts where the other peer draws its remote paddle, and the ball starts at the same place on both. |
| `Game.InitialPaddleBoxes` | Source/main.cpp:113-119 | The starting paddle boxes are 15 by 60 at mid height, against the left wall (0 to 15) and the right wall (497 to 512). |
| `Game.TickSteps` | src/main.cpp:146-154 | A tick's exchanges end with the critical velocity exchange; everything before it (the chat packet, in src/main.cpp) is non-critical. |
| `Game.StartMirrors` | Source/main.cpp:107-119 | The two starting states agree: mirrored boards, the same ball velocity, and each peer's remote velocity equal to the other's own. |
| `Game.Prepare` | src/main.cpp:130-149 | The part of a frame before the exchanges changes only the velocities and the pending message. Role, shapes, remote nick and remote velocity stay as they were, and the pending message is the typed line filtered by `Chat.Handed` (src/main.cpp:322-328). |
| `Game.PrepareAgrees` | src/main.cpp:130-149 | From agreeing states, the event loop, `update_positions` and `update_velocities` give both peers the same ball velocity. They keep the boards and the nicks. |
| `Game.TickExchange` | src/main.cpp:146-154 | A tick's exchanges never deadlock and stop on both sides alike. They stop iff the link carries fewer rendezvous than the tick uses. A completed tick gives each side the other's velocity and, in src/main.cpp, the other's chat packet. |
| `Game.Finish` | src/main.cpp:146-156 | The part of a frame after the exchanges keeps the peer's own nick. In src/main.cpp the chat becomes `UpdateChat` of the text of the first packet received, or of an empty text when nothing was received, so the own pending message is appended even after a failed receive (src/main.cpp:383-397). In Source/main.cpp the chat is left alone. |
| `Game.FinishKeeps` | src/main.cpp:151-154 | Finishing a tick keeps a peer's role and nicks, its own velocity and the ball's. The remote velocity is the one the last receive delivered, even when the send that followed failed, because `Receive` writes `velocities.remote` before the exchange reports failure (src/main.cpp:361-364, 373-379). Without a delivered velocity it is kept. After a failed exchange the shapes stay where they were. |
| `Game.FinishMoves` | src/main.cpp:151-156 | After a completed velocity exchange delivering x, the remote velocity becomes x, the shapes move by the new velocities, and the chat is the tick's `UpdateChat`. |
| `Game.MovedMirror` | src/main.cpp:151-156 | Two agreeing peers that each take the other's own velocity as remote agree again after `update_shapes`. |
| `Game.JointTick` | Source/main.cpp:122-154 | One frame at both peers, with the exchanges over the shared link. A tick that does not hang keeps each peer's role and own nick. |
| `Game.CutAfterClientReceive` | src/main.cpp:373-379 | When the link dies between the client's receive and its send of the velocity, both peers stop. The client has received the server's velocity, and the server has received no velocity. |
| `Game.TickCutAfterClientReceive` | src/main.cpp:151-154 | In that case the tick stops. The client's remote velocity is the server's own, the server's velocities are those before the exchange, and neither board moves. |
| `Game.DeadLinkTick` | src/main.cpp:151-154 | A tick over a dead link stops, and each peer's half of it leaves its board where it was. |
| `Game.TickAgrees` | Source/main.cpp:122-154 | A joint tick never deadlocks. It completes iff the link carries its rendezvous. A completed tick keeps the two simulations mirrored; a stopped one leaves the boards as they were. |
| `Game.TickKeepsMirror` | src/main.cpp:129-163 | `TickAgrees`, and in a completed tick each side's chat takes in the other's outgoing line, through `UpdateChat`. |
| `Game.Span` | src/main.cpp:129-140 | The number of ticks two peers play on a link that never dies: up to and including the first tick in which a window is closed. No window is closed before it, and it is 0 iff there are no frames. |
| `Game.RunTicks` | src/main.cpp:129-163 | The frame loop at both peers, up to a stopped tick, a closed window or the end of the frames. It keeps each peer's role and own nick. |
| `Game.Closing` | src/main.cpp:138-165 | The end after a frame in which a window was closed. No further tick is counted, and each peer keeps its role and own nick. |
| `Game.ClosingLockstep` | src/main.cpp:138-165 | When a window is closed, that peer finishes the tick, leaves the loop and disconnects. The session fails iff the other peer did not close too and has a further tick, which then fails on the dead link. The boards still agree. |
| `Game.RunTicksLockstep` | src/main.cpp:129-163 | From agreeing states ticking never hangs and keeps the boards agreeing, and the simulations too unless it fails. It plays `Span` ticks when the link carries them; otherwise it stops at the first tick the link cannot carry. It fails exactly then, or when one peer leaves the other alone. |
| `Game.Handshake` | src/main.cpp:305-313 | The nick exchange completes iff the link carries both of its rendezvous, and each side then holds the other's nick. Same code at Source/main.cpp:281-289. |
| `Game.PlaySession` | src/main.cpp:112-165 | A whole session: the nick handshake, then the frame loop. It ends with a server and a client that keep their own nicks. Same shape at Source/main.cpp:88-157, with the handshake at Source/main.cpp:281-289. |
| `Game.SessionLockstep` | src/main.cpp:112-165 | A whole session (handshake, then the frame loop) never deadlocks. Both peers learn each other's nick, the boards agree at the end, and the simulations agree unless a transfer failed. The session fails iff the link cannot carry the handshake and the `Span` ticks, or a peer is left alone. Both peers complete the same ticks. |

## Left out

- Rendering, the SFML window and frame pacing (`setFramerateLimit`, `clear`, `draw`, `display`) are user-interface plumbing; a frame is one tick.
- Connection setup is not modelled: listening, accepting and connecting (src/main.cpp:281-303, Source/main.cpp:257-279) and their early `return false`. A session starts with the link established.
- `sf::TcpSocket` is replaced by an unbuffered rendezvous channel that carries a given number of rendezvous. TCP buffering, timeouts and the wire format of `sf::Packet` are library internals. A packet is one string, and an empty or missing packet reads as `""`.
- `Connection.Delivered` treats a `Done` receive of the raw velocity as the whole `float`. `bytes_received` (src/main.cpp:364, Source/main.cpp:319) is never compared with `sizeof(float)` in the code, and partial reads are a socket-level detail the channel does not have.
- `Chat.Truncate` counts characters, while `resize(10)` and `substr(0, 50)` (src/main.cpp:278-279, 389-390) count the bytes of a `std::string`. A nick or message with multi-byte characters is cut at a different place.
- Floating point: coordinates and velocities are real numbers, including 8.8 and 2.5 / 4. IEEE-754 rounding and the bit identity of the exchanged `float` are out of scope, so the mirror results hold for exact arithmetic. Both peers do run the same float operations on the same values.
- The input thread (src/main.cpp:319-333) is not modelled as a thread. Its rule of reading a new line only while no message is pending, and the unsynchronised sharing of `sending_msg` and `is_running`, are concurrency. Each tick takes the last line read as an input, filtered through `Chat.Handed`.
- Console output is not modelled: `clear`/`cls`, the banner lines and "connected to:". `Chat.PrintChat` returns the rows it prints.
- Both peers get one input per frame, in sequences of the same length. A peer cannot play frames on its own, except for the survivor's single frame after the other peer closed its window.
- The survivor's last frame is modelled as its half of a joint tick over a link with no rendezvous left. On a dead link the peers no longer interact, so the closed peer's half is discarded.
- Events queued after a window-close event in the same frame are still processed in the model. Whether SFML's `pollEvent` delivers them after `close()` is library behaviour that is not visible here.
- Command-line dispatch in `main` (`-server`/`-client`, usage errors) is a string comparison that picks the role; the role is an input.
- `Connection::Close` (src/main.cpp:337-344) disconnects and clears `is_running`. The input thread was detached at src/main.cpp:333, so `joinable()` is false and nothing is joined. The model keeps only the disconnect, as the end of the link.

## Findings

| source | as written | input that shows it | evidently intended | confidence | as-written member | corrected member |
|---|---|---|---|---|---|---|
| src/main.cpp:420-425 | Once the history has 100 or more entries, entries 80 onwards are moved to the front and everything from index 20 on is erased, so exactly old[80..100) is kept | 99 entries in the history, then one tick in which the peer sends a message and receives one (pushes at src/main.cpp:393 and :401): 101 entries, and the trim keeps entries 80-99, so the line just received is dropped without ever being printed | keep the newest 20 entries, old[n-20..n) | not executed; follows from the code for every history of 101 entries | `Chat.NewestMessageLost` | `Chat.UpdateChatCorrected` |

The as-written trim `Chat.TrimAsWritten` is what `Chat.UpdateChat`, `Chat.PrintChat` and the game loop use, as in the source. The corrected trim is `Chat.Trim`, and `Chat.UpdateChatCorrected` proves that the tick's lines are never lost. `Chat.UpdateChatsAgree` shows that the two differ only in a tick that goes past 100 entries.
