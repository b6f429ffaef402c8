# JigsawQuest: connection registry, cursor relay and puzzle interaction

JigsawQuest is a shared jigsaw-puzzle board. Its server keeps a registry of
WebSocket connections, one per browser. Each connection has a server-made id
and a last known cursor position. The server relays every cursor update to
the other connections, and tells everyone when a user joins or leaves. Each
client keeps a roster of the users it has heard of. It draws a cursor for
every user except itself, and reports its own pointer on a fixed interval.
On the board, a box selection marks pieces. Pressing on a piece drags that
piece alone, or drags the whole selection if the piece was selected.
Dragged pieces are raised to the top of the stacking order.

The model has one module per source file, plus four shared ones:

| module | file | models |
|---|---|---|
| `ServerTypes` | `server_types.dfy` | the server's message vocabulary, close codes and connection record |
| `ClientTypes` | `client_types.dfy` | the client's copy of the vocabulary, and how each side reads the other's frames |
| `Manager` | `websocket_manager.dfy` | `WebSocketManager`: the registry, broadcast, unicast and the four socket handlers |
| `Pieces` | `puzzle_piece.dfy` | `PuzzlePiece`, plus the selection flag and `select`/`deselect` of the `Selectable` interface, and an assumed hover flag |
| `Selection` | `selection_box.dfy` | `SelectionBox` and its enclosure test |
| `Puzzles` | `puzzle.dfy` | `Puzzle`: the piece map, the stacking order, and the drag and hover handlers |
| `SceneStore` | `scene_store.dfy` | the client roster store and its four actions |
| `WebSocketStores` | `websocket_store.dfy` | the client connection store |
| `Scene` | `scene.dfy` | the `Scene` component's message dispatch, remote-cursor filter, interval sampler and box-drag handlers |
| `Seqs` | `seqs.dfy` | sequence helpers, including PixiJS `setChildIndex` and JS `Map.delete` on an insertion order |
| `Transport` | `transport.dfy` | a WebSocket as the core sees it: ready state, messages sent, close code |
| `Geometry` | `geometry.dfy` | integer vectors, rectangles and the mutable PixiJS `Point` |
| `Optional` | `optional.dfy` | `Option`, for `undefined` and `null` |

State the source changes in place is kept in classes:
- the server registry (`connections` map plus its insertion `order`);
- each piece;
- the selection box;
- the puzzle (`pieces`, `children` in stacking order, the drag piece);
- the connection store;
- the cursor sampler's two refs;
- the demo box's drag variables;
- each socket.

The roster store's actions build a new map from the old one each time, so
they are functions on a sequence of users kept in map insertion order.

The server's registry invariant `WebSocketManager.Valid` says:
- the insertion order lists each id once;
- the order lists exactly the map's keys;
- each record carries its own key;
- no two records share a socket.

The puzzle's invariant `Puzzle.Valid` says:
- uids are distinct;
- the children are exactly the pieces, each once;
- a drag piece is one of the pieces.

## Model

| member | source | states |
|---|---|---|
| `ServerTypes.StatusOf` | server/src/types/webSocket.ts:2-5 | the enum's reverse mapping is defined exactly on 1000 and 1011 and inverts `Code` there |
| `ServerTypes.StatusCodes` | server/src/types/webSocket.ts:2-5 | the two statuses are 1000 (normal closure) and 1011 (unexpected server condition) of section 7.4.1 of RFC 6455, and the reverse mapping returns each status from its code |
| `ServerTypes.Variant` | server/src/types/webSocket.ts:55 | every server message has one of the four variant numbers 0 to 3 |
| `ServerTypes.VariantsCovered` | server/src/types/webSocket.ts:55 | each of the four variant numbers is taken by some message; with `ServerTypes.Variant`, the union has exactly four variants |
| `ServerTypes.TagsDistinct` | server/src/types/webSocket.ts:26-55 | two server messages carry the same `type` string exactly when they are the same variant, so the switch on `type` identifies the variant |
| `ServerTypes.DirectionsDistinct` | server/src/types/webSocket.ts:20-56 | no server-to-client tag equals the client-to-server tag |
| `ClientTypes.Variant` | client/src/types/webSocket.ts:52 | every client-side server message has one of the four variant numbers 0 to 3 |
| `ClientTypes.VariantsCovered` | client/src/types/webSocket.ts:52 | each of the four variant numbers is taken by some message; with `ClientTypes.Variant`, the client's union has exactly four variants |
| `ClientTypes.TagsDistinct` | client/src/types/webSocket.ts:13-52 | on the client too, the `type` string identifies the variant |
| `ClientTypes.ReadEntries` | client/src/types/webSocket.ts:38-50 | the client reads a roster entry by entry: same length, entry k read from entry k |
| `ClientTypes.WriteEntries` | server/src/types/webSocket.ts:44-53 | the server's roster written from client entries, entry by entry |
| `ClientTypes.Received` | client/src/types/webSocket.ts:13-52 | a server frame is read as the client variant with the same tag |
| `ClientTypes.Written` | server/src/types/webSocket.ts:26-55 | a client-side server message corresponds to the server variant with the same tag |
| `ClientTypes.Sent` | client/src/types/webSocket.ts:2-10 | the client's cursor message reaches the server with the same tag and the same position |
| `ClientTypes.ServerVocabularyMatches` | client/src/types/webSocket.ts:13-52 | the two copies of the vocabulary agree exactly: reading what the server wrote, and writing back what the client read, are mutual inverses |
| `ClientTypes.ClientVocabularyMatches` | client/src/types/webSocket.ts:2-10 | distinct client messages reach the server as distinct messages, and equal ones as equal |
| `Transport.Socket.constructor` | server/src/services/webSocketManager.ts:21 | a socket starts in a given ready state, with nothing sent and no close requested |
| `Transport.Socket.Send` | server/src/services/webSocketManager.ts:62 | `send` hands over exactly one message and changes nothing else |
| `Transport.Socket.Close` | server/src/services/webSocketManager.ts:127 | `close(code)` records the code, sends nothing, and moves a connecting or open socket to closing |
| `Manager.RosterOf` | server/src/services/webSocketManager.ts:102-106 | the roster lists every registered connection in map order, with its stored position, and flags as owner exactly the entries of the recipient |
| `Manager.RosterHasOneOwner` | server/src/services/webSocketManager.ts:102-106 | for a registered recipient the roster has exactly one owner entry, and it names the recipient |
| `Manager.WebSocketManager.constructor` | server/src/services/webSocketManager.ts:13-15 | the registry starts empty and valid |
| `Manager.WebSocketManager.AddConnection` | server/src/services/webSocketManager.ts:21-28 | a fresh id is registered last, at (0, 0), on its own socket, and the registry stays valid |
| `Manager.WebSocketManager.SendBroadcast` | server/src/services/webSocketManager.ts:49-64 | each registered, non-excluded connection with an open socket gets exactly one copy; every other socket gets nothing; no socket is closed or changes state |
| `Manager.WebSocketManager.SendMessage` | server/src/services/webSocketManager.ts:71-86 | exactly the addressed connection gets one copy, and only if it is registered and open; every other socket gets nothing |
| `Manager.WebSocketManager.Unregister` | server/src/services/webSocketManager.ts:36 | `connections.delete(id)` removes the id from the map and from the insertion order, and the registry stays valid |
| `Manager.WebSocketManager.RemoveConnection` | server/src/services/webSocketManager.ts:35-41 | the connection leaves the registry, every remaining open connection is told once that it left, and the removed socket gets nothing |
| `Manager.WebSocketManager.HandleOpen` | server/src/services/webSocketManager.ts:93-112 | every other open connection gets one "user connected" message; the new connection, if open, gets exactly its roster; the registry is untouched |
| `Manager.WebSocketManager.CloseWith` | server/src/services/webSocketManager.ts:119-143 | an unknown id changes nothing; a known one is closed with the given status's code, removed, and announced to the remaining open connections |
| `Manager.WebSocketManager.HandleClose` | server/src/services/webSocketManager.ts:119-129 | a close event closes the socket with 1000, removes the connection and announces it to the remaining open connections; the closed socket itself is sent nothing; an unknown id changes nothing |
| `Manager.WebSocketManager.HandleError` | server/src/services/webSocketManager.ts:136-143 | an error event closes the socket with 1011, removes the connection and announces it to the remaining open connections; the closed socket itself is sent nothing; an unknown id changes nothing |
| `Manager.WebSocketManager.SetPosition` | server/src/services/webSocketManager.ts:161-162 | only the sender's stored position changes; the order and every socket stay as they were |
| `Manager.WebSocketManager.HandleMessage` | server/src/services/webSocketManager.ts:150-176 | an unknown sender or an unrecognised type changes nothing; a cursor update changes only the sender's stored position and reaches every other open connection exactly once, tagged with the sender's id |
| `Pieces.FollowGrabPoint` | client/src/entities/puzzle-piece.ts:27-32 | moving to the pointer that grabbed the piece leaves it where it was |
| `Pieces.FollowDelta` | client/src/entities/puzzle-piece.ts:30-33 | between two moves the piece is displaced by exactly the pointer's displacement |
| `Pieces.Started` | client/src/entities/puzzle-piece.ts:24-28 | after `startDrag` the piece has not moved and keeps its hover flag, and it is at z-index 1000 and outlined |
| `Pieces.Moved` | client/src/entities/puzzle-piece.ts:30-33 | after `drag` the piece keeps its z-index, outline, hover flag and recorded offset: only its position changes |
| `Pieces.OffsetsAgree` | client/src/entities/puzzle-piece.ts:24-33 | the offset `startDrag` records brings the piece back to where it was from the grabbing pointer, and after `drag` the piece sits at exactly the recorded offset from the pointer |
| `Pieces.Ended` | client/src/entities/puzzle-piece.ts:35-38 | after `endDrag` the piece is where it was, with its recorded offset and hover flag, back at the given original z-index and without outline |
| `Pieces.DragTracksPointer` | client/src/entities/puzzle-piece.ts:24-33 | after a grab, the piece sits at its start plus the pointer's displacement; only the last move matters; a move to the grab point is a no-op |
| `Pieces.DragRoundTrip` | client/src/entities/puzzle-piece.ts:24-38 | start, move and end a drag: the piece is where the pointer took it and is otherwise as before |
| `Pieces.UidSource.constructor` | client/src/entities/puzzle-piece.ts:18 | the uid counter starts at zero |
| `Pieces.UidSource.Next` | client/src/entities/puzzle-piece.ts:18 | each uid is one more than the previous one, so no two pieces share a uid |
| `Pieces.PuzzlePiece.constructor` | client/src/entities/puzzle-piece.ts:16-22 | a new piece has a uid greater than any issued before, remembers its z-index 0, sits at the origin, and is not outlined, hovered or selected |
| `Pieces.PuzzlePiece.StartDrag` | client/src/entities/puzzle-piece.ts:24-28 | the piece is raised to 1000 and outlined, and records the pointer's offset; it does not move |
| `Pieces.PuzzlePiece.Drag` | client/src/entities/puzzle-piece.ts:30-33 | the piece moves to the pointer less the recorded offset; nothing else changes |
| `Pieces.PuzzlePiece.EndDrag` | client/src/entities/puzzle-piece.ts:35-38 | the outline is dropped and the creation-time z-index restored; the piece does not move |
| `Pieces.PuzzlePiece.Select` | client/src/entities/selectable.ts:6 | the piece becomes selected and nothing else about it changes |
| `Pieces.PuzzlePiece.Deselect` | client/src/entities/selectable.ts:7 | the piece becomes unselected and nothing else about it changes |
| `Pieces.PuzzlePiece.StartHover` | client/src/entities/puzzle.ts:169 | the assumed `startHover` (declared nowhere in the source) changes only the hover flag, to on |
| `Pieces.PuzzlePiece.EndHover` | client/src/entities/puzzle.ts:174 | the assumed `endHover` (declared nowhere in the source) changes only the hover flag, to off |
| `Selection.Span` | client/src/entities/selection-box.ts:38-43 | the spanned rectangle has non-negative size and has origin and cursor as opposite corners |
| `Selection.SpanSymmetric` | client/src/entities/selection-box.ts:38-43 | the rectangle does not depend on which corner the gesture started from |
| `Selection.Encloses` | client/src/entities/selection-box.ts:76-77 | an item the box encloses is strictly narrower than the box and no taller than it |
| `Selection.EdgePolicy` | client/src/entities/selection-box.ts:76-77 | an item flush with the box's right edge is not enclosed; one flush with the bottom edge is |
| `Selection.ZeroWidthEnclosesNothing` | client/src/entities/selection-box.ts:76 | a box of zero width encloses nothing, whatever its height |
| `Selection.BoundsOf` | client/src/entities/selection-box.ts:74 | one rectangle per candidate, in order, each the candidate's bounds |
| `Selection.Hits` | client/src/entities/selection-box.ts:76-77 | one verdict per rectangle, true exactly when the box encloses it |
| `Selection.ChosenMembers` | client/src/entities/selection-box.ts:70-88 | a candidate is among those collected exactly when one of its positions is a hit |
| `Selection.EnclosedMembers` | client/src/entities/selection-box.ts:70-88 | a candidate is among the returned selections exactly when the box encloses it |
| `Selection.SelectItem` | client/src/entities/selection-box.ts:74-84 | an item is selected exactly when the box encloses it, and deselected otherwise; nothing else about it changes |
| `Selection.SelectItemAt` | client/src/entities/selection-box.ts:73-85 | one iteration decides the next candidate, keeps the verdicts already given, and extends the selections by that candidate exactly when it is enclosed |
| `Selection.SelectItems` | client/src/entities/selection-box.ts:70-88 | every candidate's flag ends equal to whether the box encloses it, nothing else changes, and the result is exactly the enclosed candidates in order |
| `Selection.SelectionBox.constructor` | client/src/entities/selection-box.ts:15-22 | a new box is inactive, has no candidates, and is of zero size at a fresh origin (0, 0) |
| `Selection.SelectionBox.BeginSelect` | client/src/entities/selection-box.ts:24-32 | the box becomes active, keeps the caller's origin point itself and the candidates as they are at this call; its rectangle is unchanged |
| `Selection.SelectionBox.Select` | client/src/entities/selection-box.ts:34-60 | inactive: nothing happens and nothing is returned. Active: the box is re-spanned from origin to cursor, each candidate's flag becomes its enclosure verdict, and exactly the enclosed candidates are returned in order |
| `Selection.SelectionBox.EndSelect` | client/src/entities/selection-box.ts:62-68 | the box becomes inactive and zero, and the shared origin point is reset to (0, 0) in place |
| `Seqs.Remove` | server/src/services/webSocketManager.ts:36 | deleting a key takes it out of the insertion order once and keeps every other key |
| `Seqs.SetChildIndex` | client/src/entities/puzzle.ts:190 | `setChildIndex` puts the child at the requested index and keeps the number of children |
| `Seqs.SetChildIndexMovesOnlyChild` | client/src/entities/puzzle.ts:190 | moving a child keeps the same children, each once, and the others in their relative order |
| `Seqs.SetChildIndexTop` | client/src/entities/puzzle.ts:190 | moving a child to the last index takes it out and puts it on top |
| `Seqs.IndexOf` | client/src/entities/puzzle.ts:208 | `getChildIndex` is the child's position: it holds the child, and no earlier position does |
| `Puzzles.Lookup` | client/src/entities/puzzle.ts:178 | the map lookup finds a piece with the uid, or null only when no piece has it |
| `Puzzles.LookupFindsPiece` | client/src/entities/puzzle.ts:178 | with distinct uids, looking a held piece up by its uid finds that very piece |
| `Puzzles.DepthOrderSorts` | client/src/entities/puzzle.ts:207-208 | the sort's result holds exactly the selected pieces, each once, with child indices strictly decreasing: topmost first |
| `Puzzles.LiftNext` | client/src/entities/puzzle.ts:209 | lifting the next sorted piece into the slot just below those already lifted extends the lifted block by that piece |
| `Puzzles.LiftOne` | client/src/entities/puzzle.ts:209 | one `forEach` step, `setChildIndex(piece, totalPieces - index)`, advances the stack from n lifted pieces to n + 1 |
| `Puzzles.LiftedPermutes` | client/src/entities/puzzle.ts:207-209 | after all lifts the stack holds the same pieces as before, each once |
| `Puzzles.LiftToTop` | client/src/entities/puzzle.ts:207-209 | the lifting loop leaves the unlifted pieces in their order at the bottom, with the sorted pieces above them in reverse sort order; the stack is a permutation of the old one |
| `Puzzles.LiftSorted` | client/src/entities/puzzle.ts:199-209 | sorting the selected pieces topmost first and then lifting them puts the unselected pieces at the bottom and the selected ones on top, each group in its previous order |
| `Puzzles.Puzzle.constructor` | client/src/entities/puzzle.ts:58-72 | a new puzzle has no pieces, no children, no drag piece, no group drag and no move listener |
| `Puzzles.Puzzle.AddPiece` | client/src/entities/puzzle.ts:113-114 | a piece with a new uid goes on top of the stack and last in the map; the invariant holds |
| `Puzzles.Puzzle.CaptureDragPiece` | client/src/entities/puzzle.ts:177-180 | the drag piece becomes the held piece with the target's uid, and is non-null exactly when such a piece exists |
| `Puzzles.Puzzle.DeselectAll` | client/src/entities/puzzle.ts:183-188 | afterwards no piece is selected, and nothing else about any piece changes |
| `Puzzles.Puzzle.StartDragSingle` | client/src/entities/puzzle.ts:182-193 | every piece is deselected, the drag piece alone goes to the top of the stack and starts its drag, and the others are otherwise untouched |
| `Puzzles.Puzzle.StartDragSelected` | client/src/entities/puzzle.ts:199-205 | exactly the selected pieces start a drag and are collected; selection flags are unchanged |
| `Puzzles.Puzzle.StartDragGroup` | client/src/entities/puzzle.ts:195-212 | every selected piece starts a drag; the selected pieces end on top of the stack and the rest below, each group in its previous order |
| `Puzzles.Puzzle.StartDrag` | client/src/entities/puzzle.ts:131 | a selected drag piece starts a group drag; an unselected one starts a single drag |
| `Puzzles.Puzzle.HandleDragStart` | client/src/entities/puzzle.ts:124-133 | only a primary press on a held piece stops propagation, starts a drag and registers one move listener; a primary press on an unknown piece clears the drag piece; any other press changes nothing |
| `Puzzles.Puzzle.DragSelected` | client/src/entities/puzzle.ts:141-146 | every selected piece follows the pointer; unselected pieces do not change |
| `Puzzles.Puzzle.HandleDrag` | client/src/entities/puzzle.ts:135-147 | with no drag piece nothing moves; otherwise exactly the selected pieces follow the pointer |
| `Puzzles.Puzzle.EndDragSelected` | client/src/entities/puzzle.ts:156-161 | every selected piece ends its drag; unselected pieces do not change |
| `Puzzles.Puzzle.HandleDragEnd` | client/src/entities/puzzle.ts:149-165 | with no drag piece nothing happens. Otherwise the move listener goes, the selected pieces end their drags, a single-drag piece is deselected, the drag piece clears, and the stacking order stays |
| `Puzzles.Puzzle.HandleHoverStart` | client/src/entities/puzzle.ts:167-170 | the piece is highlighted exactly when no drag and no box selection is in progress (the guard `isHoverEventValid`, lines 214-216); nothing else changes |
| `Puzzles.Puzzle.HandleHoverEnd` | client/src/entities/puzzle.ts:172-175 | the highlight is dropped exactly when no drag and no box selection is in progress (the guard `isHoverEventValid`, lines 214-216); nothing else changes |
| `Puzzles.SingleDragScenario` | client/src/entities/puzzle.ts:124-193 | an unselected piece pressed, moved and released stays at its place, at z-index 1000, outlined |
| `Puzzles.GroupDragScenario` | client/src/entities/puzzle.ts:124-212 | a selected piece pressed, moved and released moves by the pointer's displacement, returns to z-index 0 without outline, and stays selected |
| `Puzzles.HoverDuringDragScenario` | client/src/entities/puzzle.ts:124-216 | a piece highlighted before its drag keeps the highlight when the pointer leaves it mid-drag, and loses it when the pointer leaves after the drag has ended: a drag started by `handleDragStart` blocks hover events, and `handleDragEnd` unblocks them |
| `Puzzles.HoverDuringSelectionScenario` | client/src/entities/puzzle.ts:167-216 | while the box selection is active, the pointer entering a piece does not highlight it; after `endSelect` it does |
| `SceneStore.GetUser` | client/src/store/sceneStore.ts:28-30 | `getUser` finds a stored user with that id exactly when one exists |
| `SceneStore.AddUser` | client/src/store/sceneStore.ts:19-22 | the user is stored, the roster grows by at most one, nothing but the user is added, and no user with another id is lost |
| `SceneStore.RemoveUser` | client/src/store/sceneStore.ts:23-27 | nothing is added, and every user with another id stays |
| `SceneStore.UpdateUserCursor` | client/src/store/sceneStore.ts:31-41 | the roster keeps its length, and every entry keeps its id and ownership flag in its place: only positions change |
| `SceneStore.GetUserAt` | client/src/store/sceneStore.ts:28-30 | with unique ids, looking up a stored user's id finds that user |
| `SceneStore.InitialEmpty` | client/src/store/sceneStore.ts:18 | the initial roster is empty |
| `SceneStore.AddUserSpec` | client/src/store/sceneStore.ts:19-22 | after `addUser` the user is found under its id and other ids find what they found before. A known id keeps its place in map order and a new id goes last. Ids stay unique |
| `SceneStore.RemoveUserSpec` | client/src/store/sceneStore.ts:23-27 | after `removeUser` the id is gone and other ids are unaffected; removing an absent id changes nothing |
| `SceneStore.UpdateUserCursorSpec` | client/src/store/sceneStore.ts:31-41 | an unknown id or a missing position changes nothing; otherwise only that user's position changes, in place |
| `SceneStore.AddUserIdempotent` | client/src/store/sceneStore.ts:19-22 | adding the same user twice is adding it once |
| `SceneStore.RemoveAfterAdd` | client/src/store/sceneStore.ts:19-27 | adding a user and then removing it leaves the roster as removing it alone would |
| `WebSocketStores.WebSocketStore.constructor` | client/src/store/webSocketStore.ts:12-13 | the store starts with no connection, not connected |
| `WebSocketStores.WebSocketStore.SetConnection` | client/src/store/webSocketStore.ts:22-25 | the store holds the given connection, and is connected exactly when there is one |
| `WebSocketStores.WebSocketStore.SendMessage` | client/src/store/webSocketStore.ts:14-21 | the message is sent exactly once when connected with a connection, and not at all otherwise; the socket's state is untouched |
| `Scene.AddUsers` | client/src/components/Scene.tsx:42-49 | applying a roster adds at most one user per entry and loses no stored id |
| `Scene.HandleMessage` | client/src/components/Scene.tsx:38-68 | only a roster or a connect message can add users, only a disconnect can remove one, and a cursor update keeps every user's id and ownership flag in its place |
| `Scene.LastEntry` | client/src/components/Scene.tsx:43-49 | the roster entry that wins for an id is one listed for it, and there is none exactly when the id is not listed |
| `Scene.AddUsersSpec` | client/src/components/Scene.tsx:42-50 | after a roster each listed id finds its last entry, each unlisted id finds what it found before, and ids stay unique |
| `Scene.HandleMessageSpec` | client/src/components/Scene.tsx:38-68 | each message adds, removes or moves its own user as its type says, converting cursor positions to screen coordinates, and leaves every other user alone |
| `Scene.RemoteCursors` | client/src/components/Scene.tsx:245 | the cursors drawn are exactly the stored users that are not the owner |
| `Scene.RemoteCursorsOrdered` | client/src/components/Scene.tsx:245 | the cursors are drawn in roster order: of two drawn users, the one drawn first is stored first |
| `Scene.RemoteCursorsOfRoster` | client/src/components/Scene.tsx:245 | from a roster whose owner entries are exactly those of one id, a cursor is drawn for every other listed id and none for that one |
| `Scene.RosterEntries` | server/src/services/webSocketManager.ts:102-106 | as the client reads the server's roster, exactly the recipient's entries are owner entries, and the entries name exactly the registered ids |
| `Scene.OwnCursorHidden` | client/src/components/Scene.tsx:245 | a client that applies the server's opening roster to an empty store draws every other registered user's cursor and never its own |
| `Scene.CursorSampler.constructor` | client/src/components/Scene.tsx:17-18 | both refs start at (0, 0) |
| `Scene.CursorSampler.OnPointerMove` | client/src/components/Scene.tsx:197-205 | a pointer move records the sample and sends nothing |
| `Scene.CursorSampler.Tick` | client/src/components/Scene.tsx:136-149 | a tick sends the sample's world position once, but only when the sample changed since the last report and the store is connected. The sample then counts as reported |
| `Scene.TickTwice` | client/src/components/Scene.tsx:136-149 | two ticks with no pointer move between them send at most one message |
| `Scene.BoxDrag.constructor` | client/src/components/Scene.tsx:171-173 | the container starts at the origin with no drag in progress |
| `Scene.BoxDrag.OnDragStart` | client/src/components/Scene.tsx:175-183 | pressing starts a drag and records the pointer's offset from the container, which does not move |
| `Scene.BoxDrag.OnDragMove` | client/src/components/Scene.tsx:185-191 | while dragging the container sits at the pointer less the offset; otherwise it stays |
| `Scene.BoxDrag.OnDragEnd` | client/src/components/Scene.tsx:193-195 | releasing stops the drag and leaves the container where it is |
| `Scene.DragBox` | client/src/components/Scene.tsx:175-195 | press, move and release move the container by exactly the pointer's displacement |
| `Geometry.Point.constructor` | client/src/entities/selection-box.ts:18 | a new point holds the given coordinates |
| `Geometry.Point.Set` | client/src/entities/selection-box.ts:65 | `set` overwrites both coordinates in place |

## Behaviour as written

The model follows the code in these places:

- The roster sent to a new connection lists every registered connection, the recipient included. The recipient's own entry is flagged `isOwner`. The client keeps that entry in its store, and the remote-cursor filter hides it (`Scene.OwnCursorHidden`).
- `endSelect` deselects nothing. Pieces keep the flags the last `select` gave them.
- `isHoverEventValid` does not look at the piece's selection flag.
- A piece dragged alone is deselected before its drag starts. `handleDrag` and `handleDragEnd` move and end only selected pieces, so that piece neither follows the pointer nor ends its drag. It stays where it was, at z-index 1000, outlined (`Puzzles.SingleDragScenario`). Because the puzzle sets `sortableChildren` (client/src/entities/puzzle.ts:60), PixiJS then draws that piece above every piece at a lower z-index. A selected piece dragged as a group behaves as intended (`Puzzles.GroupDragScenario`).
- The positions in an `S_CONNECTED_USERS` roster go into the store as sent. Only `S_CURSOR_POSITION` positions pass through the screen conversion.
- `sendMessage` in the connection store checks the connected flag and the connection, but not the socket's ready state.
- The cursor interval (client/src/components/Scene.tsx:136-149) is created in an effect that depends only on `sendMessage` (line 223), and `handleMessage` is memoised on the three store actions (line 68). Both therefore keep converting with the scale factors of the first render, even after a resize. The model passes the conversion to `Scene.CursorSampler.Tick` and `Scene.HandleMessage` on every call, so it says nothing about which factors are current.

## Left out

- JSON encoding and decoding: messages are datatypes. An inbound server frame is `Recognized(message)` or `Unrecognized(tag)`, which models the switch's default branch.
- `crypto.randomUUID` is a parameter of `AddConnection`, required to be new. `utils.uid` is the `UidSource` counter.
- Event registration and dispatch: the socket handlers and the pointer handlers are called directly. The viewport's `pointermove` registration is a count (`moveListeners`). The `useEffect` that attaches `handleMessage` to the connection is not part of this model.
- The WebSocket itself: `Socket` records ready state, messages sent and close code. The closing handshake and the browser's own events are not modelled.
- Window-size scaling: `getWorldPosition` and `getScreenPosition` are function parameters. `Math.round` and the floating-point factors are not modelled, and coordinates are integers.
- `Pieces.FollowGrabPoint` and `Pieces.DragTracksPointer` hold exactly because coordinates are integers. With the source's IEEE doubles, `p - (p - x)` need not equal `x`, so a piece can end up off by a rounding error.
- Rendering: textures, sprites, `Graphics` drawing, the outline filter (a flag `outlined`), alpha, colours, `fit` and resize, `createMarker`, `centerViewport`, the users panel.
- The `setInterval` timer: each firing is a call to `CursorSampler.Tick`.
- `Puzzle._createPieces` is not modelled. It loads the two images and adds the puzzle and mask sprites, and those two sprites are not among the modelled children. The piece-creation loop is commented out, so `_pieces` is never filled as written. `Puzzles.Puzzle.AddPiece` models the commented-out `addChild` / `_pieces.set` pair. As in client/src/entities/puzzle.ts:197, `totalPieces` is the number of pieces less one.
- `Puzzles.Puzzle.StartDragSingle` and `Puzzles.Puzzle.StartDragGroup` (and `Seqs.SetChildIndexTop`) put pieces at the top of the modelled `children`, which hold the pieces only. In the source the container also holds the puzzle and mask sprites (client/src/entities/puzzle.ts:91-92), so the index `pieces.size - 1` used at lines 190 and 209 is not the container's last index there, and the model does not say where those sprites end up.
- PixiJS's render-time re-sort of children by `zIndex` (`sortableChildren`, client/src/entities/puzzle.ts:60) is not modelled. `children` is the order `setChildIndex` produces; the drawing order also depends on each piece's `zIndex`, which the model tracks separately.
- `Array.prototype.sort` with its comparator is modelled by the order it produces, `DepthOrder`: the selected pieces, topmost first (`Puzzles.DepthOrderSorts`).
- `Selection.SelectionBox.BeginSelect` stores the candidates as a sequence snapshot. The source keeps a reference to the caller's `Map` (client/src/entities/selection-box.ts:27), and `select` reads that live map (lines 56-57), so pieces added to it after `beginSelect` would be considered there but not in the model.
- Piece bounds are the piece's position and its texture's size. PixiJS's cached global bounds are not modelled.
- `PuzzlePiece` in puzzle-piece.ts does not itself declare `isSelected`, `select` or `deselect`. The `Selectable` interface (client/src/entities/selectable.ts:3-8) declares them, and the model gives the piece a selection flag with those two methods.
- `Pieces.PuzzlePiece.StartHover` and `Pieces.PuzzlePiece.EndHover` are the model's own assumption. `Selectable` does not declare `startHover` or `endHover`, and neither does puzzle-piece.ts. Yet `handleHoverStart` and `handleHoverEnd` call them (client/src/entities/puzzle.ts:169, 174), so as written those calls reach no method. The model assumes that each one only sets or clears a hover flag, `isHovered`, which is likewise not declared in the source.
- `SceneStore.UpdateUserCursor`: the source mutates the stored user object before re-inserting it, which also changes the object held by the previous map. The model builds a new record, so that aliasing is not modelled.
- `Cursor.tsx`, `usePerfectCursor`, `Initializer.tsx`, `App.tsx`, `scene.ts`, `constants.ts`, `server.ts` and the upgrade route are not part of this model.
- Logging (`console.error`, `console.log`) is left out.
