/**
 * The scene component's logic (client/src/components/Scene.tsx): the
 * dispatch of server messages onto the roster, the filter that picks the
 * remote cursors to draw, the periodic sampler that reports the local
 * cursor, and the drag handlers of the demo box container. Screen/world
 * scaling is passed in as a function, since it depends on the window size.
 */
module Scene {
  import opened Optional
  import opened Geometry
  import opened ClientTypes
  import opened SceneStore
  import opened WebSocketStores
  import opened Pieces
  import S = ServerTypes
  import M = Manager
  import Seqs

  /** A roster entry as `addUser` receives it: its position is taken as given. */
  function ToSceneUser(e: UserEntry): SceneUser {
    SceneUser(e.userId, e.position, e.isOwner)
  }

  /**
   * The `forEach` over an `S_CONNECTED_USERS` roster: one `addUser` per
   * entry, in order. The roster grows by at most one user per entry, and
   * every id stored before is still stored.
   */
  function AddUsers(users: seq<SceneUser>, entries: seq<UserEntry>): (r: seq<SceneUser>)
    ensures |users| <= |r| <= |users| + |entries|
    ensures forall u | u in users :: exists v | v in r :: v.id == u.id
    decreases |entries|
  {
    if entries == [] then users else AddUsers(AddUser(users, ToSceneUser(entries[0])), entries[1..])
  }

  /** The last entry of the roster for `id`: the one a later `addUser` leaves in place. */
  function LastEntry(entries: seq<UserEntry>, id: string): (r: Option<UserEntry>)
    ensures r.Some? ==> r.value in entries && r.value.userId == id
    ensures r.None? <==> forall e | e in entries :: e.userId != id
  {
    if entries == [] then None
    else match LastEntry(entries[1..], id)
      case Some(e) => Some(e)
      case None => if entries[0].userId == id then Some(entries[0]) else None
  }

  /**
   * `handleMessage`, after parsing: a roster adds every listed user as
   * given; a new user is added at (0, 0) and not the owner; a departed user
   * is removed; a cursor update is converted to screen coordinates and
   * applied to that user.
   */
  function HandleMessage(users: seq<SceneUser>, message: ServerMessage, toScreen: Position -> Position): (r: seq<SceneUser>)
    ensures message.SConnectedUsers? ==> |users| <= |r| <= |users| + |message.users|
    ensures message.SUserConnected? ==> |users| <= |r| <= |users| + 1
    ensures message.SUserDisconnected? ==> |r| <= |users|
    ensures message.SCursorPosition? ==>
      |r| == |users| && forall k | 0 <= k < |users| :: r[k].id == users[k].id && r[k].isOwner == users[k].isOwner
  {
    match message
    case SConnectedUsers(entries) => AddUsers(users, entries)
    case SUserConnected(id) => AddUser(users, SceneUser(id, Position(0, 0), false))
    case SUserDisconnected(id) => RemoveUser(users, id)
    case SCursorPosition(id, position) => UpdateUserCursor(users, id, Some(toScreen(position)))
  }

  /**
   * After a roster, each id finds the last entry listed for it, and an id
   * not listed finds what it found before; ids stay unique.
   */
  lemma {:induction false} AddUsersSpec(users: seq<SceneUser>, entries: seq<UserEntry>, id: string)
    requires UniqueIds(users)
    ensures UniqueIds(AddUsers(users, entries))
    ensures GetUser(AddUsers(users, entries), id) ==
      match LastEntry(entries, id)
      case Some(e) => Some(ToSceneUser(e))
      case None => GetUser(users, id)
    decreases |entries|
  {
    if entries != [] {
      AddUserSpec(users, ToSceneUser(entries[0]), id);
      AddUsersSpec(AddUser(users, ToSceneUser(entries[0])), entries[1..], id);
    }
  }

  /**
   * What each server message does to the roster, looked up by id: the
   * message's own user is added, removed or moved as its type says, every
   * other user is left alone, and ids stay unique.
   */
  lemma HandleMessageSpec(users: seq<SceneUser>, message: ServerMessage, toScreen: Position -> Position, other: string)
    requires UniqueIds(users)
    ensures UniqueIds(HandleMessage(users, message, toScreen))
    ensures message.SConnectedUsers? ==>
      GetUser(HandleMessage(users, message, toScreen), other) ==
        match LastEntry(message.users, other)
        case Some(e) => Some(ToSceneUser(e))
        case None => GetUser(users, other)
    ensures message.SUserConnected? ==>
      GetUser(HandleMessage(users, message, toScreen), message.userId) == Some(SceneUser(message.userId, Position(0, 0), false))
    ensures message.SUserDisconnected? ==>
      GetUser(HandleMessage(users, message, toScreen), message.userId) == None
    ensures message.SCursorPosition? ==>
      GetUser(HandleMessage(users, message, toScreen), message.userId) ==
        match GetUser(users, message.userId)
        case None => None
        case Some(u) => Some(u.(position := toScreen(message.position)))
    ensures !message.SConnectedUsers? && other != message.userId ==>
      GetUser(HandleMessage(users, message, toScreen), other) == GetUser(users, other)
  {
    match message
    case SConnectedUsers(entries) =>
      AddUsersSpec(users, entries, other);
    case SUserConnected(id) =>
      AddUserSpec(users, SceneUser(id, Position(0, 0), false), other);
    case SUserDisconnected(id) =>
      RemoveUserSpec(users, id, other);
    case SCursorPosition(id, position) =>
      UpdateUserCursorSpec(users, id, Some(toScreen(position)));
      match GetUser(users, id)
      case None =>
      case Some(u) =>
        AddUserSpec(users, u.(position := toScreen(position)), other);
  }

  /** The users whose cursors are drawn: those that are not the local user, in roster order. */
  function RemoteCursors(users: seq<SceneUser>): (r: seq<SceneUser>)
    ensures forall u :: u in r <==> u in users && !u.isOwner
  {
    if users == [] then []
    else (if users[0].isOwner then [] else [users[0]]) + RemoteCursors(users[1..])
  }

  /** Where the `i`-th drawn cursor's user is stored in the roster. */
  ghost function Origin(users: seq<SceneUser>, i: nat): (k: nat)
    requires i < |RemoteCursors(users)|
    ensures k < |users|
    decreases |users|
  {
    var rt := RemoteCursors(users[1..]);
    if users[0].isOwner then
      assert RemoteCursors(users) == rt;
      1 + Origin(users[1..], i)
    else if i == 0 then
      0
    else
      assert RemoteCursors(users) == [users[0]] + rt;
      1 + Origin(users[1..], i - 1)
  }

  /** The `i`-th drawn cursor is the user stored at its origin. */
  lemma {:induction false} OriginAt(users: seq<SceneUser>, i: nat)
    requires i < |RemoteCursors(users)|
    ensures users[Origin(users, i)] == RemoteCursors(users)[i]
    decreases |users|
  {
    var t := users[1..];
    var rt := RemoteCursors(t);
    if users[0].isOwner {
      assert RemoteCursors(users) == rt;
      OriginAt(t, i);
      assert RemoteCursors(users)[i] == rt[i];
      var k := Origin(t, i);
      assert Origin(users, i) == 1 + k;
      assert users[1 + k] == t[k];
    } else if i > 0 {
      assert RemoteCursors(users) == [users[0]] + rt;
      assert RemoteCursors(users)[i] == rt[i - 1];
      OriginAt(t, i - 1);
      var k := Origin(t, i - 1);
      assert Origin(users, i) == 1 + k;
      assert users[1 + k] == t[k];
    } else {
      assert RemoteCursors(users)[0] == users[0];
    }
  }

  /** Later cursors come from later roster entries. */
  lemma {:induction false} OriginIncreasing(users: seq<SceneUser>, i: nat, j: nat)
    requires i < j < |RemoteCursors(users)|
    ensures Origin(users, i) < Origin(users, j)
    decreases |users|
  {
    var t := users[1..];
    var rt := RemoteCursors(t);
    if users[0].isOwner {
      assert RemoteCursors(users) == rt;
      OriginIncreasing(t, i, j);
      assert Origin(users, i) == 1 + Origin(t, i);
      assert Origin(users, j) == 1 + Origin(t, j);
    } else {
      assert RemoteCursors(users) == [users[0]] + rt;
      assert Origin(users, j) == 1 + Origin(t, j - 1);
      if i > 0 {
        OriginIncreasing(t, i - 1, j - 1);
        assert Origin(users, i) == 1 + Origin(t, i - 1);
      } else {
        assert Origin(users, i) == 0;
      }
    }
  }

  /**
   * The cursors are drawn in roster order: of any two drawn users, the one
   * drawn first is stored first.
   */
  lemma RemoteCursorsOrdered(users: seq<SceneUser>, i: nat, j: nat)
    requires UniqueIds(users) && i < j < |RemoteCursors(users)|
    ensures IndexOfUser(users, RemoteCursors(users)[i].id).Some?
    ensures IndexOfUser(users, RemoteCursors(users)[j].id).Some?
    ensures IndexOfUser(users, RemoteCursors(users)[i].id).value < IndexOfUser(users, RemoteCursors(users)[j].id).value
  {
    OriginAt(users, i);
    OriginAt(users, j);
    GetUserAt(users, Origin(users, i));
    GetUserAt(users, Origin(users, j));
    OriginIncreasing(users, i, j);
  }

  /**
   * When a roster flags as owner exactly the entries of one id `me`, the
   * cursors drawn after applying it to an empty store are those of every
   * listed id except `me`.
   */
  lemma RemoteCursorsOfRoster(entries: seq<UserEntry>, me: string, id: string)
    requires forall e | e in entries :: e.isOwner <==> e.userId == me
    ensures (exists u | u in RemoteCursors(AddUsers(INITIAL_USERS, entries)) :: u.id == id) <==>
            (exists e | e in entries :: e.userId == id) && id != me
  {
    var users := AddUsers(INITIAL_USERS, entries);
    AddUsersSpec(INITIAL_USERS, entries, id);
    if exists u | u in RemoteCursors(users) :: u.id == id {
      var u :| u in RemoteCursors(users) && u.id == id;
      var k :| 0 <= k < |users| && users[k] == u;
      GetUserAt(users, k);
      assert LastEntry(entries, id).Some?;
    }
    if (exists e | e in entries :: e.userId == id) && id != me {
      var e := LastEntry(entries, id).value;
      assert ToSceneUser(e) in users;
    }
  }

  /**
   * The roster as the client reads it: exactly the recipient's entry is
   * flagged as owner, and the entries name exactly the registered ids.
   */
  lemma RosterEntries(ids: seq<S.ConnectionId>, conns: map<S.ConnectionId, S.WebSocketConnection>, me: S.ConnectionId, id: string)
    requires forall c :: c in ids ==> c in conns && conns[c].id == c
    ensures forall e | e in ReadEntries(M.RosterOf(ids, conns, me)) :: e.isOwner <==> e.userId == me
    ensures (exists e | e in ReadEntries(M.RosterOf(ids, conns, me)) :: e.userId == id) <==> id in ids
  {
    var roster := M.RosterOf(ids, conns, me);
    var entries := ReadEntries(roster);
    forall k | 0 <= k < |entries| ensures entries[k].userId == ids[k] && (entries[k].isOwner <==> ids[k] == me) {
      assert ids[k] in ids && roster[k].userId == ids[k];
    }
    forall e | e in entries ensures (e.isOwner <==> e.userId == me) && e.userId in ids {
      var k :| 0 <= k < |entries| && entries[k] == e;
    }
    if id in ids {
      var k :| 0 <= k < |ids| && ids[k] == id;
      assert entries[k] in entries;
    }
  }

  /**
   * A client that receives the server's opening roster on an empty store
   * draws a cursor for every other registered connection and none for
   * itself: the server flags exactly the recipient as owner.
   */
  lemma OwnCursorHidden(ids: seq<S.ConnectionId>, conns: map<S.ConnectionId, S.WebSocketConnection>, me: S.ConnectionId, id: string)
    requires forall c :: c in ids ==> c in conns && conns[c].id == c
    ensures var users := HandleMessage(INITIAL_USERS, Received(S.SConnectedUsers(M.RosterOf(ids, conns, me))), p => p);
      (exists u | u in RemoteCursors(users) :: u.id == id) <==> id in ids && id != me
  {
    var entries := ReadEntries(M.RosterOf(ids, conns, me));
    assert Received(S.SConnectedUsers(M.RosterOf(ids, conns, me))) == SConnectedUsers(entries);
    assert HandleMessage(INITIAL_USERS, SConnectedUsers(entries), p => p) == AddUsers(INITIAL_USERS, entries);
    RosterEntries(ids, conns, me, id);
    RemoteCursorsOfRoster(entries, me, id);
  }

  /**
   * The cursor sampler: `onPointerMove` records the latest pointer sample,
   * and each tick of the interval reports it to the server when it differs
   * from the last one reported.
   */
  class CursorSampler {
    /** `currentPoint.current`: the latest pointer sample, in screen coordinates. */
    var currentPoint: Position
    /** `lastPoint.current`: the sample last handed to `sendMessage`. */
    var lastPoint: Position

    constructor ()
      ensures currentPoint == Position(0, 0) && lastPoint == Position(0, 0)
    {
      currentPoint := Position(0, 0);
      lastPoint := Position(0, 0);
    }

    /** `onPointerMove`: record the sample; nothing is sent. */
    method OnPointerMove(x: int, y: int)
      modifies this
      ensures currentPoint == Position(x, y) && lastPoint == old(lastPoint)
    {
      currentPoint := Position(x, y);
    }

    /**
     * One tick of the interval: when the sample differs from the last one
     * reported, hand its world position to `sendMessage` and remember it;
     * otherwise do nothing. Either way the sample counts as reported
     * afterwards, even when the store was not connected and dropped it.
     */
    method Tick(store: WebSocketStore, toWorld: Position -> Position) returns (sent: bool)
      modifies this, store.connection
      ensures currentPoint == old(currentPoint) && lastPoint == old(currentPoint)
      ensures sent <==> old(currentPoint) != old(lastPoint) && store.isConnected && store.connection != null
      ensures store.connection != null ==>
        && store.connection.readyState == old(store.connection.readyState)
        && store.connection.closeCode == old(store.connection.closeCode)
        && store.connection.outbox ==
             old(store.connection.outbox) + (if sent then [CCursorPosition(toWorld(old(currentPoint)))] else [])
    {
      sent := false;
      if currentPoint != lastPoint {
        sent := store.SendMessage(CCursorPosition(toWorld(currentPoint)));
        lastPoint := currentPoint;
      }
    }
  }

  /**
   * Two ticks with no pointer sample in between send at most one message:
   * the second finds the sample already reported.
   */
  method TickTwice(sampler: CursorSampler, store: WebSocketStore, toWorld: Position -> Position)
    returns (first: bool, second: bool)
    modifies sampler, store.connection
    ensures !second
    ensures first <==> old(sampler.currentPoint) != old(sampler.lastPoint) && store.isConnected && store.connection != null
  {
    first := sampler.Tick(store, toWorld);
    second := sampler.Tick(store, toWorld);
  }

  /**
   * The demo box container's drag handlers: press records the offset from
   * the container to the pointer, moves while pressed keep that offset,
   * release stops following.
   */
  class BoxDrag {
    /** `boxContainer.position`. */
    var position: Vec
    var isDragging: bool
    var startPosition: Vec
    var dragOffset: Vec

    /** A new container sits at the origin; no drag is in progress. */
    constructor ()
      ensures position == Vec(0, 0) && !isDragging
      ensures startPosition == Vec(0, 0) && dragOffset == Vec(0, 0)
    {
      position := Vec(0, 0);
      isDragging := false;
      startPosition := Vec(0, 0);
      dragOffset := Vec(0, 0);
    }

    /** `onDragStart`: start following, with the pointer's offset from the container. */
    method OnDragStart(pointer: Vec)
      modifies this
      ensures isDragging && startPosition == pointer && position == old(position)
      ensures dragOffset == GrabOffset(position, pointer)
    {
      isDragging := true;
      startPosition := pointer;
      dragOffset := Vec(startPosition.x - position.x, startPosition.y - position.y);
    }

    /** `onDragMove`: while dragging, the container sits at the pointer less the offset; otherwise nothing changes. */
    method OnDragMove(pointer: Vec)
      modifies this
      ensures isDragging == old(isDragging) && startPosition == old(startPosition) && dragOffset == old(dragOffset)
      ensures position == if isDragging then Follow(dragOffset, pointer) else old(position)
    {
      if isDragging {
        position := Vec(pointer.x - dragOffset.x, pointer.y - dragOffset.y);
      }
    }

    /** `onDragEnd`: stop following; the container stays where it is. */
    method OnDragEnd()
      modifies this
      ensures !isDragging && position == old(position)
      ensures startPosition == old(startPosition) && dragOffset == old(dragOffset)
    {
      isDragging := false;
    }
  }

  /**
   * Pressing at `p`, moving to `q` and releasing moves the container by
   * exactly the pointer's displacement.
   */
  method DragBox(box: BoxDrag, p: Vec, q: Vec)
    modifies box
    ensures !box.isDragging
    ensures box.position == Vec(old(box.position).x + (q.x - p.x), old(box.position).y + (q.y - p.y))
  {
    box.OnDragStart(p);
    box.OnDragMove(q);
    box.OnDragEnd();
  }
}
