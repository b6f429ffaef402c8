/**
 * The server's message vocabulary and connection record
 * (server/src/types/webSocket.ts).
 */
module ServerTypes {
  import opened Optional
  import opened Transport

  /** The numeric enum of close codes the server sends. */
  datatype WebSocketStatus = CLOSE_NORMAL | SERVER_ERROR

  function Code(s: WebSocketStatus): int {
    match s
    case CLOSE_NORMAL => 1000
    case SERVER_ERROR => 1011
  }

  /** The reverse mapping a numeric enum provides: `WebSocketStatus[code]`. */
  function StatusOf(code: int): (r: Option<WebSocketStatus>)
    ensures r.Some? <==> code == 1000 || code == 1011
    ensures r.Some? ==> Code(r.value) == code
  {
    if code == 1000 then Some(CLOSE_NORMAL)
    else if code == 1011 then Some(SERVER_ERROR)
    else None
  }

  /**
   * The two codes are those of section 7.4.1 of RFC 6455 for a normal
   * closure (1000) and for an unexpected condition on the server (1011),
   * and the reverse mapping inverts the enum.
   */
  lemma StatusCodes(s: WebSocketStatus)
    ensures Code(CLOSE_NORMAL) == 1000 && Code(SERVER_ERROR) == 1011
    ensures StatusOf(Code(s)) == Some(s)
  {
  }

  type ConnectionId = string

  datatype CursorPosition = CursorPosition(x: int, y: int)

  /** One live connection: its id, its transport and its last reported position. */
  datatype WebSocketConnection = WebSocketConnection(id: ConnectionId, socket: Socket<ServerMessage>, position: CursorPosition)

  /** Client to server. */
  datatype ClientMessage = CCursorPosition(position: CursorPosition)

  /** One entry of the roster sent to a new connection. */
  datatype UserEntry = UserEntry(userId: ConnectionId, position: CursorPosition, isOwner: bool)

  /** Server to client. */
  datatype ServerMessage =
    | SCursorPosition(userId: ConnectionId, position: CursorPosition)
    | SUserConnected(userId: ConnectionId)
    | SUserDisconnected(userId: ConnectionId)
    | SConnectedUsers(users: seq<UserEntry>)

  /** The `type` discriminant each variant carries on the wire. */
  function Tag(m: ServerMessage): string {
    match m
    case SCursorPosition(_, _) => "S_CURSOR_POSITION"
    case SUserConnected(_) => "S_USER_CONNECTED"
    case SUserDisconnected(_) => "S_USER_DISCONNECTED"
    case SConnectedUsers(_) => "S_CONNECTED_USERS"
  }

  function ClientTag(m: ClientMessage): string {
    match m
    case CCursorPosition(_) => "C_CURSOR_POSITION"
  }

  /** Which of the four variants a message is, numbered in declaration order. */
  function Variant(m: ServerMessage): (v: nat)
    ensures v < 4
  {
    match m
    case SCursorPosition(_, _) => 0
    case SUserConnected(_) => 1
    case SUserDisconnected(_) => 2
    case SConnectedUsers(_) => 3
  }

  /** Each of the four variant numbers is taken by some message: the union has exactly four variants. */
  lemma VariantsCovered(k: nat)
    requires k < 4
    ensures exists m :: Variant(m) == k
  {
    var m :=
      if k == 0 then SCursorPosition("", CursorPosition(0, 0))
      else if k == 1 then SUserConnected("")
      else if k == 2 then SUserDisconnected("")
      else SConnectedUsers([]);
    assert Variant(m) == k;
  }

  /** The four tags are pairwise distinct, so the tag alone identifies the variant. */
  lemma TagsDistinct(a: ServerMessage, b: ServerMessage)
    ensures Tag(a) == Tag(b) <==> Variant(a) == Variant(b)
  {
  }

  /** No server tag is the client tag, so the two directions cannot be confused. */
  lemma DirectionsDistinct(a: ServerMessage, c: ClientMessage)
    ensures Tag(a) != ClientTag(c)
  {
  }
}
