/**
 * The client's own copy of the message vocabulary
 * (client/src/types/webSocket.ts), and its correspondence with the
 * server's: a JSON frame written from one side's type is read as the other
 * side's variant with the same tag and the same payload fields.
 */
module ClientTypes {
  import S = ServerTypes

  datatype Position = Position(x: int, y: int)

  /** Client to server. */
  datatype ClientMessage = CCursorPosition(position: Position)

  datatype UserEntry = UserEntry(userId: string, position: Position, isOwner: bool)

  /** Server to client. */
  datatype ServerMessage =
    | SCursorPosition(userId: string, position: Position)
    | SUserConnected(userId: string)
    | SUserDisconnected(userId: string)
    | SConnectedUsers(users: seq<UserEntry>)

  function Tag(m: ServerMessage): string {
    match m
    case SCursorPosition(_, _) => "S_CURSOR_POSITION"
    case SUserConnected(_) => "S_USER_CONNECTED"
    case SUserDisconnected(_) => "S_USER_DISCONNECTED"
    case SConnectedUsers(_) => "S_CONNECTED_USERS"
  }

  function ClientTag(m: ClientMessage): string {
    match m
    case CCursorPosition(_) => "C_CURSOR_POSITION"
  }

  function Variant(m: ServerMessage): (v: nat)
    ensures v < 4
  {
    match m
    case SCursorPosition(_, _) => 0
    case SUserConnected(_) => 1
    case SUserDisconnected(_) => 2
    case SConnectedUsers(_) => 3
  }

  /** Each of the four variant numbers is taken by some message: the union has exactly four variants. */
  lemma VariantsCovered(k: nat)
    requires k < 4
    ensures exists m :: Variant(m) == k
  {
    var m :=
      if k == 0 then SCursorPosition("", Position(0, 0))
      else if k == 1 then SUserConnected("")
      else if k == 2 then SUserDisconnected("")
      else SConnectedUsers([]);
    assert Variant(m) == k;
  }

  /** The four client-side tags are pairwise distinct. */
  lemma TagsDistinct(a: ServerMessage, b: ServerMessage)
    ensures Tag(a) == Tag(b) <==> Variant(a) == Variant(b)
  {
  }

  // ----- The wire, field by field -----

  function ReadPosition(p: S.CursorPosition): Position {
    Position(p.x, p.y)
  }

  function WritePosition(p: Position): S.CursorPosition {
    S.CursorPosition(p.x, p.y)
  }

  function ReadEntry(e: S.UserEntry): UserEntry {
    UserEntry(e.userId, ReadPosition(e.position), e.isOwner)
  }

  function WriteEntry(e: UserEntry): S.UserEntry {
    S.UserEntry(e.userId, WritePosition(e.position), e.isOwner)
  }

  function ReadEntries(es: seq<S.UserEntry>): (r: seq<UserEntry>)
    ensures |r| == |es|
    ensures forall k :: 0 <= k < |es| ==> r[k] == ReadEntry(es[k])
  {
    if es == [] then [] else [ReadEntry(es[0])] + ReadEntries(es[1..])
  }

  function WriteEntries(es: seq<UserEntry>): (r: seq<S.UserEntry>)
    ensures |r| == |es|
    ensures forall k :: 0 <= k < |es| ==> r[k] == WriteEntry(es[k])
  {
    if es == [] then [] else [WriteEntry(es[0])] + WriteEntries(es[1..])
  }

  /** A server message as the client reads it. */
  function Received(m: S.ServerMessage): (r: ServerMessage)
    ensures Tag(r) == S.Tag(m) && Variant(r) == S.Variant(m)
  {
    match m
    case SCursorPosition(u, p) => SCursorPosition(u, ReadPosition(p))
    case SUserConnected(u) => SUserConnected(u)
    case SUserDisconnected(u) => SUserDisconnected(u)
    case SConnectedUsers(us) => SConnectedUsers(ReadEntries(us))
  }

  /** A client-side server message as the server wrote it. */
  function Written(m: ServerMessage): (r: S.ServerMessage)
    ensures S.Tag(r) == Tag(m) && S.Variant(r) == Variant(m)
  {
    match m
    case SCursorPosition(u, p) => S.SCursorPosition(u, WritePosition(p))
    case SUserConnected(u) => S.SUserConnected(u)
    case SUserDisconnected(u) => S.SUserDisconnected(u)
    case SConnectedUsers(us) => S.SConnectedUsers(WriteEntries(us))
  }

  /** A client message as the server reads it. */
  function Sent(m: ClientMessage): (r: S.ClientMessage)
    ensures S.ClientTag(r) == ClientTag(m)
    ensures r.position == WritePosition(m.position)
  {
    match m
    case CCursorPosition(p) => S.CCursorPosition(WritePosition(p))
  }

  /**
   * The two copies of the server vocabulary match variant for variant:
   * reading what the server wrote, and writing back what the client read,
   * lose nothing in either direction.
   */
  lemma {:induction false} ServerVocabularyMatches(m: S.ServerMessage, c: ServerMessage)
    ensures Written(Received(m)) == m
    ensures Received(Written(c)) == c
  {
    if m.SConnectedUsers? {
      assert WriteEntries(ReadEntries(m.users)) == m.users;
    }
    if c.SConnectedUsers? {
      assert ReadEntries(WriteEntries(c.users)) == c.users;
    }
  }

  /** The client vocabulary has one variant and it maps one to one onto the server's. */
  lemma ClientVocabularyMatches(a: ClientMessage, b: ClientMessage)
    ensures Sent(a) == Sent(b) <==> a == b
  {
  }
}
