/**
 * The server's connection registry and broadcast router
 * (server/src/services/webSocketManager.ts).
 *
 * The registry is a JavaScript `Map` from connection id to connection
 * record; `order` is that map's insertion order, which is the order in which
 * `sendBroadcast` visits the connections and `handleOpen` lists them.
 * Socket event handlers are invoked directly rather than registered.
 */
module Manager {
  import opened Optional
  import opened Seqs
  import opened Transport
  import opened ServerTypes

  type ServerSocket = Socket<ServerMessage>

  /**
   * What `JSON.parse` makes of an inbound frame: a message whose `type` the
   * switch recognises, or an object with some other `type`.
   */
  datatype InboundFrame = Recognized(message: ClientMessage) | Unrecognized(tag: string)

  /**
   * The roster a connection receives on open: every registered connection
   * in map order, with its stored position, flagged as owner exactly when it
   * is the recipient itself.
   */
  function RosterOf(ids: seq<ConnectionId>, conns: map<ConnectionId, WebSocketConnection>, recipient: ConnectionId): (r: seq<UserEntry>)
    requires forall id :: id in ids ==> id in conns
    ensures |r| == |ids|
    ensures forall k :: 0 <= k < |ids| ==>
      r[k].userId == conns[ids[k]].id && r[k].position == conns[ids[k]].position
    ensures forall k :: 0 <= k < |ids| ==> (r[k].isOwner <==> conns[ids[k]].id == recipient)
  {
    if ids == [] then []
    else
      var c := conns[ids[0]];
      [UserEntry(c.id, c.position, c.id == recipient)] + RosterOf(ids[1..], conns, recipient)
  }

  /**
   * When the ids are distinct and each record carries its own key, a
   * registered recipient finds itself exactly once in its roster, as the only
   * owner entry.
   */
  lemma RosterHasOneOwner(ids: seq<ConnectionId>, conns: map<ConnectionId, WebSocketConnection>, recipient: ConnectionId)
    requires Distinct(ids)
    requires forall id :: id in ids ==> id in conns && conns[id].id == id
    requires recipient in ids
    ensures exists k :: 0 <= k < |ids| && RosterOf(ids, conns, recipient)[k].isOwner &&
                        RosterOf(ids, conns, recipient)[k].userId == recipient
    ensures forall k, j :: 0 <= k < j < |ids| ==>
      !(RosterOf(ids, conns, recipient)[k].isOwner && RosterOf(ids, conns, recipient)[j].isOwner)
  {
    var r := RosterOf(ids, conns, recipient);
    var k :| 0 <= k < |ids| && ids[k] == recipient;
    assert r[k].isOwner && r[k].userId == recipient;
    forall i, j | 0 <= i < j < |ids| ensures !(r[i].isOwner && r[j].isOwner) {
      assert ids[i] in ids && ids[j] in ids;
      assert ids[i] != ids[j];
    }
  }

  class WebSocketManager {
    var connections: map<ConnectionId, WebSocketConnection>
    /** The insertion order of `connections`. */
    var order: seq<ConnectionId>

    ghost predicate Valid()
      reads this
    {
      && Distinct(order)
      && (forall id :: id in order ==> id in connections)
      && (forall id :: id in connections ==> id in order)
      && (forall id :: id in connections ==> connections[id].id == id)
      && (forall a, b :: a in connections && b in connections && a != b ==>
            connections[a].socket != connections[b].socket)
    }

    /** The sockets of the registered connections. */
    ghost function Sockets(): set<ServerSocket>
      reads this
    {
      set id | id in connections :: connections[id].socket
    }

    constructor ()
      ensures Valid() && connections == map[] && order == []
    {
      connections := map[];
      order := [];
    }

    /**
     * `addConnection`: registers `socket` under a new id at the origin.
     * The id is fresh (`crypto.randomUUID`), and each upgrade brings its own
     * socket.
     */
    method AddConnection(id: ConnectionId, socket: ServerSocket)
      requires Valid()
      requires id !in connections
      requires socket !in Sockets()
      modifies this
      ensures Valid()
      ensures connections == old(connections)[id := WebSocketConnection(id, socket, CursorPosition(0, 0))]
      ensures order == old(order) + [id]
    {
      connections := connections[id := WebSocketConnection(id, socket, CursorPosition(0, 0))];
      order := order + [id];
    }

    /**
     * `sendBroadcast`: each registered connection that is not excluded and
     * whose socket is open receives exactly one copy; every other socket
     * receives nothing. The registry is untouched.
     */
    method SendBroadcast(message: ServerMessage, excluded: seq<ConnectionId>)
      requires Valid()
      modifies Sockets()
      ensures forall id | id in connections ::
        var s := connections[id].socket;
        && s.outbox == old(s.outbox) + (if id !in excluded && s.readyState == OPEN then [message] else [])
        && s.readyState == old(s.readyState) && s.closeCode == old(s.closeCode)
    {
      ghost var visited: set<ConnectionId> := {};
      var i := 0;
      while i < |order|
        invariant 0 <= i <= |order|
        invariant forall k :: 0 <= k < i ==> order[k] in visited
        invariant forall k :: i <= k < |order| ==> order[k] !in visited
        invariant forall id | id in connections ::
          var s := connections[id].socket;
          && s.outbox == old(s.outbox) + (if id in visited && id !in excluded && s.readyState == OPEN then [message] else [])
          && s.readyState == old(s.readyState) && s.closeCode == old(s.closeCode)
      {
        var connection := connections[order[i]];
        if connection.id !in excluded && connection.socket.readyState == OPEN {
          connection.socket.Send(message);
        }
        visited := visited + {order[i]};
        i := i + 1;
      }
    }

    /**
     * `sendMessage`: a unicast. An unknown id or a socket that is not open
     * gets nothing; otherwise that connection alone gets exactly one copy.
     */
    method SendMessage(message: ServerMessage, connectionId: ConnectionId)
      requires Valid()
      modifies Sockets()
      ensures forall id | id in connections ::
        var s := connections[id].socket;
        && s.outbox == old(s.outbox) + (if id == connectionId && s.readyState == OPEN then [message] else [])
        && s.readyState == old(s.readyState) && s.closeCode == old(s.closeCode)
    {
      if connectionId !in connections {
        return;
      }
      var connection := connections[connectionId];
      if connection.socket.readyState != OPEN {
        return;
      }
      connection.socket.Send(message);
    }

    /**
     * `removeConnection`: deletes the id, then tells every remaining
     * connection whose socket is open that it left. The removed
     * connection's socket receives nothing.
     */
    method RemoveConnection(connection: WebSocketConnection)
      requires Valid()
      modifies this, Sockets()
      ensures Valid()
      ensures connections == old(connections) - {connection.id}
      ensures order == Remove(old(order), connection.id)
      ensures forall id | id in connections ::
        var s := connections[id].socket;
        && s.outbox == old(s.outbox) + (if s.readyState == OPEN then [SUserDisconnected(connection.id)] else [])
        && s.readyState == old(s.readyState) && s.closeCode == old(s.closeCode)
      ensures forall id | id in old(connections) && id !in connections ::
        var s := old(connections)[id].socket;
        s.outbox == old(s.outbox) && s.readyState == old(s.readyState) && s.closeCode == old(s.closeCode)
    {
      Unregister(connection.id);
      SendBroadcast(SUserDisconnected(connection.id), []);
    }

    /** `connections.delete(id)`: the id leaves the registry and its insertion order. */
    method Unregister(id: ConnectionId)
      requires Valid()
      modifies this
      ensures Valid()
      ensures connections == old(connections) - {id}
      ensures order == Remove(old(order), id)
    {
      RemoveDistinct(order, id);
      connections := connections - {id};
      order := Remove(order, id);
    }

    /**
     * `handleOpen`: every other open connection is told that the new one
     * joined; the new one, if registered and open, receives the roster and
     * nothing else. The registry is untouched.
     */
    method HandleOpen(connectionId: ConnectionId)
      requires Valid()
      modifies Sockets()
      ensures forall id | id in connections ::
        var s := connections[id].socket;
        && s.outbox == old(s.outbox)
             + (if id != connectionId && s.readyState == OPEN then [SUserConnected(connectionId)] else [])
             + (if id == connectionId && s.readyState == OPEN
                then [SConnectedUsers(RosterOf(order, connections, connectionId))] else [])
        && s.readyState == old(s.readyState) && s.closeCode == old(s.closeCode)
    {
      var userConnected := SUserConnected(connectionId);
      var connectedUsers := SConnectedUsers(RosterOf(order, connections, connectionId));
      SendBroadcast(userConnected, [connectionId]);
      label broadcast:
      SendMessage(connectedUsers, connectionId);
      forall id | id in connections
        ensures var s := connections[id].socket;
          && s.outbox == old(s.outbox)
               + (if id != connectionId && s.readyState == OPEN then [userConnected] else [])
               + (if id == connectionId && s.readyState == OPEN then [connectedUsers] else [])
          && s.readyState == old(s.readyState) && s.closeCode == old(s.closeCode)
      {
        var s := connections[id].socket;
        assert s.outbox == old@broadcast(s.outbox) + (if id == connectionId && s.readyState == OPEN then [connectedUsers] else []);
      }
    }

    /**
     * The shared body of `handleClose` and `handleError`: an unknown id
     * changes nothing; a known one is closed with `status`, removed, and
     * announced to the remaining connections.
     */
    method CloseWith(status: WebSocketStatus, connectionId: ConnectionId)
      requires Valid()
      modifies this, Sockets()
      ensures Valid()
      ensures connectionId !in old(connections) ==>
        && connections == old(connections) && order == old(order)
        && forall id | id in connections ::
             var s := connections[id].socket;
             s.outbox == old(s.outbox) && s.readyState == old(s.readyState) && s.closeCode == old(s.closeCode)
      ensures connectionId in old(connections) ==>
        && connections == old(connections) - {connectionId}
        && order == Remove(old(order), connectionId)
        && (var s := old(connections)[connectionId].socket;
            s.closeCode == Some(Code(status)) && s.outbox == old(s.outbox))
        && forall id | id in connections ::
             var s := connections[id].socket;
             && s.outbox == old(s.outbox) + (if s.readyState == OPEN then [SUserDisconnected(connectionId)] else [])
             && s.readyState == old(s.readyState) && s.closeCode == old(s.closeCode)
    {
      if connectionId !in connections {
        return;
      }
      var connection := connections[connectionId];
      connection.socket.Close(Code(status));
      RemoveConnection(connection);
    }

    /** `handleClose`: `CloseWith` the normal-closure code. */
    method HandleClose(connectionId: ConnectionId)
      requires Valid()
      modifies this, Sockets()
      ensures Valid()
      ensures connectionId !in old(connections) ==>
        && connections == old(connections) && order == old(order)
        && forall id | id in connections ::
             var s := connections[id].socket;
             s.outbox == old(s.outbox) && s.readyState == old(s.readyState) && s.closeCode == old(s.closeCode)
      ensures connectionId in old(connections) ==>
        && connections == old(connections) - {connectionId}
        && order == Remove(old(order), connectionId)
        && (var s := old(connections)[connectionId].socket;
            s.closeCode == Some(1000) && s.outbox == old(s.outbox))
        && forall id | id in connections ::
             var s := connections[id].socket;
             && s.outbox == old(s.outbox) + (if s.readyState == OPEN then [SUserDisconnected(connectionId)] else [])
             && s.readyState == old(s.readyState) && s.closeCode == old(s.closeCode)
    {
      CloseWith(CLOSE_NORMAL, connectionId);
    }

    /** `handleError`: `CloseWith` the unexpected-condition code. */
    method HandleError(connectionId: ConnectionId)
      requires Valid()
      modifies this, Sockets()
      ensures Valid()
      ensures connectionId !in old(connections) ==>
        && connections == old(connections) && order == old(order)
        && forall id | id in connections ::
             var s := connections[id].socket;
             s.outbox == old(s.outbox) && s.readyState == old(s.readyState) && s.closeCode == old(s.closeCode)
      ensures connectionId in old(connections) ==>
        && connections == old(connections) - {connectionId}
        && order == Remove(old(order), connectionId)
        && (var s := old(connections)[connectionId].socket;
            s.closeCode == Some(1011) && s.outbox == old(s.outbox))
        && forall id | id in connections ::
             var s := connections[id].socket;
             && s.outbox == old(s.outbox) + (if s.readyState == OPEN then [SUserDisconnected(connectionId)] else [])
             && s.readyState == old(s.readyState) && s.closeCode == old(s.closeCode)
    {
      CloseWith(SERVER_ERROR, connectionId);
    }

    /** Record a connection's new cursor position; nothing else changes, and no socket. */
    method SetPosition(connectionId: ConnectionId, position: CursorPosition)
      requires Valid() && connectionId in connections
      modifies this
      ensures Valid() && order == old(order)
      ensures connections == old(connections)[connectionId := old(connections)[connectionId].(position := position)]
      ensures forall id | id in connections :: connections[id].socket == old(connections)[id].socket
    {
      var connection := connections[connectionId];
      connection := connection.(position := position);
      connections := connections[connectionId := connection];
    }

    /**
     * `handleMessage`: a frame from an unknown id, or with a type the switch
     * does not recognise, changes nothing. A cursor position from a known
     * sender is stored in the sender's record alone and relayed, tagged with
     * the sender's id, to every other open connection.
     */
    method HandleMessage(connectionId: ConnectionId, frame: InboundFrame)
      requires Valid()
      modifies this, Sockets()
      ensures Valid()
      ensures order == old(order)
      ensures connectionId !in old(connections) || frame.Unrecognized? ==>
        && connections == old(connections)
        && forall id | id in connections ::
             var s := connections[id].socket;
             s.outbox == old(s.outbox) && s.readyState == old(s.readyState) && s.closeCode == old(s.closeCode)
      ensures connectionId in old(connections) && frame.Recognized? ==>
        var p := frame.message.position;
        && connections == old(connections)[connectionId := old(connections)[connectionId].(position := p)]
        && forall id | id in connections ::
             var s := connections[id].socket;
             && s.outbox == old(s.outbox) + (if id != connectionId && s.readyState == OPEN then [SCursorPosition(connectionId, p)] else [])
             && s.readyState == old(s.readyState) && s.closeCode == old(s.closeCode)
    {
      if connectionId !in connections {
        return;
      }
      match frame
      case Recognized(CCursorPosition(position)) =>
        SetPosition(connectionId, position);
        SendBroadcast(SCursorPosition(connectionId, position), [connectionId]);
      case Unrecognized(_) =>
    }
  }
}
