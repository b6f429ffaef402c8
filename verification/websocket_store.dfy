/**
 * The client's connection store (client/src/store/webSocketStore.ts): the
 * current WebSocket, if any, a connected flag derived from it, and a
 * guarded send of cursor-position messages.
 */
module WebSocketStores {
  import opened Transport
  import opened ClientTypes

  class WebSocketStore {
    var connection: Socket?<ClientMessage>
    var isConnected: bool

    /** The flag says whether there is a connection. */
    predicate Valid()
      reads this
    {
      isConnected <==> connection != null
    }

    /** The store starts with no connection and not connected. */
    constructor ()
      ensures Valid() && connection == null && !isConnected
    {
      connection := null;
      isConnected := false;
    }

    /** `setConnection`: store the connection, connected exactly when it is not null. */
    method SetConnection(c: Socket?<ClientMessage>)
      modifies this
      ensures Valid() && connection == c && isConnected == (c != null)
    {
      connection := c;
      isConnected := c != null;
    }

    /**
     * `sendMessage`: when not connected, or without a connection, nothing
     * is sent (the source only logs an error); otherwise the message is
     * sent once on the connection, whatever its ready state.
     */
    method SendMessage(message: ClientMessage) returns (sent: bool)
      modifies connection
      ensures sent <==> isConnected && connection != null
      ensures sent ==> connection.outbox == old(connection.outbox) + [message]
      ensures connection != null ==>
        && connection.readyState == old(connection.readyState)
        && connection.closeCode == old(connection.closeCode)
        && (!sent ==> connection.outbox == old(connection.outbox))
    {
      if !isConnected || connection == null {
        return false;
      }
      connection.Send(message);
      sent := true;
    }
  }
}
