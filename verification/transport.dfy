/**
 * The WebSocket transport, reduced to what the core observes: the ready
 * state it checks before sending, the messages it hands over, and the close
 * code it requests.
 */
module Transport {
  import opened Optional

  /** `readyState` values of the WebSocket API. */
  const CONNECTING: int := 0
  const OPEN: int := 1
  const CLOSING: int := 2
  const CLOSED: int := 3

  class Socket<M> {
    var readyState: int
    /** Every message handed to `send`, oldest first. */
    var outbox: seq<M>
    /** The code of the last `close` call, if any. */
    var closeCode: Option<int>

    constructor (readyState: int)
      ensures this.readyState == readyState && outbox == [] && closeCode == None
    {
      this.readyState := readyState;
      outbox := [];
      closeCode := None;
    }

    /** `send`: the message is queued; nothing else about the socket changes. */
    method Send(m: M)
      modifies this
      ensures outbox == old(outbox) + [m]
      ensures readyState == old(readyState) && closeCode == old(closeCode)
    {
      outbox := outbox + [m];
    }

    /** `close(code)`: records the code and starts the closing handshake. */
    method Close(code: int)
      modifies this
      ensures closeCode == Some(code) && outbox == old(outbox)
      ensures readyState == if old(readyState) <= OPEN then CLOSING else old(readyState)
    {
      closeCode := Some(code);
      if readyState <= OPEN {
        readyState := CLOSING;
      }
    }
  }
}
