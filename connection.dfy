/** The client socket a handler owns, and how a handler's run ends. */
module Connection {

  /** The two memory-safety defects of the handlers, where the source's
      behaviour is undefined. */
  datatype Defect =
    | IndexBeforeBuffer   // fewer than two bytes arrived: the NUL is written before the buffer
    | FileNameOverflow    // the name needs more than the 100 bytes of file_name

  /** How a handler's run ends: the socket closed after the listed payloads
      were sent, or a defect reached before anything was sent. */
  datatype Outcome = Closed(sends: seq<seq<char>>) | Fault(defect: Defect)

  /** A connected client socket: the payloads handed to send, in order, and
      whether it is still open. */
  class ClientSocket {
    var sent: seq<seq<char>>
    var isOpen: bool

    constructor ()
      ensures sent == [] && isOpen
    {
      sent := [];
      isOpen := true;
    }

    /** send(client_socket, payload, |payload|, 0); the transport's partial
        sends are not modelled. */
    method Send(payload: seq<char>)
      requires isOpen
      modifies this
      ensures isOpen && sent == old(sent) + [payload]
    {
      sent := sent + [payload];
    }

    /** close(client_socket). */
    method Close()
      requires isOpen
      modifies this
      ensures !isOpen && sent == old(sent)
    {
      isOpen := false;
    }
  }
}
