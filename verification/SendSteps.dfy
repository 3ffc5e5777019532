/** The sending side of a connection as a value, and the steps of socket/connection_worker.c on it. */
module SendSteps {
  import opened Bytes
  import opened Options

  /** A response, identified, with the bytes it consists of. */
  datatype Resp = Resp(id: nat, bytes: seq<byte>)

  /** The response in progress and how much of it has been written. */
  datatype Progress = Progress(resp: Resp, transmitted: nat)

  /** What the event loop sees of a connection: the response queue, state->response, whether the send watcher is on,
      whether an async notification is pending, what is on the socket, and which responses have finished. */
  datatype Sending = Sending(
    queue: seq<Resp>,
    current: Option<Progress>,
    watcher: bool,
    notified: bool,
    socket: seq<byte>,
    finished: seq<Resp>)

  /** The first half of connection_send. */
  function Enqueue(s: Sending, r: Resp): Sending {
    s.(queue := s.queue + [r])
  }

  /** The second half: ev_async_send. */
  function Notify(s: Sending): Sending {
    s.(notified := true)
  }

  /** The event loop takes the notification before it calls back. */
  function TakeNotification(s: Sending): Sending {
    s.(notified := false)
  }

  function EnableWatcher(s: Sending): Sending {
    s.(watcher := true)
  }

  function DisableWatcher(s: Sending): Sending {
    s.(watcher := false)
  }

  /** connection_send_cb gets the next response if there is none in progress. */
  function Fetch(s: Sending): Sending {
    if s.current.Some? || s.queue == [] then s
    else s.(current := Some(Progress(s.queue[0], 0)), queue := s.queue[1..])
  }

  /** What data_get returns: the bytes not yet written. */
  function Remaining(p: Progress): seq<byte> {
    if p.transmitted <= |p.resp.bytes| then p.resp.bytes[p.transmitted..] else []
  }

  /** write(2) took n of the bytes offered. */
  function Transmit(s: Sending, n: nat): Sending
    requires s.current.Some? && n <= |Remaining(s.current.value)|
  {
    var p := s.current.value;
    s.(current := Some(p.(transmitted := p.transmitted + n)), socket := s.socket + Remaining(p)[..n])
  }

  /** A response without remaining bytes finishes and is freed. */
  function Finish(s: Sending): Sending {
    if s.current.Some? && Remaining(s.current.value) == [] then
      s.(current := None, finished := s.finished + [s.current.value.resp])
    else s
  }

  /** The rest of connection_send_cb once there is a response: n is what write(2) returned. */
  function WriteSome(s: Sending, n: int): Sending
    requires s.current.Some? && n <= |Remaining(s.current.value)|
  {
    Finish(if n >= 0 then Transmit(s, n) else s)
  }
}
