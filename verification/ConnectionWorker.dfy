/** socket/response.c and the sending part of socket/connection_worker.c. */
module ConnectionWorker {
  import opened Bytes
  import opened Options
  import opened SendSteps

  /** What write(2) returns for length bytes, given the results the environment has chosen. */
  function Taken(results: seq<int>, length: nat): (n: int)
    ensures -1 <= n <= length
  {
    if results == [] || results[0] < 0 then -1 else if results[0] <= length then results[0] else length
  }

  /** The socket's side of write(2): results chosen by the environment, -1 for an error. */
  class Socket {
    var results: seq<int>
    var written: seq<byte>

    constructor (results: seq<int>)
      ensures this.results == results && written == []
    {
      this.results := results;
      written := [];
    }

    method Write(data: seq<byte>) returns (n: int)
      modifies this
      ensures n == Taken(old(results), |data|)
      ensures written == old(written) + if n >= 0 then data[..n] else []
      ensures results == if old(results) == [] then [] else old(results)[1..]
    {
      n := Taken(results, |data|);
      if n >= 0 {
        written := written + data[..n];
      }
      results := if results == [] then [] else results[1..];
    }
  }

  /** One attempt to write what remains: nothing is attempted when nothing remains. */
  function Attempt(p: Progress, results: seq<int>): (n: int)
    ensures -1 <= n <= |Remaining(p)|
  {
    if Remaining(p) == [] then 0 else Taken(results, |Remaining(p)|)
  }

  /** BufferedResponse. Nothing writes to its buffer once it is a response, so the buffer is its contents. */
  class Response {
    const resp: Resp
    var transmitted: nat
    var onFinished: bool       // a callback is set

    ghost predicate Valid()
      reads this
    {
      transmitted <= |resp.bytes|
    }

    ghost function Progress(): Progress
      reads this
    {
      SendSteps.Progress(resp, transmitted)
    }

    /** Response_new. */
    constructor (resp: Resp)
      ensures Valid() && this.resp == resp && transmitted == 0 && !onFinished
    {
      this.resp := resp;
      transmitted, onFinished := 0, false;
    }

    method DataAvailable() returns (available: bool)
      requires Valid()
      ensures available <==> Remaining(Progress()) != []
    {
      available := |resp.bytes| > transmitted;
    }

    /** The pointer is NULL, here an empty sequence, when everything was written. */
    method DataGet() returns (data: seq<byte>, length: nat)
      requires Valid()
      ensures data == Remaining(Progress()) && length == |data|
    {
      length := |resp.bytes| - transmitted;
      data := if length > 0 then resp.bytes[transmitted..] else [];
    }

    method DataTransmitted(n: nat)
      requires Valid() && transmitted + n <= |resp.bytes|
      modifies this`transmitted
      ensures Valid() && transmitted == old(transmitted) + n
    {
      transmitted := transmitted + n;
    }
  }

  /** The responses as values, in order. */
  ghost function Resps(q: seq<Response>): (s: seq<Resp>)
    ensures |s| == |q| && forall i :: 0 <= i < |q| ==> s[i] == q[i].resp
  {
    if q == [] then [] else [q[0].resp] + Resps(q[1..])
  }

  /** A callback that was called. */
  datatype Call = OnError | OnFinished(resp: Resp)

  /** The calls that an attempt with result n leads to: an error is reported, and so is a response that ends, if it has
      asked for it. */
  function CallsFor(p: Progress, onFinished: bool, n: int): seq<Call> {
    (if n < 0 then [OnError] else [])
    + (if n == |Remaining(p)| && onFinished then [OnFinished(p.resp)] else [])
  }

  lemma NothingSent(s: Sending)
    requires s.current.Some?
    ensures Transmit(s, 0) == s
  {
    assert s.socket + Remaining(s.current.value)[..0] == s.socket;
  }

  /** What one connection needs to send. Responses that were freed are remembered as values. */
  class ConnectionState {
    const socket: Socket
    var queue: seq<Response>
    var response: Response?
    var sendWatcher: bool
    var notifyPending: bool
    var calls: seq<Call>
    ghost var finished: seq<Resp>

    /** A response waits untouched in the queue and is there once. */
    ghost predicate Valid()
      reads this, queue, response
    {
      && (forall r <- queue :: r.Valid() && r.transmitted == 0 && r != response)
      && (forall i, j :: 0 <= i < j < |queue| ==> queue[i] != queue[j])
      && (response != null ==> response.Valid())
    }

    /** The connection as the value that socket/connection_worker.c's steps are about. */
    ghost function Sending(): Sending
      reads this, socket, queue, response
      requires Valid()
    {
      SendSteps.Sending(
        Resps(queue),
        if response == null then None else Some(response.Progress()),
        sendWatcher, notifyPending, socket.written, finished)
    }

    /** connection_start, as far as sending is concerned. */
    constructor (socket: Socket)
      ensures Valid() && this.socket == socket
      ensures Sending() == SendSteps.Sending([], None, false, false, socket.written, []) && calls == []
    {
      this.socket := socket;
      queue, response, sendWatcher, notifyPending, calls, finished := [], null, false, false, [], [];
    }

    /** connection_send. */
    method ConnectionSend(r: Response, onFinished: bool)
      requires Valid() && r.Valid() && r.transmitted == 0 && r != response && r !in queue
      modifies this`queue, this`notifyPending, r`onFinished
      ensures Valid() && Sending() == Notify(Enqueue(old(Sending()), r.resp)) && r.onFinished == onFinished
    {
      r.onFinished := onFinished;
      queue := queue + [r];
      notifyPending := true;
      assert Resps(queue) == old(Resps(queue)) + [r.resp];
    }

    /** enable_send_data_watcher: the loop has taken the notification. */
    method EnableSendDataWatcher()
      requires Valid()
      modifies this`sendWatcher, this`notifyPending
      ensures Valid() && Sending() == EnableWatcher(TakeNotification(old(Sending())))
    {
      notifyPending := false;
      sendWatcher := true;
    }

    /** write_response. A failed write is reported and leaves the rest as it was. */
    method WriteResponse()
      requires Valid() && response != null
      modifies response`transmitted, socket, this`calls
      ensures Valid()
      ensures var n := Attempt(old(response.Progress()), old(socket.results));
              && Sending() == (if n >= 0 then Transmit(old(Sending()), n) else old(Sending()))
              && calls == old(calls) + if n < 0 then [OnError] else []
    {
      var available := response.DataAvailable();
      if available {
        var data, length := response.DataGet();
        if length > 0 {
          var nwritten := socket.Write(data);
          if nwritten == -1 {
            calls := calls + [OnError];
          } else {
            response.DataTransmitted(nwritten);
          }
        }
      }
      assert Resps(queue) == old(Resps(queue));
    }

    /** Queue_get on the response queue. */
    method GetResponse()
      requires Valid()
      modifies this`queue, this`response
      ensures Valid() && Sending() == Fetch(old(Sending()))
      ensures response == old(Next()) && (response == old(response) || response in old(queue))
    {
      if response == null && queue != [] {
        response := queue[0];
        queue := queue[1..];
        assert Resps(queue) == old(Resps(queue))[1..];
      }
    }

    /** A response without remaining data is reported, if it has asked for it, and freed. */
    method FinishResponse()
      requires Valid() && response != null
      modifies this`response, this`finished, this`calls
      ensures Valid() && Sending() == Finish(old(Sending()))
      ensures calls == old(calls) + if Remaining(old(response.Progress())) == [] && old(response.onFinished)
                                    then [OnFinished(old(response.resp))] else []
    {
      var available := response.DataAvailable();
      if !available {
        if response.onFinished {
          calls := calls + [OnFinished(response.resp)];
        }
        finished := finished + [response.resp];
        response := null;
      }
    }

    /** connection_send_cb, once there is a response. */
    method SendResponse()
      requires Valid() && response != null
      modifies this`response, this`finished, this`calls, socket, response`transmitted
      ensures Valid()
      ensures var p, onFinished := old(response.Progress()), old(response.onFinished);
              var n := Attempt(p, old(socket.results));
              Sending() == WriteSome(old(Sending()), n) && calls == old(calls) + CallsFor(p, onFinished, n)
    {
      hide Finish;
      var available := response.DataAvailable();
      NothingSent(Sending());
      if available {
        WriteResponse();
      }
      FinishResponse();
    }

    /** The response that the next callback works on. */
    ghost function Next(): Response?
      reads this
    {
      if response == null && queue != [] then queue[0] else response
    }

    /** connection_send_cb. */
    method ConnectionSendCb()
      requires Valid()
      modifies this, socket, response, queue
      ensures Valid()
      ensures var s := Fetch(old(Sending()));
              if old(Next()) == null then s.current.None? && Sending() == DisableWatcher(s) && calls == old(calls)
              else
                var n := Attempt(s.current.value, old(socket.results));
                && Sending() == WriteSome(s, n)
                && calls == old(calls) + CallsFor(s.current.value, old(Next().onFinished), n)
    {
      hide Fetch, Attempt;
      GetResponse();
      if response != null {
        SendResponse();
      } else {
        sendWatcher := false;
      }
    }
  }
}
