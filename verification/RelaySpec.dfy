// What the callbacks of a cache miss do, as functions on values: from the inputs alone follows what is
// read, written, queued and closed.
module RelaySpec {
  import opened Common
  import opened Delivery
  import opened WriteQueue
  import H = HttpReply
  import S = Stream

  // What read(2) on the origin returned.
  datatype ReadResult = Data(bytes: string) | EndOfFile | ReadAgain | ReadFailed

  // What epoll watches the origin's descriptor for. Sending the request may have left it watched for
  // writing, or not watched at all; only http_reply_read ever asks for reading.
  datatype Watch = Unwatched | ForWrites | ForReads

  // Why epoll reports the origin: there are bytes to read, or the connection is hung up or in error,
  // which is reported for every watched descriptor.
  datatype Readiness = Readable | HungUp

  predicate Reports(watch: Watch, ready: Readiness) {
    watch == ForReads || (ready == HungUp && watch == ForWrites)
  }

  // What reply_parse finds in the first read.
  ghost function Found(data: string): Option<S.Reply> {
    var r := H.Parsed(data);
    if r.None? then None else Some(S.Reply(r.value.headerSize, r.value.length))
  }

  lemma FoundFits(data: string)
    requires Found(data).Some?
    ensures 0 < Found(data).value.headerSize <= |data|
  {
    hide H.Parsed;
    H.ParsedHeader(data);
  }

  // One thing the main loop may find to do: the origin is reported, the client is writable, or the
  // swapout has ended, whole or in error. Of a first read, able is cache_able's verdict and text the
  // header that the proxy prints for it.
  datatype Input =
    | FromOrigin(ready: Readiness, r: ReadResult, able: bool, text: string, w: WriteResult)
    | ToClient(w: WriteResult)
    | SwapoutEnds(error: bool)

  // What read(2) and write(2) can return: never more than was asked for.
  predicate Possible(e: Input) {
    match e
    case FromOrigin(_, r, _, text, w) => (r.Data? ==> 0 < |r.bytes| <= BUF_SIZE) && (w.Wrote? ==> w.n <= |text|)
    case _ => true
  }

  const NO_STREAM := S.Stream("", 0, S.Reply(0, None), 0)

  datatype State = State(
    // the origin's descriptor: open, watched, and http_reply_read registered
    serverOpen: bool,
    watch: Watch,
    registered: bool,
    // the reads with data, and what they and the swapouts made of the reply
    cuts: seq<string>,
    stream: S.Stream,
    cacheable: bool,
    writing: bool,
    aioFailed: bool,
    drained: bool,
    // the client: open, its header with how much of it is out, and its queue
    clientOpen: bool,
    header: string,
    headSent: nat,
    headerDone: bool,
    pipe: Pipe
  ) {

    // Nothing was read, and the origin is watched as before.
    predicate Untouched(t: State) {
      && t.watch == watch && t.cuts == cuts && t.stream == stream && t.cacheable == cacheable && t.header == header
      && t.aioFailed == aioFailed && t.drained == drained && (t.serverOpen ==> serverOpen) && (t.clientOpen ==> clientOpen)
    }

    // http_reply_body_send: queue, then swap the window out or register for the next read.
    ghost function BodySent(rest: string): (t: State)
      ensures Untouched(t)
    {
      var s := this.(pipe := pipe.Enqueue(rest));
      if !stream.Flushes() then s.(registered := true)
      else if cacheable then s.(writing := true)
      else s
    }

    ghost function Dropped(): (t: State)
      ensures Untouched(t)
    {
      this.(serverOpen := false, clientOpen := false)
    }

    function Body(): string {
      if stream.reply.headerSize <= |stream.origin| then stream.origin[stream.reply.headerSize..] else ""
    }

    // http_reply_header_send_done without an error.
    ghost function HeaderOut(): (t: State)
      ensures Untouched(t)
    {
      this.(headerDone := true).BodySent(Body())
    }

    // sock_handle_write for the header.
    ghost function HeaderWrite(w: WriteResult): (t: State)
      ensures Untouched(t)
    {
      match w
      case Failed => Dropped()
      case Again => this
      case Wrote(n) =>
        var s := this.(headSent := headSent + n);
        if s.headSent == |header| then s.HeaderOut() else s
    }

    // http_reply_body_send_done without an error: the client is closed once it has the whole body.
    ghost function Delivered(): (t: State)
      ensures clientOpen ==> Untouched(t)
      ensures t.headerDone == headerDone && t.writing == writing && t.registered == registered
    {
      var p := pipe.Report();
      var whole := stream.reply.length.Some? && p.done <= |p.queued|
        && |Flatten(p.queued[..p.done])| >= stream.reply.length.value;
      this.(pipe := p, clientOpen := !whole)
    }

    // sock_handle_write for the front of the queue.
    ghost function BodyWrite(w: WriteResult): (t: State)
      requires pipe.done < |pipe.queued|
      ensures clientOpen ==> Untouched(t)
      ensures t.headerDone == headerDone && t.writing == writing && t.registered == registered
    {
      match w
      case Failed => Dropped()
      case Again => this
      case Wrote(n) =>
        var s := this.(pipe := pipe.Send(n));
        if s.pipe.sent == |pipe.queued[pipe.done]| then s.Delivered() else s
    }

    // How much the next write to the client would try to put out.
    function Need(): int {
      if cuts == [] then 0
      else if !headerDone then |header| - headSent
      else if pipe.done < |pipe.queued| then |pipe.queued[pipe.done]| - pipe.sent
      else 0
    }

    // sock_call_handler for the client; a write takes no more than it is offered.
    ghost function Writable(w: WriteResult): (t: State)
      ensures Untouched(t)
      ensures headerDone || cuts == [] ==> t.headerDone == headerDone && t.writing == writing && t.registered == registered
    {
      if !clientOpen || cuts == [] || (w.Wrote? && w.n > Need()) then this
      else if !headerDone then HeaderWrite(w)
      else if pipe.done < |pipe.queued| then BodyWrite(w)
      else this
    }

    // http_reply_read with the first data, up to the header: nothing is kept of what cannot be parsed.
    ghost function Loaded(data: string, reply: S.Reply, able: bool, text: string): State {
      var s := S.Stream(data, |data|, reply, 0);
      this.(cuts := [data], stream := s, cacheable := able, header := text, serverOpen := serverOpen && !(able && s.Complete()))
    }

    ghost function First(data: string, able: bool, text: string, w: WriteResult): (t: State)
      ensures t.watch == watch
    {
      var found := Found(data);
      if found.None? then Dropped() else Loaded(data, found.value, able, text).HeaderWrite(w)
    }

    // http_reply_read with later data.
    ghost function More(data: string): (t: State)
      ensures t.watch == watch && t.cuts == cuts + [data] && t.stream == stream.Read(data)
    {
      var s := stream.Read(data);
      this.(cuts := cuts + [data], stream := s, serverOpen := serverOpen && !(cacheable && s.Complete())).BodySent(data)
    }

    // http_reply_read, with its handler slot already cleared.
    ghost function Read(r: ReadResult, able: bool, text: string, w: WriteResult): (t: State)
      ensures t.watch == if r.ReadAgain? then ForReads else watch
    {
      match r
      case ReadAgain => this.(watch := ForReads, registered := true)
      case EndOfFile =>
        if cuts == [] || (stream.reply.length.Some? && stream.Complete()) then this.(serverOpen := false)
        else this.(registered := true)
      case ReadFailed =>
        var rest := cuts != [] && stream.reply.length.None? && cacheable && |stream.origin| > stream.flushed;
        this.(serverOpen := false, writing := writing || rest, drained := drained || rest)
      case Data(bytes) => if cuts == [] then First(bytes, able, text, w) else More(bytes)
    }

    // What the client has received.
    ghost function Wire(): string
      requires headSent <= |header| && pipe.Valid()
    {
      header[..headSent] + pipe.Wire()
    }

    // Whether epoll's report of the origin makes http_reply_read run.
    predicate Hears(e: Input) {
      e.FromOrigin? && serverOpen && registered && Reports(watch, e.ready)
    }

    // mem_swapout_done, of a whole write or of an error.
    ghost function SwapoutEnded(error: bool): State {
      if error then this.(writing := false, aioFailed := true)
      else this.(writing := false, registered := true, stream := stream.Landed())
    }

    // One turn of the main loop.
    ghost function Next(e: Input): State {
      match e
      case FromOrigin(_, r, able, text, w) =>
        if Hears(e) then this.(registered := false).Read(r, able, text, w) else this
      case ToClient(w) => Writable(w)
      case SwapoutEnds(error) => if writing then SwapoutEnded(error) else this
    }
  }

  // The request is out.
  function Asked(watch: Watch): State {
    State(true, watch, false, [], NO_STREAM, false, false, false, false, true, "", 0, false, Pipe([], 0, 0))
  }

  ghost function Then(s: State, inputs: seq<Input>): State {
    if inputs == [] then s else Then(s, inputs[..|inputs| - 1]).Next(inputs[|inputs| - 1])
  }

  lemma ThenMore(s: State, a: seq<Input>, b: seq<Input>)
    ensures Then(s, a + b) == Then(Then(s, a), b)
  {
    if b == [] {
      assert a + b == a;
    } else {
      var n := |b| - 1;
      ThenMore(s, a, b[..n]);
      assert (a + b)[..|a + b| - 1] == a + b[..n];
    }
  }

  lemma ThenOne(s: State, e: Input)
    ensures Then(s, [e]) == s.Next(e)
  {
    assert [e][..0] == [];
  }

  // http_request_send_finish calls for the first read itself, then the main loop runs.
  ghost function After(watch: Watch, first: Input, inputs: seq<Input>): State
    requires first.FromOrigin?
  {
    Then(Asked(watch).Read(first.r, first.able, first.text, first.w), inputs)
  }
}
