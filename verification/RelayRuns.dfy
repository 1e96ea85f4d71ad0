// Whole runs of the cache-miss relay: the main loop over any inputs, and runs that go wrong.
module RelayRuns {
  import opened Common
  import opened Delivery
  import opened WriteQueue
  import opened RelaySpec
  import opened ClientRuns
  import opened R = Relay
  import H = HttpReply
  import S = Stream

  // What a run in that state has left on the wire, on the disk and in the window.
  ghost predicate Shows(relay: Relay, s: State)
    reads relay, relay.client
  {
    if s.cuts == [] then relay.client.wire == relay.disk == relay.context == ""
    else
      && s.stream.origin == Flatten(s.cuts) && s.stream.Valid()
      && s.headSent <= |s.header| && s.pipe.Valid() && relay.client.wire == s.Wire()
      && relay.client.wire <= s.header + s.Body()
      && relay.disk == s.stream.origin[..s.stream.flushed] && relay.context == s.stream.origin[s.stream.flushed..]
  }

  // The client is closed exactly when buffers of at least Content-Length bytes were sent whole and reported, and
  // then the header and that many bytes of the body are on its wire.
  ghost predicate ClosedOnceServed(relay: Relay)
    reads relay, relay.client
  {
    var p, length := relay.client.pipe, relay.stream.reply.length;
    && (!relay.client.open <==>
          relay.headerDone && length.Some? && 0 < p.done <= |p.queued| && |Flatten(p.queued[..p.done])| >= length.value)
    && (!relay.client.open ==> length.Some? && |relay.client.wire| >= |relay.header| + length.value)
  }

  // One input.
  method Dispatch(relay: Relay, e: Input)
    requires relay.Valid() && Possible(e)
    modifies relay, relay.client
    ensures relay.Valid() && relay.Now() == old(relay.Now()).Next(e)
  {
    hide Relay.Valid, State.Read, State.Writable, State.SwapoutEnded;
    match e
    case FromOrigin(ready, r, able, text, w) =>
      if relay.serverOpen {
        var _ := relay.ServerReadable(ready, r, able, text, w);
      }
    case ToClient(w) => ClientReported(relay, w);
    case SwapoutEnds(error) =>
      if relay.aio.Writing? {
        SwapoutReported(relay, error);
      }
  }

  // The socket takes no more than it is offered.
  method ClientReported(relay: Relay, w: WriteResult)
    requires relay.Valid()
    modifies relay, relay.client
    ensures relay.Valid() && relay.Now() == old(relay.Now()).Writable(w)
  {
    hide State.HeaderWrite, State.BodyWrite;
    if relay.client.open {
      relay.Offers();
      if !w.Wrote? || w.n <= relay.client.Need() {
        relay.ClientWritable(w);
      }
    }
  }

  method SwapoutReported(relay: Relay, error: bool)
    requires relay.Valid() && relay.aio.Writing?
    modifies relay
    ensures relay.Valid() && relay.Now() == old(relay.Now()).SwapoutEnded(error)
  {
    hide Relay.Valid, Relay.Running;
    relay.Writes();
    relay.SwapoutDone(error, relay.aio.nbytes);
    Settled(relay);
  }

  lemma Settled(relay: Relay)
    requires relay.Running() && relay.Watched()
    ensures relay.Valid()
  {
  }

  // Any run of the relay from the first read on goes exactly as specified. (Once the client is closed only
  // a swapout can still end.)
  method MainLoop(c: Descriptor, memorySize: int, watch: Watch, first: Input, inputs: seq<Input>) returns (relay: Relay)
    requires c.Unused() && watch != ForReads
    requires first.FromOrigin? && Possible(first) && forall e :: e in inputs ==> Possible(e)
    modifies c
    ensures relay.Valid() && relay.client == c && relay.memSize == memorySize && fresh(relay)
    ensures relay.Now() == After(watch, first, inputs) && Shows(relay, After(watch, first, inputs))
    ensures !Fails(first) && (forall e :: e in inputs ==> !Fails(e)) && relay.cuts != [] ==> ClosedOnceServed(relay)
  {
    hide Relay.Valid, State.Read, State.Next, Shows, ClosedOnceServed;
    relay := Start(c, memorySize, watch, first);
    for i := 0 to |inputs|
      invariant relay.Valid() && relay.client == c && relay.memSize == memorySize && fresh(relay)
      invariant relay.Now() == After(watch, first, inputs[..i])
    {
      assert inputs[..i + 1][..i] == inputs[..i];
      Dispatch(relay, inputs[i]);
    }
    assert inputs[..|inputs|] == inputs;
    Seen(relay);
    if !Fails(first) && (forall e :: e in inputs ==> !Fails(e)) && relay.cuts != [] {
      Served(relay, watch, first, inputs);
    }
  }

  lemma Served(relay: Relay, watch: Watch, first: Input, inputs: seq<Input>)
    requires first.FromOrigin? && Possible(first) && forall e :: e in inputs ==> Possible(e)
    requires !Fails(first) && forall e :: e in inputs ==> !Fails(e)
    requires relay.Now() == After(watch, first, inputs) && Shows(relay, After(watch, first, inputs)) && relay.cuts != []
    ensures ClosedOnceServed(relay)
  {
    hide After, Flatten, Pipe.Wire;
    ClosedIff(watch, first, inputs);
  }

  // http_request_send_finish: the first read.
  method Start(c: Descriptor, memorySize: int, watch: Watch, first: Input) returns (relay: Relay)
    requires c.Unused() && watch != ForReads && first.FromOrigin? && Possible(first)
    modifies c
    ensures relay.Valid() && relay.client == c && relay.memSize == memorySize && fresh(relay)
    ensures relay.Now() == After(watch, first, [])
  {
    hide Relay.Running, Descriptor.Ready, Descriptor.Linked, State.Read;
    relay := new Relay(c, memorySize, watch);
    var _ := relay.HttpReplyRead(first.r, first.able, first.text, first.w);
  }

  lemma Seen(relay: Relay)
    requires relay.Valid()
    ensures Shows(relay, relay.Now())
  {
    if relay.Running() {
      relay.StreamTheorem();
    }
  }

  // ---- Bytes nobody is told of ----

  // The event makes a read that finds nothing.
  predicate FoundNothing(s: State, e: Input) {
    s.Hears(e) && e.r.ReadAgain?
  }

  // Some read that the main loop made found nothing.
  ghost predicate AnyFoundNothing(watch: Watch, first: Input, inputs: seq<Input>)
    requires first.FromOrigin?
  {
    exists i :: 0 <= i < |inputs| && FoundNothing(After(watch, first, inputs[..i]), inputs[i])
  }

  lemma AnyFoundNext(watch: Watch, first: Input, inputs: seq<Input>, e: Input)
    requires first.FromOrigin?
    ensures AnyFoundNothing(watch, first, inputs + [e])
       <==> AnyFoundNothing(watch, first, inputs) || FoundNothing(After(watch, first, inputs), e)
  {
    hide After, FoundNothing;
    var more := inputs + [e];
    forall i | 0 <= i <= |inputs| ensures more[..i] == inputs[..i] && (i < |inputs| ==> more[i] == inputs[i]) {}
    assert inputs[..|inputs|] == inputs && more[|inputs|] == e;
    if i :| 0 <= i < |inputs| && FoundNothing(After(watch, first, inputs[..i]), inputs[i]) {
      assert FoundNothing(After(watch, first, more[..i]), more[i]);
    }
    if FoundNothing(After(watch, first, inputs), e) {
      assert FoundNothing(After(watch, first, more[..|inputs|]), more[|inputs|]);
    }
  }

  // Whatever happens, arriving bytes are reported exactly if some read found nothing before.
  lemma {:induction false} BytesReportedIff(watch: Watch, first: Input, inputs: seq<Input>)
    requires watch != ForReads && first.FromOrigin?
    ensures Reports(After(watch, first, inputs).watch, Readable)
       <==> first.r.ReadAgain? || AnyFoundNothing(watch, first, inputs)
  {
    hide State.Read, State.Next, FoundNothing;
    if inputs == [] {
      WatchKept(Asked(watch), first);
    } else {
      var n := |inputs| - 1;
      BytesReportedIff(watch, first, inputs[..n]);
      WatchKept(After(watch, first, inputs[..n]), inputs[n]);
      assert inputs == inputs[..n] + [inputs[n]];
      hide AnyFoundNothing;
      AnyFoundNext(watch, first, inputs[..n], inputs[n]);
    }
  }

  lemma WatchKept(s: State, e: Input)
    ensures s.Next(e).watch == if FoundNothing(s, e) then ForReads else s.watch
    ensures e.FromOrigin? ==> s.Read(e.r, e.able, e.text, e.w).watch == if e.r.ReadAgain? then ForReads else s.watch
  {
    hide State.Read, State.Writable;
  }

  // A registered http_reply_read learns of a dead origin exactly if some read found nothing before, or the hang-up
  // is reported and the request left the origin watched for writing.
  lemma HeardIff(watch: Watch, first: Input, inputs: seq<Input>, ready: Readiness)
    requires watch != ForReads && first.FromOrigin?
    requires var s := After(watch, first, inputs); s.serverOpen && s.registered
    ensures var s := After(watch, first, inputs);
      !s.Next(FromOrigin(ready, ReadFailed, false, "", WriteResult.Again)).serverOpen
      <==> (ready == HungUp && watch == ForWrites) || first.r.ReadAgain? || AnyFoundNothing(watch, first, inputs)
  {
    hide After, AnyFoundNothing;
    BytesReportedIff(watch, first, inputs);
    WatchedForReadsOnly(watch, first, inputs);
  }

  // Nothing but reading is ever asked for.
  lemma {:induction false} WatchedForReadsOnly(watch: Watch, first: Input, inputs: seq<Input>)
    requires first.FromOrigin?
    ensures After(watch, first, inputs).watch in {watch, ForReads}
  {
    hide State.Read, State.Next;
    if inputs == [] {
      WatchKept(Asked(watch), first);
    } else {
      var n := |inputs| - 1;
      WatchedForReadsOnly(watch, first, inputs[..n]);
      WatchKept(After(watch, first, inputs[..n]), inputs[n]);
    }
  }

  // If the request left the origin unwatched, then not even a hang-up is heard once the first read found something.
  lemma {:induction false} UnwatchedIsDeaf(first: Input, inputs: seq<Input>)
    requires first.FromOrigin? && !first.r.ReadAgain?
    ensures var s, s0 := After(Unwatched, first, inputs), After(Unwatched, first, []);
      s.watch == Unwatched && s.cuts == s0.cuts && s.stream.origin == s0.stream.origin
      && s.stream.reply == s0.stream.reply && s.header == s0.header
  {
    if inputs == [] {
      WatchKept(Asked(Unwatched), first);
    } else {
      var n := |inputs| - 1;
      UnwatchedIsDeaf(first, inputs[..n]);
      var s := After(Unwatched, first, inputs[..n]);
      assert !s.Hears(inputs[n]);
      Unheard(s, inputs[n]);
    }
  }

  predicate HangUp(e: Input) {
    e.FromOrigin? && e.ready == HungUp
  }

  // Unless the very first read finds nothing, no other read is ever made while the origin stays up.
  lemma {:induction false} OneReadOnly(watch: Watch, first: Input, inputs: seq<Input>)
    requires watch != ForReads && first.FromOrigin?
    requires !first.r.ReadAgain? && forall e :: e in inputs ==> !HangUp(e)
    ensures var s := After(watch, first, inputs);
      s.watch == watch && s.cuts == After(watch, first, []).cuts && s.stream.reply == After(watch, first, []).stream.reply
      && s.stream.origin == After(watch, first, []).stream.origin && s.header == After(watch, first, []).header
  {
    if inputs == [] {
      WatchKept(Asked(watch), first);
    } else {
      var n := |inputs| - 1;
      OneReadOnly(watch, first, inputs[..n]);
      var s := After(watch, first, inputs[..n]);
      assert !HangUp(inputs[n]) && !s.Hears(inputs[n]);
      Unheard(s, inputs[n]);
    }
  }

  // Only http_reply_read changes what was read.
  lemma Unheard(s: State, e: Input)
    requires !s.Hears(e)
    ensures var t := s.Next(e); t.cuts == s.cuts && t.stream.origin == s.stream.origin && t.stream.reply == s.stream.reply
    ensures var t := s.Next(e); t.watch == s.watch && t.header == s.header && t.cacheable == s.cacheable
  {
    hide State.Read, State.Writable;
  }

  // ---- Replies as they arrive ----

  // What is found in a first read that begins with a printed header.
  lemma FoundPrinted(h: H.Head, stat: string, cache: string, data: string)
    requires H.Printable(h, stat, cache) && H.Printed(h, stat, cache) <= data
    ensures Found(data) == Some(S.Reply(|H.Printed(h, stat, cache)|, H.ContentLength(H.Marked(h, stat, cache))))
  {
    hide H.Parsed, H.Printed, H.Marked, H.ContentLength, H.Printable;
    var body := data[|H.Printed(h, stat, cache)|..];
    H.ParseOfPrinted(h, stat, cache, body);
    assert data == H.Printed(h, stat, cache) + body;
  }

  const AGAIN := FromOrigin(Readable, ReadAgain, false, "", WriteResult.Again)

  // Bytes have arrived; a header, if it is time for one, goes out at once.
  function Arrival(data: string, able: bool, text: string): Input {
    FromOrigin(Readable, Data(data), able, text, Wrote(|text|))
  }

  function Arrivals(cuts: seq<string>, able: bool, text: string): seq<Input> {
    seq(|cuts|, i requires 0 <= i < |cuts| => Arrival(cuts[i], able, text))
  }

  // A reply of more than a chunk, as far as is known.
  predicate Large(reply: S.Reply) {
    reply.length.None? || reply.headerSize + reply.length.value > CHUNK_SIZE
  }

  // All these reads have been taken. Unless the window is full, the next one is awaited; if it is full it is
  // swapped out, or, of an uncacheable reply, nothing is.
  ghost predicate Filled(s: State, cuts: seq<string>, reply: S.Reply, able: bool, text: string, full: bool) {
    && cuts != [] && s.cuts == cuts && s.stream == S.Stream(Flatten(cuts), |cuts[0]|, reply, 0)
    && s.cacheable == able && s.header == text && s.headerDone && s.serverOpen && s.clientOpen && s.watch == ForReads
    && !s.aioFailed && !s.drained && s.registered == !full && s.writing == (full && able)
  }

  lemma FirstArrival(watch: Watch, data: string, reply: S.Reply, able: bool, text: string)
    requires Found(data) == Some(reply) && Large(reply) && 0 < reply.headerSize <= |data| <= BUF_SIZE
    ensures Filled(After(watch, AGAIN, Arrivals([data], able, text)), [data], reply, able, text, false)
  {
    hide Found;
    FlattenOne(data);
    assert Arrivals([data], able, text) == [Arrival(data, able, text)];
    ThenOne(Asked(watch).Read(ReadAgain, false, "", WriteResult.Again), Arrival(data, able, text));
  }

  lemma {:induction false} Filling(watch: Watch, data: string, reply: S.Reply, cuts: seq<string>, able: bool, text: string)
    requires Found(data) == Some(reply) && Large(reply) && 0 < reply.headerSize <= |data| == BUF_SIZE
    requires S.FullBuffers(cuts) && |cuts| <= 63
    ensures |Flatten([data] + cuts)| == BUF_SIZE * (|cuts| + 1)
    ensures Filled(After(watch, AGAIN, Arrivals([data] + cuts, able, text)), [data] + cuts, reply, able, text, |cuts| == 63)
  {
    hide Found, State.Read, State.Next, Filled, Flatten, Large;
    if cuts == [] {
      assert [data] + cuts == [data];
      FlattenOne(data);
      FirstArrival(watch, data, reply, able, text);
    } else {
      var n := |cuts| - 1;
      var before, c := [data] + cuts[..n], cuts[n];
      Filling(watch, data, reply, cuts[..n], able, text);
      assert c in cuts && [data] + cuts == before + [c] && (before + [c])[..|before|] == before;
      var inputs := Arrivals(before + [c], able, text);
      assert inputs[..|before|] == Arrivals(before, able, text);
      NextArrival(After(watch, AGAIN, inputs[..|before|]), before, reply, able, text, c);
    }
  }

  lemma NextArrival(s: State, cuts: seq<string>, reply: S.Reply, able: bool, text: string, c: string)
    requires Filled(s, cuts, reply, able, text, false) && Large(reply) && reply.headerSize <= BUF_SIZE == |c| == |cuts[0]|
    requires |Flatten(cuts)| == BUF_SIZE * |cuts| && |cuts| <= 63
    ensures Flatten(cuts + [c]) == Flatten(cuts) + c
    ensures Filled(s.Next(Arrival(c, able, text)), cuts + [c], reply, able, text, |cuts| == 63)
  {
    hide Flatten;
    FlattenOne(c);
    FlattenSplit(cuts, [c]);
  }

  // ---- A reply that is read only once ----

  // If a longer reply has begun to arrive before it is read for the first time, the client never gets more
  // of it than that, whatever else the origin sends.
  method Stall(c: Descriptor, memorySize: int, watch: Watch, h: H.Head, stat: string, cache: string, body: string,
      able: bool, text: string, w: WriteResult, inputs: seq<Input>)
    returns (relay: Relay)
    requires c.Unused() && watch != ForReads
    requires H.Printable(h, stat, cache) && |H.Printed(h, stat, cache) + body| <= BUF_SIZE
    requires var n := H.ContentLength(H.Marked(h, stat, cache)); n.None? || n.value > |body|
    requires (w.Wrote? ==> w.n <= |text|) && forall e :: e in inputs ==> Possible(e) && !HangUp(e)
    modifies c
    ensures relay.Valid() && relay.client == c
    ensures relay.cuts == [H.Printed(h, stat, cache) + body] && !relay.stream.Complete() && c.wire <= text + body
  {
    hide Relay.Valid, H.Printed, H.Marked, H.Printable, H.ContentLength, Found;
    var head := H.Printed(h, stat, cache);
    var data := head + body;
    FoundPrinted(h, stat, cache, data);
    FoundFits(data);
    var first := FromOrigin(Readable, Data(data), able, text, w);
    relay := MainLoop(c, memorySize, watch, first, inputs);
    OneReadOnly(watch, first, inputs);
    FlattenOne(data);
    assert data[|head|..] == body;
  }

  // ---- A tail that never reaches the disk ----

  // The origin is closed and no swapout is running.
  predicate AtRest(s: State) {
    s.headerDone && !s.serverOpen && !s.writing
  }

  lemma {:induction false} StaysAtRest(s: State, inputs: seq<Input>)
    requires AtRest(s)
    ensures var t := Then(s, inputs); AtRest(t) && s.Untouched(t)
  {
    if inputs != [] {
      hide State.Writable, State.Read, State.SwapoutEnded;
      StaysAtRest(s, inputs[..|inputs| - 1]);
    }
  }

  // A reply one byte over a chunk, in full buffers.
  function TailInputs(data: string, cuts: seq<string>, last: string, text: string): seq<Input> {
    Arrivals([data] + cuts, true, text) + [SwapoutEnds(false)] + [Arrival(last, true, text)]
  }

  lemma LosesTail(watch: Watch, data: string, reply: S.Reply, cuts: seq<string>, last: string, text: string, more: seq<Input>)
    requires Found(data) == Some(reply) && S.OneOver(data, reply) && S.FullBuffers(cuts) && |cuts| == 63 && |last| == 1
    ensures var s := After(watch, AGAIN, TailInputs(data, cuts, last, text) + more);
      && AtRest(s) && s.cacheable && !s.aioFailed && s.cuts == [data] + cuts + [last]
      && s.stream.Complete() && s.stream.flushed == CHUNK_SIZE && |s.stream.origin| == CHUNK_SIZE + 1
  {
    hide Found, State.Read, Flatten;
    Filling(watch, data, reply, cuts, true, text);
    var arrivals := Arrivals([data] + cuts, true, text);
    var first := Asked(watch).Read(AGAIN.r, AGAIN.able, AGAIN.text, AGAIN.w);
    var s := After(watch, AGAIN, arrivals);
    var s1 := s.Next(SwapoutEnds(false));
    var s2 := s1.Next(Arrival(last, true, text));
    ThenMore(first, arrivals, [SwapoutEnds(false)]);
    ThenOne(s, SwapoutEnds(false));
    ThenMore(first, arrivals + [SwapoutEnds(false)], [Arrival(last, true, text)]);
    ThenOne(s1, Arrival(last, true, text));
    ThenMore(first, TailInputs(data, cuts, last, text), more);
    TailArrives(s1, last, text);
    StaysAtRest(s2, more);
  }

  lemma TailArrives(s: State, last: string, text: string)
    requires s.headerDone && s.serverOpen && s.registered && s.watch == ForReads && s.cacheable && !s.writing && s.cuts != []
    requires |s.stream.origin| == s.stream.flushed == CHUNK_SIZE && s.stream.first == BUF_SIZE && |last| == 1
    requires s.stream.reply.length == Some(CHUNK_SIZE + 1 - s.stream.reply.headerSize)
    ensures var t := s.Next(Arrival(last, true, text));
      && AtRest(t) && t.cacheable && t.aioFailed == s.aioFailed && t.cuts == s.cuts + [last] && t.stream == s.stream.Read(last)
      && t.stream.Complete()
  {
  }

  lemma TailPossible(data: string, cuts: seq<string>, last: string, text: string)
    requires |data| == BUF_SIZE && S.FullBuffers(cuts) && |last| == 1
    ensures forall e :: e in TailInputs(data, cuts, last, text) ==> Possible(e)
  {
    ArrivalsPossible([data] + cuts, true, text);
  }

  // Every read and write goes well, and the complete reply has been read. Whatever happens then, its last byte
  // is not written to the disk.
  method LoseTail(c: Descriptor, memorySize: int, watch: Watch, h: H.Head, stat: string, cache: string,
      data: string, cuts: seq<string>, last: string, text: string, more: seq<Input>)
    returns (relay: Relay)
    requires c.Unused() && watch != ForReads && forall e :: e in more ==> Possible(e)
    requires H.Printable(h, stat, cache) && H.Printed(h, stat, cache) <= data && |data| == BUF_SIZE
    requires H.ContentLength(H.Marked(h, stat, cache)) == Some(CHUNK_SIZE + 1 - |H.Printed(h, stat, cache)|)
    requires S.FullBuffers(cuts) && |cuts| == 63 && |last| == 1
    modifies c
    ensures relay.Valid() && relay.memSize == memorySize && AtRest(relay.Now()) && relay.cacheable && !relay.aioFailed
    ensures relay.cuts == [data] + cuts + [last] && relay.stream.Complete() && |Flatten(relay.cuts)| == CHUNK_SIZE + 1
    ensures relay.disk == Flatten(relay.cuts)[..CHUNK_SIZE]
  {
    hide Relay.Valid, H.Printed, H.Marked, H.Printable, H.ContentLength, Found, TailInputs, After, Flatten;
    FoundPrinted(h, stat, cache, data);
    FoundFits(data);
    var inputs := TailInputs(data, cuts, last, text) + more;
    TailPossible(data, cuts, last, text);
    relay := MainLoop(c, memorySize, watch, AGAIN, inputs);
    ghost var reply := S.Reply(|H.Printed(h, stat, cache)|, H.ContentLength(H.Marked(h, stat, cache)));
    LosesTail(watch, data, reply, cuts, last, text, more);
  }

  // ---- An uncacheable reply that fills its window ----

  // What the main loop keeps true of an uncacheable reply.
  ghost predicate Sound(s: State) {
    && (s.cuts == [] ==> !s.headerDone && !s.writing)
    && (s.cuts != [] && !s.headerDone ==> !s.registered && !s.writing && s.stream.flushed == 0)
    && (s.headerDone && !s.cacheable ==>
          !s.writing && s.stream.flushed == 0 && (s.serverOpen ==> (s.registered <==> !s.stream.Flushes())))
  }

  lemma {:induction false} AlwaysSound(watch: Watch, first: Input, inputs: seq<Input>)
    requires first.FromOrigin?
    ensures Sound(After(watch, first, inputs))
  {
    hide Sound, State.Next, State.Read;
    if inputs == [] {
      ReadIsSound(Asked(watch), first.r, first.able, first.text, first.w);
    } else {
      AlwaysSound(watch, first, inputs[..|inputs| - 1]);
      NextIsSound(After(watch, first, inputs[..|inputs| - 1]), inputs[|inputs| - 1]);
    }
  }

  // http_reply_read may run: its handler slot is cleared.
  ghost predicate Called(s: State) {
    && !s.registered && (s.cuts == [] ==> !s.headerDone && !s.writing) && (s.cuts != [] ==> s.headerDone)
    && (s.headerDone && !s.cacheable ==> !s.writing && s.stream.flushed == 0 && !s.stream.Flushes())
  }

  lemma ReadIsSound(s: State, r: ReadResult, able: bool, text: string, w: WriteResult)
    requires Called(s)
    ensures Sound(s.Read(r, able, text, w))
  {
    hide State.First, State.More;
    if r.Data? {
      if s.cuts == [] {
        FirstIsSound(s, r.bytes, able, text, w);
      } else {
        MoreIsSound(s, r.bytes);
      }
    }
  }

  lemma FirstIsSound(s: State, data: string, able: bool, text: string, w: WriteResult)
    requires Called(s) && s.cuts == []
    ensures Sound(s.First(data, able, text, w))
  {
    hide Found, State.HeaderWrite, S.Stream.Flushes, S.Stream.Complete;
    if Found(data).Some? {
      HeaderIsSound(s.Loaded(data, Found(data).value, able, text), w);
    }
  }

  // The header of a reply of which nothing is on disk is written.
  lemma HeaderIsSound(s: State, w: WriteResult)
    requires s.cuts != [] && !s.headerDone && !s.registered && !s.writing && s.stream.flushed == 0
    ensures Sound(s.HeaderWrite(w))
  {
    hide S.Stream.Flushes, S.Stream.Complete;
  }

  lemma MoreIsSound(s: State, data: string)
    requires Called(s) && s.cuts != []
    ensures Sound(s.More(data))
  {
    hide S.Stream.Flushes, S.Stream.Complete;
  }

  lemma NextIsSound(s: State, e: Input)
    requires Sound(s)
    ensures Sound(s.Next(e))
  {
    hide State.Read, State.HeaderWrite, State.BodyWrite, S.Stream.Flushes;
    match e
    case FromOrigin(_, r, able, text, w) =>
      if s.Hears(e) {
        ReadIsSound(s.(registered := false), r, able, text, w);
      }
    case ToClient(w) =>
      if s.cuts != [] && !s.headerDone {
        HeaderIsSound(s, w);
      }
    case SwapoutEnds(_) =>
  }

  // An uncacheable reply that is not to be read on stays so.
  lemma {:induction false} StalledForGood(s: State, inputs: seq<Input>)
    requires s.headerDone && !s.registered && !s.writing
    ensures var t := Then(s, inputs); t.headerDone && !t.registered && !t.writing && s.Untouched(t)
  {
    if inputs != [] {
      hide State.Writable, State.Read, State.SwapoutEnded;
      StalledForGood(s, inputs[..|inputs| - 1]);
    }
  }

  // Once the header is out, and while the origin is open and watched, more of an uncacheable reply can be read
  // exactly if its window is not to be flushed.
  lemma UncacheableStallsIff(watch: Watch, first: Input, inputs: seq<Input>)
    requires first.FromOrigin?
    requires var s := After(watch, first, inputs); s.headerDone && !s.cacheable && s.serverOpen && s.watch == ForReads
    ensures var s := After(watch, first, inputs);
      (exists more :: Then(s, more).cuts != s.cuts) <==> !s.stream.Flushes()
  {
    hide S.Stream.Flushes, After, Then;
    var s := After(watch, first, inputs);
    AlwaysSound(watch, first, inputs);
    if s.registered {
      var e := FromOrigin(Readable, Data("x"), false, "", WriteResult.Again);
      ThenOne(s, e);
      assert Then(s, [e]).cuts != s.cuts;
    } else {
      forall more ensures Then(s, more).cuts == s.cuts { StalledForGood(s, more); }
    }
  }

  // An uncacheable reply of more than a chunk, in full buffers: when the window is full, reading stops, and
  // the client never gets the rest.
  method FillWindow(c: Descriptor, memorySize: int, watch: Watch, h: H.Head, stat: string, cache: string,
      data: string, cuts: seq<string>, text: string, more: seq<Input>)
    returns (relay: Relay)
    requires c.Unused() && watch != ForReads && forall e :: e in more ==> Possible(e)
    requires H.Printable(h, stat, cache) && H.Printed(h, stat, cache) <= data && |data| == BUF_SIZE
    requires Large(S.Reply(|H.Printed(h, stat, cache)|, H.ContentLength(H.Marked(h, stat, cache))))
    requires S.FullBuffers(cuts) && |cuts| == 63
    modifies c
    ensures relay.Valid() && relay.cuts == [data] + cuts && !relay.stream.Complete() && |Flatten(relay.cuts)| == CHUNK_SIZE
    ensures c.wire <= text + Flatten(relay.cuts)[|H.Printed(h, stat, cache)|..]
  {
    hide Relay.Valid, H.Printed, H.Marked, H.Printable, H.ContentLength, Found, Arrivals, Flatten;
    FoundPrinted(h, stat, cache, data);
    FoundFits(data);
    ghost var reply := S.Reply(|H.Printed(h, stat, cache)|, H.ContentLength(H.Marked(h, stat, cache)));
    var arrivals := Arrivals([data] + cuts, false, text);
    ArrivalsPossible([data] + cuts, false, text);
    relay := MainLoop(c, memorySize, watch, AGAIN, arrivals + more);
    Filling(watch, data, reply, cuts, false, text);
    ThenMore(Asked(watch).Read(AGAIN.r, AGAIN.able, AGAIN.text, AGAIN.w), arrivals, more);
    StalledForGood(After(watch, AGAIN, arrivals), more);
  }

  lemma ArrivalsPossible(cuts: seq<string>, able: bool, text: string)
    requires forall c :: c in cuts ==> 0 < |c| <= BUF_SIZE
    ensures forall e :: e in Arrivals(cuts, able, text) ==> Possible(e)
  {
  }

  // ---- A read error that fails an assertion ----

  // A reply without a length whose first read went past the header, ended by a read error.
  method Abort(c: Descriptor, memorySize: int, watch: Watch, h: H.Head, stat: string, cache: string, body: string,
      able: bool, text: string)
    returns (relay: Relay, aborted: bool)
    requires c.Unused() && watch != ForReads
    requires H.Printable(h, stat, cache) && |H.Printed(h, stat, cache) + body| <= BUF_SIZE && body != ""
    requires H.ContentLength(H.Marked(h, stat, cache)).None?
    modifies c
    ensures aborted && relay.Valid() && relay.cuts == [H.Printed(h, stat, cache) + body]
  {
    hide Relay.Valid, H.Printed, H.Marked, H.Printable, H.ContentLength, Found, Arrivals, Flatten;
    var data := H.Printed(h, stat, cache) + body;
    FoundPrinted(h, stat, cache, data);
    FoundFits(data);
    ArrivalsPossible([data], able, text);
    relay := MainLoop(c, memorySize, watch, AGAIN, Arrivals([data], able, text));
    FirstArrival(watch, data, S.Reply(|H.Printed(h, stat, cache)|, None), able, text);
    aborted := relay.ServerReadable(Readable, ReadFailed, able, text, WriteResult.Again);
  }
}
