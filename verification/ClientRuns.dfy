// What the client of a cache miss gets over a whole run, and when it is closed: by the bytes on its wire and the
// buffers of its queue.
module ClientRuns {
  import opened Common
  import opened Delivery
  import opened WriteQueue
  import opened RelaySpec
  import H = HttpReply
  import S = Stream

  // The client is to get the header and then the body as far as it was read.
  ghost function Due(s: State): string {
    s.header + s.Body()
  }

  ghost predicate Orderly(s: State) {
    && s.pipe.Valid() && s.headSent <= |s.header|
    && (s.cuts == [] ==> !s.headerDone && s.headSent == |s.header| == 0)
    && (s.cuts != [] ==> s.stream.reply.headerSize <= |s.stream.origin|)
    && (!s.headerDone ==> s.pipe == Pipe([], 0, 0) && !s.writing && (s.cuts != [] ==> !s.registered))
    && (s.headerDone ==> s.headSent == |s.header| && Flatten(s.pipe.queued) == s.Body())
  }

  lemma {:induction false} AlwaysOrderly(watch: Watch, first: Input, inputs: seq<Input>)
    requires first.FromOrigin? && Possible(first) && forall e :: e in inputs ==> Possible(e)
    ensures Orderly(After(watch, first, inputs))
  {
    hide Orderly, State.Next, State.Read;
    if inputs == [] {
      AskedIsOrderly(watch);
      ReadIsOrderly(Asked(watch), first);
    } else {
      AlwaysOrderly(watch, first, inputs[..|inputs| - 1]);
      NextIsOrderly(After(watch, first, inputs[..|inputs| - 1]), inputs[|inputs| - 1]);
    }
  }

  lemma AskedIsOrderly(watch: Watch)
    ensures Orderly(Asked(watch)) && !Asked(watch).registered
  {
  }

  lemma ReadIsOrderly(s: State, e: Input)
    requires Orderly(s) && e.FromOrigin? && Possible(e) && !s.registered && (s.cuts == [] || s.headerDone)
    ensures Orderly(s.Read(e.r, e.able, e.text, e.w))
  {
    hide State.First, State.More, Orderly;
    if !e.r.Data? {
      NoDataIsOrderly(s, e);
    } else if s.cuts == [] {
      FirstIsOrderly(s, e.r.bytes, e.able, e.text, e.w);
    } else {
      QueuedIsOrderly(s, e.r.bytes);
    }
  }

  lemma NoDataIsOrderly(s: State, e: Input)
    requires Orderly(s) && e.FromOrigin? && !e.r.Data? && (s.cuts == [] || s.headerDone)
    ensures Orderly(s.Read(e.r, e.able, e.text, e.w))
  {
    hide State.First, State.More, Flatten, Pipe.Valid, S.Stream.Complete;
  }

  lemma FirstIsOrderly(s: State, data: string, able: bool, text: string, w: WriteResult)
    requires Orderly(s) && s.cuts == [] && !s.registered && (w.Wrote? ==> w.n <= |text|)
    ensures Orderly(s.First(data, able, text, w))
  {
    hide Found, Flatten, State.HeaderWrite, S.Stream.Complete;
    if Found(data).Some? {
      FoundFits(data);
      HeaderIsOrderly(s.Loaded(data, Found(data).value, able, text), w);
    }
  }

  lemma BodyQueues(s: State, rest: string)
    ensures var t := s.BodySent(rest);
      && t.pipe == s.pipe.Enqueue(rest) && t.stream == s.stream && t.headSent == s.headSent && t.headerDone == s.headerDone
      && t.clientOpen == s.clientOpen && t.serverOpen == s.serverOpen
  {
    hide S.Stream.Flushes;
    var q := s.(pipe := s.pipe.Enqueue(rest));
    if !s.stream.Flushes() {
      assert s.BodySent(rest) == q.(registered := true);
    } else if s.cacheable {
      assert s.BodySent(rest) == q.(writing := true);
    } else {
      assert s.BodySent(rest) == q;
    }
  }

  lemma MoreQueues(s: State, data: string)
    ensures var t := s.More(data);
      && t.pipe == s.pipe.Enqueue(data) && t.stream == s.stream.Read(data) && t.cuts == s.cuts + [data]
      && t.header == s.header && t.headSent == s.headSent && t.headerDone == s.headerDone && t.clientOpen == s.clientOpen
      && t.serverOpen == (s.serverOpen && !(s.cacheable && t.stream.Complete()))
  {
    hide State.BodySent, S.Stream.Complete;
    var read := s.stream.Read(data);
    var open := s.serverOpen && !(s.cacheable && read.Complete());
    BodyQueues(s.(cuts := s.cuts + [data], stream := read, serverOpen := open), data);
  }

  lemma QueuedIsOrderly(s: State, data: string)
    requires Orderly(s) && s.headerDone && s.cuts != []
    ensures Orderly(s.More(data))
  {
    hide Flatten, State.More;
    MoreQueues(s, data);
    var h := s.stream.reply.headerSize;
    assert (s.stream.origin + data)[h..] == s.stream.origin[h..] + data;
    EnqueueKeepsWire(s.pipe, data);
  }

  lemma HeaderIsOrderly(s: State, w: WriteResult)
    requires Orderly(s) && s.cuts != [] && !s.headerDone && (w.Wrote? ==> w.n <= |s.header| - s.headSent)
    ensures Orderly(s.HeaderWrite(w))
  {
    hide S.Stream.Flushes;
    EnqueueKeepsWire(s.pipe, s.Body());
  }

  lemma BodyIsOrderly(s: State, w: WriteResult)
    requires Orderly(s) && s.cuts != [] && s.headerDone && s.pipe.done < |s.pipe.queued|
    requires w.Wrote? ==> w.n <= |s.pipe.queued[s.pipe.done]| - s.pipe.sent
    ensures Orderly(s.BodyWrite(w))
  {
  }

  lemma NextIsOrderly(s: State, e: Input)
    requires Orderly(s) && Possible(e)
    ensures Orderly(s.Next(e))
  {
    hide State.Read, State.HeaderWrite, State.BodyWrite, Flatten;
    match e
    case FromOrigin(_, r, able, text, w) =>
      if s.Hears(e) {
        ReadIsOrderly(s.(registered := false), e);
      }
    case ToClient(w) =>
      if !s.clientOpen || s.cuts == [] || (w.Wrote? && w.n > s.Need()) {
      } else if !s.headerDone {
        HeaderIsOrderly(s, w);
      } else if s.pipe.done < |s.pipe.queued| {
        BodyIsOrderly(s, w);
      }
    case SwapoutEnds(_) =>
  }

  // ---- When the client is closed ----

  // An error of a write ends both connections.
  predicate Fails(e: Input) {
    !e.SwapoutEnds? && e.w.Failed?
  }

  // Buffers of at least Content-Length bytes were sent whole and reported.
  ghost predicate AllReported(s: State) {
    && s.headerDone && s.stream.reply.length.Some? && 0 < s.pipe.done <= |s.pipe.queued|
    && |Flatten(s.pipe.queued[..s.pipe.done])| >= s.stream.reply.length.value
  }

  ghost predicate Attended(s: State) {
    if s.cuts == [] then s.clientOpen || !s.serverOpen else !s.clientOpen <==> AllReported(s)
  }

  // Unless a write fails, the client is closed exactly once the body was reported up to its length, and then
  // the header and that much of the body are on its wire.
  lemma ClosedIff(watch: Watch, first: Input, inputs: seq<Input>)
    requires first.FromOrigin? && Possible(first) && forall e :: e in inputs ==> Possible(e)
    requires !Fails(first) && forall e :: e in inputs ==> !Fails(e)
    requires After(watch, first, inputs).cuts != []
    ensures var s := After(watch, first, inputs); !s.clientOpen <==> AllReported(s)
    ensures var s := After(watch, first, inputs);
      s.headSent <= |s.header| && s.pipe.Valid() && s.Wire() <= s.header + s.Body()
      && (!s.clientOpen ==> s.stream.reply.length.Some? && |s.Wire()| >= |s.header| + s.stream.reply.length.value)
  {
    hide After;
    var s := After(watch, first, inputs);
    AlwaysAttended(watch, first, inputs);
    AlwaysOrderly(watch, first, inputs);
    WireFollows(s);
  }

  lemma WireFollows(s: State)
    requires Orderly(s)
    ensures s.Wire() <= Due(s)
    ensures s.headerDone ==> s.Wire() == s.header + s.pipe.Wire() && |s.pipe.Wire()| >= |Flatten(s.pipe.queued[..s.pipe.done])|
  {
    if s.headerDone {
      WireIsPrefix(s.pipe);
      assert s.header[..|s.header|] == s.header;
    } else {
      assert s.pipe.Wire() == "";
    }
  }

  lemma {:induction false} AlwaysAttended(watch: Watch, first: Input, inputs: seq<Input>)
    requires first.FromOrigin? && Possible(first) && forall e :: e in inputs ==> Possible(e)
    requires !Fails(first) && forall e :: e in inputs ==> !Fails(e)
    ensures Attended(After(watch, first, inputs))
  {
    hide Orderly, Attended, State.Next, State.Read, Possible;
    if inputs == [] {
      AskedIsOrderly(watch);
      AskedIsAttended(watch);
      ReadIsAttended(Asked(watch), first);
    } else {
      var n := |inputs| - 1;
      assert forall e :: e in inputs[..n] ==> e in inputs;
      AlwaysAttended(watch, first, inputs[..n]);
      AlwaysOrderly(watch, first, inputs[..n]);
      NextIsAttended(After(watch, first, inputs[..n]), inputs[n]);
    }
  }

  lemma AskedIsAttended(watch: Watch)
    ensures Attended(Asked(watch))
  {
  }

  lemma ReadIsAttended(s: State, e: Input)
    requires Orderly(s) && Attended(s) && s.serverOpen && e.FromOrigin? && Possible(e) && !Fails(e)
    requires s.cuts == [] || s.headerDone
    ensures Attended(s.Read(e.r, e.able, e.text, e.w))
  {
    hide State.First, State.More, AllReported, Flatten, Pipe.Valid;
    if !e.r.Data? {
      NoDataIsAttended(s, e);
    } else if s.cuts == [] {
      FirstIsAttended(s, e.r.bytes, e.able, e.text, e.w);
    } else {
      MoreIsAttended(s, e.r.bytes);
    }
  }

  lemma NoDataIsAttended(s: State, e: Input)
    requires Attended(s) && e.FromOrigin? && !e.r.Data?
    ensures Attended(s.Read(e.r, e.able, e.text, e.w))
  {
    hide State.First, State.More, Flatten, S.Stream.Complete;
  }

  lemma FirstIsAttended(s: State, data: string, able: bool, text: string, w: WriteResult)
    requires Orderly(s) && s.clientOpen && s.cuts == [] && (w.Wrote? ==> w.n <= |text|) && !w.Failed?
    ensures Attended(s.First(data, able, text, w))
  {
    hide Found, Flatten, S.Stream.Complete, S.Stream.Flushes, Pipe.Valid;
  }

  lemma MoreIsAttended(s: State, data: string)
    requires Orderly(s) && Attended(s) && s.cuts != [] && s.headerDone
    ensures Attended(s.More(data))
  {
    hide Flatten, State.More;
    MoreQueues(s, data);
    assert (s.pipe.queued + [data])[..s.pipe.done] == s.pipe.queued[..s.pipe.done];
  }

  lemma NextIsAttended(s: State, e: Input)
    requires Orderly(s) && Attended(s) && Possible(e) && !Fails(e)
    ensures Attended(s.Next(e))
  {
    hide State.Read, State.HeaderWrite, State.BodyWrite, Flatten, Pipe.Valid;
    match e
    case FromOrigin(_, r, able, text, w) =>
      if s.Hears(e) {
        ReadIsAttended(s.(registered := false), e);
      }
    case ToClient(w) =>
      if !s.clientOpen || s.cuts == [] || (w.Wrote? && w.n > s.Need()) {
      } else if !s.headerDone {
        HeaderIsAttended(s, w);
      } else if s.pipe.done < |s.pipe.queued| {
        BodyIsAttended(s, w);
      }
    case SwapoutEnds(_) =>
  }

  lemma HeaderIsAttended(s: State, w: WriteResult)
    requires Orderly(s) && s.clientOpen && s.cuts != [] && !s.headerDone && !w.Failed?
    ensures Attended(s.HeaderWrite(w))
  {
    hide Flatten, S.Stream.Flushes;
  }

  lemma BodyIsAttended(s: State, w: WriteResult)
    requires Orderly(s) && Attended(s) && s.clientOpen && s.cuts != [] && s.headerDone && s.pipe.done < |s.pipe.queued|
    requires !w.Failed?
    ensures Attended(s.BodyWrite(w))
  {
    hide Flatten;
  }

  // ---- What a write puts on the wire ----

  // A write of n bytes puts the next n bytes there of the header followed by the body.
  lemma WriteTakes(watch: Watch, first: Input, inputs: seq<Input>, n: nat)
    requires first.FromOrigin? && Possible(first) && forall e :: e in inputs ==> Possible(e)
    requires var s := After(watch, first, inputs); s.clientOpen && s.cuts != [] && n <= s.Need()
    ensures var s := After(watch, first, inputs); var t := s.Next(ToClient(Wrote(n)));
      && s.headSent <= |s.header| && s.pipe.Valid() && t.headSent <= |t.header| && t.pipe.Valid()
      && |s.Wire()| + n <= |s.header + s.Body()| && t.Wire() == (s.header + s.Body())[..|s.Wire()| + n]
  {
    hide After, State.Next, Flatten, Pipe.Wire;
    AlwaysOrderly(watch, first, inputs);
    WriteExtends(After(watch, first, inputs), n);
  }

  lemma WriteExtends(s: State, n: nat)
    requires Orderly(s) && s.clientOpen && s.cuts != [] && n <= s.Need()
    ensures var t := s.Next(ToClient(Wrote(n)));
      && Orderly(t) && Orderly(s) && Due(t) == Due(s) && t.cuts == s.cuts
      && |s.Wire()| + n <= |Due(s)| && t.Wire() == Due(s)[..|s.Wire()| + n]
  {
    hide Flatten, State.HeaderWrite, State.BodyWrite, Pipe.Wire;
    var t := s.Next(ToClient(Wrote(n)));
    NextIsOrderly(s, ToClient(Wrote(n)));
    WireFollows(t);
    if !s.headerDone {
      HeaderExtends(s, n);
    } else if s.pipe.done < |s.pipe.queued| {
      BodyExtends(s, n);
    }
  }

  lemma HeaderExtends(s: State, n: nat)
    requires Orderly(s) && s.cuts != [] && !s.headerDone && n <= |s.header| - s.headSent
    ensures var t := s.HeaderWrite(Wrote(n));
      Orderly(t) && Orderly(s) && Due(t) == Due(s) && |t.Wire()| == |s.Wire()| + n
  {
    hide S.Stream.Flushes, Flatten, Pipe.Wire;
    HeaderIsOrderly(s, Wrote(n));
    EnqueueKeepsWire(s.pipe, s.Body());
  }

  lemma BodyExtends(s: State, n: nat)
    requires Orderly(s) && s.cuts != [] && s.headerDone && s.pipe.done < |s.pipe.queued|
    requires n <= |s.pipe.queued[s.pipe.done]| - s.pipe.sent
    ensures var t := s.BodyWrite(Wrote(n));
      Orderly(t) && Orderly(s) && Due(t) == Due(s) && |t.Wire()| == |s.Wire()| + n
  {
    hide Flatten, Pipe.Wire;
    BodyIsOrderly(s, Wrote(n));
    SendExtendsWire(s.pipe, n);
    if (s.pipe.sent + n) == |s.pipe.queued[s.pipe.done]| {
      ReportKeepsWire(s.pipe.Send(n));
    }
  }

  // ---- All that was read reaches the client ----

  predicate Writes(inputs: seq<Input>) {
    forall e :: e in inputs ==> e.ToClient? && e.w.Wrote?
  }

  // A client that takes what it is offered is closed or gets everything that was read.
  lemma CanDrain(watch: Watch, first: Input, inputs: seq<Input>)
    requires first.FromOrigin? && Possible(first) && forall e :: e in inputs ==> Possible(e)
    requires After(watch, first, inputs).cuts != []
    ensures var s := After(watch, first, inputs);
      exists writes :: Writes(writes) && var t := Then(s, writes);
        t.cuts == s.cuts && (!t.clientOpen || (t.headSent <= |t.header| && t.pipe.Valid() && t.Wire() == s.header + s.Body()))
  {
    hide After, Then;
    AlwaysOrderly(watch, first, inputs);
    var writes := Drains(After(watch, first, inputs));
  }

  ghost function Left(s: State): nat {
    if !s.headerDone then 2 else if s.pipe.done < |s.pipe.queued| then |s.pipe.queued| - s.pipe.done else 0
  }

  lemma {:induction false} Drains(s: State) returns (writes: seq<Input>)
    requires Orderly(s) && s.cuts != []
    ensures Writes(writes)
    ensures var t := Then(s, writes); Orderly(t) && t.cuts == s.cuts && (!t.clientOpen || t.Wire() == Due(s))
    decreases Left(s)
  {
    hide Orderly, Flatten, State.HeaderWrite, State.BodyWrite;
    writes := [];
    if s.clientOpen && (!s.headerDone || s.pipe.done < |s.pipe.queued|) {
      Offered(s);
      var e := ToClient(Wrote(s.Need()));
      WriteExtends(s, s.Need());
      LessLeft(s);
      var more := Drains(s.Next(e));
      writes := [e] + more;
      ThenMore(s, [e], more);
      ThenOne(s, e);
    } else if s.clientOpen {
      NothingLeft(s);
    }
  }

  lemma Offered(s: State)
    requires Orderly(s)
    ensures s.Need() >= 0
  {
  }

  lemma NothingLeft(s: State)
    requires Orderly(s) && s.headerDone && s.pipe.done >= |s.pipe.queued|
    ensures s.Wire() == Due(s)
  {
    assert s.pipe.queued[..s.pipe.done] == s.pipe.queued;
    assert s.header[..|s.header|] == s.header;
  }

  lemma LessLeft(s: State)
    requires Orderly(s) && s.cuts != [] && s.clientOpen && (!s.headerDone || s.pipe.done < |s.pipe.queued|)
    ensures s.Need() >= 0 && Left(s.Next(ToClient(Wrote(s.Need())))) < Left(s)
  {
    hide Flatten, S.Stream.Flushes;
  }

  // ---- How connections end ----

  // A write that fails closes both ends for good; what is on the wire stays.
  lemma FailureEnds(s: State, more: seq<Input>)
    requires s.clientOpen && s.cuts != [] && (!s.headerDone || s.pipe.done < |s.pipe.queued|)
    ensures var t := Then(s, [ToClient(Failed)] + more);
      !t.clientOpen && !t.serverOpen && t.cuts == s.cuts && t.header == s.header && t.headSent == s.headSent && t.pipe == s.pipe
  {
    hide State.Next;
    ThenMore(s, [ToClient(Failed)], more);
    ThenOne(s, ToClient(Failed));
    assert var t := s.Next(ToClient(Failed)); t == s.Dropped() by { NextFails(s); }
    BothStayClosed(s.Dropped(), more);
  }

  lemma NextFails(s: State)
    requires s.clientOpen && s.cuts != [] && (!s.headerDone || s.pipe.done < |s.pipe.queued|)
    ensures s.Next(ToClient(Failed)) == s.Dropped()
  {
  }

  lemma {:induction false} BothStayClosed(s: State, more: seq<Input>)
    requires !s.clientOpen && !s.serverOpen
    ensures var t := Then(s, more);
      !t.clientOpen && !t.serverOpen && t.cuts == s.cuts && t.header == s.header && t.headSent == s.headSent && t.pipe == s.pipe
  {
    hide State.Read;
    if more != [] {
      BothStayClosed(s, more[..|more| - 1]);
    }
  }

  // A header of which only a part has arrived at the first read ends both connections: it is never put together.
  lemma PartOfHeader(watch: Watch, h: H.Head, stat: string, cache: string, k: nat, able: bool, text: string, w: WriteResult,
      more: seq<Input>)
    requires H.Printable(h, stat, cache) && k < |H.Printed(h, stat, cache)|
    ensures var s := After(watch, FromOrigin(Readable, Data(H.Printed(h, stat, cache)[..k]), able, text, w), more);
      !s.clientOpen && !s.serverOpen && s.cuts == [] && s.headSent == 0 && s.pipe == Pipe([], 0, 0)
  {
    hide H.Parsed, H.Printed, H.Printable;
    H.IncompleteIsRefused(h, stat, cache, k);
    BothStayClosed(Asked(watch).Read(Data(H.Printed(h, stat, cache)[..k]), able, text, w), more);
  }

  // Neither the end of the file nor an error is read.
  predicate GoesOn(e: Input) {
    e.FromOrigin? ==> !e.r.EndOfFile? && !e.r.ReadFailed?
  }

  // A cacheable reply of known length has come in whole.
  predicate InWhole(s: State) {
    && s.cacheable && s.stream.reply.length.Some?
    && |s.stream.origin| >= s.stream.reply.headerSize + s.stream.reply.length.value
  }

  predicate OpenUntilWhole(s: State) {
    s.cuts != [] ==> (!s.serverOpen <==> InWhole(s))
  }

  // Unless something fails or ends, the origin is closed exactly when such a reply is complete.
  lemma {:induction false} OriginClosedIff(watch: Watch, first: Input, inputs: seq<Input>)
    requires first.FromOrigin? && GoesOn(first) && !Fails(first)
    requires forall e :: e in inputs ==> GoesOn(e) && !Fails(e)
    ensures OpenUntilWhole(After(watch, first, inputs))
  {
    hide State.Next, State.Read, OpenUntilWhole;
    if inputs == [] {
      AskedIsOpen(watch);
      ReadKeepsOpen(Asked(watch), first);
    } else {
      var n := |inputs| - 1;
      assert forall e :: e in inputs[..n] ==> e in inputs;
      OriginClosedIff(watch, first, inputs[..n]);
      NextKeepsOpen(After(watch, first, inputs[..n]), inputs[n]);
    }
  }

  lemma AskedIsOpen(watch: Watch)
    ensures OpenUntilWhole(Asked(watch))
  {
  }

  lemma ReadKeepsOpen(s: State, e: Input)
    requires OpenUntilWhole(s) && s.serverOpen && e.FromOrigin? && GoesOn(e) && !Fails(e)
    ensures OpenUntilWhole(s.Read(e.r, e.able, e.text, e.w))
  {
    hide State.First, State.More, S.Stream.Flushes;
    if e.r.Data? {
      if s.cuts == [] {
        FirstKeepsOpen(s, e.r.bytes, e.able, e.text, e.w);
      } else {
        MoreKeepsOpen(s, e.r.bytes);
      }
    }
  }

  lemma FirstKeepsOpen(s: State, data: string, able: bool, text: string, w: WriteResult)
    requires s.serverOpen && s.cuts == [] && !w.Failed?
    ensures OpenUntilWhole(s.First(data, able, text, w))
  {
    hide Found, State.HeaderWrite;
    if Found(data).Some? {
      HeaderKeepsOrigin(s.Loaded(data, Found(data).value, able, text), w);
    }
  }

  lemma HeaderKeepsOrigin(s: State, w: WriteResult)
    requires !w.Failed?
    ensures var t := s.HeaderWrite(w); t.serverOpen == s.serverOpen && s.Untouched(t)
  {
    hide S.Stream.Flushes;
  }

  lemma ClientKeepsOrigin(s: State, w: WriteResult)
    requires !w.Failed?
    ensures var t := s.Writable(w); t.serverOpen == s.serverOpen && s.Untouched(t)
  {
    hide State.HeaderWrite, Flatten;
    HeaderKeepsOrigin(s, w);
  }

  lemma MoreKeepsOpen(s: State, data: string)
    requires s.serverOpen && s.cuts != []
    ensures OpenUntilWhole(s.More(data))
  {
    hide State.More;
    MoreQueues(s, data);
    MoreKeepsKind(s, data);
  }

  lemma MoreKeepsKind(s: State, data: string)
    ensures s.More(data).cacheable == s.cacheable
  {
    hide State.BodySent, S.Stream.Complete;
  }

  lemma NextKeepsOpen(s: State, e: Input)
    requires OpenUntilWhole(s) && GoesOn(e) && !Fails(e)
    ensures OpenUntilWhole(s.Next(e))
  {
    hide State.Read, State.Writable;
    if s.Hears(e) {
      ReadKeepsOpen(s.(registered := false), e);
    } else if e.ToClient? {
      ClientKeepsOrigin(s, e.w);
    }
  }

  // A read error closes the origin; once the swapout that it starts has ended, all of the reply is on disk
  // exactly if it is a cacheable one without a length, or was there before.
  lemma ErrorDrains(s: State, e: Input)
    requires s.Hears(e) && e.r.ReadFailed? && s.cuts != [] && !s.writing && s.stream.flushed <= |s.stream.origin|
    ensures var t := s.Next(e).Next(SwapoutEnds(false));
      && !t.serverOpen && t.stream.origin == s.stream.origin
      && (t.stream.flushed == |t.stream.origin| <==>
            (s.cacheable && s.stream.reply.length.None?) || s.stream.flushed == |s.stream.origin|)
  {
  }
}
