// A model of the cache-miss relay of smartc/http.c with the memory window and the swapout of
// smartc/cache_file.c: bytes from the origin go through a sliding window to disk and, at the same
// time, through the client's write queue to the client. One method per callback.
module Relay {
  import opened Common
  import opened Delivery
  import opened WriteQueue
  import opened Tiers
  import opened RelaySpec
  import H = HttpReply
  import S = Stream

  // The outstanding aio write: how many bytes of the window, at which file offset.
  datatype Aio = Idle | Writing(at: nat, nbytes: nat)

  // pwrite: a file with b written at a position, zero-filled up to there if it was shorter.
  function WriteAt(file: string, at: nat, b: string): string {
    if at > |file| then file + seq(at - |file|, _ => 0 as char) + b
    else if at + |b| < |file| then file[..at] + b + file[at + |b|..]
    else file[..at] + b
  }

  class Relay {
    // reply_t
    var parsed: bool
    var headerSize: nat
    var bodySize: int
    var noContentLength: bool
    var headerSend: bool
    var bodyIn: int
    var bodyOut: nat
    // cache_file
    var cacheBodySize: int
    var cacheable: bool
    // struct mem and the cached disk file
    var low: nat
    var high: nat
    var capacity: int
    var submit: nat
    var context: string
    var disk: string
    var aio: Aio
    // struct mem_cache, and srv.mem.size
    var memHigh: nat
    var mbuf: string
    const memSize: int
    // the origin's descriptor: open, watched (while it is open), and http_reply_read registered
    var serverOpen: bool
    var serverWatch: Watch
    var serverReads: bool
    const client: Descriptor

    ghost var stream: S.Stream
    ghost var header: string
    ghost var headerDone: bool
    ghost var aioFailed: bool
    // the reads that delivered data, whether any read found none, and whether the window was swapped
    // out because the origin failed
    ghost var cuts: seq<string>
    ghost var everAgain: bool
    ghost var drained: bool

    // What of this the specification speaks of.
    ghost function Now(): State
      reads this, client
    {
      State(serverOpen, serverWatch, serverReads, cuts, stream, cacheable, aio.Writing?, aioFailed, drained,
        client.open, header, |client.head|, headerDone, client.pipe)
    }

    // Nothing has been read yet.
    ghost predicate Fresh()
      reads this, client
    {
      && !parsed && !headerSend && !headerDone && !aioFailed && bodyIn == 0 && bodyOut == 0 && bodySize == 0
      && !noContentLength && aio == Idle && disk == "" && context == "" && low == high == memHigh == 0 && mbuf == ""
      && (serverOpen ==> client.open)
      && client.Accounted() && client.pipe == Pipe([], 0, 0) && client.head == "" && client.wire == ""
      && (client.open ==> client.Ready() && client.direct.None? && client.handler == NoHandler)
      && cuts == [] && !drained
    }

    // Only a read that found nothing makes epoll watch for bytes.
    ghost predicate Watched()
      reads this`serverWatch, this`everAgain
    {
      serverWatch == ForReads <==> everAgain
    }

    // The stream is the reads joined; without failures it is, once a running swapout has ended, what
    // its reads make of it.
    ghost predicate Traced()
      reads this`stream, this`cuts, this`cacheable, this`aioFailed, this`drained, this`headerDone, this`aio
    {
      && (drained ==> headerDone && stream.reply.length.None?)
      && if headerDone then
           S.Follows(if aio.Writing? then stream.Landed() else stream, cuts, cacheable && !aioFailed && !drained)
         else |cuts| == 1 && stream.flushed == 0 && S.Follows(stream, cuts, false)
    }

    // The counters that http.c keeps agree with the bytes read so far.
    ghost predicate Counters()
      requires stream.Valid()
      reads this`stream, this`parsed, this`headerSend, this`headerSize, this`noContentLength, this`bodySize
      reads this`bodyIn, this`cacheBodySize
    {
      var r := stream.reply;
      && parsed && headerSend
      && headerSize == r.headerSize
      && noContentLength == r.length.None?
      && bodySize == (if r.length.None? then -1 else r.length.value)
      && bodyIn == |stream.origin| - r.headerSize
      && cacheBodySize == stream.CacheBodySize()
    }

    // The disk and the window together are the stream.
    ghost predicate Window()
      requires stream.Valid()
      reads this`stream, this`capacity, this`low, this`high, this`context, this`disk, this`aio
    {
      && capacity == stream.Capacity()
      && low == stream.flushed && high == |stream.origin| && high - low == |context|
      && disk == stream.origin[..low] && context == stream.origin[low..]
      && (aio.Writing? ==> aio == Writing(low, |context|))
    }

    // The memory tier is a prefix of the stream; it falls behind only for good.
    ghost predicate Tier()
      reads this`stream, this`memHigh, this`mbuf, this`cacheable
    {
      && memHigh == |mbuf|
      && (cacheable && memSize >= BUF_SIZE ==>
            mbuf <= stream.origin && (mbuf == stream.origin || memHigh > PER_OBJECT_SIZE_IN_MEM))
      && (cacheable && memSize <= 0 ==> mbuf == "")
    }

    // The client has been handed the header and then the body, in order and without gaps.
    ghost predicate Handed()
      requires stream.Valid()
      reads this`stream, this`bodyOut, this`header, this`low, this`submit, client
    {
      && client.Accounted()
      && (client.open ==> client.Ready())
      && bodyOut == |Flatten(client.pipe.queued[..client.pipe.done])|
      && client.direct.None? && client.head == header
      && low + submit == |stream.origin|
      && Flatten(client.pipe.queued) == stream.origin[stream.reply.headerSize..]
    }

    // The header is still on its way and nothing else has started.
    ghost predicate Opening()
      reads this, client
    {
      && client.Accounted() && client.pipe == Pipe([], 0, 0) && client.head <= header
      && (client.open ==> client.Ready() && Sending())
      && (!client.open ==> !serverOpen)
      && aio == Idle && !aioFailed && !serverReads && low == 0 && bodyOut == 0
      && (cacheable && serverOpen ==> !stream.Complete())
    }

    // The header is being written, by a direct write.
    ghost predicate Sending()
      reads this, client
    {
      && client.direct.Some?
      && var ws := client.direct.value;
        ws.buf == header && ws.callback == OnHeaderSent && ws.offset <= |header| && client.head == header[..ws.offset]
    }

    // While the origin is open and the header is out, either a swapout is running or http_reply_read is
    // registered; the one exception is an uncacheable reply that wants a swapout. The client is closed
    // before the origin only after a complete reply.
    ghost predicate Awake()
      requires stream.Valid()
      reads this`stream, this`aio, this`cacheable, this`serverOpen, this`serverReads, this`aioFailed, this`drained
      reads client`open
    {
      && (aio.Writing? ==> cacheable && !serverReads)
      && (aioFailed ==> aio == Idle && !serverReads)
      && (drained ==> !serverOpen && (aio == Idle && !aioFailed ==> stream.flushed == |stream.origin|))
      && (!cacheable ==> stream.flushed == 0)
      && (serverOpen && cacheable ==> !stream.Complete())
      && (serverOpen && !client.open ==> stream.Complete())
      && (serverOpen && !aioFailed ==> (serverReads <==> aio == Idle && (cacheable || !stream.Flushes())))
    }

    ghost predicate Loaded()
      reads this`stream, this`parsed, this`headerSend, this`headerSize, this`noContentLength, this`bodySize
      reads this`bodyIn, this`cacheBodySize, this`capacity, this`low, this`high, this`context, this`disk, this`aio
      reads this`memHigh, this`mbuf, this`cacheable
    {
      stream.Valid() && Counters() && Window() && Tier()
    }

    // The reply has been parsed.
    ghost predicate Running()
      reads this, client
    {
      && Loaded() && Traced()
      && if headerDone then Handed() && Awake() else Opening()
    }

    ghost predicate Valid()
      reads this, client
    {
      Watched() && (Fresh() || Running())
    }

    // The request is out, and http_request_send_finish is about to call for the first read.
    constructor (c: Descriptor, memorySize: int, watch: Watch)
      requires c.Unused() && watch != ForReads
      ensures Valid() && Fresh() && client == c && memSize == memorySize
      ensures Now() == Asked(watch) && !everAgain
    {
      client, memSize := c, memorySize;
      parsed, headerSize, bodySize, noContentLength, headerSend, bodyIn, bodyOut := false, 0, 0, false, false, 0, 0;
      cacheBodySize, cacheable := 0, false;
      low, high, capacity, submit, context, disk, aio := 0, 0, 0, 0, "", "", Idle;
      memHigh, mbuf := 0, "";
      serverOpen, serverWatch, serverReads := true, watch, false;
      header, headerDone, aioFailed := "", false, false;
      stream, cuts, everAgain, drained := NO_STREAM, [], false, false;
    }

    // mem_swapout: nothing for an uncacheable reply.
    method Swapout()
      requires stream.Valid() && Window()
      modifies this`aio
      ensures Window() && aio == if cacheable then Writing(low, |context|) else old(aio)
    {
      if !cacheable {
        return;
      }
      aio := Writing(low, |context|);
    }

    // The client has been given the stream up to low + submit.
    ghost predicate Behind()
      reads this`stream, this`bodyOut, this`header, this`low, this`submit, this`context, client
    {
      && stream.Valid()
      && client.Ready() && client.direct.None? && client.head == header
      && bodyOut == |Flatten(client.pipe.queued[..client.pipe.done])|
      && stream.reply.headerSize <= low + submit <= |stream.origin| && low <= |stream.origin|
      && context == stream.origin[low..]
      && Flatten(client.pipe.queued) == stream.origin[stream.reply.headerSize..low + submit]
    }

    // http_reply_body_send on a miss: queue what the client has not been given, then either swap the
    // window out or read on.
    method BodySend()
      requires Loaded() && Behind() && headerDone && aio == Idle && !serverReads && !aioFailed && !drained
      requires S.Follows(stream.Settle(), cuts, cacheable)
      requires (cacheable && serverOpen ==> !stream.Complete()) && (!cacheable ==> stream.flushed == 0)
      modifies this`submit, this`aio, this`serverReads, client
      ensures Running() && Now() == old(Now()).BodySent(old(stream.origin[low + submit..]))
    {
      hide Flatten, Descriptor.Ready, Descriptor.Accounted, Behind, Handed, Running, S.Follows, Counters, Window, Tier;
      hide S.Stream.Flushes, S.Stream.Complete, S.Stream.Capacity, S.Stream.Settle;
      QueueRest();
      var flush := WantsSwapout();
      if flush {
        Swapout();
      } else {
        serverReads := true;
      }
      Decided();
    }

    lemma Decided()
      requires Loaded() && Handed() && headerDone && !aioFailed && !drained
      requires S.Follows(stream.Settle(), cuts, cacheable) && (cacheable && serverOpen ==> !stream.Complete())
      requires client.open && (!cacheable ==> stream.flushed == 0)
      requires (aio.Writing? <==> cacheable && stream.Flushes()) && (serverReads <==> !stream.Flushes())
      ensures Running()
    {
      hide Counters, Window, Tier, Handed, S.Run, S.After, S.Begin, S.Stream.Flushes, S.Stream.Complete;
    }

    // The sock_write of http_reply_body_send.
    method QueueRest()
      requires Behind()
      modifies this`submit, client
      ensures stream.Valid() && Handed() && client.Ready()
      ensures client.pipe == old(client.pipe).Enqueue(old(stream.origin[low + submit..])) && client.head == old(client.head)
      ensures client.open && old(client.open)
    {
      var sizeNeed := |context| - submit;
      assert context[submit..] == stream.origin[low + submit..];
      EnqueueKeepsWire(client.pipe, context[submit..]);
      ghost var h := stream.reply.headerSize;
      assert stream.origin[h..low + submit] + stream.origin[low + submit..] == stream.origin[h..];
      ghost var p := client.pipe;
      client.WriteQueued(context[submit..]);
      assert client.pipe.queued[..client.pipe.done] == p.queued[..p.done];
      submit := submit + sizeNeed;
    }

    // The two flush tests of http_reply_body_send.
    method WantsSwapout() returns (flush: bool)
      requires stream.Valid() && Counters() && Window()
      ensures flush == stream.Flushes()
    {
      if |context| >= capacity {
        return true;
      }
      flush := high >= headerSize + cacheBodySize && !noContentLength;
    }

    lemma Held()
      requires Loaded()
      ensures headerSize == stream.reply.headerSize && (noContentLength <==> stream.reply.length.None?)
      ensures stream.reply.length.Some? ==> bodySize == stream.reply.length.value
      ensures low <= |stream.origin| && context == stream.origin[low..]
    {
    }

    // Everything but the header transfer is still to come.
    ghost predicate Unstarted()
      reads this`headerDone, this`aio, this`aioFailed, this`serverReads, this`low, this`bodyOut, this`cacheable
      reads this`serverOpen, this`stream, client
    {
      && !headerDone && aio == Idle && !aioFailed && !serverReads && low == 0 && bodyOut == 0
      && (cacheable && serverOpen ==> !stream.Complete())
      && client.open && client.Linked() && client.direct.None? && client.pipe == Pipe([], 0, 0)
    }

    // http_reply_header_send_done
    method HeaderSendDone(error: bool)
      requires Loaded() && Traced() && Unstarted()
      requires if error then client.head <= header else client.handler == NoHandler && client.head == header
      modifies this`headerDone, this`submit, this`aio, this`serverOpen, this`serverReads, client
      ensures Running() && Now() == if error then old(Now()).Dropped() else old(Now()).HeaderOut()
    {
      hide Loaded, Traced, Running, Unstarted, Flatten;
      if error {
        HeaderFailed();
        return;
      }
      StartBody();
    }

    method HeaderFailed()
      requires Loaded() && Traced() && Unstarted() && client.head <= header
      modifies this`serverOpen, client`open, client`wantWrite, client`handler
      ensures Running() && Now() == old(Now()).Dropped()
    {
      hide Loaded, Traced, Flatten;
      client.Close();
      serverOpen := false;
    }

    method StartBody()
      requires Loaded() && Traced() && Unstarted() && client.handler == NoHandler && client.head == header
      modifies this`headerDone, this`submit, this`aio, this`serverReads, client
      ensures Running() && Now() == old(Now()).HeaderOut()
    {
      hide Counters, Window, Tier, Handed, Awake, S.Run, S.After, S.Begin, S.Stream.Flushes, S.Stream.Complete, S.Follows, State.BodySent;
      S.FollowsFirst(stream, cuts, cacheable);
      Held();
      headerDone := true;
      submit := headerSize;
      BodySend();
    }

    // mem_cache_append
    method MemCacheAppend(data: string)
      requires data != "" && memHigh == |mbuf|
      modifies this`memHigh, this`mbuf
      ensures mbuf == Keep(old(mbuf), data, memSize) && memHigh == |mbuf|
    {
      if |data| > memSize || memHigh > PER_OBJECT_SIZE_IN_MEM {
        return;
      }
      memHigh := memHigh + |data|;
      mbuf := mbuf + data;
    }

    // mem_string_append, for a window that exists.
    method MemStringAppend(data: string)
      modifies this`context, this`high
      ensures context == old(context) + data && high == old(high) + |data|
    {
      context := context + data;
      high := high + |data|;
    }

    // http_reply_read for the first data: the reply line and headers are in this read, or the relay ends.
    method FirstData(data: string, able: bool, text: string, w: WriteResult)
      requires Fresh() && serverOpen && !serverReads && 0 < |data| <= BUF_SIZE
      requires w.Wrote? ==> w.n <= |text|
      modifies this, client
      ensures everAgain == old(everAgain) && Now() == old(Now()).First(data, able, text, w)
      ensures if Found(data).None? then Fresh() else Running()
    {
      hide Fresh, Loaded, Running, Found, Flatten, H.Parsed;
      var found := Examine(data);
      match found
      case None => FreeState();
      case Some(reply) =>
        FoundFits(data);
        FirstReply(data, reply, able, text, w);
    }

    // The call of reply_parse.
    method Examine(data: string) returns (found: Option<S.Reply>)
      ensures found == Found(data)
    {
      hide H.Parsed;
      var r := H.ReplyParse(data);
      if r.None? {
        return None;
      }
      found := Some(S.Reply(r.value.headerSize, r.value.length));
    }

    // http_state_free, when the reply cannot be parsed.
    method FreeState()
      requires Fresh()
      modifies this`serverOpen, client`open, client`wantWrite, client`handler
      ensures Fresh() && Now() == old(Now()).Dropped()
    {
      hide Counters, Flatten, Descriptor.Linked, Descriptor.Armed, Descriptor.Ready, Pipe.Wire, Pipe.Valid;
      client.Close();
      serverOpen := false;
    }

    method FirstReply(data: string, reply: S.Reply, able: bool, text: string, w: WriteResult)
      requires Fresh() && serverOpen && !serverReads
      requires 0 < |data| <= BUF_SIZE && 0 < reply.headerSize <= |data|
      requires w.Wrote? ==> w.n <= |text|
      modifies this, client
      ensures everAgain == old(everAgain) && Running()
      ensures Now() == old(Now()).Loaded(data, reply, able, text).HeaderWrite(w)
    {
      hide Loaded, Traced, Running, Unstarted, Flatten, State.HeaderWrite, State.Loaded,
        Descriptor.Linked, Descriptor.Accounted;
      LoadReply(data, reply, able, text);
      HeaderSend(text, w);
    }

    // Up to the call of http_reply_header_send.
    method LoadReply(data: string, reply: S.Reply, able: bool, text: string)
      requires Fresh() && serverOpen && !serverReads
      requires 0 < |data| <= BUF_SIZE && 0 < reply.headerSize <= |data|
      modifies this`stream, this`cuts, this`parsed, this`headerSize, this`noContentLength, this`bodySize
      modifies this`cacheBodySize, this`bodyIn, this`headerSend, this`header, this`serverOpen
      modifies this`cacheable, this`capacity, this`context, this`high, this`memHigh, this`mbuf
      ensures Loaded() && Traced() && Unstarted() && header == text
      ensures client.Ready() && client.handler == NoHandler && client.head == ""
      ensures Now() == old(Now()).Loaded(data, reply, able, text)
    {
      hide Loaded, Traced, Flatten, S.Stream.CacheBodySize, S.Stream.Complete, Pipe.Wire, Pipe.Valid;
      Load(data, reply, able);
      header := text;
      CloseIfComplete();
    }

    method Load(data: string, reply: S.Reply, able: bool)
      requires 0 < |data| <= BUF_SIZE && 0 < reply.headerSize <= |data|
      requires aio == Idle && disk == "" && context == "" && low == high == memHigh == 0 && mbuf == ""
      requires !headerDone && !drained
      modifies this`stream, this`cuts, this`parsed, this`headerSize, this`noContentLength, this`bodySize
      modifies this`cacheBodySize, this`bodyIn, this`headerSend
      modifies this`cacheable, this`capacity, this`context, this`high, this`memHigh, this`mbuf
      ensures Loaded() && Traced() && cacheable == able && cuts == [data]
      ensures stream == S.Stream(data, |data|, reply, 0)
    {
      FlattenOne(data);
      TakeHeaders(data, reply);
      TakeBytes(data, able);
    }

    // The assignments of http_reply_read once reply_parse has succeeded.
    method TakeHeaders(data: string, reply: S.Reply)
      requires 0 < |data| <= BUF_SIZE && 0 < reply.headerSize <= |data|
      modifies this`stream, this`cuts, this`parsed, this`headerSize, this`noContentLength, this`bodySize
      modifies this`cacheBodySize, this`bodyIn, this`headerSend
      ensures stream == S.Stream(data, |data|, reply, 0) && cuts == [data] && stream.Valid() && Counters()
    {
      stream, cuts := S.Stream(data, |data|, reply, 0), [data];
      parsed, headerSize, noContentLength := true, reply.headerSize, reply.length.None?;
      bodySize := if reply.length.None? then -1 else reply.length.value;
      cacheBodySize := bodySize;
      bodyIn := |data| - headerSize;
      headerSend := true;
    }

    // cache_able's verdict, the first mem_string_append, which makes the window, and mem_cache_append.
    method TakeBytes(data: string, able: bool)
      requires stream.Valid() && Counters() && stream.origin == data && stream.first == |data| && stream.flushed == 0
      requires aio == Idle && disk == "" && context == "" && low == high == memHigh == 0 && mbuf == ""
      modifies this`cacheable, this`capacity, this`context, this`high, this`memHigh, this`mbuf
      ensures Loaded() && cacheable == able
    {
      cacheable := able;
      var size := if headerSize + cacheBodySize > CHUNK_SIZE then CHUNK_SIZE else headerSize + cacheBodySize;
      if cacheBodySize == -1 {
        size := CHUNK_SIZE;
      }
      capacity := size;
      MemStringAppend(data);
      if cacheable {
        MemCacheAppend(data);
      }
    }

    // A complete cacheable reply of known length: the origin's descriptor is closed.
    method CloseIfComplete()
      requires Loaded()
      modifies this`serverOpen
      ensures serverOpen == (old(serverOpen) && !(cacheable && stream.Complete()))
    {
      if cacheable && bodyIn >= bodySize && !noContentLength {
        serverOpen := false;
      }
    }

    // http_reply_header_send
    method HeaderSend(text: string, w: WriteResult)
      requires Loaded() && Traced() && Unstarted() && text == header
      requires client.Ready() && client.handler == NoHandler && client.head == ""
      requires w.Wrote? ==> w.n <= |text|
      modifies this`headerDone, this`submit, this`aio, this`serverOpen, this`serverReads, client
      ensures Running() && Now() == old(Now()).HeaderWrite(w)
    {
      hide Loaded, Traced, Handed, Awake, Flatten;
      var o := client.WriteDirect(text, OnHeaderSent, w);
      assert client.head == text[..if w.Wrote? then w.n else 0];
      if o.Called? {
        HeaderSendDone(o.error);
      }
    }

    // http_reply_read for later data.
    method MoreData(data: string)
      requires Loaded() && Traced() && Handed()
      requires headerDone && serverOpen && client.open && !serverReads && aio == Idle && !aioFailed && !drained
      requires 0 < |data| <= BUF_SIZE && (if cacheable then !stream.Complete() else stream.flushed == 0)
      modifies this`stream, this`cuts, this`bodyIn, this`cacheBodySize, this`context, this`high, this`memHigh, this`mbuf
      modifies this`serverOpen, this`submit, this`aio, this`serverReads, client
      ensures Running() && Now() == old(Now()).More(data)
    {
      hide Counters, Window, Tier, S.Run, S.After, S.Begin, S.Follows, S.Stream.Settle, Flatten, Loaded, Traced, Running;
      Absorb(data);
      BodySend();
    }

    // Up to the call of http_reply_body_send.
    method Absorb(data: string)
      requires Loaded() && Traced() && Handed()
      requires headerDone && client.open && aio == Idle && !aioFailed && !drained
      requires 0 < |data| <= BUF_SIZE && (cacheable ==> !stream.Complete())
      modifies this`stream, this`cuts, this`bodyIn, this`cacheBodySize, this`context, this`high, this`memHigh, this`mbuf
      modifies this`serverOpen
      ensures Loaded() && Behind() && S.Follows(stream.Settle(), cuts, cacheable)
      ensures stream == old(stream).Read(data) && cuts == old(cuts) + [data]
      ensures low + submit == |old(stream).origin|
      ensures serverOpen == (old(serverOpen) && !(cacheable && stream.Complete()))
    {
      hide Counters, Window, Tier, S.Run, S.After, S.Begin, S.Follows, S.Stream.Settle, Descriptor.Accounted;
      hide S.Stream.Flushes, S.Stream.Complete, Descriptor.Linked, Descriptor.Armed, Flatten, Running;
      ghost var before, h := stream.origin, stream.reply.headerSize;
      S.FollowsNext(stream, cuts, cacheable, data);
      TakeData(data);
      Held();
      assert stream.origin[h..|before|] == before[h..];
      CloseIfComplete();
    }

    method TakeData(data: string)
      requires Loaded() && 0 < |data| <= BUF_SIZE && aio == Idle
      modifies this`stream, this`cuts, this`bodyIn, this`cacheBodySize, this`context, this`high, this`memHigh, this`mbuf
      ensures stream == old(stream).Read(data) && cuts == old(cuts) + [data] && Loaded()
    {
      hide Counters, S.Stream.CacheBodySize;
      TakeSizes(data);
      MemStringAppend(data);
      if cacheable {
        MemCacheAppend(data);
      }
    }

    method TakeSizes(data: string)
      requires Loaded() && 0 < |data|
      modifies this`stream, this`cuts, this`bodyIn, this`cacheBodySize
      ensures stream == old(stream).Read(data) && cuts == old(cuts) + [data] && stream.Valid() && Counters()
    {
      hide Window, Tier;
      ghost var before := stream;
      stream, cuts := stream.Read(data), cuts + [data];
      assert before == stream.(origin := stream.origin[..|stream.origin| - |data|]);
      AddSizes(data);
    }

    // body_in and body_size both grow by the bytes read.
    method AddSizes(data: string)
      requires stream.Valid() && 0 < |data| && |data| <= |stream.origin| && stream.first <= |stream.origin| - |data|
      requires parsed && headerSend && headerSize == stream.reply.headerSize && noContentLength == stream.reply.length.None?
      requires bodySize == (if noContentLength then -1 else stream.reply.length.value)
      requires bodyIn == |stream.origin| - |data| - headerSize
      requires cacheBodySize == stream.(origin := stream.origin[..|stream.origin| - |data|]).CacheBodySize()
      modifies this`bodyIn, this`cacheBodySize
      ensures Counters()
    {
      bodyIn := bodyIn + |data|;
      if cacheBodySize < 0 {
        cacheBodySize := 0;
      }
      cacheBodySize := cacheBodySize + |data|;
    }

    // http_reply_read is about to run: nothing has been read yet, or the reply is being relayed.
    ghost predicate Reading()
      reads this, client
    {
      && Watched() && serverOpen && !serverReads
      && (Fresh() || (Loaded() && Traced() && Handed() && headerDone && aio == Idle && !aioFailed && !drained
                      && (!client.open ==> stream.Complete())
                      && (if cacheable then !stream.Complete() else stream.flushed == 0 && !stream.Flushes())))
    }

    // http_reply_read. aborted tells whether the assertion on the body size after a read error would fail.
    method HttpReplyRead(r: ReadResult, able: bool, text: string, w: WriteResult) returns (aborted: bool)
      requires Reading()
      requires (r.Data? ==> 0 < |r.bytes| <= BUF_SIZE) && (w.Wrote? ==> w.n <= |text|)
      modifies this, client
      ensures Valid() && Now() == old(Now()).Read(r, able, text, w)
      ensures everAgain == (old(everAgain) || r.ReadAgain?)
      ensures aborted <==> r.ReadFailed? && SizesDiffer()
    {
      hide Fresh, Loaded, Traced, Handed, Running, Found, Flatten, S.Stream.Flushes, S.Stream.Complete;
      aborted := false;
      match r
      case ReadAgain => Again();
      case EndOfFile => Ended();
      case ReadFailed => aborted := Failed();
      case Data(bytes) =>
        Parsedness();
        if parsed {
          Attended();
          MoreData(bytes);
        } else {
          FirstData(bytes, able, text, w);
        }
    }

    // Whenever http_reply_read runs for a reply, the client is still there.
    lemma Attended()
      requires Reading() && cuts != []
      ensures client.open
    {
      if !client.open && !cacheable {
        S.CompleteFlushes(stream);
      }
    }

    lemma Parsedness()
      requires Fresh() || (Loaded() && Traced())
      ensures parsed <==> cuts != []
      ensures Fresh() <==> !parsed
    {
    }

    // Nothing to read yet: this branch alone asks epoll for readability.
    method Again()
      requires Reading()
      modifies this`serverWatch, this`serverReads, this`everAgain
      ensures Valid() && everAgain && Now() == old(Now()).Read(ReadAgain, false, "", WriteResult.Again)
    {
      hide Counters, Loaded, Traced, Handed, Flatten, S.Stream.Flushes, Descriptor.Ready, Descriptor.Accounted;
      serverWatch, everAgain := ForReads, true;
      serverReads := true;
    }

    lemma Enough()
      requires Fresh() || (Loaded() && Traced())
      ensures !noContentLength && bodyIn >= bodySize <==> cuts == [] || stream.Complete()
      ensures noContentLength <==> cuts != [] && stream.reply.length.None?
    {
    }

    // Nothing more to read: the descriptor is closed only if enough has come in.
    method Ended()
      requires Reading()
      modifies this`serverOpen, this`serverReads
      ensures Valid() && Now() == old(Now()).Read(EndOfFile, false, "", WriteResult.Again)
      ensures serverOpen <==> noContentLength || bodyIn < bodySize
    {
      hide Counters, Loaded, Traced, Handed, Flatten, S.Stream.Flushes, Descriptor.Ready, Descriptor.Accounted,
        S.Stream.Complete;
      Enough();
      if noContentLength {
        serverReads := true;
        return;
      }
      if bodyIn >= bodySize {
        serverOpen := false;
      } else {
        serverReads := true;
      }
    }

    // body_size and body_in of a reply without a length differ, unless the first read stopped at the
    // blank line and was followed by another.
    ghost predicate SizesDiffer()
      reads this`cuts, this`stream
    {
      cuts != [] && stream.reply.length.None? && !(stream.first == stream.reply.headerSize && |stream.origin| > stream.first)
    }

    lemma SizesSay()
      requires Fresh() || (Loaded() && Traced())
      ensures SizesDiffer() <==> noContentLength && cacheBodySize != bodyIn
      ensures cuts != [] ==> |context| == |stream.origin| - stream.flushed
    {
    }

    // A read error. For a reply without a length this is its normal end: what is left in the window is
    // swapped out, and body_size is asserted to equal body_in.
    method Failed() returns (aborted: bool)
      requires Reading()
      modifies this`serverOpen, this`aio, this`drained
      ensures Valid() && Now() == old(Now()).Read(ReadFailed, false, "", WriteResult.Again)
      ensures aborted <==> SizesDiffer()
    {
      hide Flatten, Descriptor.Ready, Descriptor.Accounted, Tier, Counters, Window, S.Run, S.After, S.Begin, S.Follows;
      Enough();
      SizesSay();
      serverOpen := false;
      if !noContentLength {
        return false;
      }
      Drain();
      aborted := cacheBodySize != bodyIn;
    }

    method Drain()
      requires !serverOpen && !serverReads && noContentLength && headerDone && aio == Idle && !aioFailed && !drained
      requires Loaded() && Traced() && Handed() && (!cacheable ==> stream.flushed == 0)
      modifies this`aio, this`drained
      ensures Running() && (aio.Writing? <==> cacheable && context != "") && (drained <==> aio.Writing?)
    {
      hide Flatten, Handed, Tier, S.Run, S.After, S.Begin;
      if |context| > 0 {
        Swapout();
        drained := aio.Writing?;
      }
    }

    // sock_call_handler for the origin, when epoll reports it.
    method ServerReadable(ready: Readiness, r: ReadResult, able: bool, text: string, w: WriteResult)
      returns (aborted: bool)
      requires Valid() && serverOpen
      requires (r.Data? ==> 0 < |r.bytes| <= BUF_SIZE) && (w.Wrote? ==> w.n <= |text|)
      modifies this, client
      ensures Valid() && Now() == old(Now()).Next(FromOrigin(ready, r, able, text, w))
      ensures everAgain == (old(everAgain) || (r.ReadAgain? && old(serverReads && Reports(serverWatch, ready))))
      ensures aborted <==> old(serverReads && Reports(serverWatch, ready)) && r.ReadFailed? && SizesDiffer()
    {
      hide Counters, Window, Loaded, Traced, Descriptor.Linked, Descriptor.Accounted, Found, Flatten, State.Read;
      if !Reports(serverWatch, ready) || !serverReads {
        return false;
      }
      serverReads := false;
      aborted := HttpReplyRead(r, able, text, w);
    }

    // A swapout runs only once the header is out, and nothing is read meanwhile.
    lemma Writes()
      requires Valid() && aio.Writing?
      ensures Running() && Watched() && headerDone && !serverReads
    {
    }

    // mem_swapout_done: n bytes of the window, or an error. The window keeps its meaning exactly when
    // the write was whole; a short one leaves the assertion in http_reply_body_send to fail.
    method SwapoutDone(error: bool, n: nat)
      requires Running() && headerDone && aio.Writing? && n <= aio.nbytes
      modifies this`disk, this`aio, this`submit, this`low, this`context, this`stream, this`aioFailed, this`serverReads
      ensures aio == Idle && (error ==> aioFailed)
      ensures error || n == old(aio.nbytes) ==> Running() && Now() == old(Now()).SwapoutEnded(error)
      ensures !error ==> (high - low == |context| <==> n == old(aio.nbytes))
      ensures !error && n == old(aio.nbytes) ==> disk == stream.origin
    {
      hide Flatten, Descriptor.Ready, Descriptor.Accounted, Loaded, Opening, S.Run, S.After, S.Begin, Counters, Window, Tier;
      if error {
        SwapoutFailed();
        return;
      }
      MoveWindow(n);
      serverReads := true;
    }

    method SwapoutFailed()
      requires Running() && headerDone && aio.Writing?
      modifies this`aio, this`aioFailed
      ensures Running() && aioFailed && Now() == old(Now()).SwapoutEnded(true)
    {
      hide Flatten, Descriptor.Ready, Descriptor.Accounted, Loaded, S.Run, S.After, S.Begin, Counters, Window, Opening, Tier;
      Idled();
      aioFailed := true;
    }

    method Idled()
      requires Loaded()
      modifies this`aio
      ensures Loaded() && aio == Idle
    {
      aio := Idle;
    }

    // The n bytes are on disk; the window moves past them and is emptied.
    method MoveWindow(n: nat)
      requires Loaded() && aio.Writing? && n <= aio.nbytes && low + submit == |stream.origin|
      modifies this`disk, this`aio, this`submit, this`low, this`context, this`stream
      ensures aio == Idle && (high - low == |context| <==> n == old(aio.nbytes))
      ensures n == old(aio.nbytes) ==>
        && Loaded() && low + submit == |stream.origin|
        && stream == old(stream).Landed() && disk == stream.origin
    {
      assert context[..|context|] == context;
      disk := WriteAt(disk, aio.at, context[..n]);
      aio := Idle;
      submit := 0;
      low := low + n;
      context := "";
      stream := stream.(flushed := low);
    }

    // http_reply_body_send_done
    method BodySendDone(error: bool, size: nat)
      requires Loaded() && Traced() && headerDone && client.open && client.direct.None? && client.head == header
      requires Awake() && low + submit == |stream.origin|
      requires Flatten(client.pipe.queued) == stream.origin[stream.reply.headerSize..]
      requires if error then client.Linked() && client.wqueue != [] else client.InCallback(size)
      requires bodyOut == |Flatten(client.pipe.queued[..client.pipe.done])|
      modifies this`bodyOut, this`serverOpen, client
      ensures Running()
      ensures error ==> Now() == old(Now()).Dropped() && client.wqueue == old(client.wqueue)[1..]
      ensures !error ==> Now() == old(Now()).Delivered() && client.pipe == old(client.pipe).Report()
      ensures !error ==> var p, length := client.pipe, stream.reply.length;
        p.done <= |p.queued| && (!client.open <==> length.Some? && |Flatten(p.queued[..p.done])| >= length.value)
    {
      hide Running, Counters, Window, Tier, Flatten, Loaded, Traced, Awake, S.Stream.Flushes;
      if error {
        SendFailed();
        return;
      }
      Delivered(size);
    }

    method SendFailed()
      requires Loaded() && Traced() && headerDone && client.open && client.direct.None? && client.head == header
      requires Awake() && low + submit == |stream.origin| && client.Linked() && client.wqueue != []
      requires Flatten(client.pipe.queued) == stream.origin[stream.reply.headerSize..]
      requires bodyOut == |Flatten(client.pipe.queued[..client.pipe.done])|
      modifies this`serverOpen, client`wqueue, client`open, client`wantWrite, client`handler
      ensures Running() && Now() == old(Now()).Dropped() && client.wqueue == old(client.wqueue)[1..]
    {
      hide Counters, Window, Tier, Flatten, Traced, S.Stream.Flushes, S.Stream.Complete;
      client.Drop();
      client.Close();
      serverOpen := false;
    }

    method Delivered(size: nat)
      requires Loaded() && Traced() && headerDone && client.open && client.direct.None? && client.head == header
      requires Awake() && low + submit == |stream.origin| && client.InCallback(size)
      requires Flatten(client.pipe.queued) == stream.origin[stream.reply.headerSize..]
      requires bodyOut == |Flatten(client.pipe.queued[..client.pipe.done])|
      modifies this`bodyOut, client
      ensures Running() && Now() == old(Now()).Delivered()
    {
      hide Counters, Window, Tier, Flatten, Traced, S.Stream.Flushes, Sending, Descriptor.Ready;
      ghost var p := client.pipe;
      client.Pop(size);
      FlattenNext(p);
      Held();
      bodyOut := bodyOut + size;
      if bodyOut >= bodySize && !noContentLength {
        client.Close();
        return;
      }
      if client.handler != NoHandler {
        return;
      }
      client.Rearm();
    }

    lemma FlattenNext(p: Pipe)
      requires p.Valid() && p.done < |p.queued| && p.sent == |p.queued[p.done]|
      ensures |Flatten(p.queued[..p.done + 1])| == |Flatten(p.queued[..p.done])| + p.sent
      ensures |Flatten(p.queued[..p.done + 1])| <= |Flatten(p.queued)|
    {
      assert p.queued[..p.done + 1][..p.done] == p.queued[..p.done];
      FlattenSplit(p.queued[..p.done + 1], p.queued[p.done + 1..]);
      assert p.queued == p.queued[..p.done + 1] + p.queued[p.done + 1..];
    }

    // What the client's socket is offered next.
    lemma Offers()
      requires Valid() && client.open
      ensures client.Linked() && client.Need() == Now().Need()
    {
      hide Counters, Window, Tier, Awake, Flatten, S.Stream.Flushes;
    }

    // An open client that has not got all it was handed is watched for writing, with a handler registered.
    lemma ClientAwaited()
      requires Valid() && client.open && cuts != []
      ensures client.wire != header + Flatten(client.pipe.queued) ==> client.wantWrite && client.handler != NoHandler
      ensures !headerDone ==> client.wantWrite && client.handler != NoHandler
    {
      hide Loaded, Traced, Counters, Window, Tier, Awake;
      client.NoLostWakeup();
      if headerDone && client.pipe.done == |client.pipe.queued| {
        assert client.pipe.queued[..client.pipe.done] == client.pipe.queued;
      }
    }

    // sock_call_handler for a writable client.
    method ClientWritable(r: WriteResult)
      requires Valid() && client.open
      requires r.Wrote? ==> r.n <= client.Need()
      modifies this`headerDone, this`submit, this`aio, this`serverReads, this`bodyOut, this`serverOpen, client
      ensures Valid() && Now() == old(Now()).Writable(r)
    {
      hide Counters, Window, Tier, Descriptor.Armed, Flatten, Loaded, Traced, Descriptor.InCallback, Pipe.Wire, Pipe.Valid,
        S.Stream.Flushes, State.BodySent, State.HeaderOut;
      Parsedness();
      var o := client.Writable(r);
      match o
      case NotCalled =>
      case Called(callback, error, size) =>
        if callback == OnHeaderSent {
          HeaderSendDone(error);
        } else {
          BodySendDone(error, size);
        }
    }

    // At every moment the client has received a prefix of the header followed by the body as the
    // origin sent it, and the disk file followed by the memory window is everything that was read.
    lemma StreamTheorem()
      requires Running()
      ensures stream.origin == Flatten(cuts)
      ensures client.wire <= header + Flatten(cuts)[stream.reply.headerSize..]
      ensures headerDone ==> |client.wire| == |header| + bodyOut + client.pipe.sent
      ensures disk + context == Flatten(cuts) && |disk| == low == stream.flushed
      ensures |client.head| <= |header| && client.pipe.Valid() && client.wire == Now().Wire()
    {
      hide Counters, Tier, Awake, S.Run, S.After, S.Begin;
      if headerDone {
        WireIsPrefix(client.pipe);
        assert header[..|header|] == header;
      } else {
        assert client.pipe.Wire() == "";
      }
      assert stream.origin[..low] + stream.origin[low..] == stream.origin;
    }

    // Once a complete cacheable reply is at rest, all of it is on disk exactly when it fits one chunk or
    // the window happened to be full at the last read.
    lemma DiskTheorem()
      requires Running() && headerDone && cacheable && aio == Idle && !aioFailed
      requires stream.reply.length.Some? && stream.Complete()
      ensures disk == Flatten(cuts) <==>
        S.Small(stream.reply) || S.BeforeFlush(cuts[0], stream.reply, cuts[1..]).WindowFull()
    {
      hide Counters, Tier, Awake, Handed, S.Run, S.After, S.Begin, S.Stream.WindowFull;
      S.FollowsDisk(stream, cuts);
      assert |disk| == stream.flushed;
    }

    // What a cacheable reply at rest leaves for hits: the file is as long as its sizes say only if the reply
    // came in one read. Of one without a length, that the origin ended by an error, all is on disk, and
    // the size is right exactly if the first read stopped at the blank line and was followed by another.
    lemma FileTheorem()
      requires Running() && headerDone && cacheable && aio == Idle && !aioFailed
      ensures stream.reply.length.Some? && stream.Complete() ==>
        (|disk| >= headerSize + cacheBodySize <==> |cuts| == 1)
      ensures drained ==> disk == Flatten(cuts) && |disk| >= headerSize + cacheBodySize
      ensures drained ==> (|disk| == headerSize + cacheBodySize <==> |cuts[0]| == headerSize && |cuts| > 1)
    {
      hide Tier, Handed, S.Run, S.After, S.Begin, S.Stream.Flushes;
      S.MoreReads(stream, cuts);
      if stream.reply.length.Some? && stream.Complete() {
        S.FileIsShort(stream, cuts);
      }
    }

    // The memory tier, where it can be trusted.
    lemma MemoryTheorem()
      requires Running() && cacheable && (memSize >= BUF_SIZE || memSize <= 0)
      ensures memSize <= 0 ==> mbuf == ""
      ensures mbuf <= Flatten(cuts) && (mbuf == "" || mbuf == Flatten(cuts) || |mbuf| > PER_OBJECT_SIZE_IN_MEM)
      ensures headerSize == stream.reply.headerSize && cacheBodySize == stream.CacheBodySize()
    {
      hide Window, Handed, Awake, Opening, S.Run, S.After, S.Begin;
    }

    // While the origin is open and the header is out, http_reply_read is registered unless a swapout is
    // running, or the reply is uncacheable and its window wants a swapout.
    lemma ReadsOnIff()
      requires Running() && headerDone && serverOpen && !aioFailed
      ensures if cacheable then serverReads <==> aio == Idle else serverReads <==> !stream.Flushes()
    {
      hide Loaded, Traced, Handed, S.Stream.Flushes;
    }

    // While it is open and http_reply_read is registered, arriving bytes reach the relay exactly if an
    // earlier read found nothing.
    lemma BytesAreHeardIff()
      requires Valid()
      ensures Reports(serverWatch, Readable) <==> everAgain
    {
    }
  }
}
