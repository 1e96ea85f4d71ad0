// The streaming state of one cache miss, reduced to what matters: which bytes the origin sent, how
// they were cut, and how many of them reached the disk.
module Stream {
  import opened Common

  // What reply_parse found at the start of the stream: no length stands for no_content_length.
  datatype Reply = Reply(headerSize: nat, length: Option<int>)

  datatype Stream = Stream(origin: string, first: nat, reply: Reply, flushed: nat) {

    ghost predicate Valid() {
      0 < reply.headerSize <= first <= |origin| && first <= BUF_SIZE && flushed <= |origin|
    }

    // The size of the memory window (mem_string_append, first call).
    function Capacity(): int {
      match reply.length
      case None => CHUNK_SIZE
      case Some(n) => if n == -1 || reply.headerSize + n > CHUNK_SIZE then CHUNK_SIZE else reply.headerSize + n
    }

    // cache->body_size: it starts as the Content-Length, or -1, and grows with every read after the first.
    function CacheBodySize(): int {
      var more := |origin| - first;
      match reply.length
      case Some(n) => if n < 0 < more then more else n + more
      case None => if more > 0 then more else -1
    }

    // The reply has arrived in full.
    predicate Complete() {
      reply.length.Some? && |origin| >= reply.headerSize + reply.length.value
    }

    // The first flush test of http_reply_body_send.
    predicate WindowFull() {
      |origin| - flushed >= Capacity()
    }

    // The second flush test. It compares with cache->body_size, which http_reply_read has increased
    // by the size of every read after the first.
    predicate LooksComplete() {
      reply.length.Some? && |origin| >= reply.headerSize + reply.length.value + (|origin| - first)
    }

    predicate Flushes() {
      WindowFull() || LooksComplete()
    }

    function Read(data: string): Stream {
      this.(origin := origin + data)
    }

    // The window has been swapped out.
    function Landed(): Stream {
      this.(flushed := |origin|)
    }

    // The http_reply_body_send after a read and, when that starts a swapout, the swapout.
    function Settle(): Stream {
      if Flushes() then Landed() else this
    }

    function Round(data: string): Stream {
      Read(data).Settle()
    }
  }

  // Every later read adds its length, from 0 on if the size was negative.
  lemma SizeGrows(s: Stream, data: string)
    requires s.Valid() && data != ""
    ensures s.Read(data).CacheBodySize() == (if s.CacheBodySize() < 0 then 0 else s.CacheBodySize()) + |data|
    ensures |s.origin| == s.first ==> s.CacheBodySize() == if s.reply.length.Some? then s.reply.length.value else -1
  {
  }

  // The second test only ever fires when the first read already held the whole reply.
  lemma LooksCompleteOnlyAtFirst(s: Stream)
    requires s.Valid() && s.reply.length.Some?
    ensures s.LooksComplete() <==> s.first >= s.reply.headerSize + s.reply.length.value
  {
  }

  // A window from which nothing was swapped out is full when the reply is complete.
  lemma CompleteFlushes(s: Stream)
    requires s.Valid() && s.flushed == 0 && s.Complete()
    ensures s.Flushes()
  {
  }

  // A run of the relay: reads of between 1 and BUF_SIZE bytes, none after the reply is complete.
  ghost predicate Run(s: Stream, cuts: seq<string>)
    requires s.Valid()
    decreases |cuts|
  {
    cuts == [] ||
    (!s.Complete() && 0 < |cuts[0]| <= BUF_SIZE && Run(s.Round(cuts[0]), cuts[1..]))
  }

  ghost function After(s: Stream, cuts: seq<string>): (t: Stream)
    requires s.Valid()
    ensures t.Valid() && t.reply == s.reply && t.first == s.first
    decreases |cuts|
  {
    if cuts == [] then s else After(s.Round(cuts[0]), cuts[1..])
  }

  // The state after the first read, with its flush.
  ghost function Begin(data: string, reply: Reply): (s: Stream)
    requires 0 < reply.headerSize <= |data| <= BUF_SIZE
    ensures s.Valid() && s.reply == reply && s.origin == data && s.first == |data|
  {
    Stream(data, |data|, reply, 0).Settle()
  }

  ghost predicate Small(reply: Reply) {
    reply.length.Some? && reply.headerSize + reply.length.value <= CHUNK_SIZE
  }

  // A small reply stays in the window until it is complete, and then all of it goes to disk.
  lemma {:induction false} SmallStays(s: Stream, cuts: seq<string>)
    requires s.Valid() && Run(s, cuts) && Small(s.reply)
    requires s.flushed == if s.Complete() then |s.origin| else 0
    ensures var t := After(s, cuts); t.flushed == if t.Complete() then |t.origin| else 0
    decreases |cuts|
  {
    if cuts != [] {
      SmallStays(s.Round(cuts[0]), cuts[1..]);
    }
  }

  // The state a run is in before its last flush decision.
  ghost function BeforeFlush(data: string, reply: Reply, cuts: seq<string>): (t: Stream)
    requires 0 < reply.headerSize <= |data| <= BUF_SIZE
    ensures t.Valid() && t.reply == reply && t.first == |data|
  {
    if cuts == [] then Stream(data, |data|, reply, 0)
    else After(Begin(data, reply), cuts[..|cuts| - 1]).Read(cuts[|cuts| - 1])
  }

  lemma {:induction false} AfterLast(s: Stream, cuts: seq<string>)
    requires s.Valid() && cuts != []
    ensures After(s, cuts) == After(s, cuts[..|cuts| - 1]).Round(cuts[|cuts| - 1])
    decreases |cuts|
  {
    if |cuts| > 1 {
      AfterLast(s.Round(cuts[0]), cuts[1..]);
      assert cuts[1..][..|cuts| - 2] == cuts[..|cuts| - 1][1..];
    } else {
      assert cuts[1..] == [];
    }
  }

  lemma {:induction false} RunLast(s: Stream, cuts: seq<string>)
    requires s.Valid() && cuts != [] && Run(s, cuts)
    ensures Run(s, cuts[..|cuts| - 1]) && !After(s, cuts[..|cuts| - 1]).Complete()
    ensures |After(s, cuts[..|cuts| - 1]).origin| >= |s.origin| && 0 < |cuts[|cuts| - 1]|
    decreases |cuts|
  {
    var init := cuts[..|cuts| - 1];
    if |cuts| > 1 {
      RunLast(s.Round(cuts[0]), cuts[1..]);
      assert init[1..] == cuts[1..][..|cuts| - 2];
    }
  }

  // When a complete reply is entirely on disk: exactly when it fits one chunk, or the window happens
  // to be full at the last read. The tail of a larger reply otherwise never leaves memory.
  lemma WholeReplyOnDisk(data: string, reply: Reply, cuts: seq<string>)
    requires 0 < reply.headerSize <= |data| <= BUF_SIZE && reply.length.Some?
    requires Run(Begin(data, reply), cuts) && After(Begin(data, reply), cuts).Complete()
    ensures var t := After(Begin(data, reply), cuts);
      t.flushed == |t.origin| <==> Small(reply) || BeforeFlush(data, reply, cuts).WindowFull()
  {
    var s := Begin(data, reply);
    if Small(reply) {
      SmallStays(s, cuts);
    } else if cuts != [] {
      AfterLast(s, cuts);
      RunLast(s, cuts);
      var u := BeforeFlush(data, reply, cuts);
      LooksCompleteOnlyAtFirst(u);
      assert |u.origin| > u.flushed;
    }
  }

  // ---- A stream as its reads make it ----

  // s is these reads joined and, where exact, with as much of it on disk as after a run of them.
  ghost predicate Follows(s: Stream, cuts: seq<string>, exact: bool) {
    && cuts != [] && s.Valid() && s.origin == Flatten(cuts) && s.first == |cuts[0]|
    && (forall c :: c in cuts ==> 0 < |c| <= BUF_SIZE)
    && (exact ==> Run(Begin(cuts[0], s.reply), cuts[1..]) && s == After(Begin(cuts[0], s.reply), cuts[1..]))
  }

  lemma FollowsFirst(s: Stream, cuts: seq<string>, exact: bool)
    requires |cuts| == 1 && s.flushed == 0 && Follows(s, cuts, false)
    ensures Follows(s.Settle(), cuts, exact)
  {
    FlattenOne(cuts[0]);
    assert cuts == [cuts[0]];
  }

  lemma FollowsNext(s: Stream, cuts: seq<string>, exact: bool, data: string)
    requires Follows(s, cuts, exact) && (exact ==> !s.Complete()) && 0 < |data| <= BUF_SIZE
    ensures Follows(s.Read(data).Settle(), cuts + [data], exact)
  {
    var more := cuts + [data];
    assert more[..|more| - 1] == cuts && more[1..] == cuts[1..] + [data];
    if exact {
      var b := Begin(cuts[0], s.reply);
      RunSnoc(b, cuts[1..], data);
      AfterLast(b, more[1..]);
      assert more[1..][..|more| - 2] == cuts[1..];
    }
  }

  // How much of a complete reply is on disk, told from its reads.
  lemma FollowsDisk(s: Stream, cuts: seq<string>)
    requires Follows(s, cuts, true) && s.reply.length.Some? && s.Complete()
    ensures s.flushed == |s.origin| <==> Small(s.reply) || BeforeFlush(cuts[0], s.reply, cuts[1..]).WindowFull()
  {
    WholeReplyOnDisk(cuts[0], s.reply, cuts[1..]);
  }

  lemma MoreReads(s: Stream, cuts: seq<string>)
    requires Follows(s, cuts, false)
    ensures |s.origin| > s.first <==> |cuts| > 1
  {
    FlattenOne(cuts[0]);
    FlattenSplit([cuts[0]], cuts[1..]);
    assert cuts == [cuts[0]] + cuts[1..];
    if |cuts| > 1 {
      assert cuts[|cuts| - 1] in cuts;
      assert cuts[1..][|cuts| - 2] == cuts[|cuts| - 1];
    }
  }

  // A complete reply leaves a file as long as cache->body_size says exactly if it came in one read.
  lemma FileIsShort(s: Stream, cuts: seq<string>)
    requires Follows(s, cuts, true) && s.reply.length.Some? && s.Complete()
    ensures s.flushed >= s.reply.headerSize + s.CacheBodySize() <==> |cuts| == 1
  {
    FlattenOne(cuts[0]);
    if |cuts| == 1 {
      assert cuts == [cuts[0]];
    }
  }

  lemma {:induction false} RunSnoc(s: Stream, cuts: seq<string>, c: string)
    requires s.Valid() && Run(s, cuts) && !After(s, cuts).Complete() && 0 < |c| <= BUF_SIZE
    ensures Run(s, cuts + [c])
    decreases |cuts|
  {
    if cuts != [] {
      RunSnoc(s.Round(cuts[0]), cuts[1..], c);
      assert (cuts + [c])[1..] == cuts[1..] + [c];
    } else {
      assert (cuts + [c])[1..] == [];
    }
  }

  // ---- A tail that never reaches the disk ----

  // A first read that fills the buffer, of a reply one byte over a chunk.
  predicate OneOver(data: string, reply: Reply) {
    && 0 < reply.headerSize <= |data| == BUF_SIZE
    && reply.length == Some(CHUNK_SIZE + 1 - reply.headerSize)
  }

  predicate FullBuffers(cuts: seq<string>) {
    forall c :: c in cuts ==> |c| == BUF_SIZE
  }

  // Read in full buffers, the window is flushed once, when the chunk is full.
  lemma {:induction false} FullReads(data: string, reply: Reply, cuts: seq<string>)
    requires OneOver(data, reply) && FullBuffers(cuts) && |cuts| <= 63
    ensures var t := After(Begin(data, reply), cuts);
      && Run(Begin(data, reply), cuts) && !t.Complete() && |t.origin| == BUF_SIZE * (|cuts| + 1)
      && t.flushed == if |cuts| == 63 then CHUNK_SIZE else 0
  {
    if cuts != [] {
      hide Run, After, Begin;
      var (n, s) := (|cuts| - 1, Begin(data, reply));
      FullReads(data, reply, cuts[..n]);
      AfterLast(s, cuts);
      assert cuts == cuts[..n] + [cuts[n]] && cuts[n] in cuts;
      FullRound(After(s, cuts[..n]), cuts[n], n + 1);
      RunSnoc(s, cuts[..n], cuts[n]);
    }
  }

  lemma FullRound(t: Stream, c: string, n: nat)
    requires 0 < n <= 63 && t.Valid() && t.reply.length == Some(CHUNK_SIZE + 1 - t.reply.headerSize)
    requires t.first == |c| == BUF_SIZE && |t.origin| == BUF_SIZE * n && t.flushed == 0
    ensures var u := t.Round(c);
      !u.Complete() && |u.origin| == BUF_SIZE * (n + 1) && u.flushed == if n == 63 then CHUNK_SIZE else 0
  {
  }

  // The last byte of such a reply is never written.
  lemma TailIsLost(data: string, reply: Reply, cuts: seq<string>, last: string)
    requires OneOver(data, reply) && FullBuffers(cuts) && |cuts| == 63 && |last| == 1
    ensures var t := After(Begin(data, reply), cuts + [last]);
      && Run(Begin(data, reply), cuts + [last])
      && t.Complete() && t.flushed == CHUNK_SIZE && |t.origin| == CHUNK_SIZE + 1
  {
    hide Run, After, Begin;
    var s := Begin(data, reply);
    FullReads(data, reply, cuts);
    AfterLast(s, cuts + [last]);
    RunSnoc(s, cuts, last);
    LastByte(After(s, cuts), last);
  }

  lemma LastByte(t: Stream, last: string)
    requires t.Valid() && t.reply.length == Some(CHUNK_SIZE + 1 - t.reply.headerSize) && t.first == BUF_SIZE
    requires |t.origin| == CHUNK_SIZE && t.flushed == CHUNK_SIZE && |last| == 1
    ensures var u := t.Round(last); u.Complete() && u.flushed == CHUNK_SIZE && |u.origin| == CHUNK_SIZE + 1
  {
  }
}
