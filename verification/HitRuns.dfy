// Whole hits: on what a relay leaves behind, and two that fail for another reason.
module HitRuns {
  import opened Common
  import opened Tiers
  import opened HitPath
  import opened WriteQueue
  import opened RelaySpec
  import opened R = Relay
  import opened RelayRuns
  import opened Samples
  import H = HttpReply
  import S = Stream

  // A hit on a complete cacheable reply of known length that a relay has stored and nothing has served yet:
  // it is finished if and only if the reply came in one read. For a reply that took more reads the sizes
  // promise more than was ever sent, and whatever pieces are shared, the hit is not finished.
  method HitAfterMiss(relay: Relay, pieces: seq<Piece>, shm: Shm) returns (h: Hit)
    requires relay.Running() && relay.headerDone && relay.cacheable && relay.aio == Idle && !relay.aioFailed
    requires relay.stream.reply.length.Some? && relay.stream.Complete() && relay.cacheBodySize > 0
    requires relay.memSize >= BUF_SIZE || relay.memSize <= 0
    requires AllHold(pieces, Flatten(relay.cuts)) && NoneBeyond(pieces, relay.headerSize + relay.cacheBodySize)
    requires |pieces| <= CHUNK_NUM_IN_SHM + 1 && shm.Valid()
    modifies shm
    ensures h.Valid() && Over(h) && h.stored == Flatten(relay.cuts) && h.disk == relay.disk
    ensures |relay.cuts| > 1 ==> !h.stage.Closed?
    ensures pieces == [] ==> (h.stage.Closed? <==> |relay.cuts| == 1)
    ensures pieces == [] && |relay.mbuf| <= relay.headerSize ==> (h.Starved() <==> |relay.cuts| > 1)
  {
    hide Relay.Running, Hit.Valid, FateOf, Hit.Stuck, Flatten, S.Stream.Complete, AllHold, NoneBeyond;
    relay.FileTheorem();
    relay.MemoryTheorem();
    relay.StreamTheorem();
    Sizes(relay);
    h := new Hit(relay.disk + relay.context, relay.disk, relay.headerSize, relay.cacheBodySize, pieces, relay.mbuf, shm);
    if pieces == [] {
      FateAlone(|h.disk|, h.headerSize, h.End(), |h.stored|, |h.mbuf|);
    }
    Deliver(h);
  }

  // Without shared pieces a short file or the sizes decide.
  lemma FateAlone(len: nat, header: nat, end: nat, stored: nat, mem: nat)
    requires header < end && len <= stored && mem <= stored && (mem == 0 || mem == stored || mem > PER_OBJECT_SIZE_IN_MEM)
    ensures end <= len && stored <= BUF_SIZE ==> FateOf(len, header, end, [], mem).Whole?
    ensures end > stored ==> !FateOf(len, header, end, [], mem).Whole?
    ensures end > stored && mem <= header ==> FateOf(len, header, end, [], mem).Starves?
  {
    assert !Covered([], header) && !Covered([], mem);
    FromDiskEnds(header, len, end);
    FromDiskEnds(if end - header > CHUNK_SIZE then header + CHUNK_SIZE else end, len, end);
  }

  // The sizes of a complete reply: in one read it is all there, else less than promised.
  lemma Sizes(relay: Relay)
    requires relay.Running() && relay.headerDone && relay.cacheable && relay.aio == Idle && !relay.aioFailed
    requires relay.stream.reply.length.Some? && relay.stream.Complete()
    ensures 0 < relay.headerSize <= |Flatten(relay.cuts)| && relay.cuts != []
    ensures |relay.cuts| > 1 <==> relay.headerSize + relay.cacheBodySize > |Flatten(relay.cuts)|
    ensures |relay.cuts| == 1 ==> |Flatten(relay.cuts)| <= BUF_SIZE
  {
  }

  // A hit on a reply without a length that the origin ended by an error, all of which was swapped out. Unless
  // process memory holds more than the first chunk but not all, it is finished; served from disk, the client
  // has as much as cache->body_size says, which is the whole body exactly if the first read stopped at the
  // blank line and was followed by another.
  method HitAfterDrain(relay: Relay, shm: Shm) returns (h: Hit)
    requires relay.Running() && relay.headerDone && relay.cacheable && relay.aio == Idle && !relay.aioFailed
    requires relay.drained && relay.cacheBodySize > 0 && (relay.memSize >= BUF_SIZE || relay.memSize <= 0) && shm.Valid()
    modifies shm
    ensures h.Valid() && Over(h) && h.stored == relay.disk == Flatten(relay.cuts)
    ensures h.stage.Closed? <==> !(relay.headerSize + CHUNK_SIZE < |relay.mbuf| < relay.headerSize + relay.cacheBodySize)
    ensures |relay.mbuf| <= relay.headerSize <= |relay.disk| ==>
      (h.wire == relay.disk[relay.headerSize..] <==> |relay.cuts[0]| == relay.headerSize && |relay.cuts| > 1)
  {
    hide Relay.Running, Hit.Valid, FateOf, Flatten, S.Stream.Complete, AllHold, NoneBeyond;
    relay.FileTheorem();
    relay.MemoryTheorem();
    relay.StreamTheorem();
    DrainedSize(relay);
    h := new Hit(relay.disk, relay.disk, relay.headerSize, relay.cacheBodySize, [], relay.mbuf, shm);
    FateOfWhole(|h.disk|, h.headerSize, h.End(), |h.mbuf|);
    Deliver(h);
  }

  lemma DrainedSize(relay: Relay)
    requires relay.Running() && relay.headerDone
    ensures relay.cuts != [] && 0 < relay.headerSize <= |Flatten(relay.cuts)|
    ensures relay.drained ==> relay.stream.reply.length.None?
  {
  }

  // With a file as long as the sizes say, only a memory tier that ends behind the first chunk does harm.
  lemma FateOfWhole(len: nat, header: nat, end: nat, mem: nat)
    requires header < end <= len
    ensures var fate := FateOf(len, header, end, [], mem);
      if header + CHUNK_SIZE < mem < end then fate == GivenUp(mem)
      else fate == Whole(if header < mem && end <= mem then mem else end)
  {
    assert !Covered([], header) && !Covered([], mem);
    FromDiskEnds(header, len, end);
    FromDiskEnds(if end - header > CHUNK_SIZE then header + CHUNK_SIZE else end, len, end);
  }

  // ---- One such reply ----

  // A reply of one byte more than a chunk, stored as it arrives in full buffers and then asked for again: the
  // file lacks the last byte, and the sizes promise more than all of it, so the hit waits for ever.
  method TailSample(c: Descriptor, watch: Watch) returns (relay: Relay, h: Hit)
    requires c.Unused() && watch != ForReads
    modifies c
    ensures h.Valid() && h.stored == Flatten(relay.cuts) && |h.stored| == CHUNK_SIZE + 1 == |h.disk| + 1
    ensures h.Starved()
  {
    hide Relay.Valid, Relay.Running, Hit.Valid, H.Printed, H.Printable, H.Marked, H.ContentLength, Sample, Flatten, Covered;
    var n: nat := CHUNK_SIZE + 1 - 75;
    var head := H.Printed(Sample(Some(n)), STAT, CACHE);
    SixDigits(n);
    SampleSize(Some(n));
    SampleIsPrintable(Some(n));
    var data := head + seq(BUF_SIZE - 75, _ => 'x');
    var cuts := seq(63, _ => seq(BUF_SIZE, _ => 'x'));
    relay := LoseTail(c, 0, watch, Sample(Some(n)), STAT, CACHE, data, cuts, "x", head, []);
    StillRuns(relay);
    Sizes(relay);
    relay.MemoryTheorem();
    var shm := new Shm(CHUNK_SIZE);
    h := HitAfterMiss(relay, [], shm);
  }

  lemma StillRuns(relay: Relay)
    requires relay.Valid() && relay.cuts != []
    ensures relay.Running()
  {
  }

  // ---- Hits that fail although the file is whole ----

  // Two chunks of the body are in shared memory, the third only on disk. The client gets the two; then the first
  // chunk is read from disk again, the client is past it, and the relay gives up.
  method GiveUp(head: H.Head, stat: string, cache: string, body: string) returns (h: Hit)
    requires H.Printable(head, stat, cache) && |body| == 3 * CHUNK_SIZE
    ensures h.Valid() && h.stored == h.disk == H.Printed(head, stat, cache) + body
    ensures h.stage == Aborted && h.wire == body[..2 * CHUNK_SIZE]
  {
    hide Hit.Valid, FateOf, Covered, Gap, H.Printed, H.Printable;
    var c, text := CHUNK_SIZE, H.Printed(head, stat, cache);
    var stored, p := text + body, |text|;
    var pieces := [Piece(p, p + c, body[..c]), Piece(p + c, p + 2 * c, body[c..2 * c])];
    assert stored[p..p + c] == body[..c] && stored[p + c..p + 2 * c] == body[c..2 * c];
    var shm := new Shm(4 * c);
    h := new Hit(stored, stored, p, 3 * c, pieces, "", shm);
    ThirdChunkFate(p, pieces);
    Deliver(h);
    assert stored[p..p + 2 * c] == body[..2 * c];
  }

  lemma ThirdChunkFate(p: nat, pieces: seq<Piece>)
    requires |pieces| == 2 && pieces[0].low == p && pieces[0].high == pieces[1].low == p + CHUNK_SIZE
    requires pieces[1].high == p + 2 * CHUNK_SIZE
    ensures FateOf(p + 3 * CHUNK_SIZE, p, p + 3 * CHUNK_SIZE, pieces, 0) == GivenUp(p + 2 * CHUNK_SIZE)
  {
    var end := p + 3 * CHUNK_SIZE;
    assert pieces[0] in pieces && pieces[1] in pieces;
    GapBehind(pieces, pieces[0], p, end);
    GapBehind(pieces, pieces[1], p + CHUNK_SIZE, end);
    assert !Covered(pieces, p + 2 * CHUNK_SIZE);
  }

  // Ten body bytes are in shared memory, twenty in process memory. After the ten, process memory is found, but
  // the piece that is used up is sent from again: nothing, for ever.
  method Repeat(head: H.Head, stat: string, cache: string, body: string) returns (h: Hit)
    requires H.Printable(head, stat, cache) && |body| == 30
    ensures h.Valid() && h.stored == h.disk == H.Printed(head, stat, cache) + body
    ensures h.stage.Sending? && h.stage.size == 0 && h.Stuck() && h.wire == body[..10]
  {
    hide Hit.Valid, FateOf, Covered, Gap, Hit.Stuck, H.Printed, H.Printable;
    var text := H.Printed(head, stat, cache);
    var stored, p := text + body, |text|;
    var pieces := [Piece(p, p + 10, body[..10])];
    assert stored[p..p + 10] == body[..10];
    var shm := new Shm(CHUNK_SIZE);
    h := new Hit(stored, stored, p, 30, pieces, stored[..p + 20], shm);
    OtherTierFate(p, pieces);
    Deliver(h);
  }

  lemma OtherTierFate(p: nat, pieces: seq<Piece>)
    requires |pieces| == 1 && pieces[0].low == p && pieces[0].high == p + 10
    ensures FateOf(p + 30, p, p + 30, pieces, p + 20) == Repeats(p + 10)
  {
    assert pieces[0] in pieces;
    GapBehind(pieces, pieces[0], p, p + 30);
    assert !Covered(pieces, p + 10);
  }
}
