// A model of the cache-hit path of smartc/http.c: the stored reply is read from disk chunk by chunk
// into a shared map and sent from there, or served from a cached piece. One method per callback.
module HitPath {
  import opened Common
  import opened Tiers

  // http->stat on a hit.
  datatype Stat = DiskHit | ShmHit | MemHit

  // What is outstanding: an aio read, a transfer of which some bytes are gone, or nothing any more.
  datatype Stage = Start | Reading(need: nat) | Sending(from: nat, size: nat, sent: nat) | Closed | Aborted

  class Hit {
    // The stored reply, its cache file (a prefix of it), and the sizes in cache_file, which need not be
    // those of the reply.
    const stored: string
    const disk: string
    const headerSize: nat
    const bodySize: nat
    // reply_t and http_state
    var bodyOut: nat
    var stat: Stat
    var piece: Piece
    var stage: Stage
    // shm_file and its map
    var low: nat
    var high: nat
    var mapped: bool
    var cached: bool
    var size: nat
    var offset: nat
    var map_: array<char>
    // the other tiers
    var pieces: seq<Piece>
    const mbuf: string
    const shm: Shm
    // the body bytes the client has received
    var wire: string

    function Pos(): nat
      reads this`bodyOut
    {
      headerSize + bodyOut
    }

    function End(): nat {
      headerSize + bodySize
    }

    function Chunk(n: nat): nat {
      if n > CHUNK_SIZE then CHUNK_SIZE else n
    }

    ghost predicate Consistent()
      reads this`pieces, this`bodyOut, shm
    {
      && disk <= stored && mbuf <= stored && 0 < bodySize && Pos() <= |stored|
      && AllHold(pieces, stored) && NoneBeyond(pieces, End()) && |pieces| <= CHUNK_NUM_IN_SHM + 1 && shm.Valid()
    }

    // The map holds the first bytes of its chunk of the file. Unless it is the very first chunk, the
    // client's position lies in it.
    ghost predicate MapFilling()
      reads this, map_
    {
      && headerSize <= low <= Pos() && low + size <= End()
      && (low == headerSize || Pos() <= low + size)
      && 0 < size == map_.Length && offset <= size && high == low + offset
      && (0 < offset ==> high <= |disk|)
      && high <= |stored| && map_[..offset] == stored[low..high]
    }

    // The map holds its whole chunk and low has moved past it.
    ghost predicate MapRead()
      reads this`bodyOut, this`low, this`high, this`mapped, this`size, this`offset, this`map_, map_
    {
      && low == high <= |disk| <= |stored| && headerSize + size <= low <= End()
      && 0 < size == offset == map_.Length && low - size <= Pos()
      && map_[..] == stored[low - size..low]
    }

    // The map as shm_file_create and http_reply_header_send_done leave it: one chunk at most, nothing read.
    ghost predicate Unread()
      reads this`bodyOut, this`low, this`high, this`mapped, this`size, this`offset, this`map_, map_
    {
      && mapped && low == high == headerSize && offset == 0
      && size == map_.Length == Chunk(bodySize)
    }

    // What the current transfer is cut from.
    function Source(): string
      reads this`stat, this`piece, this`map_, map_
    {
      match stat
      case DiskHit => map_[..]
      case ShmHit => piece.bytes
      case MemHit => mbuf
    }

    // The tier in use is exhausted and only the other one covers the client's position.
    ghost predicate Stuck()
      reads this`stat, this`bodyOut, this`pieces
    {
      if stat == ShmHit then !Covered(pieces, Pos()) && Pos() < |mbuf| else stat == MemHit && Covered(pieces, Pos())
    }

    // A read at the end of the cache file that still lacks something.
    predicate Starved()
      reads this`stage, this`high
    {
      stage.Reading? && high >= |disk|
    }

    ghost predicate ReadingOk(need: nat)
      reads this, map_
    {
      && MapFilling() && mapped && need == size - offset > 0 && bodyOut < bodySize
      && (stat == DiskHit ==> Pos() == low)
    }

    ghost predicate SendingOk(from: nat, n: nat)
      reads this`bodyOut, this`stat, this`piece, this`low, this`high, this`mapped, this`size, this`offset, this`map_
      reads this`pieces, map_
    {
      && bodyOut < bodySize && Pos() + n <= |stored|
      && from + n <= |Source()| && Source()[from..from + n] == stored[Pos()..Pos() + n]
      && Behind(n)
      && (stat != DiskHit && n == 0 ==> Stuck())
    }

    // Once n more bytes are out, the source in use is exhausted.
    ghost predicate Behind(n: nat)
      reads this`bodyOut, this`stat, this`piece, this`pieces, this`low, this`high, this`mapped, this`size, this`offset
      reads this`map_, map_
    {
      match stat
      case DiskHit => MapRead() && !mapped && Pos() + n == low
      case ShmHit => Unread() && piece in pieces && Holds(piece, stored) && piece.low <= Pos() && Pos() + n == piece.high
      case MemHit => Unread() && Pos() + n == |mbuf|
    }

    ghost predicate Delivered(n: nat)
      reads this`wire, this`bodyOut
    {
      Pos() + n <= |stored| && wire == stored[headerSize..Pos() + n]
    }

    ghost predicate Valid()
      reads this, map_, shm
    {
      && Consistent()
      && match stage
         case Start => Unread() && bodyOut == 0 && stat == DiskHit && wire == ""
         case Reading(need) => ReadingOk(need) && Delivered(0)
         case Sending(from, n, sent) => SendingOk(from, n) && sent <= n && Delivered(sent)
         // A hit that ends on disk has been served by a file as long as its sizes say.
         case Closed => bodyOut >= bodySize && Delivered(0) && (stat == DiskHit ==> bodyOut == bodySize && End() <= |disk|)
         case Aborted => Delivered(0)
    }

    // http_request_hit: the shared map is made before the header is sent.
    constructor (stored_: string, disk_: string, header: nat, body: nat, pieces_: seq<Piece>, mem: string, shm_: Shm)
      requires disk_ <= stored_ && mem <= stored_ && header <= |stored_| && 0 < body
      requires AllHold(pieces_, stored_) && NoneBeyond(pieces_, header + body)
      requires |pieces_| <= CHUNK_NUM_IN_SHM + 1 && shm_.Valid()
      ensures Valid() && stage == Start && fresh(map_)
      ensures stored == stored_ && disk == disk_ && headerSize == header && bodySize == body
      ensures pieces == pieces_ && mbuf == mem && shm == shm_
    {
      stored, disk, headerSize, bodySize, mbuf, shm := stored_, disk_, header, body, mem, shm_;
      bodyOut, stat, stage, pieces, wire := 0, DiskHit, Start, pieces_, "";
      piece := Piece(0, 0, "");
      low, high, mapped, cached, offset := header, header, true, false, 0;
      size := if body > CHUNK_SIZE then CHUNK_SIZE else body;
      map_ := new char[if body > CHUNK_SIZE then CHUNK_SIZE else body];
    }

    // http_reply_header_send_done: a shared piece, else memory, else disk.
    method HeaderSent()
      requires Valid() && stage == Start
      modifies this
      ensures Valid() && pieces == old(pieces) && bodyOut == 0 && wire == "" && map_ == old(map_)
      ensures Covered(pieces, headerSize) ==> stat == ShmHit && stage.Sending? && stage.size > 0
      ensures !Covered(pieces, headerSize) && headerSize < |mbuf| ==>
        stat == MemHit && stage == Sending(headerSize, |mbuf| - headerSize, 0)
      ensures !Covered(pieces, headerSize) && |mbuf| <= headerSize ==>
        stat == DiskHit && stage.Reading? && low == Pos() && size == Chunk(bodySize)
    {
      hide Covered, Holds;
      low, high := headerSize, headerSize;
      hide SendingOk, ReadingOk;
      var found := FindPiece(pieces, Pos());
      if found.Some? {
        stat, piece := ShmHit, found.value;
        BodySend();
      } else if Pos() < |mbuf| {
        stat := MemHit;
        BodySend();
      } else {
        BodyRead();
      }
    }

    // http_reply_body_read: map the next chunk unless one is mapped, and read what it still lacks.
    method BodyRead()
      requires Consistent() && bodyOut < bodySize && Delivered(0)
      requires if mapped then MapFilling() && offset < size && (stat == DiskHit ==> Pos() == low) else MapRead() && Pos() == low
      modifies this
      ensures Valid() && stage.Reading? && stage.need == size - offset
      ensures if old(mapped) then map_ == old(map_) && size == old(size) && offset == old(offset) else fresh(map_) && offset == 0
      ensures size == if old(mapped) then old(size) else Chunk(bodySize - bodyOut)
      ensures low == old(low) && bodyOut == old(bodyOut) && stat == old(stat) && wire == old(wire) && pieces == old(pieces)
    {
      hide Covered, SendingOk;
      if !mapped {
        size := if bodySize - bodyOut > CHUNK_SIZE then CHUNK_SIZE else bodySize - bodyOut;
        map_ := new char[size];
        offset, mapped := 0, true;
      }
      stage := Reading(size - offset);
    }

    // http_reply_body_send. From the map, a client position past the chunk makes the count negative,
    // and sendfile refuses it.
    method BodySend()
      requires Consistent() && bodyOut < bodySize && Delivered(0)
      requires match stat
        case DiskHit => MapRead() && !mapped
        case ShmHit => Unread() && piece in pieces && Holds(piece, stored) && piece.low <= Pos() <= piece.high
          && (Pos() == piece.high ==> Stuck())
        case MemHit => Unread() && Pos() <= |mbuf| && (Pos() == |mbuf| ==> Stuck())
      modifies this`stage
      ensures Valid() && (stage.Sending? ==> SendingOk(stage.from, stage.size))
      ensures stage == match stat
        case DiskHit => if Pos() > low then Aborted else Sending(size - (low - Pos()), low - Pos(), 0)
        case ShmHit => Sending(Pos() - piece.low, piece.high - Pos(), 0)
        case MemHit => Sending(Pos(), |mbuf| - Pos(), 0)
    {
      hide Consistent, Stuck, Unread, SendingOk, Behind, Holds, MapRead, Delivered;
      match stat
      case DiskHit => SendFromMap();
      case ShmHit => SendPiece();
      case MemHit => SendMemory();
    }

    method SendFromMap()
      requires Consistent() && bodyOut < bodySize && stat == DiskHit && MapRead() && !mapped
      modifies this`stage
      ensures stage == if Pos() > low then Aborted else Sending(size - (low - Pos()), low - Pos(), 0)
      ensures stage.Sending? ==> SendingOk(stage.from, stage.size)
    {
      hide AllHold;
      var sizeNeed := high - bodyOut - headerSize;
      if sizeNeed < 0 {
        stage := Aborted;
      } else {
        stage := Sending(offset - sizeNeed, sizeNeed, 0);
        SliceOfSlice(stored, low - size, size, size - sizeNeed, sizeNeed);
      }
    }

    method SendPiece()
      requires Consistent() && bodyOut < bodySize && stat == ShmHit && Unread()
      requires piece in pieces && Holds(piece, stored) && piece.low <= Pos() <= piece.high && (Pos() == piece.high ==> Stuck())
      modifies this`stage
      ensures stage == Sending(Pos() - piece.low, piece.high - Pos(), 0) && SendingOk(stage.from, stage.size)
    {
      hide AllHold, Unread, Covered, Stuck;
      stage := Sending(bodyOut + headerSize - piece.low, piece.high - bodyOut - headerSize, 0);
      SliceOfSlice(stored, piece.low, piece.high - piece.low, Pos() - piece.low, piece.high - Pos());
    }

    method SendMemory()
      requires Consistent() && bodyOut < bodySize && stat == MemHit && Unread()
      requires Pos() <= |mbuf| && (Pos() == |mbuf| ==> Stuck())
      modifies this`stage
      ensures stage == Sending(Pos(), |mbuf| - Pos(), 0) && SendingOk(stage.from, stage.size)
    {
      hide AllHold, Unread;
      stage := Sending(headerSize + bodyOut, |mbuf| - headerSize - bodyOut, 0);
    }

    // http_reply_body_read_done: n bytes of the file are in the map.
    method ReadDone(n: nat)
      requires Valid() && stage.Reading? && n <= stage.need && (n == 0 || high + n <= |disk|)
      modifies this, map_, shm
      ensures Valid() && wire == old(wire) && bodyOut == old(bodyOut) && map_ == old(map_)
      ensures n < old(stage.need) ==> stage == Reading(old(stage.need) - n) && stat == old(stat) && low == old(low) && size == old(size)
      ensures n < old(stage.need) ==> high == old(high) + n
      // At the end of the file nothing is read, and the read is repeated for ever.
      ensures old(Starved()) ==> Starved() && stage == old(stage)
      // The chunk is complete: it is sent from the client's position on, or the relay gives up.
      ensures n == old(stage.need) ==> stat == DiskHit && low == old(low + size) && size == old(size)
      ensures n == old(stage.need) ==> (stage.Aborted? <==> Pos() > low)
      ensures n == old(stage.need) && Pos() <= low ==> stage == Sending(size - (low - Pos()), low - Pos(), 0)
      ensures pieces == old(pieces) || (n == old(stage.need) &&
        pieces == old(pieces) + [Piece(old(low), old(low + size), stored[old(low)..old(low + size)])])
    {
      hide AllHold, Covered, Holds, MapRead, Unread, Behind, Delivered, SendingOk;
      CopyIn(n);
      offset := offset + n;
      high := high + n;
      if offset < size {
        BodyRead();
        return;
      }
      ChunkDone();
    }

    // The bytes that the aio read put into the map.
    method CopyIn(n: nat)
      requires MapFilling() && disk <= stored && offset + n <= size && (n == 0 || high + n <= |disk|)
      modifies map_
      ensures map_[..offset + n] == stored[low..high + n]
    {
      if n == 0 {
        return;
      }
      ghost var before := map_[..offset];
      forall i | 0 <= i < n { map_[offset + i] := disk[low + offset + i]; }
      assert map_[..offset + n] == before + disk[high..high + n];
      assert disk[high..high + n] == stored[high..high + n];
      assert stored[low..high] + stored[high..high + n] == stored[low..high + n];
    }

    // The end of http_reply_body_read_done: offer the chunk to the shared tier, then send it.
    method ChunkDone()
      requires Consistent() && bodyOut < bodySize && Delivered(0) && MapFilling() && mapped && offset == size
      modifies this, shm
      ensures Valid() && wire == old(wire) && bodyOut == old(bodyOut) && map_ == old(map_)
      ensures stat == DiskHit && low == old(low + size) && size == old(size)
      ensures stage.Aborted? <==> Pos() > low
      ensures Pos() <= low ==> stage == Sending(size - (low - Pos()), low - Pos(), 0)
      ensures pieces == old(pieces) || pieces == old(pieces) + [Piece(old(low), old(low + size), stored[old(low)..old(low + size)])]
    {
      hide Covered, AllHold, Valid, Holds, Behind;
      OfferChunk();
      low := low + offset;
      mapped := false;
      stat := DiskHit;
      BodySend();
    }

    method OfferChunk()
      requires Consistent() && MapFilling() && offset == size
      modifies this`piece, this`cached, this`pieces, shm
      ensures Consistent() && map_[..] == stored[low..high]
      ensures pieces == old(pieces) || pieces == old(pieces) + [Piece(low, high, stored[low..high])]
    {
      assert map_[..offset] == map_[..];
      var found := FindPiece(pieces, Pos());
      if found.Some? {
        piece := found.value;
      } else {
        var more := AppendPiece(shm, pieces, Piece(low, high, map_[..]));
        cached := more != pieces;
        pieces := more;
      }
    }

    // One sendfile or write: n more bytes of the transfer are out.
    method Progress(n: nat)
      requires Valid() && stage.Sending? && stage.sent + n <= stage.size
      modifies this
      ensures Valid() && (map_ == old(map_) || fresh(map_)) && pieces == old(pieces)
      ensures old(stage.sent) + n < old(stage.size) ==>
        && stage == old(stage).(sent := old(stage.sent) + n) && stat == old(stat) && bodyOut == old(bodyOut)
        && map_ == old(map_) && low == old(low)
      ensures old(stage.sent) + n == old(stage.size) ==> Moved(old(stat), old(bodyOut + stage.size))
      // A transfer that finds itself stuck is repeated for ever.
      ensures old(Stuck() && stage.size == 0) ==> Stuck() && stage.Sending? && stage.size == 0 && bodyOut == old(bodyOut)
    {
      hide AllHold, Covered, Holds, Consistent;
      var Sending(from, total, sent) := stage;
      Put(from + sent, n, from, total, sent);
      if sent + n < total {
        stage := Sending(from, total, sent + n);
        return;
      }
      SendDone(total);
    }

    // The bytes that the socket took.
    method Put(at: nat, n: nat, ghost from: nat, ghost total: nat, ghost sent: nat)
      requires SendingOk(from, total) && at == from + sent && sent + n <= total && Delivered(sent)
      modifies this`wire
      ensures Delivered(sent + n)
    {
      CutOf(Source(), stored, from, Pos(), total, sent, n);
      assert stored[headerSize..Pos() + sent] + stored[Pos() + sent..Pos() + sent + n] == stored[headerSize..Pos() + sent + n];
      wire := wire + Source()[at..at + n];
    }

    // Where a finished transfer leads: the end, the next chunk, the next piece, back to disk, or
    // nowhere, when http->stat is not the tier that was found.
    ghost predicate Moved(was: Stat, out: nat)
      reads this
    {
      && bodyOut == out && stat == was
      && if out >= bodySize then stage == Closed
         else if was == DiskHit then stage.Reading? && low == Pos() && size == Chunk(bodySize - bodyOut)
         else if was == ShmHit && Covered(pieces, Pos()) then stage.Sending? && stage.sent == 0 < stage.size
         else if Covered(pieces, Pos()) || Pos() < |mbuf| then stage.Sending? && stage.size == 0 && Stuck()
         else stage.Reading? && low == headerSize && size == Chunk(bodySize)
    }

    // http_reply_body_send_done
    method SendDone(total: nat)
      requires Consistent() && bodyOut < bodySize && Pos() + total <= |stored|
      requires Delivered(total) && Behind(total)
      modifies this
      ensures Valid() && (map_ == old(map_) || fresh(map_)) && pieces == old(pieces)
      ensures Moved(old(stat), old(bodyOut) + total)
    {
      hide Stuck, AllHold;
      bodyOut := bodyOut + total;
      if bodyOut >= bodySize {
        stage := Closed;
        return;
      }
      if stat == DiskHit {
        BodyRead();
        return;
      }
      NextTier();
    }

    // The tier branch of http_reply_body_send_done. It looks for a tier, but http->stat stays.
    method NextTier()
      requires Consistent() && bodyOut < bodySize && Delivered(0) && Behind(0) && stat != DiskHit
      modifies this
      ensures Valid() && (map_ == old(map_) || fresh(map_)) && pieces == old(pieces)
      ensures Moved(old(stat), old(bodyOut))
    {
      hide Unread;
      var found := FindPiece(pieces, Pos());
      if found.Some? {
        piece := found.value;
        assert stat == ShmHit ==> Holds(piece, stored);
        BodySend();
      } else if Pos() < |mbuf| {
        BodySend();
      } else {
        ReadyToRead();
        BodyRead();
      }
    }

    lemma ReadyToRead()
      requires Consistent() && Unread()
      ensures mapped && MapFilling() && offset < size && low == headerSize && size == Chunk(bodySize)
    {
    }
  }

  // A part of equal parts.
  lemma CutOf(a: string, b: string, i: nat, j: nat, total: nat, sent: nat, n: nat)
    requires i + total <= |a| && j + total <= |b| && a[i..i + total] == b[j..j + total] && sent + n <= total
    ensures a[i + sent..i + sent + n] == b[j + sent..j + sent + n]
  {
    SliceOfSlice(a, i, total, sent, n);
    SliceOfSlice(b, j, total, sent, n);
  }

  lemma SliceOfSlice(a: string, i: nat, total: nat, sent: nat, n: nat)
    requires i + total <= |a| && sent + n <= total
    ensures a[i..i + total][sent..sent + n] == a[i + sent..i + sent + n]
  {
    var x, y := a[i..i + total][sent..sent + n], a[i + sent..i + sent + n];
    forall k | 0 <= k < n ensures x[k] == y[k] {
      assert x[k] == a[i..i + total][sent + k] == a[i + (sent + k)];
    }
  }

  // ---- Whole hits ----

  // The first position from pos on that no piece holds.
  ghost function Gap(pieces: seq<Piece>, pos: nat, end: nat): (gap: nat)
    ensures pos <= gap && (gap < end ==> !Covered(pieces, gap)) && (pos <= end ==> gap <= end)
    decreases end - pos
  {
    if pos >= end || !Covered(pieces, pos) then pos else Gap(pieces, pos + 1, end)
  }

  // A piece is passed as a whole.
  lemma {:induction false} GapBehind(pieces: seq<Piece>, p: Piece, pos: nat, end: nat)
    requires p in pieces && p.low <= pos <= p.high <= end
    ensures Gap(pieces, pos, end) == Gap(pieces, p.high, end)
    decreases p.high - pos
  {
    if pos < p.high {
      GapBehind(pieces, p, pos + 1, end);
    }
  }

  // How a hit ends, and up to which position of the stored reply the client then has it: the transfer is
  // finished, the relay gives up, an empty transfer is repeated for ever, or a read at the end of the file is.
  datatype Fate = Whole(upto: nat) | GivenUp(upto: nat) | Repeats(upto: nat) | Starves(upto: nat)

  // A hit that goes on chunk by chunk in a file of that length.
  function FromDisk(pos: nat, len: nat, end: nat): Fate
    decreases end - pos
  {
    if pos >= end then Whole(pos)
    else
      var next := if end - pos > CHUNK_SIZE then pos + CHUNK_SIZE else end;
      if next > len then Starves(pos) else FromDisk(next, len, end)
  }

  // Such a hit is finished exactly if the file is as long as the sizes say.
  lemma {:induction false} FromDiskEnds(pos: nat, len: nat, end: nat)
    requires pos <= end
    ensures if end <= len || pos == end then FromDisk(pos, len, end) == Whole(end) else FromDisk(pos, len, end).Starves?
    decreases end - pos
  {
    if pos < end {
      FromDiskEnds(if end - pos > CHUNK_SIZE then pos + CHUNK_SIZE else end, len, end);
    }
  }

  // One that is not has sent whole chunks, and the next one is not all in the file.
  lemma {:induction false} FromDiskStarves(pos: nat, len: nat, end: nat)
    requires FromDisk(pos, len, end).Starves?
    ensures var upto := FromDisk(pos, len, end).upto;
      && pos <= upto < end && (upto - pos) % CHUNK_SIZE == 0 && (upto > pos ==> upto <= len)
      && (upto + CHUNK_SIZE > len || end > len) && (upto + CHUNK_SIZE <= end ==> upto + CHUNK_SIZE > len)
    decreases end - pos
  {
    var next := if end - pos > CHUNK_SIZE then pos + CHUNK_SIZE else end;
    if next <= len {
      FromDiskStarves(next, len, end);
    }
  }

  // For a hit that leaves its tier at a position: it is finished, the other tier is found but not used, or
  // the first chunk of the file is read, which the position must not lie behind.
  function Leaving(pos: nat, header: nat, len: nat, end: nat, other: bool): Fate {
    var first := if end - header > CHUNK_SIZE then header + CHUNK_SIZE else end;
    if pos >= end then Whole(pos)
    else if other then Repeats(pos)
    else if first > len then Starves(pos)
    else if pos > first then GivenUp(pos)
    else FromDisk(first, len, end)
  }

  ghost function FateOf(len: nat, header: nat, end: nat, pieces: seq<Piece>, mem: nat): Fate {
    if Covered(pieces, header) then
      var gap := Gap(pieces, header, end);
      Leaving(gap, header, len, end, gap < mem)
    else if header < mem then Leaving(mem, header, len, end, Covered(pieces, mem))
    else FromDisk(header, len, end)
  }

  // Where a hit under way is heading.
  ghost predicate Toward(h: Hit, fate: Fate)
    reads h`stage, h`stat, h`low, h`size, h`bodyOut, h`pieces
  {
    match h.stage
    case Start => false
    case Closed => fate == Whole(h.Pos())
    case Aborted => fate == GivenUp(h.Pos())
    case Reading(_) =>
      if h.stat == DiskHit then
        && h.low == h.Pos() && h.Pos() <= h.End() && h.size == h.Chunk(h.End() - h.Pos())
        && fate == FromDisk(h.Pos(), |h.disk|, h.End())
      else
        && h.low == h.headerSize && h.size == h.Chunk(h.bodySize)
        && fate == Leaving(h.Pos(), h.headerSize, |h.disk|, h.End(), false)
    case Sending(_, n, _) =>
      match h.stat
      case DiskHit => fate == FromDisk(h.low, |h.disk|, h.End())
      case ShmHit =>
        var gap := Gap(h.pieces, h.Pos(), h.End());
        fate == if n == 0 then Repeats(h.Pos()) else Leaving(gap, h.headerSize, |h.disk|, h.End(), gap < |h.mbuf|)
      case MemHit =>
        fate == if n == 0 then Repeats(h.Pos())
                else Leaving(|h.mbuf|, h.headerSize, |h.disk|, h.End(), Covered(h.pieces, |h.mbuf|))
  }

  // No step is left that would change anything.
  predicate Over(h: Hit)
    reads h
  {
    h.stage.Closed? || h.stage.Aborted? || (h.stage.Sending? && h.stage.size == 0 && h.stat != DiskHit) || h.Starved()
  }

  // Any hit, for every way the aio reads and the transfers are cut, as long as each makes progress while it
  // can: it ends exactly as its tiers and its file foretell.
  method Deliver(h: Hit)
    requires h.Valid() && h.stage == Start
    modifies h, h.map_, h.shm
    ensures h.Valid() && Over(h)
    ensures Ended(h, FateOf(|h.disk|, h.headerSize, h.End(), old(h.pieces), |h.mbuf|))
  {
    hide Hit.Valid, Toward, FateOf, Ended;
    Bounds(h);
    ghost var fate := FateOf(|h.disk|, h.headerSize, h.End(), h.pieces, |h.mbuf|);
    Sent(h, fate);
    while !Over(h)
      invariant h.Valid() && Toward(h, fate)
      invariant h.map_ == old(h.map_) || fresh(h.map_)
      invariant h.stage.Sending? ==> h.stage.sent < h.stage.size || h.stage.size == 0
      decreases if h.bodyOut < h.bodySize then h.bodySize - h.bodyOut else 0, Rank(h),
                if h.stage.Reading? then h.stage.need
                else if h.stage.Sending? then h.stage.size - h.stage.sent else 0
    {
      Bounds(h);
      TowardStarted(h, fate);
      if h.stage.Reading? {
        ReadOn(h, fate);
      } else {
        SendOn(h, fate);
      }
    }
    TowardEnd(h, fate);
  }

  ghost predicate Ended(h: Hit, fate: Fate)
    reads h
  {
    && h.headerSize <= fate.upto <= |h.stored| && h.wire == h.stored[h.headerSize..fate.upto]
    && match fate
       case Whole(upto) => h.stage == Closed && upto >= h.End()
       case GivenUp(_) => h.stage == Aborted
       case Repeats(_) => h.stage.Sending? && h.stage.size == 0 && h.Stuck()
       case Starves(_) => h.Starved()
  }

  lemma Bounds(h: Hit)
    requires h.Valid()
    ensures h.Pos() <= |h.stored| && (!h.stage.Closed? ==> h.bodyOut < h.bodySize || h.stage.Aborted?)
    ensures h.stage.Sending? ==> h.stage.sent <= h.stage.size
    ensures h.stage.Reading? ==> h.stage.need > 0
  {
    hide AllHold, Covered, Hit.Delivered, Hit.Unread, Hit.MapFilling, NoneBeyond;
  }

  lemma TowardStarted(h: Hit, fate: Fate)
    requires Toward(h, fate)
    ensures !h.stage.Start?
  {
    hide Hit.Valid, Covered, Gap;
  }

  lemma TowardEnd(h: Hit, fate: Fate)
    requires h.Valid() && Toward(h, fate) && Over(h)
    ensures Ended(h, fate)
  {
    hide AllHold, Covered, Gap, NoneBeyond;
  }

  function Rank(h: Hit): nat
    reads h
  {
    if h.stat != DiskHit then 3
    else if h.stage.Sending? then if h.stage.size == 0 then 2 else 0
    else 1
  }

  method Sent(h: Hit, ghost fate: Fate)
    requires h.Valid() && h.stage == Start && fate == FateOf(|h.disk|, h.headerSize, h.End(), h.pieces, |h.mbuf|)
    modifies h
    ensures h.Valid() && Toward(h, fate) && h.map_ == old(h.map_)
    ensures h.stage.Sending? ==> h.stage.sent == 0 < h.stage.size
  {
    hide Hit.SendingOk, Hit.ReadingOk, Covered;
    h.HeaderSent();
  }

  method ReadOn(h: Hit, ghost fate: Fate)
    requires h.Valid() && h.stage.Reading? && h.stage.need > 0 && !h.Starved() && Toward(h, fate)
    modifies h, h.map_, h.shm
    ensures h.Valid() && Toward(h, fate) && h.map_ == old(h.map_) && h.bodyOut == old(h.bodyOut)
    ensures h.stage.Sending? ==> h.stage.sent == 0
    ensures h.stage.Reading? ==> h.stat == old(h.stat) && h.stage.need < old(h.stage.need)
    ensures !h.stage.Reading? ==> Rank(h) < old(Rank(h))
  {
    var most := if h.stage.need < |h.disk| - h.high then h.stage.need else |h.disk| - h.high;
    var n: nat :| 1 <= n <= most;
    if n < h.stage.need {
      ReadPart(h, n, fate);
    } else {
      ReadAll(h, fate);
    }
  }

  method ReadPart(h: Hit, n: nat, ghost fate: Fate)
    requires h.Valid() && h.stage.Reading? && n < h.stage.need && h.high + n <= |h.disk| && Toward(h, fate)
    modifies h, h.map_, h.shm
    ensures h.Valid() && Toward(h, fate) && h.map_ == old(h.map_) && h.bodyOut == old(h.bodyOut) && h.stat == old(h.stat)
    ensures h.stage == Reading(old(h.stage.need) - n)
  {
    hide Hit.Valid, FromDisk, Leaving;
    h.ReadDone(n);
  }

  method ReadAll(h: Hit, ghost fate: Fate)
    requires h.Valid() && h.stage.Reading? && h.high + h.stage.need <= |h.disk| && Toward(h, fate)
    modifies h, h.map_, h.shm
    ensures h.Valid() && Toward(h, fate) && h.map_ == old(h.map_) && h.bodyOut == old(h.bodyOut)
    ensures h.stage.Aborted? || (h.stage.Sending? && h.stage.sent == 0 && h.stat == DiskHit)
    ensures Rank(h) < old(Rank(h))
  {
    hide Hit.Valid;
    ChunkFits(h);
    h.ReadDone(h.stage.need);
  }

  lemma ChunkFits(h: Hit)
    requires h.Valid() && h.stage.Reading? && h.high + h.stage.need <= |h.disk|
    ensures h.low + h.size <= |h.disk| && h.bodyOut < h.bodySize
  {
    hide AllHold, NoneBeyond;
  }

  // Where the transfer under way ends.
  lemma Ahead(h: Hit)
    requires h.Valid() && h.stage.Sending?
    ensures h.bodyOut < h.bodySize
    ensures h.stat == DiskHit ==> h.headerSize + h.bodyOut + h.stage.size == h.low
    ensures h.stat == ShmHit ==> Gap(h.pieces, h.Pos(), h.End()) == Gap(h.pieces, h.Pos() + h.stage.size, h.End())
    ensures h.stat == MemHit ==> h.headerSize + h.bodyOut + h.stage.size == |h.mbuf|
  {
    hide Gap, Covered, AllHold, Hit.Stuck;
    if h.stat == ShmHit {
      GapBehind(h.pieces, h.piece, h.Pos(), h.End());
    }
  }

  // Where the fate lies once the transfer under way is out.
  ghost function Heading(pieces: seq<Piece>, mem: nat, header: nat, len: nat, end: nat, was: Stat, pos: nat): Fate {
    match was
    case DiskHit => FromDisk(pos, len, end)
    case ShmHit =>
      var gap := Gap(pieces, pos, end);
      Leaving(gap, header, len, end, gap < mem)
    case MemHit => Leaving(pos, header, len, end, Covered(pieces, pos))
  }

  lemma TowardHeading(h: Hit, fate: Fate)
    requires h.Valid() && h.stage.Sending? && Toward(h, fate) && (h.stage.size > 0 || h.stat == DiskHit)
    ensures fate == Heading(h.pieces, |h.mbuf|, h.headerSize, |h.disk|, h.End(), h.stat, h.headerSize + h.bodyOut + h.stage.size)
  {
    hide Hit.Valid, Covered, Gap, FromDisk, Leaving;
    Ahead(h);
  }

  lemma MovedToward(h: Hit, was: Stat, fate: Fate)
    requires h.Moved(was, h.bodyOut) && (was == MemHit ==> h.headerSize + h.bodyOut == |h.mbuf|)
    requires fate == Heading(h.pieces, |h.mbuf|, h.headerSize, |h.disk|, h.End(), was, h.headerSize + h.bodyOut)
    ensures Toward(h, fate)
  {
    hide Hit.Valid, Covered;
  }

  lemma MovedRank(h: Hit, was: Stat, out: nat)
    requires h.Moved(was, out)
    ensures h.bodyOut == out
    ensures h.stage.Sending? ==> h.stage.sent < h.stage.size || h.stage.size == 0
    ensures was == DiskHit ==> Rank(h) < 2
  {
    hide Covered, Hit.Stuck;
  }

  method SendOn(h: Hit, ghost fate: Fate)
    requires h.Valid() && h.stage.Sending? && Toward(h, fate)
    requires if h.stage.size == 0 then h.stat == DiskHit else h.stage.sent < h.stage.size
    modifies h
    ensures h.Valid() && Toward(h, fate) && (h.map_ == old(h.map_) || fresh(h.map_))
    ensures h.stage.Sending? ==> h.stage.sent < h.stage.size || h.stage.size == 0
    ensures h.bodyOut > old(h.bodyOut) || (h.bodyOut == old(h.bodyOut) &&
      if old(h.stage.size) == 0 then Rank(h) < 2
      else h.stage.Sending? && Rank(h) == old(Rank(h)) && h.stage.size - h.stage.sent < old(h.stage.size - h.stage.sent))
  {
    hide Hit.Valid, Toward, Hit.Moved;
    Bounds(h);
    var left := h.stage.size - h.stage.sent;
    var n: nat := 0;
    if left > 0 {
      n :| 1 <= n <= left;
    }
    if n < left {
      SendPart(h, n, fate);
    } else {
      ghost var was, out := h.stat, h.bodyOut + h.stage.size;
      SendAll(h, n, fate);
      MovedRank(h, was, out);
    }
  }

  method SendPart(h: Hit, n: nat, ghost fate: Fate)
    requires h.Valid() && h.stage.Sending? && Toward(h, fate) && h.stage.sent + n < h.stage.size
    modifies h
    ensures h.Valid() && Toward(h, fate) && h.map_ == old(h.map_)
    ensures h.stage == old(h.stage).(sent := old(h.stage.sent) + n) && h.bodyOut == old(h.bodyOut) && h.stat == old(h.stat)
  {
    hide Hit.Valid, Covered, Gap, FromDisk, Leaving;
    h.Progress(n);
  }

  method SendAll(h: Hit, n: nat, ghost fate: Fate)
    requires h.Valid() && h.stage.Sending? && Toward(h, fate) && h.stage.sent + n == h.stage.size
    requires h.stage.size > 0 || h.stat == DiskHit
    modifies h
    ensures h.Valid() && Toward(h, fate) && (h.map_ == old(h.map_) || fresh(h.map_))
    ensures h.Moved(old(h.stat), old(h.bodyOut + h.stage.size))
  {
    hide Hit.Valid, Covered, Gap, Toward, Heading, Hit.Stuck, Hit.Moved, Hit.Pos;
    TowardHeading(h, fate);
    Ahead(h);
    ghost var was, out := h.stat, h.bodyOut + h.stage.size;
    h.Progress(n);
    MovedRank(h, was, out);
    MovedToward(h, was, fate);
  }

  // A hit served from disk alone: with a file as long as the sizes say it ends, and the client has the whole
  // body, in order; with a shorter one it never does.
  method DeliverFromDisk(h: Hit)
    requires h.Valid() && h.stage == Start && !Covered(h.pieces, h.headerSize) && |h.mbuf| <= h.headerSize
    modifies h, h.map_, h.shm
    ensures h.Valid()
    ensures if h.End() <= |h.disk| then h.stage == Closed && h.End() <= |h.stored| && h.wire == h.stored[h.headerSize..h.End()]
      else h.Starved()
  {
    hide Hit.Valid, Covered, Gap, FromDisk;
    FromDiskEnds(h.headerSize, |h.disk|, h.End());
    Bounds(h);
    Deliver(h);
  }
}
