// The cached copies of one stored reply that a hit can be served from (smartc/cache_file.c): pieces
// in shared memory and a prefix in process memory.
module Tiers {
  import opened Common

  const CHUNK_NUM_IN_SHM := 3
  const PER_OBJECT_SIZE_IN_MEM := 1024 * 512

  // struct shm_cache: bytes [low, high) of the stored reply.
  datatype Piece = Piece(low: nat, high: nat, bytes: string)

  ghost predicate Holds(p: Piece, stored: string) {
    p.low < p.high <= |stored| && p.bytes == stored[p.low..p.high]
  }

  ghost predicate AllHold(pieces: seq<Piece>, stored: string) {
    forall p :: p in pieces ==> Holds(p, stored)
  }

  ghost predicate NoneBeyond(pieces: seq<Piece>, end: nat) {
    forall p :: p in pieces ==> p.high <= end
  }

  // shm_cache_find: the first piece that contains the position.
  method FindPiece(pieces: seq<Piece>, pos: nat) returns (r: Option<Piece>)
    ensures r.Some? ==> r.value in pieces && r.value.low <= pos < r.value.high
    ensures r.None? <==> !Covered(pieces, pos)
  {
    for i := 0 to |pieces|
      invariant !Covered(pieces[..i], pos)
    {
      if pieces[i].low <= pos && pos < pieces[i].high {
        return Some(pieces[i]);
      }
    }
    assert pieces[..|pieces|] == pieces;
    r := None;
  }

  ghost predicate Covered(pieces: seq<Piece>, pos: nat) {
    exists p :: p in pieces && p.low <= pos < p.high
  }

  // srv.shm: bytes in use and the limit.
  class Shm {
    var offset: int
    const size: int

    ghost predicate Valid()
      reads this
    {
      offset <= size
    }

    constructor (limit: nat)
      ensures Valid() && offset == 0 && size == limit
    {
      offset, size := 0, limit;
    }
  }

  // shm_cache_append
  method AppendPiece(shm: Shm, pieces: seq<Piece>, p: Piece) returns (r: seq<Piece>)
    requires shm.Valid() && p.low <= p.high && |p.bytes| == p.high - p.low
    modifies shm
    ensures shm.Valid()
    ensures r == pieces || r == pieces + [p]
    ensures r == pieces + [p] ==> shm.offset == old(shm.offset) + |p.bytes| && |r| <= CHUNK_NUM_IN_SHM + 1
    ensures r == pieces ==> shm.offset == old(shm.offset)
    ensures r == pieces <==> old(shm.offset) + |p.bytes| > shm.size || |pieces| > CHUNK_NUM_IN_SHM
  {
    var need := |p.bytes|;
    if shm.offset + need > shm.size {
      return pieces;
    }
    if |pieces| > CHUNK_NUM_IN_SHM {
      return pieces;
    }
    r := pieces + [p];
    shm.offset := shm.offset + need;
  }

  // ---- mem_cache ----

  // mem_cache_append over a run of reads, as a function of what was kept so far.
  function Keep(kept: string, read: string, limit: int): string {
    if read == "" || |read| > limit || |kept| > PER_OBJECT_SIZE_IN_MEM then kept else kept + read
  }

  function KeepAll(cuts: seq<string>, limit: int): string {
    if cuts == [] then "" else Keep(KeepAll(cuts[..|cuts| - 1], limit), cuts[|cuts| - 1], limit)
  }

  ghost predicate BufferReads(cuts: seq<string>) {
    forall c :: c in cuts ==> |c| <= BUF_SIZE
  }

  // With room for a whole read, the memory tier is a prefix of the stream.
  lemma {:induction false} KeptIsPrefix(cuts: seq<string>, limit: int)
    requires BufferReads(cuts) && limit >= BUF_SIZE
    ensures KeepAll(cuts, limit) <= Flatten(cuts)
    ensures KeepAll(cuts, limit) == Flatten(cuts) || |KeepAll(cuts, limit)| > PER_OBJECT_SIZE_IN_MEM
  {
    if cuts != [] {
      KeptIsPrefix(cuts[..|cuts| - 1], limit);
    }
  }

  // Without that room it is not: a long read is refused, a later short one is taken. So the memory
  // tier can be trusted on every run exactly when a read fits, or nothing ever does.
  lemma KeptIsPrefixIff(limit: int)
    ensures (forall cuts :: BufferReads(cuts) ==> KeepAll(cuts, limit) <= Flatten(cuts))
       <==> limit >= BUF_SIZE || limit <= 0
  {
    if limit >= BUF_SIZE {
      forall cuts | BufferReads(cuts) ensures KeepAll(cuts, limit) <= Flatten(cuts) {
        KeptIsPrefix(cuts, limit);
      }
    } else if limit <= 0 {
      forall cuts | BufferReads(cuts) ensures KeepAll(cuts, limit) <= Flatten(cuts) {
        NothingKept(cuts, limit);
      }
    } else {
      var long := seq(limit + 1, _ => 'a');
      var cuts := [long, "b"];
      assert cuts[..1] == [long];
      LongReadRefused(long, limit);
      assert KeepAll(cuts, limit) == "b" && Flatten(cuts)[0] == 'a';
      assert BufferReads(cuts) && !(KeepAll(cuts, limit) <= Flatten(cuts));
    }
  }

  lemma LongReadRefused(read: string, limit: int)
    requires |read| > limit
    ensures KeepAll([read], limit) == "" && Flatten([read]) == read
  {
    var none: seq<string> := [];
    assert [read][..0] == none;
    assert KeepAll(none, limit) == "" && Flatten(none) == "";
  }

  lemma {:induction false} NothingKept(cuts: seq<string>, limit: int)
    requires limit <= 0
    ensures KeepAll(cuts, limit) == ""
  {
    if cuts != [] {
      NothingKept(cuts[..|cuts| - 1], limit);
    }
  }
}
