// server/hashmap.c: the open-addressing file cache.
module Hashmap {
  import opened Common
  import opened Primality
  import opened Probing
  import opened TableSizes

  // A C string: non-NUL bytes.
  type Text = s: string | forall i :: 0 <= i < |s| ==> 0 < s[i] as int < 256

  datatype Item = Item(content: int, length: nat, fileTime: int)

  // hash == 0 marks a free slot, as in the zeroed memory of calloc.
  datatype Record = Record(hash: nat, path: Text, item: Item)

  const FREE := Record(0, "", Item(0, 0, 0))

  datatype Search = Found(slot: nat, off: nat) | Free(slot: nat, off: nat) | Endless

  // Loops: the probe loop finds neither the path nor a free slot at any offset,
  // so the call does not return.
  datatype Outcome = Added | Present | NoPath | Full | Loops

  datatype Lookup = Hit(item: Item) | Miss | LoopsForever

  // -------------------------------------------------------------- strhash

  function Signed(c: char): int {
    if c as int < 128 then c as int else c as int - 256
  }

  function Fold(s: Text): (h: nat)
    ensures h < WORD
  {
    if s == [] then 5381 else (Fold(s[..|s| - 1]) * 33 + Signed(s[|s| - 1])) % WORD
  }

  function HashOf(s: Text): (h: nat)
    ensures 0 < h < WORD
  {
    if Fold(s) == 0 then 1 else Fold(s)
  }

  method StrHash(str: Text) returns (code: nat)
    ensures code == HashOf(str)
  {
    var hash := 5381;
    var i := 0;
    while i < |str|
      invariant 0 <= i <= |str|
      invariant hash == Fold(str[..i])
    {
      var c := Signed(str[i]);
      assert str[..i + 1][..i] == str[..i];
      hash := (hash * 33 + c) % WORD;
      i := i + 1;
    }
    assert str[..|str|] == str;
    code := if hash == 0 then 1 else hash;
  }

  // Known values: characters from 128 on are negative, and the sum wraps around.
  lemma KnownHashes()
    ensures HashOf("") == 5381 && HashOf([255 as char]) == 177572
    ensures HashOf("hello") == 261238937 && HashOf("hello!") == 30950362
  {
    hide Fold;
    KnownFolds();
  }

  lemma KnownFolds()
    ensures Fold("") == 5381 && Fold([255 as char]) == 177572
    ensures Fold("hello") == 261238937 && Fold("hello!") == 30950362
  {
    hide Fold;
    FoldNone();
    FoldNext("", 255 as char, [255 as char]);
    Prefixes();
    FoldNext("hel", 'l', "hell");
    FoldNext("hell", 'o', "hello");
    FoldNext("hello", '!', "hello!");
  }

  lemma Prefixes()
    ensures Fold("hel") == 193493694
  {
    hide Fold;
    FoldNone();
    FoldNext("", 'h', "h");
    FoldNext("h", 'e', "he");
    FoldNext("he", 'l', "hel");
  }

  lemma FoldNone()
    ensures Fold("") == 5381
  {
  }

  lemma FoldNext(s: Text, c: char, t: Text)
    requires 0 < c as int < 256 && t == s + [c]
    ensures Fold(t) == (Fold(s) * 33 + if c as int < 128 then c as int else c as int - 256) % WORD
  {
    assert t[..|t| - 1] == s;
  }

  // ------------------------------------------------- records as a sequence

  ghost function Taken(recs: seq<Record>): (taken: set<nat>)
    ensures forall i: nat :: i in taken <==> i < |recs| && recs[i].hash != 0
  {
    set i: nat | i < |recs| && recs[i].hash != 0
  }

  // Probes 0, .., n - 1 of a code all meet taken slots.
  ghost predicate TakenTo(recs: seq<Record>, code: nat, n: nat, big: nat)
    requires |recs| > 0
  {
    forall off: nat :: off < n ==> recs[Slot(code, off, |recs|, big)].hash != 0
  }

  ghost predicate Blocked(recs: seq<Record>, code: nat, big: nat)
    requires |recs| > 0
  {
    TakenTo(recs, code, LAST + 2, big)
  }

  // The 32-bit offset runs through all its values and starts again: no probe is ever free.
  lemma BlockedForEver(recs: seq<Record>, code: nat, big: nat)
    requires |recs| > 0
    ensures Blocked(recs, code, big) <==> forall off: nat :: recs[Slot(code, off % WORD, |recs|, big)].hash != 0
  {
    if Blocked(recs, code, big) {
      forall off: nat
        ensures recs[Slot(code, off % WORD, |recs|, big)].hash != 0
      {
        var o := if off % WORD <= LAST then off % WORD else LAST + 1;
        assert Slot(code, o, |recs|, big) == Slot(code, off % WORD, |recs|, big);
      }
    } else {
      var off: nat :| off < LAST + 2 && recs[Slot(code, off, |recs|, big)].hash == 0;
      assert off % WORD == off;
    }
  }

  ghost predicate Settled(recs: seq<Record>, probes: seq<nat>, i: nat, big: nat)
    requires i < |recs| == |probes|
  {
    var r := recs[i];
    r.hash != 0 ==>
      && r.path != []
      && r.hash == HashOf(r.path)
      && probes[i] <= LAST + 1
      && Slot(r.hash, probes[i], |recs|, big) == i
      && TakenTo(recs, r.hash, probes[i], big)
  }

  // Every record lies on its own probe path, with no free slot before it.
  ghost predicate AllSettled(recs: seq<Record>, probes: seq<nat>, big: nat) {
    |recs| == |probes| && forall i: nat :: i < |recs| ==> Settled(recs, probes, i, big)
  }

  ghost predicate Stores(recs: seq<Record>, p: Text) {
    exists i :: 0 <= i < |recs| && recs[i].hash != 0 && recs[i].path == p
  }

  ghost predicate Represents(recs: seq<Record>, model: map<Text, Item>) {
    && (forall i :: 0 <= i < |recs| && recs[i].hash != 0 ==>
          recs[i].path in model && model[recs[i].path] == recs[i].item)
    && (forall p :: p in model ==> Stores(recs, p))
    && (forall i, j :: 0 <= i < j < |recs| && recs[i].hash != 0 && recs[j].hash != 0 ==> recs[i].path != recs[j].path)
  }

  predicate Crowded(count: nat, size: nat) {
    20 * count > 13 * size
  }

  // A caller-checkable condition under which the probe loop ends.
  ghost predicate Roomy(taken: int, code: nat, size: nat) {
    && Prime(size)
    && ((taken < Distinct(size) && NoWrap(code, Distinct(size))) || 2 * taken < Distinct(size))
  }

  // Room for one more path ends the probe loop, within half the size of the table.
  lemma RoomyEnds(recs: seq<Record>, code: nat, big: nat) returns (k: nat)
    requires |recs| > 0 && code < WORD
    requires Roomy(|Taken(recs)|, code, |recs|)
    ensures k < Distinct(|recs|) && recs[Slot(code, k, |recs|, big)].hash == 0
    ensures !Blocked(recs, code, big)
  {
    var p := |recs|;
    if 2 * |Taken(recs)| < Distinct(p) {
      k := SomeProbeIsFreeEvenWrapped(code, p, Taken(recs));
    } else {
      k := SomeProbeIsFree(code, 0, Distinct(p), p, Taken(recs));
    }
  }

  // Without a wrap, the probe loop fails exactly when the first (size + 1) / 2 probes are taken and
  // the one that follows the last defined square.
  lemma BlockedExactly(recs: seq<Record>, code: nat, big: nat)
    requires |recs| % 2 == 1 && code + LAST * LAST < WORD && (|recs| + 1) / 2 <= LAST + 1
    ensures Blocked(recs, code, big) <==>
      TakenTo(recs, code, (|recs| + 1) / 2, big) && recs[(code + big) % WORD % |recs|].hash != 0
  {
    BeyondLast(code, |recs|, big);
    if TakenTo(recs, code, (|recs| + 1) / 2, big) && recs[(code + big) % WORD % |recs|].hash != 0 {
      forall off: nat | off <= LAST
        ensures recs[Slot(code, off, |recs|, big)].hash != 0
      {
        var k := ProbesRepeat(code, off, |recs|);
        assert Slot(code, k, |recs|, big) == Slot(code, off, |recs|, big);
      }
    }
  }

  lemma OwnProbe(recs: seq<Record>, probes: seq<nat>, model: map<Text, Item>, path: Text, big: nat) returns (k: nat)
    requires |recs| > 0 && AllSettled(recs, probes, big) && Represents(recs, model) && path in model
    ensures k <= LAST + 1 && TakenTo(recs, HashOf(path), k, big)
    ensures var r := recs[Slot(HashOf(path), k, |recs|, big)]; r.hash != 0 && r.path == path && r.item == model[path]
  {
    assert Stores(recs, path);
    var i: nat :| i < |recs| && recs[i].hash != 0 && recs[i].path == path;
    assert Settled(recs, probes, i, big);
    k := probes[i];
  }

  lemma TakenIsStored(recs: seq<Record>, probes: seq<nat>, model: map<Text, Item>, i: nat, big: nat)
    requires i < |recs| && recs[i].hash != 0
    requires AllSettled(recs, probes, big) && Represents(recs, model)
    ensures recs[i].hash == HashOf(recs[i].path) && recs[i].path != []
    ensures recs[i].path in model && model[recs[i].path] == recs[i].item
  {
    assert Settled(recs, probes, i, big);
  }

  // A stored path is met before any free slot, so a search cannot miss it.
  lemma StoredIsFound(recs: seq<Record>, probes: seq<nat>, model: map<Text, Item>, path: Text, off: nat, big: nat)
    requires |recs| > 0 && AllSettled(recs, probes, big) && Represents(recs, model)
    requires TakenTo(recs, HashOf(path), off, big)
    requires forall j: nat :: j < off ==> recs[Slot(HashOf(path), j, |recs|, big)].path != path
    requires off > LAST + 1 || recs[Slot(HashOf(path), off, |recs|, big)].hash == 0
    ensures path !in model
  {
    if path in model {
      var k := OwnProbe(recs, probes, model, path, big);
    }
  }

  // Filling a free slot that ends the path's probes keeps every record on its path.
  lemma PlaceKeepsSettled(recs: seq<Record>, probes: seq<nat>, r: Record, off: nat, big: nat)
    requires |recs| > 0 && AllSettled(recs, probes, big)
    requires r.path != [] && r.hash == HashOf(r.path) && off <= LAST + 1
    requires TakenTo(recs, r.hash, off, big) && recs[Slot(r.hash, off, |recs|, big)].hash == 0
    ensures |recs| == |probes|
    ensures AllSettled(recs[Slot(r.hash, off, |recs|, big) := r], probes[Slot(r.hash, off, |recs|, big) := off], big)
  {
    var slot := Slot(r.hash, off, |recs|, big);
    forall i: nat {:trigger Settled(recs[slot := r], probes[slot := off], i, big)} | i < |recs|
      ensures Settled(recs[slot := r], probes[slot := off], i, big)
    {
      assert Settled(recs, probes, i, big);
    }
  }

  lemma PlaceKeepsModel(recs: seq<Record>, model: map<Text, Item>, slot: nat, r: Record)
    requires slot < |recs| && recs[slot].hash == 0 && r.hash != 0
    requires Represents(recs, model) && r.path !in model
    ensures Represents(recs[slot := r], model[r.path := r.item])
  {
    var recs', model' := recs[slot := r], model[r.path := r.item];
    forall p | p in model'
      ensures Stores(recs', p)
    {
      if p == r.path {
        assert recs'[slot].path == p;
      } else {
        assert Stores(recs, p);
        var i :| 0 <= i < |recs| && recs[i].hash != 0 && recs[i].path == p;
        assert recs'[i] == recs[i];
      }
    }
  }

  lemma PlaceTakes(recs: seq<Record>, slot: nat, r: Record)
    requires slot < |recs| && recs[slot].hash == 0 && r.hash != 0
    ensures |Taken(recs[slot := r])| == |Taken(recs)| + 1
  {
    assert Taken(recs[slot := r]) == Taken(recs) + {slot};
  }

  lemma EmptyTable(recs: seq<Record>, probes: seq<nat>, big: nat)
    requires |probes| == |recs| && forall i :: 0 <= i < |recs| ==> recs[i].hash == 0
    ensures AllSettled(recs, probes, big) && Represents(recs, map[]) && |Taken(recs)| == 0
  {
    assert Taken(recs) == {};
  }

  // recs' is recs with the record in the first free slot of its probe path.
  ghost predicate Filled(recs: seq<Record>, recs': seq<Record>, r: Record, big: nat)
    requires |recs| > 0
  {
    exists off: nat ::
      && off <= LAST + 1
      && TakenTo(recs, r.hash, off, big)
      && recs[Slot(r.hash, off, |recs|, big)].hash == 0
      && recs' == recs[Slot(r.hash, off, |recs|, big) := r]
  }

  // The first free probe from one on, if there is any.
  ghost function FreeFrom(recs: seq<Record>, code: nat, off: nat, big: nat): (r: Option<nat>)
    requires |recs| > 0
    ensures r.None? ==> forall o: nat :: off <= o < LAST + 2 ==> recs[Slot(code, o, |recs|, big)].hash != 0
    ensures r.Some? ==> off <= r.value < LAST + 2 && recs[Slot(code, r.value, |recs|, big)].hash == 0
    ensures r.Some? ==> forall o: nat :: off <= o < r.value ==> recs[Slot(code, o, |recs|, big)].hash != 0
    decreases LAST + 2 - off
  {
    if off >= LAST + 2 then None
    else if recs[Slot(code, off, |recs|, big)].hash == 0 then Some(off)
    else FreeFrom(recs, code, off + 1, big)
  }

  ghost function Put(recs: seq<Record>, r: Record, big: nat): (recs': Option<seq<Record>>)
    requires |recs| > 0
    ensures recs'.None? <==> Blocked(recs, r.hash, big)
    ensures recs'.Some? ==> |recs'.value| == |recs|
  {
    var off := FreeFrom(recs, r.hash, 0, big);
    if off.None? then None else Some(recs[Slot(r.hash, off.value, |recs|, big) := r])
  }

  lemma FilledIsPut(recs: seq<Record>, recs': seq<Record>, r: Record, big: nat)
    requires |recs| > 0 && Filled(recs, recs', r, big)
    ensures Put(recs, r, big) == Some(recs')
  {
    hide Slot;
    var off: nat :| off <= LAST + 1 && TakenTo(recs, r.hash, off, big)
      && recs[Slot(r.hash, off, |recs|, big)].hash == 0 && recs' == recs[Slot(r.hash, off, |recs|, big) := r];
    var first := FreeFrom(recs, r.hash, 0, big);
    assert first == Some(off);
  }

  // The first n records in an empty table of this size, one after the other; none if one finds no free slot.
  ghost function Refill(recs: seq<Record>, n: nat, size: nat, big: nat): (recs': Option<seq<Record>>)
    requires n <= |recs| && size > 0
    ensures recs'.Some? ==> |recs'.value| == size
  {
    if n == 0 then Some(seq(size, _ => FREE))
    else
      var before := Refill(recs, n - 1, size, big);
      if before.None? || recs[n - 1].hash == 0 then before else Put(before.value, recs[n - 1], big)
  }

  lemma {:induction false} RefillStops(recs: seq<Record>, i: nat, n: nat, size: nat, big: nat)
    requires i <= n <= |recs| && size > 0 && Refill(recs, i, size, big).None?
    ensures Refill(recs, n, size, big).None?
    decreases n - i
  {
    hide Put, Slot;
    if i < n {
      RefillStops(recs, i, n - 1, size, big);
    }
  }

  lemma RefillNone(recs: seq<Record>, size: nat, big: nat)
    requires size > 0
    ensures Refill(recs, 0, size, big) == Some(seq(size, _ => FREE))
  {
  }

  lemma PutFails(recs: seq<Record>, r: Record, big: nat)
    requires |recs| > 0
    ensures Blocked(recs, r.hash, big) <==> Put(recs, r, big).None?
  {
    hide Slot;
  }

  lemma RefillNext(recs: seq<Record>, n: nat, size: nat, big: nat)
    requires n < |recs| && size > 0 && Refill(recs, n, size, big).Some?
    ensures var before := Refill(recs, n, size, big);
      Refill(recs, n + 1, size, big) == if recs[n].hash == 0 then before else Put(before.value, recs[n], big)
  {
    hide Put;
  }

  // In the next table every stored path, and this one, is sure to find a slot.
  ghost predicate ReadyFor(model: map<Text, Item>, path: Text, size: nat) {
    forall p: Text :: p in model || p == path ==> Roomy(|model|, HashOf(p), size)
  }

  // What an addition comes to once the table has grown, if it does.
  ghost function Answer(grown: Option<seq<Record>>, path: Text, model: map<Text, Item>, big: nat): Outcome
    requires grown.Some? ==> |grown.value| > 0
  {
    if grown.None? then Loops
    else if path in model then Present
    else if Blocked(grown.value, HashOf(path), big) then Loops
    else Added
  }

  class HashMap {
    var records: array<Record>
    var recordsCount: nat
    var sizeIndex: nat
    // What the machine makes of the square of an offset above LAST.
    const big: nat

    ghost var model: map<Text, Item>
    ghost var probes: seq<nat>

    ghost predicate Valid()
      reads this, records
    {
      && sizeIndex < |SIZES|
      && records.Length == SIZES[sizeIndex]
      && AllSettled(records[..], probes, big)
      && Represents(records[..], model)
      && recordsCount == |Taken(records[..])| == |model|
      && 20 * recordsCount <= 13 * records.Length + 20
    }

    // hashmap_new: room for capacity records without growing.
    constructor (capacity: nat, beyond: nat)
      requires capacity * 20 / 13 < SIZES[|SIZES| - 1]
      ensures Valid() && fresh(records) && big == beyond
      ensures model == map[]
      ensures 20 * capacity <= 13 * records.Length
      ensures sizeIndex == 0 || SIZES[sizeIndex - 1] <= capacity * 20 / 13
    {
      big := beyond;
      var scaled := capacity * 20 / 13;
      var sind := 0;
      while SIZES[sind] <= scaled
        invariant sind < |SIZES|
        invariant sind == 0 || SIZES[sind - 1] <= scaled
        decreases |SIZES| - sind
      {
        sind := sind + 1;
      }
      records := new Record[SIZES[sind]](_ => FREE);
      recordsCount := 0;
      sizeIndex := sind;
      model := map[];
      probes := seq(SIZES[sind], _ => 0);
      new;
      EmptyTable(records[..], probes, big);
    }

    // The probe loop of hashmap_add and hashmap_get; off + 1 slots are looked at.
    method Walk(path: Text, code: nat) returns (r: Search)
      requires Valid() && code == HashOf(path)
      ensures path in model ==>
        r.Found? && r.slot < records.Length && records[r.slot].path == path && records[r.slot].item == model[path]
      ensures path !in model ==> (r.Endless? <==> Blocked(records[..], code, big)) && !r.Found?
      ensures !r.Endless? ==>
        && r.off <= LAST + 1
        && r.slot == Slot(code, r.off, records.Length, big)
        && TakenTo(records[..], code, r.off, big)
        && (r.Free? <==> records[r.slot].hash == 0)
    {
      hide Settled, AllSettled, Represents, Stores, Slot, Taken, HashOf;
      var size := records.Length;
      FirstProbe(code, size);
      var ind := code % size;
      var off := 0;
      while records[ind].hash != 0
        invariant off <= LAST + 1 && ind == Slot(code, off, size, big)
        invariant TakenTo(records[..], code, off, big)
        invariant forall j: nat :: j < off ==> records[Slot(code, j, size, big)].path != path
        decreases LAST + 1 - off
      {
        TakenIsStored(records[..], probes, model, ind, big);
        if code == records[ind].hash && path == records[ind].path {
          return Found(ind, off);
        }
        if off == LAST + 1 {
          StoredIsFound(records[..], probes, model, path, off + 1, big);
          return Endless;
        }
        off := off + 1;
        ind := Slot(code, off, size, big);
      }
      StoredIsFound(records[..], probes, model, path, off, big);
      r := Free(ind, off);
    }

    // With room for one more path, a search looks at no more than half the slots, and it ends.
    lemma WalkIsShort(path: Text, r: Search)
      requires Valid() && Roomy(recordsCount, HashOf(path), records.Length)
      requires path !in model && r.Endless? ==> Blocked(records[..], HashOf(path), big)
      requires path in model ==> r.Found?
      requires !r.Endless? ==> r.off <= LAST + 1 && TakenTo(records[..], HashOf(path), r.off, big)
      requires r.Found? ==> records[Slot(HashOf(path), r.off, records.Length, big)].hash != 0
      ensures !r.Endless? && r.off < Distinct(records.Length)
    {
      hide AllSettled, Represents, Slot;
      var k := RoomyEnds(records[..], HashOf(path), big);
    }

    // hashmap_get: exactly the model's answer, unless the path is absent and its probes are all taken.
    method Get(path: Text) returns (r: Lookup, ghost probed: nat)
      requires Valid()
      ensures path in model ==> r == Hit(model[path])
      ensures path !in model ==> r == if Blocked(records[..], HashOf(path), big) then LoopsForever else Miss
      ensures Roomy(recordsCount, HashOf(path), records.Length) ==> r != LoopsForever && probed <= Distinct(records.Length)
    {
      hide Settled, AllSettled, Represents, Stores, Slot, Taken, HashOf, TakenTo, Roomy;
      var code := StrHash(path);
      var s := Walk(path, code);
      if Roomy(recordsCount, code, records.Length) {
        WalkIsShort(path, s);
      }
      probed := 0;
      match s {
        case Found(slot, off) =>
          r := Hit(records[slot].item);
          probed := off + 1;
        case Free(_, off) =>
          r := Miss;
          probed := off + 1;
        case Endless => r := LoopsForever;
      }
    }

    // The path is not stored and its probes never reach a free slot.
    ghost predicate Trapped(path: Text)
      requires Valid()
      reads this, records
    {
      path !in model && Blocked(records[..], HashOf(path), big)
    }

    // The tail of hashmap_add, after any growth.
    method Place(path: Text, item: Item) returns (outcome: Outcome, ghost probed: nat)
      requires Valid() && path != [] && !Crowded(recordsCount, records.Length)
      modifies this, records
      ensures records == old(records) && sizeIndex == old(sizeIndex)
      ensures outcome == if path in old(model) then Present else if old(Trapped(path)) then Loops else Added
      ensures Valid()
      ensures model == if outcome == Added then old(model)[path := item] else old(model)
      ensures outcome == Added ==> Filled(old(records[..]), records[..], Record(HashOf(path), path, item), big)
      ensures outcome != Added ==> records[..] == old(records[..])
      ensures old(Roomy(recordsCount, HashOf(path), records.Length)) ==> outcome != Loops && probed <= Distinct(records.Length)
    {
      hide Settled, AllSettled, Represents, Stores, Slot, Taken, HashOf, TakenTo, Roomy;
      var code := StrHash(path);
      var s := Walk(path, code);
      if Roomy(recordsCount, code, records.Length) {
        WalkIsShort(path, s);
      }
      probed := 0;
      match s {
        case Found(_, off) =>
          outcome := Present;
          probed := off + 1;
        case Endless => outcome := Loops;
        case Free(slot, off) =>
          probed := off + 1;
          ghost var recs := records[..];
          var r := Record(code, path, item);
          PlaceKeepsSettled(recs, probes, r, off, big);
          PlaceKeepsModel(recs, model, slot, r);
          PlaceTakes(recs, slot, r);
          records[slot] := r;
          recordsCount := recordsCount + 1;
          model, probes := model[path := item], probes[slot := off];
          assert records[..] == recs[slot := r];
          outcome := Added;
      }
    }

    // hashmap_add.
    method Add(path: Text, item: Item) returns (outcome: Outcome)
      requires Valid()
      modifies this, records
      ensures path == [] ==> outcome == NoPath && records == old(records) && sizeIndex == old(sizeIndex)
      ensures path != [] && !old(CannotGrow()) && !old(Growing()) ==>
        && outcome == (if path in old(model) then Present else if old(Trapped(path)) then Loops else Added)
        && records == old(records) && sizeIndex == old(sizeIndex)
        && (outcome == Added ==> Filled(old(records[..]), records[..], Record(HashOf(path), path, item), big))
      ensures path != [] && old(CannotGrow()) ==> outcome == Full
      ensures path != [] && old(Growing()) ==>
        && outcome == old(Answer(Regrown(), path, model, big))
        && (old(Ready(path)) ==> outcome != Loops)
        && (outcome != Loops ==> sizeIndex == old(sizeIndex) + 1)
      ensures outcome != Loops ==> Valid()
      ensures outcome != Loops ==> model == if outcome == Added then old(model)[path := item] else old(model)
      ensures records == old(records) || fresh(records)
      ensures outcome in {Added, Present} ==>
        sizeIndex == old(sizeIndex) + if 20 * old(recordsCount) > 13 * old(records.Length) then 1 else 0
      decreases |SIZES| - sizeIndex, 1
    {
      if path == [] {
        return NoPath;
      }
      if Crowded(recordsCount, SIZES[sizeIndex]) {
        outcome := Grow();
        if outcome != Added {
          return;
        }
        label grown:
        assert old(Ready(path)) ==> !Trapped(path) by {
          if old(Ready(path)) {
            var k := RoomyEnds(records[..], HashOf(path), big);
          }
        }
      }
      ghost var probed;
      outcome, probed := Place(path, item);
    }

    ghost predicate CannotGrow()
      reads this, records
    {
      Crowded(recordsCount, records.Length) && sizeIndex == |SIZES| - 1
    }

    ghost predicate Growing()
      reads this, records
    {
      Crowded(recordsCount, records.Length) && sizeIndex < |SIZES| - 1
    }

    ghost predicate Ready(path: Text)
      requires sizeIndex < |SIZES| - 1
      reads this
    {
      ReadyFor(model, path, SIZES[sizeIndex + 1])
    }

    ghost function Look(): Table
      reads this, records
    {
      Table(records[..], probes, sizeIndex, model)
    }

    // The records after growth, if every one of them finds a slot.
    ghost function Regrown(): (grown: Option<seq<Record>>)
      requires sizeIndex < |SIZES| - 1
      reads this, records
      ensures grown.Some? ==> |grown.value| > 0
    {
      Refill(records[..], records.Length, SIZES[sizeIndex + 1], big)
    }

    // The recursive hashmap_add of a rehash: the table is not crowded, so it does not grow again.
    method AddAgain(path: Text, item: Item, ghost total: nat) returns (outcome: Outcome)
      requires Valid() && path != [] && !Crowded(total, records.Length) && |model| <= total
      modifies this, records
      ensures records == old(records) && sizeIndex == old(sizeIndex)
      ensures outcome == Loops ==> !Roomy(total, HashOf(path), records.Length)
      ensures outcome != Loops ==> Valid()
      ensures outcome != Loops ==> model == if path in old(model) then old(model) else old(model)[path := item]
      ensures path !in old(model) ==>
        if outcome == Loops then old(Trapped(path))
        else Filled(old(records[..]), records[..], Record(HashOf(path), path, item), big)
      decreases |SIZES| - sizeIndex, 2
    {
      hide Settled, AllSettled, Represents, Stores, Slot, Taken, TakenTo, HashOf;
      if Roomy(total, HashOf(path), records.Length) {
        var k := RoomyEnds(records[..], HashOf(path), big);
      }
      outcome := Add(path, item);
    }

    // Growth into any size up to 49157 always succeeds while the codes do not wrap.
    lemma GrowthIsReady(path: Text)
      requires Valid() && sizeIndex + 1 < SMALL
      requires forall p: Text :: p in model || p == path ==> NoWrap(HashOf(p), Distinct(SIZES[sizeIndex + 1]))
      ensures Ready(path)
    {
      hide HashOf, AllSettled, Represents, Taken, NoWrap;
      SmallSizePrime(sizeIndex + 1);
      NextSize(sizeIndex);
      SizeOdd(sizeIndex + 1);
    }

    // hashmap_grow: the next table holds the same model; Added stands for the result 0.
    method Grow() returns (outcome: Outcome)
      requires Valid()
      modifies this
      ensures outcome in {Full, Added, Loops}
      ensures outcome == Full <==> old(sizeIndex) == |SIZES| - 1
      ensures outcome == Full ==> Valid() && records == old(records) && model == old(model) && sizeIndex == old(sizeIndex)
      ensures outcome == Added ==>
        && Valid()
        && model == old(model)
        && sizeIndex == old(sizeIndex) + 1
        && !Crowded(recordsCount, records.Length)
        && fresh(records)
      ensures outcome == Loops ==> fresh(records) && exists p :: p in old(model) && !Roomy(|old(model)|, HashOf(p), SIZES[old(sizeIndex) + 1])
      ensures outcome != Full ==> if outcome == Loops then old(Regrown()).None? else old(Regrown()) == Some(records[..])
      decreases |SIZES| - sizeIndex, 0
    {
      hide Settled, AllSettled, Represents, Stores, Taken, HashOf, TakenTo, Prime, Roomy, Refill, Put, Slot, Blocked;
      var oldRecs := records;
      if sizeIndex == |SIZES| - 1 {
        return Full;
      }
      NextSize(sizeIndex);
      ghost var probes', model' := probes, model;
      sizeIndex := sizeIndex + 1;
      records := new Record[SIZES[sizeIndex]](_ => FREE);
      recordsCount := 0;
      model := map[];
      probes := seq(SIZES[sizeIndex], _ => 0);
      EmptyTable(records[..], probes, big);
      outcome := Rehash(oldRecs, probes', model');
    }

    // The first i old records are back.
    ghost predicate Back(was: seq<Record>, oldModel: map<Text, Item>, i: nat)
      requires i <= |was|
      reads this, records
    {
      && Valid() && records.Length > 0
      && (forall p :: p in model ==> p in oldModel && model[p] == oldModel[p])
      && (forall j :: 0 <= j < i && was[j].hash != 0 ==> was[j].path in model)
      && (forall j :: i <= j < |was| && was[j].hash != 0 ==> was[j].path !in model)
      && Refill(was, i, records.Length, big) == Some(records[..])
    }

    lemma NoneBack(was: seq<Record>, oldModel: map<Text, Item>)
      requires Valid() && model == map[] && records[..] == seq(records.Length, _ => FREE)
      ensures Back(was, oldModel, 0)
    {
      hide AllSettled, Represents, Taken;
    }

    // One turn of the loop of hashmap_grow.
    method AddBack(r: Record, ghost was: seq<Record>, ghost oldProbes: seq<nat>, ghost oldModel: map<Text, Item>, ghost i: nat)
      returns (outcome: Outcome)
      requires i < |was| && r == was[i] && r.hash != 0 && Back(was, oldModel, i)
      requires AllSettled(was, oldProbes, big) && Represents(was, oldModel)
      requires !Crowded(|oldModel|, records.Length)
      modifies this, records
      ensures records == old(records) && sizeIndex == old(sizeIndex)
      ensures outcome != Loops ==> Back(was, oldModel, i + 1)
      ensures outcome == Loops ==> r.path in oldModel && !Roomy(|oldModel|, HashOf(r.path), records.Length)
      ensures outcome == Loops ==> Refill(was, i + 1, records.Length, big).None?
      decreases |SIZES| - sizeIndex, 3
    {
      hide Settled, AllSettled, Represents, Stores, Taken, HashOf, TakenTo, Prime, Roomy, HashMap.Valid, Crowded, Refill, Put,
        Filled, Blocked;
      TakenIsStored(was, oldProbes, oldModel, i, big);
      SubmapSize(model, oldModel);
      OthersDiffer(was, oldProbes, oldModel, i, big);
      RefillNext(was, i, records.Length, big);
      PutFails(records[..], r, big);
      ghost var before := records[..];
      outcome := AddAgain(r.path, r.item, |oldModel|);
      if outcome != Loops {
        FilledIsPut(before, records[..], r, big);
      }
    }

    // The loop of hashmap_grow: add every taken old record to the new table.
    method Rehash(oldRecs: array<Record>, ghost oldProbes: seq<nat>, ghost oldModel: map<Text, Item>) returns (outcome: Outcome)
      requires Valid() && model == map[] && oldRecs != records
      requires AllSettled(oldRecs[..], oldProbes, big) && Represents(oldRecs[..], oldModel)
      requires !Crowded(|oldModel|, records.Length) && records[..] == seq(records.Length, _ => FREE)
      modifies this, records
      ensures records == old(records) && sizeIndex == old(sizeIndex)
      ensures outcome == Added || outcome == Loops
      ensures outcome == Added ==> Valid() && model == oldModel
      ensures outcome == Loops ==> exists p :: p in oldModel && !Roomy(|oldModel|, HashOf(p), records.Length)
      ensures var re := Refill(oldRecs[..], oldRecs.Length, records.Length, big);
        if outcome == Loops then re.None? else re == Some(records[..])
      decreases |SIZES| - sizeIndex, 4
    {
      hide Settled, AllSettled, Represents, Stores, Taken, HashOf, TakenTo, Prime, Roomy, HashMap.Valid, Crowded, Refill, Put,
        Filled, Blocked;
      NoneBack(oldRecs[..], oldModel);
      var i := 0;
      while i < oldRecs.Length
        invariant i <= oldRecs.Length && sizeIndex == old(sizeIndex) && records == old(records)
        invariant Back(oldRecs[..], oldModel, i)
      {
        if oldRecs[i].hash != 0 {
          outcome := AddBack(oldRecs[i], oldRecs[..], oldProbes, oldModel, i);
          if outcome == Loops {
            RefillStops(oldRecs[..], i + 1, oldRecs.Length, records.Length, big);
            return;
          }
        } else {
          RefillNext(oldRecs[..], i, records.Length, big);
        }
        i := i + 1;
      }
      SameModel(oldRecs[..], oldModel, model);
      outcome := Added;
    }
  }

  lemma OthersDiffer(recs: seq<Record>, probes: seq<nat>, model: map<Text, Item>, i: nat, big: nat)
    requires AllSettled(recs, probes, big) && Represents(recs, model) && i < |recs| && recs[i].hash != 0
    ensures recs[i] == Record(HashOf(recs[i].path), recs[i].path, recs[i].item)
    ensures forall j :: i < j < |recs| && recs[j].hash != 0 ==> recs[j].path != recs[i].path
  {
    assert Settled(recs, probes, i, big);
  }

  lemma SubmapSize(a: map<Text, Item>, b: map<Text, Item>)
    requires forall p :: p in a ==> p in b && a[p] == b[p]
    ensures |a| <= |b|
  {
    assert b.Keys == a.Keys + (b.Keys - a.Keys);
    assert |a| == |a.Keys| && |b| == |b.Keys|;
  }

  lemma SameModel(recs: seq<Record>, model: map<Text, Item>, copy: map<Text, Item>)
    requires Represents(recs, model)
    requires forall p :: p in copy ==> p in model && copy[p] == model[p]
    requires forall j :: 0 <= j < |recs| && recs[j].hash != 0 ==> recs[j].path in copy
    ensures copy == model
  {
    forall p | p in model
      ensures p in copy
    {
      assert Stores(recs, p);
    }
  }

  // ----------------------------------------------------- runs of additions

  // What a run of additions leaves: for each path its first item.
  function FirstWins(adds: seq<(Text, Item)>): (m: map<Text, Item>)
    ensures forall k :: 0 <= k < |adds| && adds[k].0 != [] ==> adds[k].0 in m
    ensures forall p :: p in m ==> exists k :: 0 <= k < |adds| && adds[k].0 == p
  {
    if adds == [] then map[] else
      var m := FirstWins(adds[..|adds| - 1]);
      var (path, item) := adds[|adds| - 1];
      if path == [] || path in m then m else m[path := item]
  }

  lemma {:induction false} FirstItemStays(adds: seq<(Text, Item)>, k: nat)
    requires k < |adds| && adds[k].0 != []
    requires forall j :: 0 <= j < k ==> adds[j].0 != adds[k].0
    ensures FirstWins(adds)[adds[k].0] == adds[k].1
  {
    var before := adds[..|adds| - 1];
    if k < |adds| - 1 {
      FirstItemStays(before, k);
      assert before[k].0 in FirstWins(before);
    }
  }

  // Later additions only add: what a part of the run leaves is no larger, and smaller before a new path.
  lemma {:induction false} FirstWinsGrows(adds: seq<(Text, Item)>, k: nat)
    requires k <= |adds|
    ensures |FirstWins(adds[..k])| <= |FirstWins(adds)|
    ensures k < |adds| && adds[k].0 != [] && adds[k].0 !in FirstWins(adds[..k]) ==> |FirstWins(adds[..k])| < |FirstWins(adds)|
    decreases |adds| - k
  {
    hide FirstWins;
    if k == |adds| {
      assert adds[..k] == adds;
    } else {
      FirstWinsGrows(adds, k + 1);
      FirstWinsNext(adds, k);
    }
  }

  // A table as hashmap_add meets it.
  datatype Table = Table(recs: seq<Record>, probes: seq<nat>, sizeIndex: nat, model: map<Text, Item>) {
    ghost predicate Valid(big: nat) {
      && sizeIndex < |SIZES| && |recs| == SIZES[sizeIndex]
      && AllSettled(recs, probes, big) && Represents(recs, model) && |Taken(recs)| == |model|
    }

    // Why an addition fails: the largest table is crowded, or growth or the probe loop never ends.
    ghost predicate Refuses(path: Text, big: nat)
      requires Valid(big)
    {
      && path != []
      && if !Crowded(|model|, |recs|) then path !in model && Blocked(recs, HashOf(path), big)
         else if sizeIndex == |SIZES| - 1 then true
         else Answer(Refill(recs, |recs|, SIZES[sizeIndex + 1], big), path, model, big) == Loops
    }
  }

  // Every addition of the run is sure of a slot in a table of this size.
  ghost predicate FitsAll(adds: seq<(Text, Item)>, size: nat) {
    forall k :: 0 <= k < |adds| && adds[k].0 != [] ==> Roomy(|FirstWins(adds)| - 1, HashOf(adds[k].0), size)
  }

  // Any run of hashmap_add on a new table, with any growths: it leaves the first item of each path, or
  // stops at an addition that table t, holding what came before, refuses. It does not stop when the
  // paths fill no more than half of the slots and their codes do not wrap.
  method Load(h: HashMap, adds: seq<(Text, Item)>) returns (done: nat, ghost t: Table)
    requires h.Valid() && h.model == map[]
    modifies h, h.records
    ensures done <= |adds|
    ensures done == |adds| ==> h.Valid() && h.model == FirstWins(adds)
    ensures done < |adds| ==> t.Valid(h.big) && t.model == FirstWins(adds[..done]) && t.Refuses(adds[done].0, h.big)
    ensures old(FitsAll(adds, h.records.Length)) ==> done == |adds|
  {
    hide AllSettled, Represents, Taken, FitsAll, ReadyFor, Blocked, FirstWins, Filled, Crowded, Table.Valid, Table.Refuses;
    done := 0;
    ghost var size := h.records.Length;
    t := h.Look();
    Unfilled(adds);
    while done < |adds|
      invariant done <= |adds|
      invariant h.Valid() && h.model == FirstWins(adds[..done])
      invariant h.records == old(h.records) || fresh(h.records)
      invariant FitsAll(adds, size) ==> h.records.Length == size
    {
      var (path, item) := adds[done];
      t := h.Look();
      LookSays(h, path);
      if FitsAll(adds, size) && path != [] {
        FittingIsTaken(h, adds, done);
      }
      FirstWinsNext(adds, done);
      var outcome := h.Add(path, item);
      if outcome == Loops || outcome == Full {
        return;
      }
      done := done + 1;
    }
    assert adds[..done] == adds;
  }

  lemma Unfilled(adds: seq<(Text, Item)>)
    ensures FirstWins(adds[..0]) == map[]
  {
  }

  lemma FirstWinsNext(adds: seq<(Text, Item)>, k: nat)
    requires k < |adds|
    ensures var (path, item) := adds[k];
      var m := FirstWins(adds[..k]);
      FirstWins(adds[..k + 1]) == if path == [] || path in m then m else m[path := item]
  {
    assert adds[..k + 1][..k] == adds[..k];
  }

  lemma LookSays(h: HashMap, path: Text)
    requires h.Valid()
    ensures h.Look().Valid(h.big) && h.Look().model == h.model
    ensures path != [] && h.CannotGrow() ==> h.Look().Refuses(path, h.big)
    ensures path != [] && h.Growing() && Answer(h.Regrown(), path, h.model, h.big) == Loops ==> h.Look().Refuses(path, h.big)
    ensures path != [] && !Crowded(h.recordsCount, h.records.Length) && path !in h.model && h.Trapped(path)
      ==> h.Look().Refuses(path, h.big)
  {
    hide AllSettled, Represents, Taken, ReadyFor, Blocked;
  }

  lemma FittingIsTaken(h: HashMap, adds: seq<(Text, Item)>, k: nat)
    requires h.Valid() && k < |adds| && adds[k].0 != [] && h.model == FirstWins(adds[..k])
    requires FitsAll(adds, h.records.Length)
    ensures !Crowded(h.recordsCount, h.records.Length) && !h.Trapped(adds[k].0)
  {
    hide HashOf, AllSettled, Represents, Slot, TakenTo, Taken, Roomy, FirstWins, Crowded;
    FirstWinsGrows(adds, k);
    SizeOdd(h.sizeIndex);
    RoomierBelow(|FirstWins(adds)|, h.recordsCount, HashOf(adds[k].0), h.records.Length);
    if adds[k].0 !in h.model {
      var o := RoomyEnds(h.records[..], HashOf(adds[k].0), h.big);
    }
  }

  lemma RoomierBelow(n: int, count: nat, code: nat, size: nat)
    requires Roomy(n - 1, code, size) && count <= n && size >= 53
    ensures !Crowded(count, size) && (count < n ==> Roomy(count, code, size))
  {
  }

  // ------------------------------------------- an addition that never ends

  // What a cast of too large a square to int yields, as an unsigned word: INT_MIN on x86,
  // INT_MAX where casts saturate.
  const INT_MIN: nat := 0x8000_0000
  const INT_MAX: nat := 0x7FFF_FFFF

  // k^2 mod 53 for k < 27, then the two slots that the probes past the last square may meet.
  function Home(k: nat): (slot: nat)
    ensures slot < 53
  {
    if k < 27 then k * k % 53 else if k == 27 then 20 else 21
  }

  // The one-character path whose home in the smallest table is that slot.
  function Single(k: nat): (s: Text)
    ensures |s| == 1 && HashOf(s) % 53 == Home(k)
  {
    var c := 53 + (Home(k) + 30) % 53;
    SingleHash(c);
    SingleHome(Home(k));
    [c as char]
  }

  lemma SingleHome(m: nat)
    requires m < 53
    ensures (177573 + 53 + (m + 30) % 53) % 53 == m
  {
  }

  lemma SingleHash(c: nat)
    requires 53 <= c < 106
    ensures HashOf([c as char]) == 177573 + c
  {
    var s: Text := [c as char];
    assert s[..0] == [];
    assert Fold(s[..0]) == 5381;
  }

  const VICTIM: Text := "S5"

  lemma VictimHash()
    ensures HashOf(VICTIM) == 5862701 && 5862701 % 53 == 0
  {
    var s: Text := VICTIM;
    SingleHash(83);
    assert s[..1] == [83 as char];
  }

  lemma SinglesDiffer(j: nat, k: nat)
    requires j < k < 29
    ensures Home(j) != Home(k) && Single(j) != Single(k)
  {
    if k < 27 {
      SmallSizePrime(0);
      SquaresDiffer(j, k, 53);
    } else {
      NoSquareRoot(j);
    }
  }

  lemma NoSquareRoot(j: nat)
    ensures j < 27 ==> j * j % 53 != 20 && j * j % 53 != 21
  {
    if j < 27 {
      assert j in {0, 1, 2, 3, 4, 5, 6, 7, 8, 9, 10, 11, 12, 13, 14, 15, 16, 17, 18, 19, 20, 21, 22, 23, 24, 25, 26};
    }
  }

  // Only Single(0), .., Single(n - 1) are stored, each in its home slot.
  ghost predicate AtHome(recs: seq<Record>, model: map<Text, Item>, n: nat) {
    && |recs| == 53
    && (forall p :: p in model ==> exists j: nat {:trigger Single(j)} :: j < n && p == Single(j))
    && (forall j: nat {:trigger Home(j)} :: j < n ==> recs[Home(j)].hash != 0)
    && (forall s: nat :: s < 53 && recs[s].hash != 0 ==> exists j: nat {:trigger Home(j)} :: j < n && s == Home(j))
  }

  lemma NoneAtHome(recs: seq<Record>)
    requires |recs| == 53 && Represents(recs, map[])
    ensures AtHome(recs, map[], 0)
  {
  }

  lemma HomeIsFree(recs: seq<Record>, model: map<Text, Item>, k: nat, big: nat)
    requires k < 29 && AtHome(recs, model, k)
    ensures Single(k) !in model && Slot(HashOf(Single(k)), 0, 53, big) == Home(k) && recs[Home(k)].hash == 0
    ensures !Blocked(recs, HashOf(Single(k)), big)
  {
    forall j: nat | j < k
      ensures Single(j) != Single(k) && Home(j) != Home(k)
    {
      SinglesDiffer(j, k);
    }
    FirstProbe(HashOf(Single(k)), 53);
    assert 0 < LAST + 2;
  }

  lemma HomeStep(recs: seq<Record>, recs': seq<Record>, model: map<Text, Item>, k: nat, item: Item, big: nat)
    requires k < 29 && AtHome(recs, model, k)
    requires Filled(recs, recs', Record(HashOf(Single(k)), Single(k), item), big)
    ensures AtHome(recs', model[Single(k) := item], k + 1)
  {
    hide Slot, HashOf, Single, Home;
    HomeIsFree(recs, model, k, big);
    assert recs' == recs[Home(k) := Record(HashOf(Single(k)), Single(k), item)];
  }

  lemma HomesBlock(recs: seq<Record>, model: map<Text, Item>, big: nat)
    requires AtHome(recs, model, 29) && (big == INT_MIN || big == INT_MAX)
    ensures VICTIM !in model && Blocked(recs, HashOf(VICTIM), big)
  {
    hide HashOf, Single;
    VictimHash();
    forall off: nat | off < 27
      ensures recs[Slot(HashOf(VICTIM), off, 53, big)].hash != 0
    {
      VictimProbe(off);
      assert recs[Home(off)].hash != 0;
    }
    assert recs[Home(27)].hash != 0 && recs[Home(28)].hash != 0;
    VictimBeyond();
    BlockedExactly(recs, HashOf(VICTIM), big);
  }

  lemma VictimBeyond()
    ensures (5862701 + INT_MIN) % WORD % 53 == Home(28) && (5862701 + INT_MAX) % WORD % 53 == Home(27)
  {
  }

  lemma VictimProbe(off: nat)
    requires off < 27
    ensures Probe(HashOf(VICTIM), off, 53) == Home(off)
  {
    VictimHash();
    SquareGrows(off, 27);
    AddMultipleOf(off * off, 5862701 / 53, 53);
  }

  // Twenty-nine one-character paths, well under the growth threshold. After them, adding one more path
  // (or asking for it) never returns, on machines of either kind.
  method Clog(big: nat) returns (h: HashMap, outcome: Outcome)
    requires big == INT_MIN || big == INT_MAX
    ensures h.Valid() && h.recordsCount == 29 && h.records.Length == 53 && !Crowded(29, 53) && h.big == big
    ensures h.Trapped(VICTIM) && outcome == Loops
  {
    hide AllSettled, Represents, Single, AtHome, Filled, Slot, HashOf, TakenTo;
    h := new HashMap(0, big);
    NoneAtHome(h.records[..]);
    var k := 0;
    while k < 29
      invariant k <= 29 && fresh(h) && fresh(h.records) && h.Valid() && h.big == big
      invariant h.sizeIndex == 0 && h.recordsCount == k && AtHome(h.records[..], h.model, k)
    {
      ghost var recs, model := h.records[..], h.model;
      HomeIsFree(recs, model, k, big);
      var added := h.Add(Single(k), Item(0, 0, 0));
      HomeStep(recs, h.records[..], model, k, Item(0, 0, 0), big);
      k := k + 1;
    }
    HomesBlock(h.records[..], h.model, big);
    ghost var probed;
    outcome, probed := h.Place(VICTIM, Item(0, 0, 0));
  }
}
