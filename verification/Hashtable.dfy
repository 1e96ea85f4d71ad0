// A model of the chained hash table of smartc/hashtable.c: an array of heap-allocated chains, grown
// by relinking the entries in place.
module Hashtable {
  import opened Chains
  import opened Common

  ghost predicate Table<K, V>(t: array<Entry?<K, V>>, cs: seq<seq<Entry<K, V>>>, from: nat)
    reads t, EntrySet(cs)
  {
    |cs| == t.Length && forall b {:trigger cs[b]} :: from <= b < |cs| ==> ChainOk(t, b, cs[b])
  }

  // h->table[i] = e->next: the first entry of a chain leaves it.
  method Pop<K, V>(t: array<Entry?<K, V>>, i: nat, ghost c: seq<Entry<K, V>>, ghost cs: seq<seq<Entry<K, V>>>)
    returns (e: Entry<K, V>)
    requires i < t.Length && c != [] && ChainOk(t, i, c) && Table(t, cs, i + 1)
    modifies t
    ensures e == c[0] && ChainOk(t, i, c[1..]) && Table(t, cs, i + 1)
    ensures e !in c[1..] && forall b :: i < b < |cs| ==> e !in cs[b]
    ensures t[..i] == old(t[..i]) && t[i + 1..] == old(t[i + 1..])
  {
    e := t[i];
    assert e.next == if |c| > 1 then c[1] else null;
    HeadOnce(t[i], c);
    forall k {:trigger c[1..][k]} | 0 <= k < |c| - 1 ensures c[1..][k].next == if k + 2 < |c| then c[k + 2] else null {
      assert c[1..][k] == c[k + 1];
    }
    t[i] := e.next;
    assert forall b :: i < b < |cs| ==> old(ChainOk(t, b, cs[b]));
  }

  // e->next = table[index]; table[index] = e: an entry that is in no chain becomes the first of one.
  method Push<K, V>(t: array<Entry?<K, V>>, index: nat, e: Entry<K, V>, ghost cs: seq<seq<Entry<K, V>>>)
    requires index < t.Length && Table(t, cs, 0)
    requires forall b :: 0 <= b < |cs| ==> e !in cs[b]
    modifies t, e
    ensures Table(t, cs[index := [e] + cs[index]], 0)
    ensures e.v == old(e.v)
  {
    ghost var d := cs[index];
    assert ChainOk(t, index, d);
    e.next := t[index];
    t[index] := e;
    e.home, e.bucket := t, index;
    forall k | 0 <= k < |d| ensures ([e] + d)[k + 1] == d[k] {}
    assert ChainOk(t, index, [e] + d);
    forall b | 0 <= b < |cs| && b != index ensures ChainOk(t, b, cs[b]) {
      assert old(ChainOk(t, b, cs[b]));
    }
  }

  // e->v = v
  method SetValue<K, V>(t: array<Entry?<K, V>>, ghost cs: seq<seq<Entry<K, V>>>, e: Entry<K, V>, v: V)
    requires Table(t, cs, 0)
    modifies e`v
    ensures Table(t, cs, 0) && e.v == v
  {
    e.v := v;
    forall b | 0 <= b < |cs| ensures ChainOk(t, b, cs[b]) {
      assert old(ChainOk(t, b, cs[b]));
    }
  }

  // *pE = e->next, for the i-th entry of bucket b; prev is the entry before it, or null at the head.
  method UnlinkAt<K, V>(t: array<Entry?<K, V>>, b: nat, prev: Entry?<K, V>, e: Entry<K, V>, ghost i: nat,
      ghost cs: seq<seq<Entry<K, V>>>)
    requires Table(t, cs, 0) && b < |cs| && i < |cs[b]| && e == cs[b][i]
    requires prev == if i == 0 then null else cs[b][i - 1]
    modifies t, cs[b]
    ensures Table(t, Cut(cs, b, i), 0)
    ensures e.next == old(e.next) && forall f :: f in EntrySet(cs) ==> f.v == old(f.v)
  {
    ghost var c := cs[b];
    ghost var d := c[..i] + c[i + 1..];
    assert ChainOk(t, b, c);
    assert e.next == if i + 1 < |c| then c[i + 1] else null;
    forall j, k | 0 <= j < k < |c| ensures c[j] != c[k] { NoRepeat(t[b], c, j, k); }
    if prev == null {
      t[b] := e.next;
    } else {
      prev.next := e.next;
    }
    forall j {:trigger d[j].next} | 0 <= j < |d| ensures d[j].next == if j + 1 < |d| then d[j + 1] else null {
      var k := if j < i then j else j + 1;
      assert d[j] == c[k] && old(c[k].next) == if k + 1 < |c| then c[k + 1] else null;
    }
    forall a | 0 <= a < |cs| && a != b ensures ChainOk(t, a, cs[a]) {
      assert old(ChainOk(t, a, cs[a]));
    }
  }

  // The entry is gone from the table, and only that one.
  lemma RemovedEntry<K, V>(t: array<Entry?<K, V>>, cs: seq<seq<Entry<K, V>>>, b: nat, i: nat, hashfn: K -> nat)
    requires Table(t, cs, 0) && b < |cs| && i < |cs[b]| && Hashed(cs, hashfn)
    ensures var ds := Cut(cs, b, i);
      Hashed(ds, hashfn) && EntrySet(ds) == EntrySet(cs) - {cs[b][i]}
  {
    var c, e := cs[b], cs[b][i];
    var ds := cs[b := c[..i] + c[i + 1..]];
    assert ChainOk(t, b, c);
    forall j, k | 0 <= j < k < |c| ensures c[j] != c[k] { NoRepeat(t[b], c, j, k); }
    forall f | f in EntrySet(ds) ensures f in EntrySet(cs) - {e} {
      var a, j :| 0 <= a < |ds| && 0 <= j < |ds[a]| && ds[a][j] == f;
      assert f == if a != b || j < i then cs[a][j] else cs[a][j + 1];
      assert ChainOk(t, a, cs[a]) && ChainOk(t, b, c);
    }
    forall f | f in EntrySet(cs) - {e} ensures f in EntrySet(ds) {
      var a, j :| 0 <= a < |cs| && 0 <= j < |cs[a]| && cs[a][j] == f;
      assert f == if a != b || j < i then ds[a][j] else ds[a][j - 1];
    }
  }

  // One turn of the loop in hashtable_expand.
  method MoveHead<K, V>(t: array<Entry?<K, V>>, i: nat, nt: array<Entry?<K, V>>,
    ghost c: seq<Entry<K, V>>, ghost cs: seq<seq<Entry<K, V>>>, ghost nc: seq<seq<Entry<K, V>>>)
    returns (ghost mc: seq<seq<Entry<K, V>>>)
    requires t != nt && i < t.Length && c != [] && ChainOk(t, i, c) && Table(t, cs, i + 1)
    requires 0 < nt.Length && Table(nt, nc, 0)
    modifies t, nt, c[0]
    ensures mc == nc[c[0].h % nt.Length := [c[0]] + nc[c[0].h % nt.Length]]
    ensures ChainOk(t, i, c[1..]) && Table(t, cs, i + 1) && Table(nt, mc, 0)
    ensures t[i] == (if |c| == 1 then null else c[1]) && c[0].v == old(c[0].v)
  {
    assert forall b :: 0 <= b < |nc| ==> ChainOk(nt, b, nc[b]);
    var e := Pop(t, i, c, cs);
    var index := e.h % nt.Length;
    assert forall b :: 0 <= b < |nc| ==> e !in nc[b];
    assert Table(nt, nc, 0);
    Push(nt, index, e, nc);
    mc := nc[index := [e] + nc[index]];
    assert ChainOk(t, i, c[1..]);
    forall b | i < b < |cs| ensures ChainOk(t, b, cs[b]) {}
  }

  // The inner loop of hashtable_expand: bucket i is emptied into the new array.
  method MoveChain<K, V>(t: array<Entry?<K, V>>, i: nat, nt: array<Entry?<K, V>>,
    ghost cs: seq<seq<Entry<K, V>>>, ghost nc: seq<seq<Entry<K, V>>>, ghost moved: seq<Entry<K, V>>)
    returns (ghost mc: seq<seq<Entry<K, V>>>)
    requires t != nt && i < t.Length && Table(t, cs, i) && Table(nt, nc, 0) && Rehashed(nc, moved)
    modifies t, nt, cs[i]
    ensures Table(t, cs, i + 1) && Table(nt, mc, 0) && Rehashed(mc, moved + cs[i]) && |mc| == |nc|
    ensures forall e :: e in cs[i] ==> e.v == old(e.v)
  {
    ghost var p := 0;
    mc := nc;
    assert cs[i][0..] == cs[i] && moved + cs[i][..0] == moved;
    HeadOf(t, i, cs);
    assert |nc| > 0;
    hide Rehashed, ChainOk, Table;
    while t[i] != null
      invariant p <= |cs[i]| && t[i] == if p == |cs[i]| then null else cs[i][p]
      invariant ChainOk(t, i, cs[i][p..]) && Table(t, cs, i + 1)
      invariant Table(nt, mc, 0) && Rehashed(mc, moved + cs[i][..p]) && |mc| == |nc|
      invariant forall e :: e in cs[i] ==> e.v == old(e.v)
      decreases |cs[i]| - p
    {
      ghost var c := cs[i][p..];
      RehashedNext(mc, moved + cs[i][..p], c[0]);
      mc := MoveHead(t, i, nt, c, cs, mc);
      assert c[1..] == cs[i][p + 1..] && moved + cs[i][..p + 1] == (moved + cs[i][..p]) + [c[0]];
      p := p + 1;
    }
    assert cs[i][..p] == cs[i];
  }

  lemma HeadOf<K, V>(t: array<Entry?<K, V>>, b: nat, cs: seq<seq<Entry<K, V>>>)
    requires b < t.Length && Table(t, cs, b)
    ensures ChainOk(t, b, cs[b]) && Table(t, cs, b + 1)
    ensures t[b] == if cs[b] == [] then null else cs[b][0]
  {
  }

  // The loops of hashtable_expand (malloc path), from an array of |cs| buckets to a new one.
  method Relink<K, V>(t: array<Entry?<K, V>>, newsize: nat, ghost cs: seq<seq<Entry<K, V>>>)
    returns (nt: array<Entry?<K, V>>, ghost nc: seq<seq<Entry<K, V>>>)
    requires Table(t, cs, 0) && newsize > 0
    modifies t, EntrySet(cs)
    ensures fresh(nt) && nt.Length == newsize && Table(nt, nc, 0)
    ensures Rehashed(nc, Flatten(cs))
    ensures forall e :: e in EntrySet(cs) ==> e.v == old(e.v)
  {
    nt := new Entry?<K, V>[newsize](_ => null);
    nc := seq(newsize, _ => []);
    ghost var moved: seq<Entry<K, V>> := [];
    assert cs[..0] == [];
    assert Table(nt, nc, 0) && Rehashed(nc, moved);
    hide Rehashed, ChainOk;
    for i := 0 to t.Length
      invariant moved == Flatten(cs[..i])
      invariant Table(t, cs, i) && Table(nt, nc, 0) && Rehashed(nc, moved) && |nc| == newsize
      invariant forall e :: e in EntrySet(cs) ==> e.v == old(e.v)
    {
      assert forall e :: e in cs[i] ==> e in EntrySet(cs);
      nc := MoveChain(t, i, nt, cs, nc, moved);
      moved := moved + cs[i];
      assert cs[..i + 1][..i] == cs[..i];
    }
    assert cs[..t.Length] == cs;
  }

  class HashTable<K(==), V> {
    var tablelength: nat
    var table: array<Entry?<K, V>>
    var entrycount: nat
    var loadlimit: nat
    var primeindex: nat
    const hashfn: K -> nat

    ghost var chains: seq<seq<Entry<K, V>>>
    // The map that the table implements as long as no key is inserted twice.
    ghost var model: map<K, V>

    ghost predicate Sized()
      reads this`tablelength, this`loadlimit, this`primeindex, this`chains, this`entrycount
    {
      && primeindex <= LAST && tablelength == |chains| == Prime(primeindex) && loadlimit == Limit(tablelength)
      && entrycount == Total(chains)
    }

    ghost predicate Valid()
      reads this`tablelength, this`table, this`entrycount, this`loadlimit, this`primeindex, this`chains
      reads table, EntrySet(chains)
    {
      && Table(table, chains, 0) && Sized() && Hashed(chains, hashfn)
      && (entrycount <= loadlimit || primeindex == LAST)
    }

    // The table implements the model.
    ghost predicate Maps()
      reads this`chains, this`model, EntrySet(chains)
    {
      IsModel(EntrySet(chains), model)
    }

    // create_hashtable, when the size is acceptable.
    constructor (minsize: nat, hash: K -> nat)
      requires minsize <= 0x4000_0000
      ensures Valid() && Maps() && model == map[] && entrycount == 0 && hashfn == hash
      ensures fresh(table) && EntrySet(chains) == {}
      ensures tablelength > minsize && (primeindex > 0 ==> Prime(primeindex - 1) <= minsize)
    {
      var pindex := 0;
      while pindex < 26 && Prime(pindex) <= minsize
        invariant pindex <= 26 && (pindex > 0 ==> Prime(pindex - 1) <= minsize)
      {
        pindex := pindex + 1;
      }
      var size := Prime(pindex);
      tablelength, primeindex, entrycount, loadlimit, hashfn := size, pindex, 0, Limit(size), hash;
      table := new Entry?<K, V>[size](_ => null);
      chains := seq(size, _ => []);
      model := map[];
      new;
      TotalOfEmpty(chains);
    }

    // hashtable_expand. The prime index moves on; the entries are relinked, none lost or doubled.
    method Expand() returns (grown: bool)
      requires Table(table, chains, 0) && Hashed(chains, hashfn)
      requires primeindex <= LAST && tablelength == |chains| == Prime(primeindex)
      modifies this`tablelength, this`table, this`loadlimit, this`primeindex, this`chains, table, EntrySet(chains)
      ensures Table(table, chains, 0) && Hashed(chains, hashfn)
      ensures primeindex <= LAST && tablelength == |chains| == Prime(primeindex)
      ensures grown <==> old(primeindex) < LAST
      ensures !grown ==> chains == old(chains) && primeindex == old(primeindex) && loadlimit == old(loadlimit)
      ensures !grown ==> table == old(table)
      ensures grown ==> fresh(table) && primeindex == old(primeindex) + 1 && loadlimit == Limit(tablelength)
      ensures grown ==> Rehashed(chains, Flatten(old(chains))) && Total(chains) == Total(old(chains))
      ensures EntrySet(chains) == EntrySet(old(chains))
      ensures forall e :: e in EntrySet(old(chains)) ==> e.v == old(e.v)
    {
      hide Rehashed, Hashed, Flatten, Total, Prime;
      if primeindex == LAST {
        return false;
      }
      primeindex := primeindex + 1;
      var newsize := Prime(primeindex);
      ghost var cs := chains;
      table, chains := Relink(table, newsize, chains);
      tablelength, loadlimit, grown := newsize, Limit(newsize), true;
      RehashedKeeps(cs, chains, hashfn);
    }

    // hashtable_insert. cs is the table after the growth that the insertion may cause.
    method Insert(k: K, v: V) returns (ghost e: Entry<K, V>, ghost cs: seq<seq<Entry<K, V>>>)
      requires Valid()
      modifies this, table, EntrySet(chains)
      ensures Valid() && fresh(e) && (table == old(table) || fresh(table))
      ensures EntrySet(chains) == EntrySet(old(chains)) + {e}
      ensures if old(entrycount) < old(loadlimit) || old(primeindex) == LAST
              then cs == old(chains) && primeindex == old(primeindex)
              else Rehashed(cs, Flatten(old(chains))) && primeindex == old(primeindex) + 1
      ensures tablelength == |cs| && var b := hashfn(k) % |cs|; chains == cs[b := [e] + cs[b]]
      ensures e.k == k && e.v == v && entrycount == old(entrycount) + 1
      ensures forall f :: f in EntrySet(old(chains)) ==> f.v == old(f.v)
      ensures old(Maps()) && k !in old(model) ==> Maps() && model == old(model)[k := v]
    {
      hide Table, Hashed, Rehashed, Total, Flatten, EntrySet;
      MakeRoom();
      cs := chains;
      e := AddEntry(k, v);
      model := model[k := v];
      if old(Maps()) && k !in old(model) {
        assert IsModel(EntrySet(cs), old(model));
        ModelAdds(EntrySet(cs), old(model), e);
      }
    }

    // The count of hashtable_insert, and the growth it may cause.
    method MakeRoom()
      requires Valid()
      modifies this`entrycount, this`tablelength, this`table, this`loadlimit, this`primeindex, this`chains, table, EntrySet(chains)
      ensures Table(table, chains, 0) && Hashed(chains, hashfn) && (table == old(table) || fresh(table))
      ensures primeindex <= LAST && tablelength == |chains| == Prime(primeindex) && loadlimit == Limit(tablelength)
      ensures entrycount == old(entrycount) + 1 == Total(chains) + 1
      ensures entrycount <= loadlimit || primeindex == LAST
      ensures EntrySet(chains) == EntrySet(old(chains))
      ensures if old(entrycount) < old(loadlimit) || old(primeindex) == LAST
              then chains == old(chains) && primeindex == old(primeindex)
              else Rehashed(chains, Flatten(old(chains))) && primeindex == old(primeindex) + 1
      ensures forall f :: f in EntrySet(old(chains)) ==> f.v == old(f.v)
    {
      hide Table, Hashed, Rehashed, Total, Flatten, EntrySet, Prime;
      entrycount := entrycount + 1;
      if entrycount > loadlimit {
        if primeindex < LAST {
          LimitGrows(primeindex);
        }
        var _ := Expand();
      }
    }

    // The rest of hashtable_insert: a new entry becomes the first of its chain.
    method AddEntry(k: K, v: V) returns (e: Entry<K, V>)
      requires Table(table, chains, 0) && Hashed(chains, hashfn) && tablelength == |chains|
      modifies this`chains, table
      ensures Table(table, chains, 0) && Hashed(chains, hashfn)
      ensures fresh(e) && e.k == k && e.v == v
      ensures var b := hashfn(k) % |old(chains)|; chains == old(chains)[b := [e] + old(chains)[b]]
      ensures Total(chains) == Total(old(chains)) + 1 && EntrySet(chains) == EntrySet(old(chains)) + {e}
      ensures forall f :: f in EntrySet(old(chains)) ==> f.v == old(f.v)
    {
      hide Total;
      var h := hashfn(k);
      assert tablelength > 0;
      var index := h % tablelength;
      e := new Entry<K, V>(k, h, v, null, table, -1);
      assert forall b :: 0 <= b < |chains| ==> e !in chains[b] by { EntriesAre(chains); }
      hide Hashed;
      Push(table, index, e, chains);
      TotalAt(chains, index, [e] + chains[index]);
      AddedEntry(chains, index, e, hashfn);
      chains := chains[index := [e] + chains[index]];
    }

    // The walk that hashtable_search, hashtable_change, hashtable_remove and hashtable_iterator_search
    // share: the first entry of the key, and the entry before it.
    method Walk(k: K) returns (prev: Entry?<K, V>, e: Entry?<K, V>, ghost i: nat)
      requires Valid()
      ensures var c := chains[hashfn(k) % tablelength];
        && i <= |c| && (forall j :: 0 <= j < i ==> c[j].k != k)
        && e == (if i < |c| then c[i] else null) && (i < |c| ==> c[i].k == k)
        && prev == if i == 0 then null else c[i - 1]
      ensures e == null <==> forall f :: f in chains[hashfn(k) % tablelength] ==> f.k != k
      ensures e != null ==> e in chains[hashfn(k) % tablelength] && e.k == k
    {
      hide Hashed, Placed;
      var hashvalue := hashfn(k);
      var index := hashvalue % tablelength;
      ghost var c := chains[index];
      assert ChainOk(table, index, c);
      assert forall j :: 0 <= j < |c| ==> c[j].h == hashfn(c[j].k) by { EntryHash(index); }
      prev, e, i := null, table[index], 0;
      while e != null && !(hashvalue == e.h && k == e.k)
        invariant i <= |c| && e == (if i < |c| then c[i] else null)
        invariant prev == if i == 0 then null else c[i - 1]
        invariant forall j :: 0 <= j < i ==> c[j].k != k
        decreases |c| - i
      {
        assert c[i].next == if i + 1 < |c| then c[i + 1] else null;
        prev, e, i := e, e.next, i + 1;
      }
    }

    lemma EntryHash(b: nat)
      requires Valid() && b < |chains|
      ensures forall j :: 0 <= j < |chains[b]| ==> chains[b][j].h == hashfn(chains[b][j].k) && chains[b][j].h % |chains| == b
    {
      forall j | 0 <= j < |chains[b]| ensures chains[b][j].h == hashfn(chains[b][j].k) && chains[b][j].h % |chains| == b {
        assert chains[b][j] in chains[b];
      }
    }

    // hashtable_search
    method Search(k: K) returns (r: Option<V>)
      requires Valid()
      ensures r.None? <==> !HasKey(chains[hashfn(k) % tablelength], k)
      ensures r.Some? ==> First(k) != null && r.value == First(k).v
      ensures Maps() ==> r == if k in model then Some(model[k]) else None
    {
      var prev, e, i := Locate(k);
      r := if e == null then None else Some(e.v);
    }

    // hashtable_change. With duplicates, the first entry of the key changes.
    method Change(k: K, v: V) returns (found: bool, ghost e: Entry?<K, V>)
      requires Valid()
      modifies this`model, EntrySet(chains)
      ensures Valid() && chains == old(chains) && (found <==> e != null)
      ensures e == First(k)
      ensures found ==> e in EntrySet(chains) && e.v == v
      ensures forall f :: f in EntrySet(chains) && f != e ==> f.v == old(f.v)
      ensures old(Maps()) ==> Maps() && (found <==> k in old(model)) && model == if found then old(model)[k := v] else old(model)
    {
      var prev, entry, i := Locate(k);
      e := entry;
      if entry == null {
        return false, e;
      }
      hide Table, Hashed, HasKey, First;
      Assign(entry, v);
      found := true;
      if old(Maps()) {
        ChangeModel(entry, k);
      }
    }

    ghost method ChangeModel(e: Entry<K, V>, k: K)
      requires forall f, g :: f in EntrySet(chains) && g in EntrySet(chains) && f.k == g.k ==> f == g
      requires forall f :: f in EntrySet(chains) ==> f.k in model && (f == e || model[f.k] == f.v)
      requires (forall k :: k in model ==> Keyed(EntrySet(chains), k)) && e in EntrySet(chains) && e.k == k
      requires Valid()
      modifies this`model
      ensures Valid() && Maps() && model == old(model)[k := e.v]
    {
      ModelChanges(EntrySet(chains), model, e);
      model := model[k := e.v];
    }

    method Assign(e: Entry<K, V>, v: V)
      requires Valid() && e in EntrySet(chains)
      modifies e`v
      ensures Valid() && e.v == v
    {
      hide Hashed, Table;
      SetValue(table, chains, e, v);
    }

    // The first entry of a key in its chain.
    ghost function First(k: K): Entry?<K, V>
      requires tablelength > 0 && tablelength == |chains|
      reads this`chains, this`tablelength
    {
      var s := OfKey(chains[hashfn(k) % tablelength], k);
      if s == [] then null else s[0]
    }

    // *pE = e->next, for the i-th entry of bucket b; prev is the entry before it, or null at the head.
    method Unlink(b: nat, prev: Entry?<K, V>, e: Entry<K, V>, ghost i: nat)
      requires Valid() && b < |chains| && i < |chains[b]| && e == chains[b][i]
      requires prev == if i == 0 then null else chains[b][i - 1]
      modifies this`chains, this`entrycount, table, EntrySet(chains)
      ensures Valid() && entrycount == old(entrycount) - 1
      ensures chains == Cut(old(chains), b, i)
      ensures EntrySet(chains) == EntrySet(old(chains)) - {e}
      ensures e.next == old(e.next) && forall f :: f in EntrySet(old(chains)) ==> f.v == old(f.v)
    {
      hide Table, Cut, Prime;
      assert forall f :: f in chains[b] ==> f in EntrySet(chains) by { EntriesAre(chains); }
      hide Hashed, Total, EntrySet, Cut;
      RemovedEntry(table, chains, b, i, hashfn);
      TotalCut(chains, b, i);
      UnlinkAt(table, b, prev, e, i, chains);
      entrycount := entrycount - 1;
      chains := Cut(chains, b, i);
    }

    // hashtable_remove. With duplicates, the first entry of the key goes.
    method Remove(k: K) returns (r: Option<V>, ghost e: Entry?<K, V>)
      requires Valid()
      modifies this`chains, this`entrycount, this`model, table, EntrySet(chains)
      ensures Valid() && e == old(First(k))
      ensures e == null ==> r == None && chains == old(chains) && entrycount == old(entrycount)
      ensures e != null ==> r == Some(e.v) && entrycount == old(entrycount) - 1 && EntrySet(chains) == EntrySet(old(chains)) - {e}
      ensures forall f :: f in EntrySet(old(chains)) ==> f.v == old(f.v)
      ensures old(Maps()) ==> Maps() && model == old(model) - {k} && r == if k in old(model) then Some(old(model)[k]) else None
    {
      var index := hashfn(k) % tablelength;
      var prev, entry, i := Locate(k);
      e := entry;
      hide Table, Hashed, HasKey, First, ChainOk, Total, Prime, Limit;
      if entry == null {
        assert Maps() ==> model == model - {k};
        return None, e;
      }
      ghost var es := EntrySet(chains);
      Unlink(index, prev, entry, i);
      if old(Maps()) {
        RemoveModel(es, entry);
      }
      r := Some(entry.v);
    }

    // Walk, with what it means for the model.
    method Locate(k: K) returns (prev: Entry?<K, V>, e: Entry?<K, V>, ghost i: nat)
      requires Valid()
      ensures e == First(k) && (e != null ==> e in EntrySet(chains) && e.k == k)
      ensures e != null ==> i < |chains[hashfn(k) % tablelength]| && e == chains[hashfn(k) % tablelength][i]
      ensures e != null ==> prev == if i == 0 then null else chains[hashfn(k) % tablelength][i - 1]
      ensures e == null <==> !HasKey(chains[hashfn(k) % tablelength], k)
      ensures Maps() ==> (e != null <==> k in model) && (e != null ==> model[k] == e.v)
    {
      prev, e, i := Walk(k);
      FirstOfKey(chains[hashfn(k) % tablelength], k, i);
      if e != null {
        assert e in chains[hashfn(k) % tablelength];
        EntriesAre(chains);
      }
      if Maps() {
        KeyInModel(k, i);
      }
    }

    ghost method RemoveModel(es: set<Entry<K, V>>, e: Entry<K, V>)
      requires Valid() && IsModel(es, model) && e in es && EntrySet(chains) == es - {e}
      modifies this`model
      ensures Valid() && Maps() && model == old(model) - {e.k}
    {
      ModelRemoves(es, model, e);
      model := model - {e.k};
    }

    lemma KeyInModel(k: K, i: nat)
      requires Valid() && Maps()
      requires var c := chains[hashfn(k) % tablelength]; i <= |c| && (forall j :: 0 <= j < i ==> c[j].k != k) && (i < |c| ==> c[i].k == k)
      ensures k in model <==> i < |chains[hashfn(k) % tablelength]|
      ensures k in model ==> model[k] == chains[hashfn(k) % tablelength][i].v && chains[hashfn(k) % tablelength][i] in EntrySet(chains)
    {
      hide Table;
      var c := chains[hashfn(k) % tablelength];
      EntriesAre(chains);
      FirstOfKey(c, k, i);
      if i < |c| {
        assert c[i] in c;
      }
      if k in model {
        KeyInChain(k);
      }
    }

    lemma KeyInChain(k: K)
      requires Valid() && Maps() && k in model
      ensures HasKey(chains[hashfn(k) % tablelength], k)
    {
      assert Keyed(EntrySet(chains), k);
      var e :| e in EntrySet(chains) && e.k == k;
      var b, j :| 0 <= b < |chains| && 0 <= j < |chains[b]| && chains[b][j] == e;
      assert e in chains[b];
      assert b == hashfn(k) % tablelength;
    }
  }

  lemma {:induction false} FirstOfKey<K, V>(c: seq<Entry<K, V>>, k: K, i: nat)
    requires i <= |c| && (forall j :: 0 <= j < i ==> c[j].k != k) && (i < |c| ==> c[i].k == k)
    ensures HasKey(c, k) <==> i < |c|
    ensures if i < |c| then OfKey(c, k) != [] && OfKey(c, k)[0] == c[i] else OfKey(c, k) == []
  {
    if i < |c| {
      assert c[i] in c;
      assert c == c[..i] + ([c[i]] + c[i + 1..]);
      OfKeySplit(c[..i], [c[i]] + c[i + 1..], k);
      OfKeySplit([c[i]], c[i + 1..], k);
      NoneOfKey(c[..i], k);
      assert [c[i]][..0] == [] && OfKey([c[i]], k) == [c[i]];
    } else {
      NoneOfKey(c, k);
    }
  }

  // Keys are unique and the entries are those of the map.
  ghost predicate IsModel<K, V>(es: set<Entry<K, V>>, m: map<K, V>)
    reads es
  {
    && (forall e, f :: e in es && f in es && e.k == f.k ==> e == f)
    && (forall e :: e in es ==> e.k in m && m[e.k] == e.v)
    && (forall k :: k in m ==> Keyed(es, k))
  }

  ghost predicate Keyed<K, V>(es: set<Entry<K, V>>, k: K) {
    exists e :: e in es && e.k == k
  }

  // A new value for an entry is a new value for its key.
  lemma ModelChanges<K, V>(es: set<Entry<K, V>>, m: map<K, V>, e: Entry<K, V>)
    requires forall f, g :: f in es && g in es && f.k == g.k ==> f == g
    requires forall f :: f in es ==> f.k in m && (f == e || m[f.k] == f.v)
    requires (forall k :: k in m ==> Keyed(es, k)) && e in es
    ensures IsModel(es, m[e.k := e.v])
  {
  }

  // Without its entry, a key is gone.
  lemma ModelRemoves<K, V>(es: set<Entry<K, V>>, m: map<K, V>, e: Entry<K, V>)
    requires IsModel(es, m) && e in es
    ensures IsModel(es - {e}, m - {e.k})
  {
    forall k | k in m - {e.k} ensures Keyed(es - {e}, k) {
      assert Keyed(es, k);
      var f :| f in es && f.k == k;
      assert f in es - {e};
    }
  }

  // A fresh key extends the map.
  lemma ModelAdds<K, V>(es: set<Entry<K, V>>, m: map<K, V>, e: Entry<K, V>)
    requires IsModel(es, m) && e.k !in m
    ensures IsModel(es + {e}, m[e.k := e.v])
  {
    var n := m[e.k := e.v];
    forall k | k in n ensures Keyed(es + {e}, k) {
      if k == e.k {
        assert e in es + {e};
      } else {
        assert Keyed(es, k);
        var f :| f in es && f.k == k;
        assert f in es + {e};
      }
    }
  }

  lemma EntriesAre<K, V>(cs: seq<seq<Entry<K, V>>>)
    ensures forall b, e :: 0 <= b < |cs| && e in cs[b] ==> e in EntrySet(cs)
  {
    forall b, e | 0 <= b < |cs| && e in cs[b] ensures e in EntrySet(cs) {
      var i :| 0 <= i < |cs[b]| && cs[b][i] == e;
    }
  }

  lemma AddedEntry<K, V>(cs: seq<seq<Entry<K, V>>>, b: nat, e: Entry<K, V>, hashfn: K -> nat)
    requires Hashed(cs, hashfn) && b < |cs| && e.h == hashfn(e.k) && e.h % |cs| == b
    ensures var ds := cs[b := [e] + cs[b]]; Hashed(ds, hashfn) && EntrySet(ds) == EntrySet(cs) + {e}
  {
    var ds := cs[b := [e] + cs[b]];
    forall f | f in EntrySet(cs) + {e} ensures f in EntrySet(ds) {
      if f == e {
        assert ds[b][0] == e;
      } else {
        var a, i :| 0 <= a < |cs| && 0 <= i < |cs[a]| && cs[a][i] == f;
        assert f == if a == b then ds[a][i + 1] else ds[a][i];
      }
    }
    forall f | f in EntrySet(ds) ensures f in EntrySet(cs) + {e} {
      var a, i :| 0 <= a < |ds| && 0 <= i < |ds[a]| && ds[a][i] == f;
      if a != b {
        assert f == cs[a][i];
      } else if i > 0 {
        assert f == cs[a][i - 1];
      }
    }
  }

  lemma FlattenNone<A>(cs: seq<seq<A>>)
    ensures Flatten(cs[|cs|..]) == []
  {
  }

  // From position pos of chain index to the end of the last chain.
  ghost function From<A>(cs: seq<seq<A>>, index: nat, pos: nat): seq<A>
    requires index < |cs| && pos <= |cs[index]|
  {
    cs[index][pos..] + Flatten(cs[index + 1..])
  }

  lemma FromNext<A>(cs: seq<seq<A>>, index: nat, pos: nat)
    requires index < |cs| && pos < |cs[index]|
    ensures From(cs, index, pos) != []
    ensures From(cs, index, pos)[1..] == From(cs, index, pos + 1)
    ensures pos + 1 == |cs[index]| ==> From(cs, index, pos + 1) == Flatten(cs[index + 1..])
  {
    var rest := Flatten(cs[index + 1..]);
    assert (cs[index][pos..] + rest)[1..] == cs[index][pos + 1..] + rest;
    assert [] + rest == rest;
  }

  // What comes after an entry is what comes at its position once it is cut out.
  lemma FromCut<A>(cs: seq<seq<A>>, index: nat, pos: nat)
    requires index < |cs| && pos < |cs[index]|
    ensures From(Cut(cs, index, pos), index, pos) == From(cs, index, pos + 1)
    ensures pos == |Cut(cs, index, pos)[index]| ==> From(cs, index, pos + 1) == Flatten(Cut(cs, index, pos)[index + 1..])
  {
    var ds := Cut(cs, index, pos);
    assert ds[index][pos..] == cs[index][pos + 1..];
    assert ds[index + 1..] == cs[index + 1..];
    assert [] + Flatten(ds[index + 1..]) == Flatten(ds[index + 1..]);
  }

  // struct hashtable_itr
  class Iterator<K(==), V> {
    const h: HashTable<K, V>
    var e: Entry?<K, V>
    var parent: Entry?<K, V>
    var index: nat
    ghost var pos: nat

    // The iterator stands on an entry, and parent is the entry before it in its chain.
    ghost predicate Valid()
      reads this`e, this`parent, this`index, this`pos, h`tablelength, h`table, h`entrycount, h`loadlimit, h`primeindex, h`chains
      reads h.table, EntrySet(h.chains)
    {
      && h.Valid()
      && (e == null ==> index == h.tablelength && parent == null)
      && (e != null ==> index < |h.chains| && pos < |h.chains[index]| && e == h.chains[index][pos])
      && (e != null ==> parent == if pos == 0 then null else h.chains[index][pos - 1])
    }

    // The entries still to come, the current one first.
    ghost function ToVisit(): seq<Entry<K, V>>
      requires Valid()
      reads this`e, this`parent, this`index, this`pos, h`tablelength, h`table, h`entrycount, h`loadlimit, h`primeindex, h`chains
      reads h.table, EntrySet(h.chains)
    {
      if e == null then [] else From(h.chains, index, pos)
    }

    // hashtable_iterator: every entry is still to come.
    constructor (t: HashTable<K, V>)
      requires t.Valid()
      ensures h == t && Valid() && ToVisit() == Flatten(t.chains)
    {
      h := t;
      e, parent, pos := null, null, 0;
      index := t.tablelength;
      new;
      if h.entrycount == 0 {
        TotalIsLength(h.chains);
        return;
      }
      Seek(0);
      assert h.chains[0..] == h.chains;
    }

    // From bucket j on, the first entry there is.
    method Seek(j0: nat)
      requires h.Valid() && j0 <= h.tablelength && parent == null
      modifies this`e, this`index, this`pos
      ensures Valid() && ToVisit() == Flatten(h.chains[j0..])
    {
      hide Hashed, Prime, Flatten, Total, ChainOk;
      var j := j0;
      while j < h.tablelength && h.table[j] == null
        invariant j0 <= j <= h.tablelength && Flatten(h.chains[j..]) == Flatten(h.chains[j0..])
      {
        HeadOf(h.table, j, h.chains);
        FlattenFrom(h.chains, j);
        assert [] + Flatten(h.chains[j + 1..]) == Flatten(h.chains[j + 1..]);
        j := j + 1;
      }
      index, pos := j, 0;
      if j == h.tablelength {
        e := null;
        FlattenNone(h.chains);
      } else {
        HeadOf(h.table, j, h.chains);
        e := h.table[j];
        FlattenFrom(h.chains, j);
      }
    }

    // The move of hashtable_iterator_advance. After a removal the entry itself is no longer in the
    // chain, but its next pointer still says what comes at position k.
    method Step(ghost k: nat) returns (more: bool)
      requires h.Valid() && e != null && index < |h.chains| && k <= |h.chains[index]|
      requires e.next == if k < |h.chains[index]| then h.chains[index][k] else null
      modifies this`e, this`parent, this`index, this`pos
      ensures more <==> e != null
      ensures if k < |old(h.chains[index])|
        then more && index == old(index) && pos == k && e == h.chains[index][k] && parent == old(e)
        else Valid() && parent == null && ToVisit() == Flatten(h.chains[old(index) + 1..])
    {
      var next := e.next;
      if next != null {
        parent, e, pos := e, next, k;
        return true;
      }
      parent := null;
      index := index + 1;
      Seek(index);
      more := e != null;
    }

    lemma NextInChain()
      requires Valid() && e != null
      ensures var c := h.chains[index]; e.next == if pos + 1 < |c| then c[pos + 1] else null
    {
      hide Hashed, Prime, Total;
      assert ChainOk(h.table, index, h.chains[index]);
    }

    // The current entry is the first of those still to come.
    lemma CurrentIsNext()
      requires Valid() && e != null
      ensures ToVisit() != [] && ToVisit()[0] == e
    {
    }

    // hashtable_iterator_advance
    method Advance() returns (more: bool)
      requires Valid()
      modifies this`e, this`parent, this`index, this`pos
      ensures Valid() && (more <==> e != null)
      ensures ToVisit() == if old(e) == null then [] else old(ToVisit())[1..]
    {
      if e == null {
        return false;
      }
      NextInChain();
      FromNext(h.chains, index, pos);
      VisitIs();
      hide HashTable.Valid, Flatten, From, Iterator.ToVisit;
      more := Step(pos + 1);
      VisitIs();
    }

    lemma VisitIs()
      requires Valid()
      ensures ToVisit() == if e == null then [] else From(h.chains, index, pos)
    {
    }

    // hashtable_iterator_remove: the current entry goes, and the iterator moves to the next one.
    method Remove() returns (more: bool)
      requires Valid() && e != null
      modifies this, h`chains, h`entrycount, h`model, h.table, EntrySet(h.chains)
      ensures Valid() && (more <==> e != null)
      ensures ToVisit() == old(ToVisit())[1..]
      ensures h.entrycount == old(h.entrycount) - 1 && h.table == old(h.table)
      ensures EntrySet(h.chains) == EntrySet(old(h.chains)) - {old(e)}
      ensures old(h.Maps()) ==> h.Maps() && h.model == old(h.model) - {old(e).k}
    {
      hide Flatten, HashTable.Valid, IsModel, Cut, From;
      FromNext(h.chains, index, pos);
      CutChain(h.chains, index, pos);
      FromCut(h.chains, index, pos);
      UnlinkCurrent();
      var rememberE, rememberParent := e, parent;
      more := Step(pos);
      if parent == rememberE {
        parent := rememberParent;
      }
    }

    // The first half of hashtable_iterator_remove: the current entry leaves its chain.
    method UnlinkCurrent()
      requires Valid() && e != null
      modifies h`chains, h`entrycount, h`model, h.table, EntrySet(h.chains)
      ensures h.Valid() && h.entrycount == old(h.entrycount) - 1 && h.table == old(h.table) && h.tablelength == old(h.tablelength)
      ensures index < |old(h.chains)| && pos < |old(h.chains)[index]|
      ensures h.chains == Cut(old(h.chains), index, pos)
      ensures e.next == if pos < |h.chains[index]| then h.chains[index][pos] else null
      ensures EntrySet(h.chains) == EntrySet(old(h.chains)) - {e} && e in EntrySet(old(h.chains))
      ensures old(h.Maps()) ==> h.Maps() && h.model == old(h.model) - {e.k}
    {
      NextInChain();
      CurrentIsStored();
      CutChain(h.chains, index, pos);
      hide HashTable.Valid, Table, Hashed, Total, EntrySet, IsModel, Cut;
      ghost var es := EntrySet(h.chains);
      h.Unlink(index, parent, e, pos);
      if old(h.Maps()) {
        h.RemoveModel(es, e);
      }
    }

    lemma CurrentIsStored()
      requires Valid() && e != null
      ensures e in EntrySet(h.chains)
    {
      hide HashTable.Valid, EntrySet;
      EntriesAre(h.chains);
      assert e in h.chains[index];
    }

    // hashtable_iterator_search
    method Search(k: K) returns (found: bool)
      requires h.Valid() && Valid()
      modifies this`e, this`parent, this`index, this`pos
      ensures Valid() && (found <==> h.First(k) != null) && (found ==> e == h.First(k))
      ensures !found ==> ToVisit() == old(ToVisit())
    {
      hide HasKey, OfKey, Flatten, Total, HashTable.First, HashTable.Maps;
      var before, entry, i := h.Locate(k);
      if entry == null {
        return false;
      }
      hide Table, Hashed;
      index, e, parent, pos := h.hashfn(k) % h.tablelength, entry, before, i;
      found := true;
    }
  }

  // Draining a table by its iterator empties it.
  method Drain<K, V>(t: HashTable<K, V>)
    requires t.Valid()
    modifies t, t.table, EntrySet(t.chains)
    ensures t.Valid() && t.entrycount == 0 && EntrySet(t.chains) == {}
  {
    hide HashTable.Valid, EntrySet, Flatten;
    var i := new Iterator(t);
    TotalIsLength(t.chains);
    assert t.entrycount == Total(t.chains) by { CountIsTotal(t); }
    while i.e != null
      invariant i.Valid() && fresh(i) && t.table == old(t.table)
      invariant EntrySet(t.chains) <= EntrySet(old(t.chains))
      invariant |i.ToVisit()| == t.entrycount
      decreases t.entrycount
    {
      var _ := i.Remove();
    }
    EmptyTable(t);
  }

  lemma CountIsTotal<K, V>(t: HashTable<K, V>)
    requires t.Valid()
    ensures t.entrycount == Total(t.chains)
  {
  }

  lemma EmptyTable<K, V>(t: HashTable<K, V>)
    requires t.Valid() && t.entrycount == 0
    ensures EntrySet(t.chains) == {}
  {
    TotalIsLength(t.chains);
    forall e | e in EntrySet(t.chains) ensures e in Flatten(t.chains) { EntrySetMembers(t.chains, e); }
  }

  // create_hashtable: null for an unreasonable size.
  method CreateHashtable<K(==), V>(minsize: nat, hash: K -> nat) returns (h: HashTable?<K, V>)
    ensures h == null <==> minsize > 0x4000_0000
    ensures h != null ==> fresh(h) && fresh(h.table) && h.Valid() && h.Maps() && h.model == map[] && h.tablelength > minsize
    ensures h != null ==> EntrySet(h.chains) == {}
  {
    if minsize > 0x4000_0000 {
      return null;
    }
    h := new HashTable(minsize, hash);
  }

  datatype Op<K, V> = DoInsert(k: K, v: V) | DoSearch(k: K) | DoChange(k: K, v: V) | DoRemove(k: K)

  function Apply<K, V>(m: map<K, V>, op: Op<K, V>): map<K, V> {
    match op
    case DoInsert(k, v) => m[k := v]
    case DoSearch(_) => m
    case DoChange(k, v) => if k in m then m[k := v] else m
    case DoRemove(k) => m - {k}
  }

  function After<K, V>(ops: seq<Op<K, V>>): map<K, V> {
    if ops == [] then map[] else Apply(After(ops[..|ops| - 1]), ops[|ops| - 1])
  }

  // The header's condition: a key is inserted only when it is not there.
  ghost predicate FreshInserts<K, V>(ops: seq<Op<K, V>>) {
    forall i :: 0 <= i < |ops| && ops[i].DoInsert? ==> ops[i].k !in After(ops[..i])
  }

  // What an operation answers on a map: a search or a removal the value, a change whether it found the key
  // (and then the value it put there).
  function Answer<K, V>(m: map<K, V>, op: Op<K, V>): Option<V> {
    if op.k !in m then None else if op.DoChange? then Some(op.v) else Some(m[op.k])
  }

  // One operation on a table that implements m.
  method Perform<K, V>(h: HashTable<K, V>, op: Op<K, V>) returns (r: Option<V>)
    requires h.Valid() && h.Maps() && (op.DoInsert? ==> op.k !in h.model)
    modifies h, h.table, EntrySet(h.chains)
    ensures h.Valid() && h.Maps() && h.model == Apply(old(h.model), op)
    ensures !op.DoInsert? ==> r == Answer(old(h.model), op)
    ensures h.table == old(h.table) || fresh(h.table)
    ensures forall e :: e in EntrySet(h.chains) ==> e in old(EntrySet(h.chains)) || fresh(e)
  {
    hide HashTable.Valid, HashTable.Maps;
    r := None;
    match op {
      case DoInsert(k, v) => var _, _ := h.Insert(k, v);
      case DoSearch(k) => r := h.Search(k);
      case DoChange(k, v) =>
        var found, _ := h.Change(k, v);
        r := if found then Some(v) else None;
      case DoRemove(k) =>
        ghost var e;
        r, e := h.Remove(k);
    }
  }

  // Every run from an empty table, with any number of expansions, refines the finite map, and every
  // search, change and removal answers from it.
  method Run<K, V>(minsize: nat, hash: K -> nat, ops: seq<Op<K, V>>) returns (h: HashTable?<K, V>, answers: seq<Option<V>>)
    requires FreshInserts(ops)
    ensures h == null <==> minsize > 0x4000_0000
    ensures h != null ==> h.Valid() && h.Maps() && h.model == After(ops) && |answers| == |ops|
    ensures h != null ==> forall i :: 0 <= i < |ops| && !ops[i].DoInsert? ==>
      answers[i] == Answer(After(ops[..i]), ops[i])
  {
    hide HashTable.Valid, HashTable.Maps, EntrySet;
    answers := [];
    h := CreateHashtable(minsize, hash);
    if h == null {
      return;
    }
    for i := 0 to |ops|
      invariant fresh(h) && fresh(h.table) && (forall e :: e in EntrySet(h.chains) ==> fresh(e))
      invariant h.Valid() && h.Maps() && h.model == After(ops[..i]) && |answers| == i
      invariant forall j :: 0 <= j < i && !ops[j].DoInsert? ==>
        answers[j] == Answer(After(ops[..j]), ops[j])
    {
      assert ops[..i + 1][..i] == ops[..i];
      var r := Perform(h, ops[i]);
      answers := answers + [r];
    }
    assert ops[..|ops|] == ops;
  }

  // ---- Visiting ----

  // No entry is in two chains, or twice in one: the chains hang from their own buckets.
  lemma {:induction false} EntriesDiffer<K, V>(t: array<Entry?<K, V>>, cs: seq<seq<Entry<K, V>>>, n: nat)
    requires Table(t, cs, 0) && n <= |cs|
    ensures PairwiseDifferent(Flatten(cs[..n]))
    ensures forall e :: e in Flatten(cs[..n]) ==> e.bucket < n
  {
    if n > 0 {
      EntriesDiffer(t, cs, n - 1);
      assert cs[..n][..n - 1] == cs[..n - 1];
      var c := cs[n - 1];
      assert ChainOk(t, n - 1, c);
      forall i, j | 0 <= i < j < |c| ensures c[i] != c[j] { NoRepeat(t[n - 1], c, i, j); }
      DifferentJoined(Flatten(cs[..n - 1]), c);
    }
  }

  lemma DifferentJoined<K, V>(a: seq<Entry<K, V>>, b: seq<Entry<K, V>>)
    requires PairwiseDifferent(a) && PairwiseDifferent(b)
    requires forall e, f :: e in a && f in b ==> e != f
    ensures PairwiseDifferent(a + b)
  {
    forall i, j | 0 <= i < j < |a + b| ensures (a + b)[i] != (a + b)[j] {
      if i < |a| <= j {
        assert a[i] in a && b[j - |a|] in b;
      }
    }
  }

  // Advancing to the end visits every entry, and each exactly once.
  method Visit<K, V>(t: HashTable<K, V>) returns (visited: seq<Entry<K, V>>)
    requires t.Valid()
    ensures visited == Flatten(t.chains) && PairwiseDifferent(visited)
    ensures (set e | e in visited) == EntrySet(t.chains) && |visited| == t.entrycount
  {
    hide HashTable.Valid;
    visited := AdvanceToEnd(t);
    VisitedAll(t, visited);
  }

  method AdvanceToEnd<K, V>(t: HashTable<K, V>) returns (visited: seq<Entry<K, V>>)
    requires t.Valid()
    ensures t.Valid() && visited == Flatten(t.chains)
  {
    hide HashTable.Valid, EntrySet, Flatten, Total, Table, Prime;
    var i := new Iterator(t);
    visited := [];
    assert [] + i.ToVisit() == i.ToVisit();
    while i.e != null
      invariant i.Valid() && fresh(i) && visited + i.ToVisit() == Flatten(t.chains)
      decreases |i.ToVisit()|
    {
      ghost var rest := i.ToVisit();
      i.CurrentIsNext();
      assert visited + rest == visited + [rest[0]] + rest[1..];
      visited := visited + [i.e];
      var _ := i.Advance();
    }
  }

  lemma VisitedAll<K, V>(t: HashTable<K, V>, visited: seq<Entry<K, V>>)
    requires t.Valid() && visited == Flatten(t.chains)
    ensures PairwiseDifferent(visited) && (set e | e in visited) == EntrySet(t.chains) && |visited| == t.entrycount
  {
    hide Flatten;
    assert t.chains[..|t.chains|] == t.chains;
    EntriesDiffer(t.table, t.chains, |t.chains|);
    TotalIsLength(t.chains);
    forall e ensures e in visited <==> e in EntrySet(t.chains) { EntrySetMembers(t.chains, e); }
  }
}
