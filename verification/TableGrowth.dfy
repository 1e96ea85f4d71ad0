// When a table of smartc/hashtable.c grows, and what the growth does to keys that were inserted twice.
module TableGrowth {
  import opened Common
  import opened Chains
  import opened Hashtable

  // entries are those inserted, in order; every key's own chain has them newest first.
  ghost predicate NewestFirst<K(!new), V>(cs: seq<seq<Entry<K, V>>>, hashfn: K -> nat, entries: seq<Entry<K, V>>) {
    |cs| > 0 && forall k :: OfKey(cs[hashfn(k) % |cs|], k) == Reverse(OfKey(entries, k))
  }

  ghost predicate OldestFirst<K(!new), V>(cs: seq<seq<Entry<K, V>>>, hashfn: K -> nat, entries: seq<Entry<K, V>>) {
    |cs| > 0 && forall k :: OfKey(cs[hashfn(k) % |cs|], k) == OfKey(entries, k)
  }

  // The entries hold what was inserted.
  ghost predicate Hold<K, V>(entries: seq<Entry<K, V>>, items: seq<(K, V)>)
    reads entries
  {
    |entries| == |items| && forall i :: 0 <= i < |items| ==> entries[i].k == items[i].0 && entries[i].v == items[i].1
  }

  lemma OfKeyPushed<K(!new), V>(cs: seq<seq<Entry<K, V>>>, hashfn: K -> nat, e: Entry<K, V>, k: K)
    requires |cs| > 0
    ensures var b := hashfn(e.k) % |cs|; var ds := cs[b := [e] + cs[b]];
      OfKey(ds[hashfn(k) % |ds|], k) == (if e.k == k then [e] else []) + OfKey(cs[hashfn(k) % |cs|], k)
  {
    var b := hashfn(e.k) % |cs|;
    OfKeySplit([e], cs[b], k);
    OfKeyOne(e, k);
  }

  lemma OfKeyOne<K, V>(e: Entry<K, V>, k: K)
    ensures OfKey([e], k) == if e.k == k then [e] else []
  {
    assert [e][..0] == [];
  }

  // Without growth, one more entry goes in front of its key's others.
  lemma PushedIsNewest<K(!new), V>(cs: seq<seq<Entry<K, V>>>, hashfn: K -> nat, entries: seq<Entry<K, V>>, e: Entry<K, V>)
    requires NewestFirst(cs, hashfn, entries)
    ensures var b := hashfn(e.k) % |cs|; NewestFirst(cs[b := [e] + cs[b]], hashfn, entries + [e])
  {
    hide OfKey, Reverse;
    var b := hashfn(e.k) % |cs|;
    var ds := cs[b := [e] + cs[b]];
    forall k ensures OfKey(ds[hashfn(k) % |ds|], k) == Reverse(OfKey(entries + [e], k)) {
      OfKeyPushed(cs, hashfn, e, k);
      OfKeySplit(entries, [e], k);
      OfKeyOne(e, k);
      ReverseSplit(OfKey(entries, k), OfKey([e], k));
      ReverseOne(e);
    }
  }

  lemma ReverseOne<A>(x: A)
    ensures Reverse([x]) == [x] && Reverse<A>([]) == []
  {
    assert [x][..0] == [];
  }

  // Growth turns every key's entries around.
  lemma GrownIsOldest<K(!new), V>(cs: seq<seq<Entry<K, V>>>, nc: seq<seq<Entry<K, V>>>, hashfn: K -> nat,
      entries: seq<Entry<K, V>>)
    requires NewestFirst(cs, hashfn, entries) && Hashed(cs, hashfn) && Rehashed(nc, Flatten(cs)) && |nc| > 0
    ensures OldestFirst(nc, hashfn, entries)
  {
    hide OfKey, Reverse, Hashed, Rehashed, Flatten;
    forall k ensures OfKey(nc[hashfn(k) % |nc|], k) == OfKey(entries, k) {
      DuplicatesFlip(cs, nc, k, hashfn);
      ReverseTwice(OfKey(entries, k));
    }
  }

  lemma {:induction false} ReverseTwice<A>(s: seq<A>)
    ensures Reverse(Reverse(s)) == s
  {
    if s != [] {
      var init, last := s[..|s| - 1], s[|s| - 1];
      ReverseTwice(init);
      ReverseSplit([last], Reverse(init));
      ReverseOne(last);
    }
  }

  // The first and the last of a key's entries are those of its first and its last insertion.
  lemma {:induction false} OfKeyEnds<K, V>(s: seq<Entry<K, V>>, k: K, i: nat)
    requires i < |s| && s[i].k == k
    ensures OfKey(s, k) != []
    ensures (forall j :: i < j < |s| ==> s[j].k != k) ==> OfKey(s, k)[|OfKey(s, k)| - 1] == s[i]
    ensures (forall j :: 0 <= j < i ==> s[j].k != k) ==> OfKey(s, k)[0] == s[i]
  {
    if i < |s| - 1 {
      OfKeyEnds(s[..|s| - 1], k, i);
    } else if forall j :: 0 <= j < i ==> s[j].k != k {
      NoneOfKey(s[..i], k);
    }
  }

  lemma GrownThenPushed<K(!new), V>(cs: seq<seq<Entry<K, V>>>, nc: seq<seq<Entry<K, V>>>, hashfn: K -> nat,
      entries: seq<Entry<K, V>>, e: Entry<K, V>)
    requires NewestFirst(cs, hashfn, entries) && Hashed(cs, hashfn) && Rehashed(nc, Flatten(cs)) && |nc| > 0
    ensures var b := hashfn(e.k) % |nc|; var ds := nc[b := [e] + nc[b]];
      forall q :: OfKey(ds[hashfn(q) % |ds|], q) == (if e.k == q then [e] else []) + OfKey(entries, q)
  {
    hide OfKey, Hashed, Rehashed, Flatten, NewestFirst;
    GrownIsOldest(cs, nc, hashfn, entries);
    forall q ensures OfKey(nc[hashfn(q) % |nc|], q) == OfKey(entries, q) { OldestOf(nc, hashfn, entries, q); }
    var b := hashfn(e.k) % |nc|;
    var ds := nc[b := [e] + nc[b]];
    forall q ensures OfKey(ds[hashfn(q) % |ds|], q) == (if e.k == q then [e] else []) + OfKey(entries, q) {
      OfKeyPushed(nc, hashfn, e, q);
    }
  }

  lemma OldestOf<K(!new), V>(cs: seq<seq<Entry<K, V>>>, hashfn: K -> nat, entries: seq<Entry<K, V>>, k: K)
    requires OldestFirst(cs, hashfn, entries)
    ensures |cs| > 0 && OfKey(cs[hashfn(k) % |cs|], k) == OfKey(entries, k)
  {
  }

  lemma HeadIsEntry<K, V>(cs: seq<seq<Entry<K, V>>>, b: nat)
    requires b < |cs|
    ensures cs[b] != [] ==> cs[b][0] in EntrySet(cs)
  {
  }

  lemma NothingYet<K(!new), V>(cs: seq<seq<Entry<K, V>>>, hashfn: K -> nat)
    requires |cs| > 0 && EntrySet(cs) == {}
    ensures NewestFirst(cs, hashfn, [])
  {
    forall k ensures OfKey(cs[hashfn(k) % |cs|], k) == Reverse(OfKey<K, V>([], k)) {
      HeadIsEntry(cs, hashfn(k) % |cs|);
    }
  }

  lemma Sizes<K, V>(h: HashTable<K, V>)
    requires h.Valid()
    ensures h.primeindex <= LAST && h.tablelength == |h.chains| == Prime(h.primeindex) && h.loadlimit == Limit(h.tablelength)
    ensures (h.entrycount <= h.loadlimit || h.primeindex == LAST) && Hashed(h.chains, h.hashfn)
  {
  }

  // One more insertion; until the table grows, a key's newest entry is its first.
  method InsertNext<K(==, !new), V>(h: HashTable<K, V>, k: K, v: V, ghost entries: seq<Entry<K, V>>, ghost items: seq<(K, V)>)
    returns (ghost e: Entry<K, V>)
    requires h.Valid() && Hold(entries, items) && forall f :: f in entries ==> f in EntrySet(h.chains)
    modifies h, h.table, EntrySet(h.chains)
    ensures h.Valid() && h.entrycount == old(h.entrycount) + 1 && e.k == k
    ensures h.primeindex == old(h.primeindex)
              + if old(h.entrycount) < old(h.loadlimit) || old(h.primeindex) == LAST then 0 else 1
    ensures Hold(entries + [e], items + [(k, v)]) && forall f :: f in entries + [e] ==> f in EntrySet(h.chains)
    ensures h.table == old(h.table) || fresh(h.table)
    ensures forall f :: f in EntrySet(h.chains) ==> f in old(EntrySet(h.chains)) || fresh(f)
    ensures old(NewestFirst(h.chains, h.hashfn, entries)) && h.primeindex == old(h.primeindex) ==>
      NewestFirst(h.chains, h.hashfn, entries + [e])
    ensures old(NewestFirst(h.chains, h.hashfn, entries)) && h.primeindex != old(h.primeindex) ==>
      forall q :: OfKey(h.chains[h.hashfn(q) % h.tablelength], q) == (if k == q then [e] else []) + OfKey(entries, q)
  {
    hide HashTable.Valid, EntrySet, NewestFirst, Rehashed, Flatten, OfKey, Hashed, Prime, Limit;
    ghost var cs := h.chains;
    Sizes(h);
    ghost var before := h.primeindex;
    ghost var grown;
    e, grown := h.Insert(k, v);
    Sizes(h);
    if NewestFirst(cs, h.hashfn, entries) {
      if h.primeindex == before {
        PushedIsNewest(cs, h.hashfn, entries, e);
      } else {
        GrownThenPushed(cs, grown, h.hashfn, entries, e);
      }
    }
  }

  // After n insertions into a new table its size is the first, from its own on, of which n is at most 0.65,
  // rounded up; the last size grows no more. As long as it has its first size, the newest entry of a key
  // is found.
  method Fill<K(==, !new), V>(minsize: nat, hash: K -> nat, items: seq<(K, V)>)
    returns (h: HashTable<K, V>, start: nat, ghost entries: seq<Entry<K, V>>)
    requires minsize <= 0x4000_0000
    ensures fresh(h) && fresh(h.table) && (forall e :: e in EntrySet(h.chains) ==> fresh(e))
    ensures h.Valid() && h.hashfn == hash && h.entrycount == |items|
    ensures start <= h.primeindex <= LAST && minsize < Prime(start) && (start > 0 ==> Prime(start - 1) <= minsize)
    ensures h.primeindex == LAST || 20 * (|items| - 1) < 13 * Prime(h.primeindex)
    ensures h.primeindex > start ==> 20 * (|items| - 1) >= 13 * Prime(h.primeindex - 1)
    ensures Hold(entries, items) && forall e :: e in entries ==> e in EntrySet(h.chains)
    ensures h.primeindex == start ==> NewestFirst(h.chains, hash, entries)
  {
    hide HashTable.Valid, EntrySet, NewestFirst, Hashed, Prime, Limit;
    h := new HashTable(minsize, hash);
    start, entries := h.primeindex, [];
    Sizes(h);
    NothingYet(h.chains, hash);
    for n := 0 to |items|
      invariant fresh(h) && fresh(h.table) && (forall e :: e in EntrySet(h.chains) ==> fresh(e))
      invariant h.Valid() && h.hashfn == hash && h.entrycount == n
      invariant start <= h.primeindex <= LAST && h.loadlimit == Limit(Prime(h.primeindex))
      invariant h.primeindex == LAST || n <= h.loadlimit
      invariant h.primeindex > start ==> n > Limit(Prime(h.primeindex - 1))
      invariant Hold(entries, items[..n]) && forall e :: e in entries ==> e in EntrySet(h.chains)
      invariant h.primeindex == start ==> NewestFirst(h.chains, hash, entries)
    {
      ghost var e := InsertNext(h, items[n].0, items[n].1, entries, items[..n]);
      entries := entries + [e];
      Sizes(h);
    }
    assert items[..|items|] == items;
    LimitIsLeast(Prime(h.primeindex), |items| - 1);
    if h.primeindex > start {
      LimitIsLeast(Prime(h.primeindex - 1), |items| - 1);
    }
  }

  predicate LastOf<K(==), V>(items: seq<(K, V)>, k: K, i: int) {
    0 <= i < |items| && items[i].0 == k && forall j :: i < j < |items| ==> items[j].0 != k
  }

  predicate FirstOf<K(==), V>(items: seq<(K, V)>, k: K, i: int) {
    0 <= i < |items| && items[i].0 == k && forall j :: 0 <= j < i ==> items[j].0 != k
  }

  lemma {:induction false} KeyOccurs<K, V>(s: seq<Entry<K, V>>, k: K)
    ensures OfKey(s, k) == [] <==> forall i :: 0 <= i < |s| ==> s[i].k != k
  {
    if i :| 0 <= i < |s| && s[i].k == k {
      OfKeyEnds(s, k, i);
    } else {
      NoneOfKey(s, k);
    }
  }

  // hashtable_search finds the first of a key's entries.
  method Lookup<K(==), V>(h: HashTable<K, V>, k: K) returns (r: Option<V>)
    requires h.Valid()
    ensures h.Valid()
    ensures var c := OfKey(h.chains[h.hashfn(k) % h.tablelength], k); r == if c == [] then None else Some(c[0].v)
  {
    hide OfKey;
    r := h.Search(k);
    if r.None? {
      NoneOfKey(h.chains[h.hashfn(k) % h.tablelength], k);
    }
  }

  lemma NewestFound<K, V>(entries: seq<Entry<K, V>>, items: seq<(K, V)>, k: K)
    requires Hold(entries, items)
    ensures var c := Reverse(OfKey(entries, k));
      && (c == [] <==> forall i :: 0 <= i < |items| ==> items[i].0 != k)
      && forall i :: LastOf(items, k, i) ==> c != [] && c[0].v == items[i].1
  {
    hide OfKey, Reverse;
    var c := OfKey(entries, k);
    KeyOccurs(entries, k);
    forall i | LastOf(items, k, i) ensures c != [] && Reverse(c)[0].v == items[i].1 {
      OfKeyEnds(entries, k, i);
      ReverseAt(c, 0);
    }
  }

  lemma OldestFound<K, V>(entries: seq<Entry<K, V>>, items: seq<(K, V)>, k: K)
    requires Hold(entries, items)
    ensures var c := OfKey(entries, k);
      && (c == [] <==> forall i :: 0 <= i < |items| ==> items[i].0 != k)
      && forall i :: FirstOf(items, k, i) ==> c != [] && c[0].v == items[i].1
  {
    hide OfKey;
    KeyOccurs(entries, k);
    forall i | FirstOf(items, k, i) ensures OfKey(entries, k) != [] && OfKey(entries, k)[0].v == items[i].1 {
      OfKeyEnds(entries, k, i);
    }
  }

  lemma SmallPrimes()
    ensures Prime(0) == 53 && Prime(1) == 97 && Limit(53) == 35
    ensures forall i :: 0 <= i <= LAST ==> 53 <= Prime(i)
  {
  }

  // Up to 35 insertions into a table of 53 leave it as it is, and a key's last value is found.
  method SearchBefore<K(==, !new), V>(minsize: nat, hash: K -> nat, items: seq<(K, V)>, k: K)
    returns (h: HashTable<K, V>, r: Option<V>)
    requires minsize < 53 && |items| <= 35
    ensures h.Valid() && h.tablelength == 53
    ensures r == None <==> forall i :: 0 <= i < |items| ==> items[i].0 != k
    ensures forall i :: LastOf(items, k, i) ==> r == Some(items[i].1)
  {
    hide HashTable.Valid, EntrySet, OfKey, Reverse, Hashed, Hold, LastOf, Prime;
    var start;
    ghost var entries;
    SmallPrimes();
    h, start, entries := Fill(minsize, hash, items);
    Sizes(h);
    r := Lookup(h, k);
    NewestFound(entries, items, k);
  }

  // The 36th makes it grow and turns around the keys inserted before it: of these, the first value is found.
  method SearchAfter<K(==, !new), V>(minsize: nat, hash: K -> nat, items: seq<(K, V)>, last: (K, V), k: K)
    returns (h: HashTable<K, V>, r: Option<V>)
    requires minsize < 53 && |items| == 35
    ensures h.Valid() && h.tablelength == 97
    ensures last.0 == k ==> r == Some(last.1)
    ensures last.0 != k ==> (r == None <==> forall i :: 0 <= i < |items| ==> items[i].0 != k)
    ensures last.0 != k ==> forall i :: FirstOf(items, k, i) ==> r == Some(items[i].1)
  {
    hide HashTable.Valid, EntrySet, OfKey, Reverse, NewestFirst, Hashed, FirstOf, Prime, Limit, Total;
    var start;
    ghost var entries;
    SmallPrimes();
    h, start, entries := Fill(minsize, hash, items);
    Sizes(h);
    ghost var e := InsertNext(h, last.0, last.1, entries, items);
    Sizes(h);
    r := Lookup(h, k);
    assert Hold(entries, items) by {
      assert (entries + [e])[..35] == entries;
    }
    OldestFound(entries, items, k);
    assert last.0 == k ==> OfKey(h.chains[h.hashfn(k) % h.tablelength], k)[0] == e;
  }
}
