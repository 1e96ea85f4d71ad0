// The table sizes of smartc/hashtable.c, its entries, and chains of entries as sequences.
module Chains {
  import opened Common

  // The primes table.
  function Prime(i: nat): (p: nat)
    requires i < 26
    ensures 53 <= p
  {
    SIZES[i]
  }

  const LAST := 25

  // ceil(size * max_load_factor), with 13/20 for the factor.
  function Limit(size: nat): nat {
    (13 * size + 19) / 20
  }

  // The limit is the least number that is no less than 0.65 of the size.
  lemma LimitIsLeast(size: nat, n: int)
    ensures n >= Limit(size) <==> 20 * n >= 13 * size
  {
  }

  // Each growth leaves room for at least one more entry.
  lemma LimitGrows(i: nat)
    requires i < LAST
    ensures Limit(Prime(i)) < Limit(Prime(i + 1))
  {
  }

  // struct entry. The key and its hash never change. The ghost fields say where the entry is.
  class Entry<K, V> {
    const k: K
    const h: nat
    var v: V
    var next: Entry?<K, V>

    // the array the entry hangs from, and the bucket
    ghost var home: array<Entry?<K, V>>
    ghost var bucket: int

    constructor (key: K, hash: nat, value: V, next_: Entry?<K, V>, ghost home_: array<Entry?<K, V>>, ghost b: int)
      ensures k == key && h == hash && v == value && next == next_ && home == home_ && bucket == b
    {
      k, h, v, next, home, bucket := key, hash, value, next_, home_, b;
    }
  }

  // From head, the next pointers run through c and end.
  ghost predicate Linked<K, V>(head: Entry?<K, V>, c: seq<Entry<K, V>>)
    reads c
  {
    && head == (if c == [] then null else c[0])
    && forall i {:trigger c[i].next} :: 0 <= i < |c| ==> c[i].next == if i + 1 < |c| then c[i + 1] else null
  }

  // No entry occurs twice: the pointers would run in a circle.
  lemma {:induction false} NoRepeat<K, V>(head: Entry?<K, V>, c: seq<Entry<K, V>>, i: nat, j: nat)
    requires Linked(head, c) && i < j < |c|
    ensures c[i] != c[j]
    decreases |c| - j
  {
    assert c[i].next == c[i + 1];
    if j + 1 < |c| {
      assert c[j].next == c[j + 1];
      NoRepeat(head, c, i + 1, j + 1);
    } else {
      assert c[j].next == null;
    }
  }

  lemma HeadOnce<K, V>(head: Entry?<K, V>, c: seq<Entry<K, V>>)
    requires Linked(head, c) && c != []
    ensures c[0] !in c[1..]
  {
    forall j | 0 < j < |c| ensures c[0] != c[j] { NoRepeat(head, c, 0, j); }
  }

  // The entries of c are those of one bucket of one array.
  ghost predicate Placed<K, V>(c: seq<Entry<K, V>>, t: array<Entry?<K, V>>, b: int)
    reads c
  {
    forall i :: 0 <= i < |c| ==> c[i].home == t && c[i].bucket == b
  }

  ghost predicate ChainOk<K, V>(t: array<Entry?<K, V>>, b: int, c: seq<Entry<K, V>>)
    requires 0 <= b < t.Length
    reads t, c
  {
    Linked(t[b], c) && Placed(c, t, b)
  }

  // ---- Sequences of entries ----

  ghost function Total<A>(cs: seq<seq<A>>): nat {
    if cs == [] then 0 else Total(cs[..|cs| - 1]) + |cs[|cs| - 1]|
  }

  ghost function Reverse<A>(s: seq<A>): (r: seq<A>)
    ensures |r| == |s|
  {
    if s == [] then [] else [s[|s| - 1]] + Reverse(s[..|s| - 1])
  }

  lemma {:induction false} ReverseAt<A>(s: seq<A>, i: nat)
    requires i < |s|
    ensures Reverse(s)[i] == s[|s| - 1 - i]
  {
    if i > 0 {
      ReverseAt(s[..|s| - 1], i - 1);
    }
  }

  // The entries that belong in bucket b of a table of size n.
  ghost function InBucket<K, V>(s: seq<Entry<K, V>>, n: nat, b: nat): seq<Entry<K, V>>
    requires n > 0
  {
    if s == [] then [] else
      var r := InBucket(s[..|s| - 1], n, b);
      if s[|s| - 1].h % n == b then r + [s[|s| - 1]] else r
  }

  lemma {:induction false} TotalIsLength<A>(cs: seq<seq<A>>)
    ensures Total(cs) == |Flatten(cs)|
  {
    if cs != [] {
      TotalIsLength(cs[..|cs| - 1]);
    }
  }

  lemma FlattenFrom<A>(cs: seq<seq<A>>, b: nat)
    requires b < |cs|
    ensures Flatten(cs[b..]) == cs[b] + Flatten(cs[b + 1..])
  {
    assert cs[b..] == [cs[b]] + cs[b + 1..];
    FlattenSplit([cs[b]], cs[b + 1..]);
    FlattenOne(cs[b]);
  }

  // One chain, taken out of the middle.
  lemma FlattenAt<A>(cs: seq<seq<A>>, b: nat)
    requires b < |cs|
    ensures Flatten(cs) == Flatten(cs[..b]) + (cs[b] + Flatten(cs[b + 1..]))
  {
    hide Flatten;
    assert cs == cs[..b] + cs[b..];
    FlattenSplit(cs[..b], cs[b..]);
    FlattenFrom(cs, b);
  }

  lemma TotalAt<A>(cs: seq<seq<A>>, b: nat, c: seq<A>)
    requires b < |cs|
    ensures Total(cs[b := c]) == Total(cs) - |cs[b]| + |c|
  {
    TotalIsLength(cs);
    TotalIsLength(cs[b := c]);
    FlattenAt(cs, b);
    FlattenAt(cs[b := c], b);
    assert cs[b := c][..b] == cs[..b] && cs[b := c][b + 1..] == cs[b + 1..];
  }

  lemma {:induction false} InBucketSplit<K, V>(a: seq<Entry<K, V>>, c: seq<Entry<K, V>>, n: nat, b: nat)
    requires n > 0
    ensures InBucket(a + c, n, b) == InBucket(a, n, b) + InBucket(c, n, b)
  {
    if c == [] {
      assert a + c == a;
    } else {
      InBucketSplit(a, c[..|c| - 1], n, b);
      assert (a + c)[..|a + c| - 1] == a + c[..|c| - 1];
    }
  }

  lemma ReverseSnoc<A>(s: seq<A>, x: A)
    ensures Reverse(s + [x]) == [x] + Reverse(s)
  {
    assert (s + [x])[..|s|] == s;
  }

  lemma ReverseNone<A>()
    ensures Reverse<A>([]) == []
  {
  }

  lemma {:induction false} ReverseSplit<A>(a: seq<A>, b: seq<A>)
    ensures Reverse(a + b) == Reverse(b) + Reverse(a)
  {
    hide Reverse;
    if b == [] {
      assert a + b == a && b + a == a;
      ReverseNone<A>();
    } else {
      var c, x := b[..|b| - 1], b[|b| - 1];
      ReverseSplit(a, c);
      ReverseSnoc(c, x);
      ReverseSnoc(a + c, x);
      assert b == c + [x] && a + b == a + c + [x];
    }
  }

  // ---- What relinking keeps ----

  // Each new bucket holds the entries that belong there, last pushed first.
  ghost predicate Rehashed<K, V>(nc: seq<seq<Entry<K, V>>>, moved: seq<Entry<K, V>>) {
    |nc| > 0 && forall j :: 0 <= j < |nc| ==> nc[j] == Reverse(InBucket(moved, |nc|, j))
  }

  lemma RehashedNext<K, V>(nc: seq<seq<Entry<K, V>>>, moved: seq<Entry<K, V>>, e: Entry<K, V>)
    requires Rehashed(nc, moved)
    ensures var b := e.h % |nc|; Rehashed(nc[b := [e] + nc[b]], moved + [e])
  {
    var b := e.h % |nc|;
    var mc := nc[b := [e] + nc[b]];
    assert (moved + [e])[..|moved|] == moved;
    forall j | 0 <= j < |mc| ensures mc[j] == Reverse(InBucket(moved + [e], |mc|, j)) {
      if j == b {
        ReverseSnoc(InBucket(moved, |nc|, b), e);
      }
    }
  }

  ghost function Rehash<K, V>(moved: seq<Entry<K, V>>, n: nat): (nc: seq<seq<Entry<K, V>>>)
    requires n > 0
    ensures |nc| == n && Rehashed(nc, moved)
  {
    seq(n, j requires 0 <= j < n => Reverse(InBucket(moved, n, j)))
  }

  // No entry is lost or doubled: the lengths of the new chains add up.
  lemma {:induction false} RehashedTotal<K, V>(nc: seq<seq<Entry<K, V>>>, moved: seq<Entry<K, V>>)
    requires Rehashed(nc, moved)
    ensures Total(nc) == |moved|
    decreases |moved|
  {
    if moved == [] {
      assert forall j :: 0 <= j < |nc| ==> nc[j] == [];
      TotalOfEmpty(nc);
    } else {
      var m, e := moved[..|moved| - 1], moved[|moved| - 1];
      var pc, b := Rehash(m, |nc|), e.h % |nc|;
      RehashedTotal(pc, m);
      RehashedNext(pc, m, e);
      assert m + [e] == moved;
      assert nc == pc[b := [e] + pc[b]];
      TotalAt(pc, b, [e] + pc[b]);
    }
  }

  lemma {:induction false} TotalOfEmpty<A>(cs: seq<seq<A>>)
    requires forall j :: 0 <= j < |cs| ==> cs[j] == []
    ensures Total(cs) == 0
  {
    if cs != [] {
      TotalOfEmpty(cs[..|cs| - 1]);
    }
  }

  // Nor is one invented: an entry is in bucket j exactly when it was somewhere and its hash says j.
  lemma RehashedMembers<K, V>(nc: seq<seq<Entry<K, V>>>, moved: seq<Entry<K, V>>, j: nat, e: Entry<K, V>)
    requires Rehashed(nc, moved) && j < |nc|
    ensures e in nc[j] <==> e in moved && e.h % |nc| == j
  {
    InBucketMembers(moved, |nc|, j, e);
    ReverseMembers(InBucket(moved, |nc|, j), e);
  }

  lemma {:induction false} InBucketMembers<K, V>(s: seq<Entry<K, V>>, n: nat, b: nat, e: Entry<K, V>)
    requires n > 0
    ensures e in InBucket(s, n, b) <==> e in s && e.h % n == b
  {
    if s != [] {
      InBucketMembers(s[..|s| - 1], n, b, e);
      assert s == s[..|s| - 1] + [s[|s| - 1]];
    }
  }

  lemma {:induction false} ReverseMembers<A>(s: seq<A>, e: A)
    ensures e in Reverse(s) <==> e in s
  {
    if s != [] {
      ReverseMembers(s[..|s| - 1], e);
      assert s == s[..|s| - 1] + [s[|s| - 1]];
    }
  }

  lemma {:induction false} FlattenMembers<A>(cs: seq<seq<A>>, e: A)
    ensures e in Flatten(cs) <==> exists b :: 0 <= b < |cs| && e in cs[b]
  {
    if cs != [] {
      var init, last := cs[..|cs| - 1], cs[|cs| - 1];
      FlattenMembers(init, e);
      if e in Flatten(cs) {
        if e in last {
          assert e in cs[|cs| - 1];
        } else {
          var b :| 0 <= b < |init| && e in init[b];
          assert e in cs[b];
        }
      }
      if b :| 0 <= b < |cs| && e in cs[b] {
        if b < |init| {
          assert e in init[b];
        }
      }
    }
  }

  // ---- Lookup in a chain ----

  ghost predicate HasKey<K, V>(c: seq<Entry<K, V>>, k: K) {
    exists e :: e in c && e.k == k
  }

  // The entries of one key, in retrieval order.
  ghost function OfKey<K, V>(c: seq<Entry<K, V>>, k: K): seq<Entry<K, V>> {
    if c == [] then [] else
      var r := OfKey(c[..|c| - 1], k);
      if c[|c| - 1].k == k then r + [c[|c| - 1]] else r
  }

  lemma {:induction false} OfKeySplit<K, V>(a: seq<Entry<K, V>>, c: seq<Entry<K, V>>, k: K)
    ensures OfKey(a + c, k) == OfKey(a, k) + OfKey(c, k)
  {
    if c == [] {
      assert a + c == a;
    } else {
      OfKeySplit(a, c[..|c| - 1], k);
      assert (a + c)[..|a + c| - 1] == a + c[..|c| - 1];
    }
  }

  lemma {:induction false} OfKeyReverse<K, V>(s: seq<Entry<K, V>>, k: K)
    ensures OfKey(Reverse(s), k) == Reverse(OfKey(s, k))
  {
    if s != [] {
      var init, e := s[..|s| - 1], s[|s| - 1];
      OfKeyReverse(init, k);
      OfKeySplit([e], Reverse(init), k);
      assert [e][..0] == [];
      if e.k == k {
        assert OfKey([e], k) == [e];
        ReverseSnoc(OfKey(init, k), e);
      } else {
        assert OfKey([e], k) == [];
      }
    }
  }

  // All entries of a key have the key's hash.
  ghost predicate HashedBy<K, V>(s: seq<Entry<K, V>>, hashfn: K -> nat) {
    forall e :: e in s ==> e.h == hashfn(e.k)
  }

  lemma {:induction false} OfKeyInBucket<K, V>(s: seq<Entry<K, V>>, n: nat, k: K, hashfn: K -> nat)
    requires n > 0 && HashedBy(s, hashfn)
    ensures OfKey(InBucket(s, n, hashfn(k) % n), k) == OfKey(s, k)
  {
    if s != [] {
      var init, e := s[..|s| - 1], s[|s| - 1];
      assert s == init + [e];
      OfKeyInBucket(init, n, k, hashfn);
      var r := InBucket(init, n, hashfn(k) % n);
      if e.h % n == hashfn(k) % n {
        assert (r + [e])[..|r|] == r;
      }
    }
  }

  // The old table, read bucket by bucket, shows a key's entries in the order of its own chain.
  lemma {:induction false} OfKeyFlatten<K, V>(cs: seq<seq<Entry<K, V>>>, k: K, b: nat)
    requires forall j, e :: 0 <= j < |cs| && e in cs[j] && e.k == k ==> j == b
    ensures OfKey(Flatten(cs), k) == if b < |cs| then OfKey(cs[b], k) else []
  {
    if cs != [] {
      var init, last := cs[..|cs| - 1], cs[|cs| - 1];
      OfKeyFlatten(init, k, b);
      OfKeySplit(Flatten(init), last, k);
      if b != |cs| - 1 {
        NoneOfKey(last, k);
      }
    }
  }

  lemma {:induction false} NoneOfKey<K, V>(c: seq<Entry<K, V>>, k: K)
    requires forall e :: e in c ==> e.k != k
    ensures OfKey(c, k) == []
  {
    if c != [] {
      assert c[|c| - 1] in c;
      forall e | e in c[..|c| - 1] ensures e.k != k { assert e in c; }
      NoneOfKey(c[..|c| - 1], k);
    }
  }

  // What hashtable.h warns about: growing the table reverses the retrieval order of duplicate keys.
  lemma DuplicatesFlip<K, V>(cs: seq<seq<Entry<K, V>>>, nc: seq<seq<Entry<K, V>>>, k: K, hashfn: K -> nat)
    requires |cs| > 0 && Rehashed(nc, Flatten(cs)) && Hashed(cs, hashfn)
    ensures OfKey(nc[hashfn(k) % |nc|], k) == Reverse(OfKey(cs[hashfn(k) % |cs|], k))
  {
    var all, j, b := Flatten(cs), hashfn(k) % |nc|, hashfn(k) % |cs|;
    assert nc[j] == Reverse(InBucket(all, |nc|, j));
    hide Rehashed, Flatten, InBucket, OfKey, Reverse;
    assert HashedBy(all, hashfn) by {
      forall e | e in all ensures e.h == hashfn(e.k) { FlattenMembers(cs, e); }
    }
    OfKeyInBucket(all, |nc|, k, hashfn);
    OfKeyReverse(InBucket(all, |nc|, j), k);
    OfKeyFlatten(cs, k, b);
  }

  // Every entry carries its key's hash and is in the bucket that the hash selects.
  ghost predicate Hashed<K, V>(cs: seq<seq<Entry<K, V>>>, hashfn: K -> nat) {
    |cs| > 0 && forall b, e :: 0 <= b < |cs| && e in cs[b] ==> e.h == hashfn(e.k) && e.h % |cs| == b
  }

  ghost function EntrySet<K, V>(cs: seq<seq<Entry<K, V>>>): set<Entry<K, V>> {
    set b, i | 0 <= b < |cs| && 0 <= i < |cs[b]| :: cs[b][i]
  }

  lemma EntrySetMembers<K, V>(cs: seq<seq<Entry<K, V>>>, e: Entry<K, V>)
    ensures e in EntrySet(cs) <==> e in Flatten(cs)
  {
    FlattenMembers(cs, e);
    if b :| 0 <= b < |cs| && e in cs[b] {
      var i :| 0 <= i < |cs[b]| && cs[b][i] == e;
      assert e == cs[b][i];
    }
  }

  // Relinking keeps the entries, their number and the bucket discipline.
  lemma RehashedKeeps<K, V>(cs: seq<seq<Entry<K, V>>>, nc: seq<seq<Entry<K, V>>>, hashfn: K -> nat)
    requires Hashed(cs, hashfn) && Rehashed(nc, Flatten(cs))
    ensures Hashed(nc, hashfn) && Total(nc) == Total(cs) && EntrySet(nc) == EntrySet(cs)
  {
    hide Hashed, Rehashed, Flatten, Total, EntrySet;
    RehashedTotal(nc, Flatten(cs));
    TotalIsLength(cs);
    RehashedHashed(cs, nc, hashfn);
    forall e | e in EntrySet(nc) ensures e in EntrySet(cs) {
      RehashedEntry(cs, nc, e);
    }
    forall e | e in EntrySet(cs) ensures e in EntrySet(nc) {
      RehashedEntry(cs, nc, e);
    }
  }

  lemma BucketHolding<K, V>(cs: seq<seq<Entry<K, V>>>, e: Entry<K, V>) returns (a: nat)
    requires e in Flatten(cs)
    ensures a < |cs| && e in cs[a]
  {
    FlattenMembers(cs, e);
    a :| 0 <= a < |cs| && e in cs[a];
  }

  lemma RehashedHashed<K, V>(cs: seq<seq<Entry<K, V>>>, nc: seq<seq<Entry<K, V>>>, hashfn: K -> nat)
    requires Hashed(cs, hashfn) && Rehashed(nc, Flatten(cs))
    ensures Hashed(nc, hashfn)
  {
    hide Flatten;
    forall b, e | 0 <= b < |nc| && e in nc[b] ensures e.h == hashfn(e.k) && e.h % |nc| == b {
      RehashedMembers(nc, Flatten(cs), b, e);
      var a := BucketHolding(cs, e);
    }
  }

  lemma RehashedEntry<K, V>(cs: seq<seq<Entry<K, V>>>, nc: seq<seq<Entry<K, V>>>, e: Entry<K, V>)
    requires Rehashed(nc, Flatten(cs))
    ensures e in EntrySet(nc) <==> e in EntrySet(cs)
  {
    hide EntrySet, Flatten, Rehashed;
    assert |nc| > 0 by { RehashedNonempty(nc, Flatten(cs)); }
    EntrySetMembers(cs, e);
    EntrySetMembers(nc, e);
    FlattenMembers(nc, e);
    if e in Flatten(cs) {
      RehashedMembers(nc, Flatten(cs), e.h % |nc|, e);
      assert e in nc[e.h % |nc|];
    }
    if e in Flatten(nc) {
      var b :| 0 <= b < |nc| && e in nc[b];
      RehashedMembers(nc, Flatten(cs), b, e);
    }
  }

  lemma RehashedNonempty<K, V>(nc: seq<seq<Entry<K, V>>>, moved: seq<Entry<K, V>>)
    requires Rehashed(nc, moved)
    ensures |nc| > 0
  {
  }

  // The chains without entry i of bucket b.
  ghost function Cut<A>(cs: seq<seq<A>>, b: nat, i: nat): (ds: seq<seq<A>>)
    requires b < |cs| && i < |cs[b]|
    ensures |ds| == |cs| && |ds[b]| == |cs[b]| - 1
  {
    cs[b := cs[b][..i] + cs[b][i + 1..]]
  }

  lemma CutChain<A>(cs: seq<seq<A>>, b: nat, i: nat)
    requires b < |cs| && i < |cs[b]|
    ensures i + 1 < |cs[b]| ==> Cut(cs, b, i)[b][i] == cs[b][i + 1]
    ensures i > 0 ==> Cut(cs, b, i)[b][i - 1] == cs[b][i - 1]
  {
  }

  lemma TotalCut<A>(cs: seq<seq<A>>, b: nat, i: nat)
    requires b < |cs| && i < |cs[b]|
    ensures Total(Cut(cs, b, i)) == Total(cs) - 1
  {
    TotalAt(cs, b, cs[b][..i] + cs[b][i + 1..]);
  }
}
