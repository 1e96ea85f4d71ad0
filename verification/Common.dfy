// What several parts of the proxy share: optional results, joined pieces, the buffer sizes of
// smartc/server.h, and the table sizes that smartc/hashtable.c and server/hashmap.c both use.
module Common {
  datatype Option<+T> = None | Some(value: T)

  const CHUNK_SIZE := 1024 * 512
  const BUF_SIZE := 8192

  const SIZES: seq<nat> := [
    53, 97, 193, 389, 769, 1543, 3079, 6151, 12289, 24593, 49157, 98317,
    196613, 393241, 786433, 1572869, 3145739, 6291469, 12582917, 25165843,
    50331653, 100663319, 201326611, 402653189, 805306457, 1610612741
  ]

  function Flatten<A>(parts: seq<seq<A>>): seq<A> {
    if parts == [] then [] else Flatten(parts[..|parts| - 1]) + parts[|parts| - 1]
  }

  lemma {:induction false} FlattenSplit<A>(a: seq<seq<A>>, b: seq<seq<A>>)
    ensures Flatten(a + b) == Flatten(a) + Flatten(b)
  {
    if b == [] {
      assert a + b == a;
    } else {
      var c := b[..|b| - 1];
      FlattenSplit(a, c);
      assert (a + b)[..|a + b| - 1] == a + c;
    }
  }

  lemma FlattenOne<A>(c: seq<A>)
    ensures Flatten([c]) == c
  {
    assert [c][..0] == [];
  }

  ghost predicate PairwiseDifferent<A>(s: seq<A>) {
    forall i, j :: 0 <= i < j < |s| ==> s[i] != s[j]
  }

  // ---- Division ----

  lemma MultipleOf(m: int, p: int)
    requires p > 0
    ensures (p * m) % p == 0
  {
    AddMultipleOf(0, m, p);
  }

  lemma AddMultipleOf(a: int, m: int, p: int)
    requires p > 0
    ensures (a + p * m) % p == a % p
  {
    var q, r := a / p, a % p;
    assert a + p * m == p * (q + m) + r by {
      assert a == p * q + r;
    }
    DivModUnique(a + p * m, p, q + m, r);
  }

  lemma DivModUnique(a: int, p: int, q: int, r: int)
    requires p > 0 && a == p * q + r && 0 <= r < p
    ensures a / p == q && a % p == r
  {
    var k := a / p - q;
    assert p * (a / p) + a % p == a;
    assert p * k == r - a % p;
    if k != 0 {
      MultipleOutside(p, k);
    }
  }

  lemma MultipleOutside(p: int, k: int)
    requires p > 0 && k != 0
    ensures p * k >= p || p * k <= -p
  {
    if k > 0 {
      ProductNonNegative(p, k - 1);
    } else {
      ProductNonNegative(p, -k - 1);
    }
  }

  lemma ProductNonNegative(x: int, y: int)
    requires x >= 0 && y >= 0
    ensures x * y >= 0
  {
  }
}
