// The probe sequence of server/hashmap.c: slot number off is (code + off^2)
// mod 2^32, mod the table size.  For an odd prime size the early probes are
// pairwise different slots; this is the whole reason an add or a get ends.
module Probing {
  import opened Common
  import opened Primality

  const WORD: nat := 0x1_0000_0000

  // The largest offset whose square still fits the source's signed int.
  const LAST: nat := 46340

  function Probe(code: nat, off: nat, size: nat): (slot: nat)
    requires size > 0
    ensures slot < size
  {
    (code + off * off) % WORD % size
  }

  lemma FirstProbe(code: nat, size: nat)
    requires code < WORD && size > 0
    ensures Probe(code, 0, size) == code % size && forall big: nat :: Slot(code, 0, size, big) == code % size
  {
  }

  // The slot of any offset.  From LAST + 1 on the square is no int, and C leaves the cast undefined;
  // big is the one value a machine makes of it: 2^31 (INT_MIN) on x86, 2^31 - 1 where casts saturate.
  function Slot(code: nat, off: nat, size: nat, big: nat): (slot: nat)
    requires size > 0
    ensures slot < size
  {
    if off <= LAST then Probe(code, off, size) else (code + big) % WORD % size
  }

  lemma BeyondLast(code: nat, size: nat, big: nat)
    requires size > 0
    ensures Slot(code, LAST + 1, size, big) == (code + big) % WORD % size
  {
  }

  // How many probes are known to be different when nothing wraps.
  function Distinct(size: nat): nat {
    if (size + 1) / 2 <= LAST + 1 then (size + 1) / 2 else LAST + 1
  }

  predicate NoWrap(code: nat, n: nat) {
    n == 0 || code + (n - 1) * (n - 1) < WORD
  }

  lemma SquareGrows(i: nat, j: nat)
    requires i <= j
    ensures i * i <= j * j
  {
    assert i * i <= i * j <= j * j;
  }

  lemma SameRemainder(a: int, b: int, p: int)
    requires p > 0 && a % p == b % p
    ensures (a - b) % p == 0
  {
    assert a - b == p * (a / p - b / p);
    MultipleOf(a / p - b / p, p);
  }

  // Two offsets below half the prime that share a square modulo it are one.
  lemma SquaresDiffer(i: nat, j: nat, p: nat)
    requires Prime(p) && i < j && i + j < p
    ensures (i * i) % p != (j * j) % p
  {
    if (i * i) % p == (j * j) % p {
      SameRemainder(j * j, i * i, p);
      assert j * j - i * i == (j - i) * (j + i);
      NoZeroDivisors(j - i, j + i, p);
    }
  }

  lemma ShiftRemainder(a: int, b: int, c: int, p: int)
    requires p > 0 && (a + c) % p == (b + c) % p
    ensures a % p == b % p
  {
    SameRemainder(a + c, b + c, p);
    assert a == b + p * ((a - b) / p);
    AddMultipleOf(b, (a - b) / p, p);
  }

  // Probes on the same side of a wrap, with offsets summing below the prime, never meet.
  lemma ProbesDiffer(code: nat, i: nat, j: nat, p: nat)
    requires Prime(p) && code < WORD
    requires i < j <= LAST && i + j < p
    requires code + j * j < WORD || code + i * i >= WORD
    ensures Probe(code, i, p) != Probe(code, j, p)
  {
    SquareGrows(i, j);
    SquareGrows(j, LAST);
    var w := if code + j * j < WORD then 0 else WORD;
    Unwrapped(code + i * i, w);
    Unwrapped(code + j * j, w);
    if Probe(code, i, p) == Probe(code, j, p) {
      ShiftRemainder(i * i, j * j, code - w, p);
      SquaresDiffer(i, j, p);
    }
  }

  lemma Unwrapped(a: nat, w: nat)
    requires if w == 0 then a < WORD else w == WORD <= a < 2 * WORD
    ensures a % WORD == a - w
  {
  }

  // The sum passes the word at most once.
  lemma ProbeWraps(code: nat, off: nat, size: nat)
    requires code < WORD && off <= LAST && size > 0
    ensures Probe(code, off, size) == (code + off * off - if code + off * off < WORD then 0 else WORD) % size
  {
    SquareGrows(off, LAST);
    Unwrapped(code + off * off, if code + off * off < WORD then 0 else WORD);
  }

  // The slots tried by probes lo, .., hi - 1.
  function Slots(code: nat, lo: nat, hi: nat, p: nat): (s: set<nat>)
    requires p > 0 && lo <= hi
    ensures forall i :: lo <= i < hi ==> Probe(code, i, p) in s
    ensures forall x :: x in s ==> exists i :: lo <= i < hi && Probe(code, i, p) == x
    decreases hi
  {
    if lo == hi then {} else Slots(code, lo, hi - 1, p) + {Probe(code, hi - 1, p)}
  }

  // Probes lo, .., hi - 1 all wrap, or none does.
  predicate OneSide(code: nat, lo: nat, hi: nat) {
    hi <= lo || code + (hi - 1) * (hi - 1) < WORD || code + lo * lo >= WORD
  }

  lemma OneSideShrinks(code: nat, lo: nat, hi: nat)
    requires lo < hi && OneSide(code, lo, hi)
    ensures OneSide(code, lo, hi - 1)
  {
    if lo < hi - 1 {
      SquareGrows(hi - 2, hi - 1);
    }
  }

  lemma LastProbeIsNew(code: nat, lo: nat, last: nat, p: nat)
    requires Prime(p) && code < WORD && lo <= last < Distinct(p)
    requires OneSide(code, lo, last + 1)
    ensures Probe(code, last, p) !in Slots(code, lo, last, p)
  {
    forall i | lo <= i < last
      ensures Probe(code, i, p) != Probe(code, last, p)
    {
      SquareGrows(lo, i);
      ProbesDiffer(code, i, last, p);
    }
  }

  // All different: as many slots as probes.
  lemma {:induction false} CountSlots(code: nat, lo: nat, hi: nat, p: nat)
    requires Prime(p) && code < WORD && lo <= hi <= Distinct(p)
    requires OneSide(code, lo, hi)
    ensures |Slots(code, lo, hi, p)| == hi - lo
    decreases hi
  {
    hide Probe, OneSide;
    if lo < hi {
      OneSideShrinks(code, lo, hi);
      CountSlots(code, lo, hi - 1, p);
      LastProbeIsNew(code, lo, hi - 1, p);
    }
  }

  // Past the half, probes only revisit earlier slots.
  lemma ProbesRepeat(code: nat, off: nat, p: nat) returns (k: nat)
    requires p > 0 && p % 2 == 1 && off <= LAST && code + LAST * LAST < WORD
    ensures k < (p + 1) / 2 && k <= off && Probe(code, k, p) == Probe(code, off, p)
    decreases off
  {
    if off < (p + 1) / 2 {
      k := off;
    } else {
      var less := if off < p then p - off else off - p;
      SquareShift(code, off, less, p);
      SquareGrows(off, LAST);
      SquareGrows(less, off);
      Unwrapped(code + off * off, 0);
      Unwrapped(code + less * less, 0);
      k := ProbesRepeat(code, less, p);
    }
  }

  lemma SquareShift(code: nat, off: nat, less: nat, p: nat)
    requires p > 0 && less == if off < p then p - off else off - p
    ensures (code + off * off) % p == (code + less * less) % p
  {
    var m := if off < p then off - less else off + less;
    assert code + off * off == code + less * less + p * m;
    AddMultipleOf(code + less * less, m, p);
  }

  lemma SubsetSize(a: set<nat>, b: set<nat>)
    requires a <= b
    ensures |a| <= |b|
  {
    assert b == a + (b - a);
  }

  // Fewer taken slots than different probes: one of these probes is free.
  lemma SomeProbeIsFree(code: nat, lo: nat, hi: nat, p: nat, taken: set<nat>) returns (k: nat)
    requires Prime(p) && code < WORD && lo <= hi <= Distinct(p)
    requires OneSide(code, lo, hi)
    requires |taken| < hi - lo
    ensures lo <= k < hi && Probe(code, k, p) !in taken
  {
    CountSlots(code, lo, hi, p);
    if Slots(code, lo, hi, p) <= taken {
      SubsetSize(Slots(code, lo, hi, p), taken);
    }
    var x :| x in Slots(code, lo, hi, p) && x !in taken;
    k :| lo <= k < hi && Probe(code, k, p) == x;
  }

  // The offset at which code + off^2 first passes the word, or n.
  function Wraps(code: nat, n: nat): (w: nat)
    ensures w <= n
    ensures w == 0 || code + (w - 1) * (w - 1) < WORD
    ensures w == n || code + w * w >= WORD
  {
    if n == 0 || code + (n - 1) * (n - 1) < WORD then n else Wraps(code, n - 1)
  }

  // Whatever the code, wrapping or not, half as many taken slots leave a free one.
  lemma SomeProbeIsFreeEvenWrapped(code: nat, p: nat, taken: set<nat>) returns (k: nat)
    requires Prime(p) && code < WORD
    requires 2 * |taken| < Distinct(p)
    ensures k < Distinct(p) && Probe(code, k, p) !in taken
  {
    var n := Distinct(p);
    var w := Wraps(code, n);
    if |taken| < w {
      k := SomeProbeIsFree(code, 0, w, p, taken);
    } else {
      k := SomeProbeIsFree(code, w, n, p, taken);
    }
  }
}
