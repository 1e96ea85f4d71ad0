// What the write queue of a client descriptor promises: buffers go out whole, in order, once each.
module Delivery {
  import opened Common

  // queued: every buffer handed over so far; done: how many were delivered whole and reported;
  // sent: how much of the next one is on the wire.
  datatype Pipe = Pipe(queued: seq<string>, done: nat, sent: nat) {

    ghost predicate Valid() {
      && done <= |queued|
      && (done == |queued| ==> sent == 0)
      && (done < |queued| ==> sent <= |queued[done]|)
    }

    // The bytes on the wire.
    ghost function Wire(): string
      requires Valid()
    {
      Flatten(queued[..done]) + (if done < |queued| then queued[done][..sent] else "")
    }

    function Enqueue(b: string): Pipe {
      this.(queued := queued + [b])
    }

    // The socket took n more bytes of the buffer in front.
    function Send(n: nat): Pipe {
      this.(sent := sent + n)
    }

    // The buffer in front, now delivered whole, is reported and leaves the queue.
    function Report(): Pipe {
      Pipe(queued, done + 1, 0)
    }
  }

  // What is on the wire is always a prefix of what was handed over.
  lemma WireIsPrefix(p: Pipe)
    requires p.Valid()
    ensures p.Wire() <= Flatten(p.queued)
  {
    FlattenSplit(p.queued[..p.done], p.queued[p.done..]);
    assert p.queued == p.queued[..p.done] + p.queued[p.done..];
    if p.done < |p.queued| {
      var rest := p.queued[p.done + 1..];
      assert p.queued[p.done..] == [p.queued[p.done]] + rest;
      FlattenSplit([p.queued[p.done]], rest);
      assert Flatten([p.queued[p.done]]) == p.queued[p.done];
    }
  }

  // Handing over a buffer puts nothing on the wire.
  lemma EnqueueKeepsWire(p: Pipe, b: string)
    requires p.Valid()
    ensures p.Enqueue(b).Valid() && p.Enqueue(b).Wire() == p.Wire()
    ensures Flatten(p.Enqueue(b).queued) == Flatten(p.queued) + b
  {
    var q := p.Enqueue(b);
    assert q.queued[..q.done] == p.queued[..p.done];
    assert q.queued[..|q.queued| - 1] == p.queued;
  }

  // A write puts the next n bytes of the front buffer on the wire, after what is already there.
  lemma SendExtendsWire(p: Pipe, n: nat)
    requires p.Valid() && p.done < |p.queued| && p.sent + n <= |p.queued[p.done]|
    ensures p.Send(n).Valid()
    ensures p.Send(n).Wire() == p.Wire() + p.queued[p.done][p.sent..p.sent + n]
  {
    var b := p.queued[p.done];
    assert b[..p.sent] + b[p.sent..p.sent + n] == b[..p.sent + n];
  }

  // Reporting changes nothing on the wire.
  lemma ReportKeepsWire(p: Pipe)
    requires p.Valid() && p.done < |p.queued| && p.sent == |p.queued[p.done]|
    ensures p.Report().Valid() && p.Report().Wire() == p.Wire()
  {
    var q := p.Report();
    assert q.queued[..q.done][..p.done] == p.queued[..p.done];
    assert p.queued[p.done][..p.sent] == p.queued[p.done];
    if q.done < |q.queued| {
      assert q.queued[q.done][..0] == "";
    }
  }
}
