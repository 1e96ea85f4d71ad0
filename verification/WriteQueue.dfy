// A model of the per-descriptor write path: smartc/sock_io.c, smartc/fd_event.c and
// sock_call_handler of smartc/sock_epoll.c, for one client descriptor.
module WriteQueue {
  import opened Common
  import opened Delivery

  // The completion callbacks that http.c hands to sock_write.
  datatype Completion = OnHeaderSent | OnBodySent

  // mstate_write; id stands for the pointer.
  datatype MState = MState(id: nat, buf: string, offset: nat, callback: Completion)

  // struct event: the wstate it will run, and its pending flag.
  datatype Event = Event(ws: MState, pending: bool)

  // ops.write_handler with ops.write_data.
  datatype Handler = NoHandler | EventRun | HandleWrite(id: nat)

  // What write(2) returned: a count, an error that ignore_error accepts, or another error.
  datatype WriteResult = Wrote(n: nat) | Again | Failed

  // Whether sock_handle_write ran a callback, and with which arguments.
  datatype Outcome = NotCalled | Called(callback: Completion, error: bool, size: nat)

  class Descriptor {
    var open: bool
    var wantWrite: bool
    var handler: Handler
    var wqueue: seq<Event>
    // The wstate of a direct sock_write that has not finished; it is in no queue.
    var direct: Option<MState>
    var wire: string
    var nextId: nat

    ghost var pipe: Pipe
    // What direct writes put on the wire, before the queue was first used.
    ghost var head: string

    ghost predicate Accounted()
      reads this
    {
      pipe.Valid() && wire == head + pipe.Wire()
    }

    // The queue holds exactly the buffers not yet reported; none but a pending front has begun.
    ghost predicate Linked()
      reads this
    {
      && Accounted()
      && |wqueue| == |pipe.queued| - pipe.done
      && (forall i :: 0 <= i < |wqueue| ==>
            wqueue[i].ws == MState(wqueue[i].ws.id, pipe.queued[pipe.done + i], if i == 0 then pipe.sent else 0, OnBodySent))
      && (forall i :: 0 <= i < |wqueue| ==> wqueue[i].ws.id < nextId)
      && (forall i :: 1 <= i < |wqueue| ==> !wqueue[i].pending)
      && (wqueue != [] && !wqueue[0].pending ==> pipe.sent == 0)
      && (direct.Some? ==> wqueue == [] && pipe.queued == [] && direct.value.offset <= |direct.value.buf|)
    }

    // No lost wakeup: whenever something waits to be written, a handler is registered and write
    // interest is set. A resumed write is registered exactly when its wstate is the pending front.
    ghost predicate Armed()
      reads this
    {
      && (handler != NoHandler ==> wantWrite)
      && (wqueue != [] ==> handler == if wqueue[0].pending then HandleWrite(wqueue[0].ws.id) else EventRun)
      && (direct.Some? ==> handler == HandleWrite(direct.value.id))
      && (handler.HandleWrite? ==> wqueue != [] || direct.Some?)
    }

    // The front buffer is out and its callback is running: it is still in the queue, no handler is set.
    ghost predicate InCallback(size: nat)
      reads this
    {
      && Linked() && handler == NoHandler && wantWrite && direct.None?
      && wqueue != [] && wqueue[0].pending
      && size == pipe.sent == |pipe.queued[pipe.done]|
    }

    ghost predicate Ready()
      reads this
    {
      open && Linked() && Armed()
    }

    // Nothing has been written.
    ghost predicate Unused()
      reads this
    {
      Ready() && direct.None? && handler == NoHandler && pipe == Pipe([], 0, 0) && head == wire == ""
    }

    // fd_open, then accept's interest in reading.
    constructor ()
      ensures Unused() && wqueue == []
    {
      open, wantWrite, handler, wqueue, direct, wire, nextId := true, false, NoHandler, [], None, "", 0;
      pipe, head := Pipe([], 0, 0), "";
    }

    // sock_write with use_event set: copy, append to the queue, ask for writability and, unless a
    // handler is already there, register sock_event_run.
    method WriteQueued(buf: string)
      requires Ready() && direct.None?
      modifies this
      ensures Ready() && direct.None?
      ensures pipe == old(pipe).Enqueue(buf) && head == old(head) && wire == old(wire)
    {
      hide Flatten, Pipe.Wire;
      EnqueueKeepsWire(pipe, buf);
      pipe := pipe.Enqueue(buf);
      wqueue := wqueue + [Event(MState(nextId, buf, 0, OnBodySent), false)];
      nextId := nextId + 1;
      wantWrite := true;
      if handler != NoHandler {
        return;
      }
      handler := EventRun;
    }

    // sock_handle_write for the front of the queue.
    method HandleFront(r: WriteResult) returns (o: Outcome)
      requires open && Linked() && direct.None? && handler == NoHandler
      requires wqueue != [] && wqueue[0].pending && wantWrite
      requires r.Wrote? ==> pipe.sent + r.n <= |pipe.queued[pipe.done]|
      modifies this
      ensures open && direct.None? && head == old(head) && Linked()
      ensures pipe == if r.Wrote? then old(pipe).Send(r.n) else old(pipe)
      ensures r.Failed? ==> o == Called(OnBodySent, true, pipe.sent) && handler == NoHandler
      ensures !r.Failed? && pipe.sent == |pipe.queued[pipe.done]| && r.Wrote? ==>
        o == Called(OnBodySent, false, pipe.sent) && InCallback(pipe.sent)
      ensures r.Again? || (r.Wrote? && pipe.sent < |pipe.queued[pipe.done]|) ==> o == NotCalled && Armed()
      ensures wqueue != []
    {
      hide Flatten, Pipe.Wire, Pipe.Valid;
      var ws := wqueue[0].ws;
      if r == Failed {
        o := Called(ws.callback, true, ws.offset);
        return;
      }
      if r == Again {
        wantWrite, handler := true, HandleWrite(ws.id);
        return NotCalled;
      }
      SendExtendsWire(pipe, r.n);
      pipe := pipe.Send(r.n);
      wire := wire + ws.buf[ws.offset..ws.offset + r.n];
      ws := ws.(offset := ws.offset + r.n);
      wqueue := [Event(ws, true)] + wqueue[1..];
      if ws.offset < |ws.buf| {
        wantWrite, handler := true, HandleWrite(ws.id);
        o := NotCalled;
      } else {
        o := Called(ws.callback, false, ws.offset);
      }
    }

    // sock_handle_write for a direct wstate.
    method HandleDirect(r: WriteResult) returns (o: Outcome)
      requires open && Linked() && direct.Some? && handler == NoHandler
      requires r.Wrote? ==> direct.value.offset + r.n <= |direct.value.buf|
      modifies this
      ensures open && Linked() && pipe == old(pipe) && wqueue == []
      ensures var ws := old(direct).value; var n := if r.Wrote? then r.n else 0;
        && head == old(head) + ws.buf[ws.offset..ws.offset + n]
        && (r.Failed? ==> o == Called(ws.callback, true, ws.offset) && direct.None?)
        && (r.Wrote? && ws.offset + n == |ws.buf| ==>
              o == Called(ws.callback, false, |ws.buf|) && direct.None? && handler == NoHandler)
        && (r.Again? || (r.Wrote? && ws.offset + n < |ws.buf|) ==>
              o == NotCalled && direct == Some(ws.(offset := ws.offset + n)) && Armed())
    {
      hide Ready;
      var ws := direct.value;
      if r == Failed {
        direct := None;
        o := Called(ws.callback, true, ws.offset);
        return;
      }
      if r == Again {
        wantWrite, handler := true, HandleWrite(ws.id);
        return NotCalled;
      }
      var chunk := ws.buf[ws.offset..ws.offset + r.n];
      assert wire == head + pipe.Wire() && pipe.Wire() == "";
      wire := wire + chunk;
      head := head + chunk;
      ws := ws.(offset := ws.offset + r.n);
      if ws.offset < |ws.buf| {
        direct := Some(ws);
        wantWrite, handler := true, HandleWrite(ws.id);
        o := NotCalled;
      } else {
        direct := None;
        o := Called(ws.callback, false, ws.offset);
      }
    }

    // sock_write without use_event: write at once. The proxy sends the reply header this way, before
    // any body buffer is queued.
    method WriteDirect(buf: string, callback: Completion, r: WriteResult) returns (o: Outcome)
      requires Ready() && direct.None? && pipe.queued == [] && handler == NoHandler
      requires r.Wrote? ==> r.n <= |buf|
      modifies this
      ensures open && Linked() && pipe == old(pipe) && wqueue == []
      ensures head == old(head) + buf[..if r.Wrote? then r.n else 0]
      ensures o == NotCalled ==> Armed() && direct.Some? && direct.value.buf == buf
      ensures o == NotCalled ==> direct.value.offset == (if r.Wrote? then r.n else 0) && direct.value.callback == callback
      ensures o != NotCalled ==> direct.None?
      ensures o.Called? <==> r.Failed? || r == Wrote(|buf|)
      ensures r == Wrote(|buf|) ==> o == Called(callback, false, |buf|) && handler == NoHandler
      ensures r.Failed? ==> o == Called(callback, true, 0)
    {
      direct := Some(MState(nextId, buf, 0, callback));
      nextId := nextId + 1;
      o := HandleDirect(r);
    }

    // sock_event_run, called with its own handler slot already cleared.
    method RunEvent(r: WriteResult) returns (o: Outcome)
      requires open && Linked() && direct.None? && handler == NoHandler && wantWrite
      requires r.Wrote? && wqueue != [] ==> pipe.sent + r.n <= |pipe.queued[pipe.done]|
      modifies this
      ensures open && Linked() && direct.None? && head == old(head)
      ensures old(wqueue) == [] ==> o == NotCalled && !wantWrite && handler == NoHandler && pipe == old(pipe) && wqueue == []
      // A front that is already pending is left alone and the run is tried again later.
      ensures old(wqueue) != [] && old(wqueue[0].pending) ==>
        o == NotCalled && handler == EventRun && pipe == old(pipe) && wqueue == old(wqueue)
      ensures old(wqueue) != [] && !old(wqueue[0].pending) ==>
        && pipe == (if r.Wrote? then old(pipe).Send(r.n) else old(pipe))
        && (o == NotCalled ==> Armed())
        && (o.Called? <==> r.Failed? || (r.Wrote? && pipe.sent == |pipe.queued[pipe.done]|))
        && (o.Called? ==> o == Called(OnBodySent, r.Failed?, pipe.sent) && wqueue != [])
        && (o.Called? && !r.Failed? ==> InCallback(pipe.sent))
    {
      if wqueue == [] {
        wantWrite := false;
        return NotCalled;
      }
      if wqueue[0].pending {
        o := NotCalled;
        if handler == NoHandler {
          handler := EventRun;
        }
        return;
      }
      wqueue := wqueue[0 := wqueue[0].(pending := true)];
      o := HandleFront(r);
    }

    // sock_call_handler for a writable descriptor: clear the slot, then call. With the invariant,
    // sock_event_run never meets a pending front.
    method Writable(r: WriteResult) returns (o: Outcome)
      requires Ready()
      requires r.Wrote? ==> r.n <= Need()
      modifies this
      ensures open && Linked()
      ensures o == NotCalled ==> Ready()
      ensures old(handler) == NoHandler || (old(direct.None?) && old(wqueue) == []) ==>
        o == NotCalled && pipe == old(pipe) && head == old(head) && direct == old(direct) && handler == NoHandler
      ensures old(direct.None?) && old(wqueue) != [] ==>
        && direct.None? && head == old(head)
        && pipe == (if r.Wrote? then old(pipe).Send(r.n) else old(pipe))
        && (o.Called? <==> r.Failed? || (r.Wrote? && pipe.sent == |pipe.queued[pipe.done]|))
        && (o.Called? ==> o == Called(OnBodySent, r.Failed?, pipe.sent) && wqueue != [])
        && (o.Called? && !r.Failed? ==> InCallback(pipe.sent))
      ensures old(direct.Some?) ==> var ws := old(direct).value; var n := if r.Wrote? then r.n else 0;
        && pipe == old(pipe) && wqueue == [] && head == old(head) + ws.buf[ws.offset..ws.offset + n]
        && (o.Called? <==> r.Failed? || (r.Wrote? && ws.offset + n == |ws.buf|))
        && (o.Called? ==> o == Called(ws.callback, r.Failed?, if r.Failed? then ws.offset else |ws.buf|) && direct.None?)
        && (o.Called? && !r.Failed? ==> handler == NoHandler)
        && (o == NotCalled ==> direct == Some(ws.(offset := ws.offset + n)))
    {
      hide Flatten;
      if handler == NoHandler {
        return NotCalled;
      }
      var h := handler;
      handler := NoHandler;
      match h
      case EventRun => o := RunEvent(r);
      case HandleWrite(id) =>
        if direct.Some? {
          o := HandleDirect(r);
        } else {
          o := HandleFront(r);
        }
    }

    // How much the next write would try to put out.
    function Need(): nat
      requires Linked()
      reads this
    {
      if direct.Some? then |direct.value.buf| - direct.value.offset
      else if wqueue != [] then |wqueue[0].ws.buf| - wqueue[0].ws.offset
      else 0
    }

    // Whenever something waits to be written, a handler is registered and write interest is set; the next
    // write offers what is left of the first buffer that is not out.
    lemma NoLostWakeup()
      requires Ready()
      ensures direct.Some? || pipe.done < |pipe.queued| ==> wantWrite && handler != NoHandler
      ensures direct.None? ==> Need() == if pipe.done < |pipe.queued| then |pipe.queued[pipe.done]| - pipe.sent else 0
      ensures direct.Some? ==> Need() == |direct.value.buf| - direct.value.offset
    {
      if direct.None? && pipe.done < |pipe.queued| {
        assert wqueue[0].ws.buf == pipe.queued[pipe.done + 0];
      }
    }

    // The part of http_reply_body_send_done that unlinks the front event (efree).
    method Pop(size: nat)
      requires open && InCallback(size)
      modifies this
      ensures open && Linked() && direct.None? && handler == NoHandler && wantWrite
      ensures pipe == old(pipe).Report() && head == old(head) && wire == old(wire)
      ensures wqueue != [] ==> !wqueue[0].pending
    {
      ReportKeepsWire(pipe);
      pipe := pipe.Report();
      wqueue := wqueue[1..];
    }

    // efree on an error: the front event goes although its buffer is not out.
    method Drop()
      requires Accounted() && wqueue != []
      modifies this`wqueue
      ensures Accounted() && wqueue == old(wqueue)[1..]
    {
      wqueue := wqueue[1..];
    }

    // sock_register_event with sock_event_run, after Pop: the queue is armed again.
    method Rearm()
      requires open && Linked() && direct.None? && handler == NoHandler && wantWrite
      requires wqueue != [] ==> !wqueue[0].pending
      modifies this`handler
      ensures Ready()
    {
      handler := EventRun;
    }

    // sock_close
    method Close()
      requires Accounted()
      modifies this`open, this`wantWrite, this`handler
      ensures !open && Accounted() && (old(open) ==> handler == NoHandler)
    {
      if open {
        open, wantWrite, handler := false, false, NoHandler;
      }
    }
  }
}
