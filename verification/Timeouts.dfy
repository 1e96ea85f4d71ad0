// From sock_timeout_set to the scan that calls the handler: whether a descriptor is called, by the times that were
// set for it.
module Timeouts {
  import opened Common
  import opened FdTable

  // ---- Open descriptors are within the scan ----

  // Open descriptors are at most biggest_fd, closed ones have no handler.
  predicate Bounded(s: Sys) {
    forall fd: nat :: fd < |s.table| ==>
      if s.table[fd].open then fd <= s.biggest && fd in s.descriptors else !s.table[fd].armed
  }

  lemma DidKeepsBounded(s: Sys, action: Action)
    requires Bounded(s) && action.fd < |s.table|
    ensures Bounded(s.Did(action))
  {
  }

  lemma {:induction false} ActedKeepsBounded(s: Sys, actions: seq<Action>)
    requires Bounded(s) && Within(actions, |s.table|)
    ensures Bounded(s.Acted(actions))
  {
    hide Bounded, Sys.Did;
    if actions != [] {
      ActedKeepsBounded(s, actions[..|actions| - 1]);
      DidKeepsBounded(s.Acted(actions[..|actions| - 1]), actions[|actions| - 1]);
    }
  }

  lemma TurnKeepsBounded(s: Sys, now: int, actions: seq<Action>, i: nat)
    requires Bounded(s) && i < |s.table| && Within(actions, |s.table|)
    ensures Bounded(Turn(s, now, actions, i))
  {
    ActedKeepsBounded(s, actions);
  }

  lemma {:induction false} ScanKeepsBounded(s: Sys, now: int, handlers: seq<seq<Action>>, n: nat)
    requires Bounded(s) && n <= |s.table| == |handlers|
    requires forall i :: 0 <= i < |handlers| ==> Within(handlers[i], |handlers|)
    ensures Bounded(ScanTo(s, now, handlers, n).0)
  {
    hide Bounded, Turn, Within;
    if n > 0 {
      ScanKeepsBounded(s, now, handlers, n - 1);
      TurnKeepsBounded(ScanTo(s, now, handlers, n - 1).0, now, handlers[n - 1], n - 1);
    }
  }

  lemma NextKeepsBounded(s: Sys, op: Op, listener: nat)
    requires Bounded(s)
    ensures Bounded(Next(s, op, listener)) && |Next(s, op, listener).table| == |s.table|
  {
    hide ScanTo, Within;
    if Possible(s, op, listener) && op.DoScan? {
      ScanKeepsBounded(s, op.now, op.handlers, s.biggest + 1);
    }
  }

  lemma {:induction false} AlwaysBounded(max: nat, live: set<nat>, listener: nat, ops: seq<Op>)
    requires listener < max
    ensures var s := After(Started(max, live, listener), ops, listener); Bounded(s) && |s.table| == max
  {
    hide Bounded, Next;
    if ops == [] {
      StartedIsBounded(max, live, listener);
    } else {
      AlwaysBounded(max, live, listener, ops[..|ops| - 1]);
      NextKeepsBounded(After(Started(max, live, listener), ops[..|ops| - 1], listener), ops[|ops| - 1], listener);
    }
  }

  lemma StartedIsBounded(max: nat, live: set<nat>, listener: nat)
    requires listener < max
    ensures Bounded(Started(max, live, listener)) && |Started(max, live, listener).table| == max
  {
  }

  // ---- What is pending for a descriptor ----

  // The moment behind which the handler is to be called: that of the last sock_timeout_set with a positive time.
  function LastSet(ops: seq<Op>, fd: nat): Option<int> {
    if ops == [] then None else
      var op := ops[|ops| - 1];
      if op.DoArm? && op.fd == fd && op.time > 0 then Some(op.now + op.time) else LastSet(ops[..|ops| - 1], fd)
  }

  // The descriptor is not opened or closed, and no handler of a scan acts on it.
  predicate LeavesAlone(op: Op, fd: nat) {
    match op
    case DoOpen(f, _) => f != fd
    case DoClose(f) => f != fd
    case DoScan(_, handlers) => forall j :: 0 <= j < |handlers| ==> !Touches(handlers[j], fd)
    case _ => true
  }

  // Nor does a scan come too late for what is pending.
  predicate Undisturbed(ops: seq<Op>, fd: nat) {
    forall k :: 0 <= k < |ops| ==>
      LeavesAlone(ops[k], fd)
      && (ops[k].DoScan? && LastSet(ops[..k], fd).Some? ==> ops[k].now <= LastSet(ops[..k], fd).value)
  }

  predicate Holding(s: Sys, fd: nat, socket: bool, pending: Option<int>) {
    && fd < |s.table| && s.table[fd].open && s.table[fd].socket == socket && s.table[fd].armed == pending.Some?
    && (pending.Some? ==> s.table[fd].timeout == pending.value)
  }

  lemma TurnHolds(s: Sys, now: int, actions: seq<Action>, i: nat, fd: nat, socket: bool, pending: Option<int>)
    requires i < |s.table| && Within(actions, |s.table|) && Holding(s, fd, socket, pending) && !Touches(actions, fd)
    requires i != fd || pending.None? || now <= pending.value
    ensures Holding(Turn(s, now, actions, i), fd, socket, pending)
  {
    ActedTouches(s, actions, fd);
  }

  // Before its own turn, and at it if it is too early, a descriptor stays as it is.
  lemma {:induction false} ScanHolds(s: Sys, now: int, handlers: seq<seq<Action>>, m: nat, n: nat, fd: nat, socket: bool,
      pending: Option<int>)
    requires m <= n <= |s.table| == |handlers| && forall i :: 0 <= i < |handlers| ==> Within(handlers[i], |handlers|)
    requires Holding(ScanTo(s, now, handlers, m).0, fd, socket, pending)
    requires forall j :: m <= j < n ==> !Touches(handlers[j], fd)
    requires n <= fd || pending.None? || now <= pending.value
    ensures Holding(ScanTo(s, now, handlers, n).0, fd, socket, pending)
  {
    hide Holding, Turn, Within, Touches;
    if n > m {
      ScanHolds(s, now, handlers, m, n - 1, fd, socket, pending);
      TurnHolds(ScanTo(s, now, handlers, n - 1).0, now, handlers[n - 1], n - 1, fd, socket, pending);
    }
  }

  lemma NextHolds(s: Sys, op: Op, listener: nat, fd: nat, socket: bool, pending: Option<int>)
    requires Holding(s, fd, socket, pending) && LeavesAlone(op, fd)
    requires op.DoScan? && pending.Some? ==> op.now <= pending.value
    ensures Holding(Next(s, op, listener), fd, socket,
      if op.DoArm? && op.fd == fd && op.time > 0 then Some(op.now + op.time) else pending)
  {
    hide Within, Touches;
    if Possible(s, op, listener) && op.DoScan? {
      ScanNone(s, op.now, op.handlers);
      hide ScanTo;
      ScanHolds(s, op.now, op.handlers, 0, s.biggest + 1, fd, socket, pending);
    }
  }

  lemma {:induction false} AfterHolds(s: Sys, ops: seq<Op>, listener: nat, fd: nat, socket: bool)
    requires Holding(s, fd, socket, None) && Undisturbed(ops, fd)
    ensures Holding(After(s, ops, listener), fd, socket, LastSet(ops, fd))
  {
    hide Holding, Next, LeavesAlone;
    if ops != [] {
      var n := |ops| - 1;
      assert forall k :: 0 <= k < n ==> ops[..n][k] == ops[k] && ops[..n][..k] == ops[..k];
      AfterHolds(s, ops[..n], listener, fd, socket);
      NextHolds(After(s, ops[..n], listener), ops[n], listener, fd, socket, LastSet(ops[..n], fd));
    }
  }

  // ---- Whether a scan calls it ----

  // Its own turn decides.
  lemma {:induction false} TurnCalls(s: Sys, now: int, handlers: seq<seq<Action>>, n: nat, fd: nat)
    requires fd < n <= |s.table| == |handlers| && forall i :: 0 <= i < |handlers| ==> Within(handlers[i], |handlers|)
    ensures fd in ScanTo(s, now, handlers, n).1 <==> Due(ScanTo(s, now, handlers, fd).0.table[fd], now)
  {
    hide Turn, Within, Touches, Due;
    if n == fd + 1 {
      hide ScanTo;
      CalledInOrder(s, now, handlers, fd);
      ScanTurn(s, now, handlers, fd);
    } else {
      TurnCalls(s, now, handlers, n - 1, fd);
    }
  }

  lemma ScanCalls(s: Sys, now: int, handlers: seq<seq<Action>>, n: nat, fd: nat, socket: bool, pending: Option<int>)
    requires fd < n <= |s.table| == |handlers| && forall i :: 0 <= i < |handlers| ==> Within(handlers[i], |handlers|)
    requires Holding(s, fd, socket, pending) && forall j :: 0 <= j < fd ==> !Touches(handlers[j], fd)
    ensures fd in ScanTo(s, now, handlers, n).1 <==> socket && pending.Some? && now > pending.value
  {
    hide Within, Touches;
    ScanNone(s, now, handlers);
    ScanHolds(s, now, handlers, 0, fd, fd, socket, pending);
    TurnCalls(s, now, handlers, n, fd);
  }

  lemma AfterMore(s: Sys, a: seq<Op>, b: seq<Op>, listener: nat)
    ensures After(s, a + b, listener) == After(After(s, a, listener), b, listener)
  {
    if b == [] {
      assert a + b == a;
    } else {
      var n := |b| - 1;
      AfterMore(s, a, b[..n], listener);
      assert (a + b)[..|a + b| - 1] == a + b[..n];
    }
  }

  lemma AfterOpen(s: Sys, fd: nat, socket: bool, listener: nat)
    requires Bounded(s) && Possible(s, DoOpen(fd, socket), listener)
    ensures Holding(After(s, [DoOpen(fd, socket)], listener), fd, socket, None)
  {
    var op := DoOpen(fd, socket);
    assert [op][..0] == [];
    assert After(s, [], listener) == s;
  }

  // A descriptor is opened, and afterwards timeouts are set for it while scans come too early: the next scan calls
  // it exactly if it is a socket, a timeout was set, and the last one set has passed.
  lemma CalledIff(max: nat, live: set<nat>, listener: nat, before: seq<Op>, fd: nat, socket: bool, ops: seq<Op>,
      now: int, handlers: seq<seq<Action>>)
    requires listener < max
    requires Possible(After(Started(max, live, listener), before, listener), DoOpen(fd, socket), listener)
    requires Undisturbed(ops, fd)
    requires var s := After(Started(max, live, listener), before + [DoOpen(fd, socket)] + ops, listener);
      Possible(s, DoScan(now, handlers), listener) && fd < |handlers|
    requires forall j :: 0 <= j < fd ==> !Touches(handlers[j], fd)
    ensures var s := After(Started(max, live, listener), before + [DoOpen(fd, socket)] + ops, listener);
      fd in ScanTo(s, now, handlers, s.biggest + 1).1
      <==> socket && LastSet(ops, fd).Some? && now > LastSet(ops, fd).value
  {
    hide After, Next, Undisturbed, LeavesAlone, Touches, ScanTo, Within, Started, LastSet;
    var s0 := Started(max, live, listener);
    var opening := [DoOpen(fd, socket)];
    AlwaysBounded(max, live, listener, before);
    AfterOpen(After(s0, before, listener), fd, socket, listener);
    AfterMore(s0, before, opening, listener);
    AfterMore(s0, before + opening, ops, listener);
    AfterHolds(After(s0, before + opening, listener), ops, listener, fd, socket);
    AlwaysBounded(max, live, listener, before + opening + ops);
    var s := After(s0, before + opening + ops, listener);
    ScanCalls(s, now, handlers, s.biggest + 1, fd, socket, LastSet(ops, fd));
  }

  // The same, said of one timeout set at the moment t.
  lemma CalledWhenDue(max: nat, live: set<nat>, listener: nat, before: seq<Op>, fd: nat, socket: bool, quiet: seq<Op>,
      t: int, time: int, after: seq<Op>, now: int, handlers: seq<seq<Action>>)
    requires listener < max
    requires Possible(After(Started(max, live, listener), before, listener), DoOpen(fd, socket), listener)
    requires forall op :: op in quiet ==> Apart(op, fd)
    requires forall op :: op in after ==> Apart(op, fd) && (op.DoScan? && time > 0 ==> op.now <= t + time)
    requires var ops := quiet + [DoArm(fd, t, time)] + after;
      var s := After(Started(max, live, listener), before + [DoOpen(fd, socket)] + ops, listener);
      Possible(s, DoScan(now, handlers), listener) && fd < |handlers|
    requires forall j :: 0 <= j < fd ==> !Touches(handlers[j], fd)
    ensures var ops := quiet + [DoArm(fd, t, time)] + after;
      var s := After(Started(max, live, listener), before + [DoOpen(fd, socket)] + ops, listener);
      fd in ScanTo(s, now, handlers, s.biggest + 1).1 <==> socket && time > 0 && now > t + time
  {
    hide After, Next, Touches, ScanTo, Within, Started, Possible;
    SetOnce(quiet, fd, t, time, after);
    CalledIff(max, live, listener, before, fd, socket, quiet + [DoArm(fd, t, time)] + after, now, handlers);
  }

  predicate Apart(op: Op, fd: nat) {
    LeavesAlone(op, fd) && !(op.DoArm? && op.fd == fd)
  }

  lemma LastSetMore(ops: seq<Op>, op: Op, fd: nat)
    ensures LastSet(ops + [op], fd)
      == if op.DoArm? && op.fd == fd && op.time > 0 then Some(op.now + op.time) else LastSet(ops, fd)
  {
    assert (ops + [op])[..|ops|] == ops;
  }

  lemma OneMore(ops: seq<Op>, op: Op, fd: nat)
    requires Undisturbed(ops, fd) && LeavesAlone(op, fd)
    requires op.DoScan? && LastSet(ops, fd).Some? ==> op.now <= LastSet(ops, fd).value
    ensures Undisturbed(ops + [op], fd)
    ensures LastSet(ops + [op], fd)
      == if op.DoArm? && op.fd == fd && op.time > 0 then Some(op.now + op.time) else LastSet(ops, fd)
  {
    hide LeavesAlone, LastSet;
    LastSetMore(ops, op, fd);
    var more := ops + [op];
    forall k | 0 <= k < |more|
      ensures LeavesAlone(more[k], fd)
      ensures more[k].DoScan? && LastSet(more[..k], fd).Some? ==> more[k].now <= LastSet(more[..k], fd).value
    {
      if k < |ops| {
        assert more[..k] == ops[..k] && more[k] == ops[k];
      } else {
        assert more[..k] == ops;
      }
    }
  }

  lemma {:induction false} NeverSet(ops: seq<Op>, fd: nat)
    requires forall op :: op in ops ==> Apart(op, fd)
    ensures LastSet(ops, fd) == None && Undisturbed(ops, fd)
  {
    hide LeavesAlone;
    if ops != [] {
      var n := |ops| - 1;
      assert ops == ops[..n] + [ops[n]] && ops[n] in ops;
      hide Undisturbed;
      NeverSet(ops[..n], fd);
      OneMore(ops[..n], ops[n], fd);
    }
  }

  lemma {:induction false} SetOnce(quiet: seq<Op>, fd: nat, t: int, time: int, after: seq<Op>)
    requires forall op :: op in quiet ==> Apart(op, fd)
    requires forall op :: op in after ==> Apart(op, fd) && (op.DoScan? && time > 0 ==> op.now <= t + time)
    ensures var ops := quiet + [DoArm(fd, t, time)] + after;
      LastSet(ops, fd) == (if time > 0 then Some(t + time) else None) && Undisturbed(ops, fd)
  {
    hide LeavesAlone, Undisturbed, LastSet;
    var ops := quiet + [DoArm(fd, t, time)];
    if after == [] {
      NeverSet(quiet, fd);
      ArmLeavesAlone(fd, t, time);
      OneMore(quiet, DoArm(fd, t, time), fd);
      assert ops + after == ops;
    } else {
      var n := |after| - 1;
      SetOnce(quiet, fd, t, time, after[..n]);
      assert after[n] in after && ops + after == ops + after[..n] + [after[n]];
      OneMore(ops + after[..n], after[n], fd);
    }
  }

  lemma ArmLeavesAlone(fd: nat, t: int, time: int)
    ensures LeavesAlone(DoArm(fd, t, time), fd)
  {
  }

  // ---- Once only ----

  // No timeout is set for the descriptor; it may be closed and opened anew.
  predicate Unset(op: Op, fd: nat) {
    && !(op.DoArm? && op.fd == fd)
    && (op.DoScan? ==> forall j :: 0 <= j < |op.handlers| ==> !Touches(op.handlers[j], fd))
  }

  predicate Idle(s: Sys, fd: nat) {
    fd < |s.table| && !s.table[fd].armed
  }

  lemma TurnIdle(s: Sys, now: int, actions: seq<Action>, i: nat, fd: nat)
    requires i < |s.table| && Within(actions, |s.table|) && Idle(s, fd) && !Touches(actions, fd)
    ensures Idle(Turn(s, now, actions, i), fd)
  {
    ActedTouches(s, actions, fd);
  }

  lemma {:induction false} ScanIdle(s: Sys, now: int, handlers: seq<seq<Action>>, m: nat, n: nat, fd: nat)
    requires m <= n <= |s.table| == |handlers| && forall i :: 0 <= i < |handlers| ==> Within(handlers[i], |handlers|)
    requires Idle(ScanTo(s, now, handlers, m).0, fd)
    requires forall j :: m <= j < n ==> !Touches(handlers[j], fd)
    ensures Idle(ScanTo(s, now, handlers, n).0, fd)
  {
    hide Idle, Turn, Within, Touches;
    if n > m {
      ScanIdle(s, now, handlers, m, n - 1, fd);
      TurnIdle(ScanTo(s, now, handlers, n - 1).0, now, handlers[n - 1], n - 1, fd);
    }
  }

  lemma NextIdle(s: Sys, op: Op, listener: nat, fd: nat)
    requires Idle(s, fd) && Unset(op, fd)
    ensures Idle(Next(s, op, listener), fd)
  {
    hide Within, Touches;
    if Possible(s, op, listener) && op.DoScan? {
      ScanNone(s, op.now, op.handlers);
      hide ScanTo;
      ScanIdle(s, op.now, op.handlers, 0, s.biggest + 1, fd);
    }
  }

  // As long as no timeout is set, no scan calls it.
  lemma {:induction false} IdleIsNotCalled(s: Sys, ops: seq<Op>, listener: nat, fd: nat, now: int, handlers: seq<seq<Action>>)
    requires Idle(s, fd) && forall op :: op in ops ==> Unset(op, fd)
    requires Possible(After(s, ops, listener), DoScan(now, handlers), listener)
    requires forall j :: 0 <= j < |handlers| ==> !Touches(handlers[j], fd)
    ensures var t := After(s, ops, listener); fd !in ScanTo(t, now, handlers, t.biggest + 1).1
  {
    hide ScanTo, Touches, Within, Unset, Idle, Next;
    var t := After(s, ops, listener);
    AfterIdle(s, ops, listener, fd);
    NotCalled(t, now, handlers, t.biggest + 1, fd);
  }

  lemma NotCalled(s: Sys, now: int, handlers: seq<seq<Action>>, n: nat, fd: nat)
    requires n <= |s.table| == |handlers| && forall i :: 0 <= i < |handlers| ==> Within(handlers[i], |handlers|)
    requires Idle(s, fd) && forall j :: 0 <= j < |handlers| ==> !Touches(handlers[j], fd)
    ensures fd !in ScanTo(s, now, handlers, n).1
  {
    hide Within, Touches;
    CalledInOrder(s, now, handlers, n);
    if fd < n {
      ScanNone(s, now, handlers);
      ScanIdle(s, now, handlers, 0, fd, fd);
      TurnCalls(s, now, handlers, n, fd);
    }
  }

  lemma {:induction false} AfterIdle(s: Sys, ops: seq<Op>, listener: nat, fd: nat)
    requires Idle(s, fd) && forall op :: op in ops ==> Unset(op, fd)
    ensures Idle(After(s, ops, listener), fd)
  {
    hide Idle, Unset, Next;
    if ops != [] {
      var n := |ops| - 1;
      assert ops[n] in ops && forall op :: op in ops[..n] ==> op in ops;
      AfterIdle(s, ops[..n], listener, fd);
      NextIdle(After(s, ops[..n], listener), ops[n], listener, fd);
    }
  }

  // Once a scan has called it, no later one does until a timeout is set again; one that its own handler set does
  // not count.
  lemma CalledOnce(s: Sys, now: int, handlers: seq<seq<Action>>, fd: nat, ops: seq<Op>, listener: nat, later: int,
      handlers': seq<seq<Action>>)
    requires Possible(s, DoScan(now, handlers), listener) && fd in ScanTo(s, now, handlers, s.biggest + 1).1
    requires forall j :: fd < j < |handlers| ==> !Touches(handlers[j], fd)
    requires forall op :: op in ops ==> Unset(op, fd)
    requires Possible(After(Next(s, DoScan(now, handlers), listener), ops, listener), DoScan(later, handlers'), listener)
    requires forall j :: 0 <= j < |handlers'| ==> !Touches(handlers'[j], fd)
    ensures var t := After(Next(s, DoScan(now, handlers), listener), ops, listener);
      fd !in ScanTo(t, later, handlers', t.biggest + 1).1
  {
    hide Touches, Within, Unset, ScanTo;
    CalledInOrder(s, now, handlers, s.biggest + 1);
    TurnCalls(s, now, handlers, s.biggest + 1, fd);
    ScanTurn(s, now, handlers, fd);
    assert Idle(ScanTo(s, now, handlers, fd + 1).0, fd) by {
      TurnMeans(ScanTo(s, now, handlers, fd).0, now, handlers[fd], fd);
    }
    ScanIdle(s, now, handlers, fd + 1, s.biggest + 1, fd);
    IdleIsNotCalled(Next(s, DoScan(now, handlers), listener), ops, listener, fd, later, handlers');
  }

  // What was pending for a descriptor that is closed is gone, even if it is opened anew.
  lemma ClosedIsNotCalled(max: nat, live: set<nat>, listener: nat, before: seq<Op>, fd: nat, ops: seq<Op>, now: int,
      handlers: seq<seq<Action>>)
    requires listener < max
    requires var s := After(Started(max, live, listener), before, listener); Possible(s, DoClose(fd), listener)
    requires forall op :: op in ops ==> Unset(op, fd)
    requires var s := After(Started(max, live, listener), before, listener);
      Possible(After(Next(s, DoClose(fd), listener), ops, listener), DoScan(now, handlers), listener)
    requires forall j :: 0 <= j < |handlers| ==> !Touches(handlers[j], fd)
    ensures var s := After(Started(max, live, listener), before, listener);
      var t := After(Next(s, DoClose(fd), listener), ops, listener); fd !in ScanTo(t, now, handlers, t.biggest + 1).1
  {
    hide Touches, Within, Unset, ScanTo, After, Started;
    AlwaysBounded(max, live, listener, before);
    var s := After(Started(max, live, listener), before, listener);
    assert Idle(Next(s, DoClose(fd), listener), fd);
    IdleIsNotCalled(Next(s, DoClose(fd), listener), ops, listener, fd, now, handlers);
  }

  // ---- What an earlier handler did to it ----

  // The only action on the descriptor is the k-th.
  predicate Only(actions: seq<Action>, k: nat, fd: nat) {
    k < |actions| && actions[k].fd == fd && forall i :: 0 <= i < |actions| && i != k ==> actions[i].fd != fd
  }

  lemma {:induction false} ActedOnce(s: Sys, actions: seq<Action>, k: nat, fd: nat)
    requires Within(actions, |s.table|) && Only(actions, k, fd)
    ensures s.Acted(actions).table[fd] == s.Did(actions[k]).table[fd]
  {
    var n := |actions| - 1;
    if k == n {
      assert !Touches(actions[..n], fd);
      ActedTouches(s, actions[..n], fd);
    } else {
      ActedOnce(s, actions[..n], k, fd);
    }
  }

  // A handler that was called for j decides: a descriptor behind j that it closed is not called in this scan, one
  // whose timeout it set is called by that.
  lemma HandlerDecides(s: Sys, now: int, handlers: seq<seq<Action>>, n: nat, j: nat, k: nat, fd: nat, socket: bool,
      pending: Option<int>)
    requires j < fd < n <= |s.table| == |handlers| && forall i :: 0 <= i < |handlers| ==> Within(handlers[i], |handlers|)
    requires Holding(s, fd, socket, pending) && j in ScanTo(s, now, handlers, n).1
    requires Only(handlers[j], k, fd) && forall i :: 0 <= i < fd && i != j ==> !Touches(handlers[i], fd)
    ensures fd in ScanTo(s, now, handlers, n).1 <==>
      match handlers[j][k]
      case CloseFd(_) => false
      case SetTimeout(_, t, time) =>
        socket && if time > 0 then now > t + time else pending.Some? && now > pending.value
  {
    hide Within, Touches, ScanTo;
    ScanNone(s, now, handlers);
    ScanHolds(s, now, handlers, 0, j, fd, socket, pending);
    TurnCalls(s, now, handlers, n, j);
    TurnCalls(s, now, handlers, n, fd);
    ScanTurn(s, now, handlers, j);
    var b := ScanTo(s, now, handlers, j).0;
    DueTurn(b, now, handlers[j], k, j, fd);
    match handlers[j][k]
    case CloseFd(_) =>
      assert Idle(ScanTo(s, now, handlers, j + 1).0, fd);
      ScanIdle(s, now, handlers, j + 1, fd, fd);
    case SetTimeout(_, t, time) =>
      var p := if time > 0 then Some(t + time) else pending;
      assert Holding(ScanTo(s, now, handlers, j + 1).0, fd, socket, p);
      ScanHolds(s, now, handlers, j + 1, fd, fd, socket, p);
  }

  lemma DueTurn(s: Sys, now: int, actions: seq<Action>, k: nat, j: nat, fd: nat)
    requires j < |s.table| && fd < |s.table| && j != fd && Due(s.table[j], now)
    requires Within(actions, |s.table|) && Only(actions, k, fd)
    ensures Turn(s, now, actions, j).table[fd] == s.Did(actions[k]).table[fd]
  {
    ActedOnce(s, actions, k, fd);
  }
}
