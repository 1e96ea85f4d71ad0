// The descriptor table of smartc/sock_io.c and the epoll bookkeeping of
// smartc/sock_epoll.c, next to the kernel's own view of both.
module FdTable {
  datatype Interest = Interest(rd: bool, wr: bool)

  const NONE := Interest(false, false)

  datatype Ctl = AddCtl | ModCtl | DelCtl

  // fd_t, as far as opening, closing and timeouts go; armed: timeout_handler is not null.
  datatype Fd = Fd(open: bool, socket: bool, timeout: int, armed: bool)

  const UNUSED := Fd(false, false, 0, false)

  // What a timeout handler does to the table: close a descriptor, or sock_timeout_set at the moment now.
  datatype Action = CloseFd(fd: nat) | SetTimeout(fd: nat, now: int, time: int)

  // What the operations change: the table with biggest_fd, the kernel's descriptors and its interest list.
  datatype Sys = Sys(table: seq<Fd>, biggest: int, descriptors: set<nat>, interest: map<nat, Interest>) {
    function Opened(fd: nat, socket: bool): Sys
      requires fd < |table|
    {
      var t := table[fd := table[fd].(open := true, socket := socket)];
      Sys(t, if fd > biggest then fd else biggest, descriptors + {fd}, interest)
    }

    function Set(fd: nat, events: Interest): Sys {
      this.(interest := if events == NONE then interest - {fd} else interest[fd := events])
    }

    function Closed(fd: nat): Sys
      requires fd < |table|
    {
      if !table[fd].open then this else
        var t := table[fd := table[fd].(open := false, armed := false)];
        Sys(t, if fd >= biggest then biggest - 1 else biggest, descriptors - {fd}, interest - {fd})
    }

    function Armed(fd: nat, now: int, time: int): Sys
      requires fd < |table|
    {
      if time <= 0 || !table[fd].open then this
      else this.(table := table[fd := table[fd].(timeout := now + time, armed := true)])
    }

    function Did(action: Action): (r: Sys)
      requires action.fd < |table|
      ensures |r.table| == |table|
    {
      match action
      case CloseFd(fd) => Closed(fd)
      case SetTimeout(fd, now, time) => Armed(fd, now, time)
    }

    // A timeout handler's actions, one after the other.
    function Acted(actions: seq<Action>): (r: Sys)
      requires Within(actions, |table|)
      ensures |r.table| == |table|
    {
      if actions == [] then this else
        var before := Acted(actions[..|actions| - 1]);
        before.Did(actions[|actions| - 1])
    }
  }

  class Poller {
    var table: array<Fd>
    var state: array<Interest>
    var biggest: int

    // The kernel: which descriptors exist, and the interest list of the epoll instance.
    var descriptors: set<nat>
    ghost var interest: map<nat, Interest>

    ghost function View(): Sys
      reads this`table, this`biggest, this`descriptors, this`interest, table
    {
      Sys(table[..], biggest, descriptors, interest)
    }

    // epoll_state tells exactly what the kernel watches.
    ghost predicate Mirror()
      reads this`state, this`interest, this`descriptors, state
    {
      && interest.Keys <= descriptors
      && (forall fd :: fd in interest ==> fd < state.Length)
      && forall fd: nat :: fd < state.Length ==>
           if state[fd] == NONE then fd !in interest else fd in interest && interest[fd] == state[fd]
    }

    // Open entries are live descriptors below biggest_fd, closed ones are not watched.
    ghost predicate Tracked()
      reads this`table, this`state, this`biggest, this`descriptors, table, state
    {
      && table.Length == state.Length
      && 0 <= biggest < table.Length
      && forall fd: nat :: fd < table.Length ==>
           if table[fd].open then fd in descriptors && fd <= biggest else state[fd] == NONE
    }

    ghost predicate Valid()
      reads this, table, state
    {
      Mirror() && Tracked()
    }

    // The tables are zeroed; descriptors opened before the proxy are in neither.
    constructor (max: nat, live: set<nat>)
      requires max > 0
      ensures Valid() && table.Length == max && descriptors == live && fresh(table) && fresh(state)
      ensures View() == Sys(seq(max, _ => UNUSED), 0, live, map[])
    {
      table := new Fd[max](_ => UNUSED);
      state := new Interest[max](_ => NONE);
      biggest := 0;
      descriptors, interest := live, map[];
    }

    // epoll_ctl(2): EBADF for no descriptor, EEXIST for a second ADD, ENOENT for MOD and DEL of nothing.
    ghost predicate Legal(op: Ctl, fd: nat)
      reads this`descriptors, this`interest
    {
      fd in descriptors && (op == AddCtl <==> fd !in interest)
    }

    ghost method EpollCtl(op: Ctl, fd: nat, ev: Interest)
      modifies this`interest
      ensures interest ==
        if !old(Legal(op, fd)) then old(interest)
        else if op == DelCtl then old(interest) - {fd}
        else old(interest)[fd := ev]
    {
      if Legal(op, fd) {
        interest := if op == DelCtl then interest - {fd} else interest[fd := ev];
      }
    }

    // sock_set_event. legal: no epoll_ctl was needed, or the one chosen was accepted. The mirror
    // survives exactly then, and that is when the descriptor exists or nothing is asked for.
    method SetEvent(fd: nat, rd: bool, wr: bool) returns (ghost legal: bool)
      requires fd < state.Length && Mirror()
      modifies this`interest, state
      ensures state[..] == old(state[..])[fd := Interest(rd, wr)]
      ensures legal <==> fd in descriptors || Interest(rd, wr) == NONE
      ensures Mirror() <==> legal
      ensures legal ==> View() == old(View()).Set(fd, Interest(rd, wr))
      ensures forall other :: other != fd ==> (other in interest <==> other in old(interest))
    {
      legal := true;
      var events := Interest(rd, wr);
      if events != state[fd] {
        var op: Ctl;
        if events == NONE {
          op := DelCtl;
        } else if state[fd] != NONE {
          op := ModCtl;
        } else {
          op := AddCtl;
        }
        state[fd] := events;
        legal := Legal(op, fd);
        EpollCtl(op, fd, events);
      }
    }

    // socket or accept gave a new descriptor; fd_open enters it.
    method Open(fd: nat, socket: bool)
      requires Valid() && fd < table.Length && fd !in descriptors
      modifies this`descriptors, this`biggest, table
      ensures Valid() && View() == old(View()).Opened(fd, socket)
    {
      descriptors := descriptors + {fd};
      table[fd] := table[fd].(open := true, socket := socket);
      if fd > biggest {
        biggest := fd;
      }
    }

    // sock_close; failed: the assertion biggest_fd > 0 of fd_close stops the process.
    method Close(fd: nat) returns (failed: bool)
      requires Valid() && fd < table.Length
      modifies this`interest, this`descriptors, this`biggest, table, state
      ensures failed <==> old(table[fd].open) && fd == old(biggest) <= 1
      ensures !failed ==> Valid()
      ensures View() == old(View()).Closed(fd)
    {
      failed := false;
      if !table[fd].open {
        return;
      }
      ghost var legal := SetEvent(fd, false, false);
      table[fd] := table[fd].(open := false, armed := false);
      if fd >= biggest {
        biggest := biggest - 1;
        failed := !(biggest > 0);
      }
      descriptors := descriptors - {fd};
    }

    // The listening descriptor is open, above zero, and stays so.
    ghost predicate Serving(listener: nat)
      reads this, table, state
    {
      Valid() && 0 < listener < table.Length && table[listener].open
    }

    // sock_timeout_set: ignored for a time that is not positive and for a closed descriptor.
    method Arm(fd: nat, now: int, time: int)
      requires fd < table.Length
      modifies table
      ensures View() == old(View()).Armed(fd, now, time)
      ensures forall i :: 0 <= i < table.Length ==> table[i].open == old(table[i].open)
    {
      if time <= 0 {
        return;
      }
      if !table[fd].open {
        return;
      }
      table[fd] := table[fd].(timeout := now + time, armed := true);
    }

    method Act(action: Action, ghost listener: nat) returns (failed: bool)
      requires Serving(listener) && action.fd < table.Length && action != CloseFd(listener)
      modifies this`interest, this`descriptors, this`biggest, table, state
      ensures !failed && Serving(listener)
      ensures View() == old(View()).Did(action)
    {
      match action {
        case CloseFd(fd) => failed := Close(fd);
        case SetTimeout(fd, now, time) =>
          Arm(fd, now, time);
          failed := false;
      }
    }

    // A timeout handler at work. With the listener left open, no close can fail.
    method Handle(actions: seq<Action>, ghost listener: nat) returns (failed: bool)
      requires Serving(listener) && Within(actions, table.Length) && CloseFd(listener) !in actions
      modifies this`interest, this`descriptors, this`biggest, table, state
      ensures !failed && Serving(listener)
      ensures View() == old(View()).Acted(actions)
    {
      failed := false;
      var k := 0;
      while k < |actions|
        invariant k <= |actions| && !failed && Serving(listener)
        invariant View() == old(View()).Acted(actions[..k])
      {
        assert actions[..k + 1][..k] == actions[..k];
        failed := Act(actions[k], listener);
        k := k + 1;
      }
      assert actions[..k] == actions;
    }

    // One turn of the scan; due: the handler was called. The slot is emptied after the call.
    method ScanOne(i: nat, now: int, actions: seq<Action>, ghost listener: nat) returns (due: bool)
      requires Serving(listener) && i < table.Length && Within(actions, table.Length) && CloseFd(listener) !in actions
      modifies this`interest, this`descriptors, this`biggest, table, state
      ensures Serving(listener)
      ensures due == Due(old(table[i]), now) && View() == Turn(old(View()), now, actions, i)
    {
      due := false;
      if table[i].open && table[i].socket && now > table[i].timeout {
        if table[i].armed {
          due := true;
          var failed := Handle(actions, listener);
        }
        table[i] := table[i].(armed := false);
      }
    }

    lemma OpenBelow()
      requires Valid()
      ensures 0 <= biggest < table.Length
      ensures forall fd: nat :: biggest < fd < table.Length ==> !table[fd].open
    {
    }

    // The timeout scan of do_sock_epoll, up to the biggest_fd of its start. handlers says what each
    // descriptor's handler does. Every descriptor that is due is called, in order and once, unless a
    // handler called earlier closed or re-armed it; and a handler that re-arms its own descriptor
    // does so in vain, because the scan clears the slot after the call.
    method Scan(now: int, handlers: seq<seq<Action>>, ghost listener: nat) returns (called: seq<nat>)
      requires Serving(listener) && |handlers| == table.Length
      requires forall i :: 0 <= i < |handlers| ==> Within(handlers[i], |handlers|)
      requires forall i :: 0 <= i < |handlers| ==> CloseFd(listener) !in handlers[i]
      modifies this`interest, this`descriptors, this`biggest, table, state
      ensures Serving(listener)
      ensures (View(), called) == ScanTo(old(View()), now, handlers, old(biggest) + 1)
      ensures Ascending(called, table.Length)
      ensures Scanned(old(table[..]), table[..], now, handlers, called, table.Length)
    {
      hide Scanned, Within, Valid, Turn, ScanTo, Due, Ascending;
      OpenBelow();
      called := [];
      ghost var was := View();
      var last := biggest;
      var i := 0;
      ScanNone(was, now, handlers);
      while i <= last
        invariant i <= last + 1 <= table.Length && Serving(listener)
        invariant last == old(biggest) && (View(), called) == ScanTo(was, now, handlers, i)
      {
        var due := ScanOne(i, now, handlers[i], listener);
        if due {
          called := called + [i];
        }
        ScanTurn(was, now, handlers, i);
        i := i + 1;
      }
      ScanSummary(was, now, handlers, i);
    }
  }

  // One turn of the scan: a due descriptor's handler acts, then the slot is empty.
  function Turn(s: Sys, now: int, actions: seq<Action>, i: nat): (r: Sys)
    requires i < |s.table| && Within(actions, |s.table|)
    ensures |r.table| == |s.table|
  {
    var f := s.table[i];
    if f.open && f.socket && now > f.timeout then
      var after := if f.armed then s.Acted(actions) else s;
      after.(table := after.table[i := after.table[i].(armed := false)])
    else s
  }

  // What the first n turns make of the system, and the descriptors called.
  function ScanTo(s: Sys, now: int, handlers: seq<seq<Action>>, n: nat): (r: (Sys, seq<nat>))
    requires n <= |s.table| == |handlers|
    requires forall i :: 0 <= i < |handlers| ==> Within(handlers[i], |handlers|)
    ensures |r.0.table| == |s.table|
  {
    if n == 0 then (s, []) else
      var (before, called) := ScanTo(s, now, handlers, n - 1);
      (Turn(before, now, handlers[n - 1], n - 1), if Due(before.table[n - 1], now) then called + [n - 1] else called)
  }

  // After the first n entries. Every descriptor that was due is among the called, and a called one
  // was due, unless a handler called earlier closed or re-armed it. A called descriptor's slot is
  // empty, whatever its own handler did, unless a later handler filled it. An entry that was not
  // called is as it was, unless a handler acted on it.
  ghost predicate Scanned(was: seq<Fd>, cur: seq<Fd>, now: int, handlers: seq<seq<Action>>, called: seq<nat>, n: nat) {
    && |was| == |cur| == |handlers| >= n
    && (forall fd: nat :: fd < n && Due(was[fd], now) ==> fd in called || TouchedBy(handlers, called, fd, 0, fd))
    && (forall fd: nat :: fd < n && fd in called ==> Due(was[fd], now) || TouchedBy(handlers, called, fd, 0, fd))
    && (forall fd: nat :: fd < n && fd in called ==> !cur[fd].armed || TouchedBy(handlers, called, fd, fd + 1, n))
    && (forall fd: nat :: fd < n && fd in called ==> cur[fd].(armed := was[fd].armed) == was[fd] || TouchedBy(handlers, called, fd, 0, n))
    && (forall fd: nat :: fd < n && fd !in called ==> cur[fd] == was[fd] || TouchedBy(handlers, called, fd, 0, n))
    && (forall fd: nat :: n <= fd < |was| ==> cur[fd] == was[fd] || TouchedBy(handlers, called, fd, 0, n))
  }

  lemma {:induction false} ActedTouches(s: Sys, actions: seq<Action>, fd: nat)
    requires Within(actions, |s.table|) && fd < |s.table| && !Touches(actions, fd)
    ensures s.Acted(actions).table[fd] == s.table[fd]
  {
    if actions != [] {
      assert actions[|actions| - 1].fd != fd;
      ActedTouches(s, actions[..|actions| - 1], fd);
    }
  }

  lemma ScanNone(s: Sys, now: int, handlers: seq<seq<Action>>)
    requires |s.table| == |handlers| && forall i :: 0 <= i < |handlers| ==> Within(handlers[i], |handlers|)
    ensures ScanTo(s, now, handlers, 0) == (s, []) && Scanned(s.table, s.table, now, handlers, [], 0)
  {
  }

  lemma ScanTurn(s: Sys, now: int, handlers: seq<seq<Action>>, i: nat)
    requires i < |s.table| == |handlers| && forall j :: 0 <= j < |handlers| ==> Within(handlers[j], |handlers|)
    ensures var before := ScanTo(s, now, handlers, i);
      ScanTo(s, now, handlers, i + 1) ==
        (Turn(before.0, now, handlers[i], i), if Due(before.0.table[i], now) then before.1 + [i] else before.1)
  {
  }

  // Numbers below n, ascending.
  ghost predicate Ascending(called: seq<nat>, n: nat) {
    && (forall k :: 0 <= k < |called| ==> called[k] < n)
    && (forall k, j :: 0 <= k < j < |called| ==> called[k] < called[j])
  }

  lemma {:induction false} CalledInOrder(s: Sys, now: int, handlers: seq<seq<Action>>, n: nat)
    requires n <= |s.table| == |handlers|
    requires forall i :: 0 <= i < |handlers| ==> Within(handlers[i], |handlers|)
    ensures Ascending(ScanTo(s, now, handlers, n).1, n)
  {
    hide Within, Turn, Due;
    if n > 0 {
      CalledInOrder(s, now, handlers, n - 1);
      var before, called := ScanTo(s, now, handlers, n - 1).1, ScanTo(s, now, handlers, n).1;
      assert called == before || called == before + [n - 1];
    }
  }

  lemma {:induction false} ScanMeans(s: Sys, now: int, handlers: seq<seq<Action>>, n: nat)
    requires n <= |s.table| == |handlers|
    requires forall i :: 0 <= i < |handlers| ==> Within(handlers[i], |handlers|)
    ensures Scanned(s.table, ScanTo(s, now, handlers, n).0.table, now, handlers, ScanTo(s, now, handlers, n).1, n)
  {
    hide Scanned, ScanTo, Ascending, Turn, Within, Due;
    if n == 0 {
      ScanNone(s, now, handlers);
    } else {
      ScanMeans(s, now, handlers, n - 1);
      CalledInOrder(s, now, handlers, n - 1);
      ScanTurn(s, now, handlers, n - 1);
      TurnScanned(s.table, ScanTo(s, now, handlers, n - 1).0, now, handlers, ScanTo(s, now, handlers, n - 1).1, n - 1);
    }
  }

  lemma ScanSummary(s: Sys, now: int, handlers: seq<seq<Action>>, n: nat)
    requires n <= |s.table| == |handlers|
    requires forall i :: 0 <= i < |handlers| ==> Within(handlers[i], |handlers|)
    requires forall fd: nat :: n <= fd < |s.table| ==> !s.table[fd].open
    ensures var (r, called) := ScanTo(s, now, handlers, n);
      Ascending(called, |s.table|) && Scanned(s.table, r.table, now, handlers, called, |s.table|)
  {
    hide Scanned, ScanTo, Turn, Within;
    CalledInOrder(s, now, handlers, n);
    ScanMeans(s, now, handlers, n);
    ScanRest(s.table, ScanTo(s, now, handlers, n).0.table, now, handlers, ScanTo(s, now, handlers, n).1, n);
  }

  lemma TurnScanned(was: seq<Fd>, s: Sys, now: int, handlers: seq<seq<Action>>, called: seq<nat>, i: nat)
    requires i < |s.table| == |handlers| && forall j :: 0 <= j < |handlers| ==> Within(handlers[j], |handlers|)
    requires Scanned(was, s.table, now, handlers, called, i) && Ascending(called, i)
    ensures Scanned(was, Turn(s, now, handlers[i], i).table, now, handlers,
      if Due(s.table[i], now) then called + [i] else called, i + 1)
  {
    TurnMeans(s, now, handlers[i], i);
    hide Touches, Due, Within, Turn;
    var calls := if Due(s.table[i], now) then called + [i] else called;
    ScanStep(was, s.table, Turn(s, now, handlers[i], i).table, now, handlers, called, calls, i);
  }

  lemma TurnMeans(s: Sys, now: int, actions: seq<Action>, i: nat)
    requires i < |s.table| && Within(actions, |s.table|)
    ensures var (t, due) := (Turn(s, now, actions, i).table, Due(s.table[i], now));
      && (forall fd: nat :: fd < |t| && fd != i ==> t[fd] == s.table[fd] || (due && Touches(actions, fd)))
      && (t[i] == s.table[i].(armed := t[i].armed) || (due && Touches(actions, i)))
      && (if due then !t[i].armed else t[i] == s.table[i])
  {
    forall fd: nat | fd < |s.table| && !Touches(actions, fd)
      ensures s.Acted(actions).table[fd] == s.table[fd]
    {
      ActedTouches(s, actions, fd);
    }
  }

  lemma ScanStep(was: seq<Fd>, before: seq<Fd>, after: seq<Fd>, now: int, handlers: seq<seq<Action>>, called: seq<nat>,
      calls: seq<nat>, i: nat)
    requires |after| == |was| > i && Scanned(was, before, now, handlers, called, i)
    requires forall c :: c in called ==> c < i
    requires calls == if Due(before[i], now) then called + [i] else called
    requires forall fd: nat :: fd < |was| && fd != i ==> after[fd] == before[fd] || (Due(before[i], now) && Touches(handlers[i], fd))
    requires after[i] == before[i].(armed := after[i].armed) || (Due(before[i], now) && Touches(handlers[i], i))
    requires if Due(before[i], now) then !after[i].armed else after[i] == before[i]
    ensures Scanned(was, after, now, handlers, calls, i + 1)
  {
    hide Due, Touches;
    forall fd: nat, lo: nat, hi: nat | TouchedBy(handlers, called, fd, lo, hi) && hi <= i + 1
      ensures TouchedBy(handlers, calls, fd, lo, hi) && TouchedBy(handlers, calls, fd, lo, i + 1)
    {
    }
    if Due(before[i], now) {
      forall fd: nat, lo: nat {:trigger TouchedBy(handlers, calls, fd, lo, i + 1)} | Touches(handlers[i], fd) && lo <= i
        ensures TouchedBy(handlers, calls, fd, lo, i + 1)
      {
        assert i in calls;
      }
    }
  }

  lemma ScanRest(was: seq<Fd>, cur: seq<Fd>, now: int, handlers: seq<seq<Action>>, called: seq<nat>, n: nat)
    requires Scanned(was, cur, now, handlers, called, n)
    requires forall c :: c in called ==> c < n
    requires forall fd: nat :: n <= fd < |was| ==> !Due(was[fd], now)
    ensures Scanned(was, cur, now, handlers, called, |was|)
  {
    hide Due, Touches;
    forall fd: nat, lo: nat | TouchedBy(handlers, called, fd, lo, n)
      ensures TouchedBy(handlers, called, fd, lo, |was|)
    {
    }
  }

  predicate Due(f: Fd, now: int) {
    f.open && f.socket && now > f.timeout && f.armed
  }

  predicate Touches(actions: seq<Action>, fd: nat) {
    exists k :: 0 <= k < |actions| && actions[k].fd == fd
  }

  // Some handler called for a descriptor in lo, .., hi - 1 acted on fd.
  predicate TouchedBy(handlers: seq<seq<Action>>, called: seq<nat>, fd: nat, lo: nat, hi: nat) {
    exists j: nat :: lo <= j < hi && j < |handlers| && j in called && Touches(handlers[j], fd)
  }

  predicate Within(actions: seq<Action>, max: nat) {
    forall k :: 0 <= k < |actions| ==> actions[k].fd < max
  }

  // --------------------------------------------------------------- any run

  datatype Op = DoOpen(fd: nat, socket: bool) | DoSet(fd: nat, rd: bool, wr: bool) | DoClose(fd: nat)
      | DoArm(fd: nat, now: int, time: int) | DoScan(now: int, handlers: seq<seq<Action>>)

  // The callers' discipline: events are set on open descriptors only, the listener is never closed.
  predicate Possible(s: Sys, op: Op, listener: nat) {
    match op
    case DoOpen(fd, _) => fd < |s.table| && fd !in s.descriptors
    case DoSet(fd, _, _) => fd < |s.table| && s.table[fd].open
    case DoClose(fd) => fd < |s.table| && fd != listener
    case DoArm(fd, _, _) => fd < |s.table|
    case DoScan(_, handlers) =>
      && 0 <= s.biggest < |s.table| == |handlers|
      && (forall i :: 0 <= i < |handlers| ==> Within(handlers[i], |handlers|))
      && (forall i :: 0 <= i < |handlers| ==> CloseFd(listener) !in handlers[i])
  }

  function Next(s: Sys, op: Op, listener: nat): Sys {
    if !Possible(s, op, listener) then s else
      match op
      case DoOpen(fd, socket) => s.Opened(fd, socket)
      case DoSet(fd, rd, wr) => s.Set(fd, Interest(rd, wr))
      case DoClose(fd) => s.Closed(fd)
      case DoArm(fd, now, time) => s.Armed(fd, now, time)
      case DoScan(now, handlers) => ScanTo(s, now, handlers, s.biggest + 1).0
  }

  function After(s: Sys, ops: seq<Op>, listener: nat): Sys {
    if ops == [] then s else Next(After(s, ops[..|ops| - 1], listener), ops[|ops| - 1], listener)
  }

  // One step does just that, keeps the mirror and the bound, and no assertion fails.
  method Step(p: Poller, op: Op, ghost listener: nat)
    requires p.Serving(listener) && Possible(p.View(), op, listener)
    modifies p`interest, p`descriptors, p`biggest, p.table, p.state
    ensures p.Serving(listener) && p.View() == Next(old(p.View()), op, listener)
  {
    hide Scanned, Poller.Mirror;
    match op {
      case DoOpen(fd, socket) => p.Open(fd, socket);
      case DoSet(fd, rd, wr) => ghost var legal := p.SetEvent(fd, rd, wr);
      case DoClose(fd) => var failed := p.Close(fd);
      case DoArm(fd, now, time) => p.Arm(fd, now, time);
      case DoScan(now, handlers) => var called := p.Scan(now, handlers, listener);
    }
  }

  // sock_init: the listening socket is the first descriptor entered, and its reads are asked for.
  method Start(max: nat, live: set<nat>, listener: nat) returns (p: Poller)
    requires 0 < listener < max && listener !in live
    ensures fresh(p) && fresh(p.table) && fresh(p.state) && p.Serving(listener)
    ensures p.View() == Started(max, live, listener)
  {
    p := new Poller(max, live);
    assert forall fd: nat :: fd < max ==> p.state[fd] == NONE && fd !in p.interest;
    p.Open(listener, true);
    ghost var legal := p.SetEvent(listener, true, false);
  }

  // The table and the kernel's side once the listener is served.
  function Started(max: nat, live: set<nat>, listener: nat): Sys
    requires listener < max
  {
    Sys(seq(max, _ => UNUSED), 0, live, map[]).Opened(listener, true).Set(listener, Interest(true, false))
  }

  // Any run that keeps to the discipline: impossible steps are not taken.
  method Serve(max: nat, live: set<nat>, listener: nat, ops: seq<Op>) returns (p: Poller)
    requires 0 < listener < max && listener !in live
    ensures p.Serving(listener)
    ensures p.View() == After(Started(max, live, listener), ops, listener)
  {
    p := Start(max, live, listener);
    ghost var s := p.View();
    for i := 0 to |ops|
      invariant p.Serving(listener) && fresh(p) && fresh(p.table) && fresh(p.state)
      invariant p.View() == After(s, ops[..i], listener)
    {
      assert ops[..i + 1][..i] == ops[..i];
      var can := CanTake(p, ops[i], listener);
      if can {
        Step(p, ops[i], listener);
      }
    }
    assert ops[..|ops|] == ops;
  }

  method CanTake(p: Poller, op: Op, listener: nat) returns (can: bool)
    ensures can == Possible(p.View(), op, listener)
  {
    can := Possible(Sys(p.table[..], p.biggest, p.descriptors, map[]), op, listener);
  }

  // Closing descriptor 1 while nothing else was ever opened: the assertion on biggest_fd fails.
  method CloseLast() returns (p: Poller, failed: bool)
    ensures failed
  {
    p := new Poller(1024, {0});
    p.Open(1, true);
    failed := p.Close(1);
  }
}
