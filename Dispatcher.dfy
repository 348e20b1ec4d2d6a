/** The parent process of the SCGI server: growing the worker pool
    (spawn_child), reaping exited workers (reap_children), the graceful
    restart (do_stop / do_restart) and the choice, in delegate_request, of the
    worker that receives an accepted connection.

    Every system call is an input that gives the result the kernel returned:
    socketpair, fcntl and fork for a spawn, the successive waitpid results for
    a reap, and select, read and send_fd for a dispatch pass. The descriptors
    the parent closes are recorded, in call order, in `Server.closed`. */
module Dispatcher {
  import opened ChildList

  /** The port type of the listening socket (an unsigned short). */
  newtype Port = x: int | 0 <= x < 0x1_0000

  // ---------------------------------------------------------------------
  // spawn_child
  // ---------------------------------------------------------------------

  /** Result of socketpair: failure, or the two ends fd[0] and fd[1]. */
  datatype SocketPair = PairFailed | Pair(fd0: int, fd1: int)

  /** What the kernel answers to the calls of one spawn_child: socketpair,
      fcntl(F_GETFL), fcntl(F_SETFL) and fork (0 in the new process, the
      child's pid in the parent, negative on failure). */
  datatype SpawnCalls = SpawnCalls(pair: SocketPair, getfl: int, setfl: int, fork: int)

  /** SpawnFailed is spawn_child's -1, Spawned its 0 in the parent;
      ForkedWorker is the new process, which goes on to serve on `channel`. */
  datatype SpawnOutcome = SpawnFailed | Spawned(pid: int) | ForkedWorker(channel: int)

  datatype SpawnStep = SpawnStep(outcome: SpawnOutcome, pool: seq<Entry>, closed: seq<int>)

  /** spawn_child on the pool `s`. A record is appended only when every call
      succeeded and fork returned a positive pid; the parent then keeps fd[1]
      and closes fd[0]. */
  function Spawn(s: seq<Entry>, conn: int, calls: SpawnCalls): (r: SpawnStep)
    ensures r.outcome.Spawned? <==>
              calls.pair.Pair? && calls.getfl >= 0 && calls.setfl >= 0 && calls.fork > 0
    ensures r.pool == if r.outcome.Spawned? then s + [Entry(calls.fork, calls.pair.fd1)] else s
    ensures r.outcome.Spawned? ==> r.outcome.pid > 0
    ensures r.outcome.SpawnFailed? ==> r.closed == []
  {
    match calls.pair
    case PairFailed => SpawnStep(SpawnFailed, s, [])
    case Pair(fd0, fd1) =>
      if calls.getfl < 0 || calls.setfl < 0 then SpawnStep(SpawnFailed, s, [])
      else if calls.fork == 0 then
        SpawnStep(ForkedWorker(fd0), s, (if conn != 0 then [conn] else []) + [fd1])
      else if calls.fork > 0 then
        SpawnStep(Spawned(calls.fork), s + [Entry(calls.fork, fd1)], [fd0])
      else SpawnStep(SpawnFailed, s, [])
  }

  // ---------------------------------------------------------------------
  // reap_children
  // ---------------------------------------------------------------------

  /** The pool left, the records removed (in removal order), and whether a
      pid came back that no record holds (get_child returns NULL and the C
      code dereferences it: the parent crashes). */
  datatype ReapStep = ReapStep(pool: seq<Entry>, reaped: seq<Entry>, fault: bool)

  /** reap_children on the pool `s`, where `waits` are the successive results
      of waitpid(-1, NULL, WNOHANG); a result past the end of `waits` reads as
      0 (no further exited child). */
  function Reap(s: seq<Entry>, waits: seq<int>): (r: ReapStep)
    ensures |r.pool| + |r.reaped| == |s|
    ensures |r.reaped| <= |waits|
    decreases |waits|
  {
    if s == [] || waits == [] || waits[0] <= 0 then ReapStep(s, [], false)
    else match FirstWithPid(s, waits[0])
      case None => ReapStep(s, [], true)
      case Some(k) =>
        var r := Reap(RemoveAt(s, k), waits[1..]);
        ReapStep(r.pool, [s[k]] + r.reaped, r.fault)
  }

  /** Reaping never adds a record: what is left is the old pool with the
      reaped records taken out and the others in their old order. */
  lemma {:induction false} ReapOnlyShrinks(s: seq<Entry>, waits: seq<int>)
    ensures var r := Reap(s, waits);
      Sub(r.pool, s) && |r.pool| + |r.reaped| == |s| &&
      multiset(r.pool) + multiset(r.reaped) == multiset(s)
    decreases |waits|
  {
    if s == [] || waits == [] || waits[0] <= 0 || FirstWithPid(s, waits[0]).None? {
      SubRefl(s);
    } else {
      var k := FirstWithPid(s, waits[0]).value;
      var rest := RemoveAt(s, k);
      var t := Reap(rest, waits[1..]);
      assert Reap(s, waits) == ReapStep(t.pool, [s[k]] + t.reaped, t.fault);
      ReapOnlyShrinks(rest, waits[1..]);
      SubRemoveAt(s, k);
      SubTrans(t.pool, rest, s);
      RemoveAtMultiset(s, k);
    }
  }

  lemma RemoveAtMultiset(s: seq<Entry>, k: nat)
    requires k < |s|
    ensures multiset(RemoveAt(s, k)) + multiset([s[k]]) == multiset(s)
  {
    assert s == s[..k] + [s[k]] + s[k + 1..];
  }

  /** Each step of the reap removes exactly the worker whose pid waitpid
      reported, and the reap stops when the pool is empty, when waitpid
      returns 0 or less, or at an unknown pid. */
  lemma {:induction false} ReapFollowsWaitpid(s: seq<Entry>, waits: seq<int>)
    ensures var r := Reap(s, waits);
      |r.reaped| <= |waits| &&
      (forall i :: 0 <= i < |r.reaped| ==> waits[i] > 0 && r.reaped[i].pid == waits[i]) &&
      (r.fault ==> |r.reaped| < |waits| && waits[|r.reaped|] > 0 &&
                   forall e :: e in r.pool ==> e.pid != waits[|r.reaped|]) &&
      (!r.fault ==> r.pool == [] || |r.reaped| == |waits| || waits[|r.reaped|] <= 0)
    decreases |waits|
  {
    if s == [] || waits == [] || waits[0] <= 0 {
    } else if FirstWithPid(s, waits[0]).Some? {
      var k := FirstWithPid(s, waits[0]).value;
      ReapFollowsWaitpid(RemoveAt(s, k), waits[1..]);
    } else {
      forall e | e in s ensures e.pid != waits[0] {
        var j :| 0 <= j < |s| && s[j] == e;
      }
    }
  }

  /** The reap `r` of what is left after the records `done` were reaped. */
  function AfterReaped(done: seq<Entry>, r: ReapStep): ReapStep
  {
    ReapStep(r.pool, done + r.reaped, r.fault)
  }

  lemma ReapStops(s: seq<Entry>, waits: seq<int>)
    requires s == [] || waits == [] || waits[0] <= 0
    ensures Reap(s, waits) == ReapStep(s, [], false)
  {
  }

  lemma ReapUnknownPid(s: seq<Entry>, waits: seq<int>)
    requires s != [] && waits != [] && waits[0] > 0 && FirstWithPid(s, waits[0]).None?
    ensures Reap(s, waits) == ReapStep(s, [], true)
  {
  }

  lemma ReapTakes(s: seq<Entry>, waits: seq<int>, k: nat)
    requires s != [] && waits != [] && waits[0] > 0 && FirstWithPid(s, waits[0]) == Some(k)
    ensures Reap(s, waits) == AfterReaped([s[k]], Reap(RemoveAt(s, k), waits[1..]))
  {
  }

  /** A turn whose pid no worker holds ends the reap with a fault. */
  lemma ReapTurnUnknown(s: seq<Entry>, rest: seq<int>, goal: ReapStep, reaped: seq<Entry>)
    requires rest != [] && rest[0] > 0 && s != [] && FirstWithPid(s, rest[0]).None?
    requires goal == AfterReaped(reaped, Reap(s, rest))
    ensures goal == ReapStep(s, reaped, true)
  {
    ReapUnknownPid(s, rest);
    assert reaped + [] == reaped;
  }

  /** A turn that reaps the worker at position `k`, the first with the pid
      `rest[0]`: the reap goes on with the next waitpid result, that worker
      recorded and its descriptor appended to the close log. */
  lemma ReapAdvance(s: seq<Entry>, rest: seq<int>, k: nat, goal: ReapStep,
                    log: seq<int>, reaped: seq<Entry>, closed: seq<int>)
    requires rest != [] && rest[0] > 0 && s != [] && FirstWithPid(s, rest[0]) == Some(k)
    requires goal == AfterReaped(reaped, Reap(s, rest))
    requires closed == log + Fds(reaped) + [s[k].fd]
    ensures goal == AfterReaped(reaped + [s[k]], Reap(RemoveAt(s, k), rest[1..]))
    ensures closed == log + Fds(reaped + [s[k]])
  {
    ReapTakes(s, rest, k);
    AfterReapedTwice(reaped, s[k], Reap(RemoveAt(s, k), rest[1..]));
    assert Fds(reaped) + [s[k].fd] == Fds(reaped + [s[k]]);
  }

  lemma AfterReapedTwice(done: seq<Entry>, e: Entry, r: ReapStep)
    ensures AfterReaped(done, AfterReaped([e], r)) == AfterReaped(done + [e], r)
  {
    assert done + ([e] + r.reaped) == done + [e] + r.reaped;
  }

  // ---------------------------------------------------------------------
  // One pass of delegate_request's loop
  // ---------------------------------------------------------------------

  /** select: failure (with errno EINTR or not), or the descriptors the
      kernel reports readable. */
  datatype SelectResult = SelectFailed(interrupted: bool) | Selected(ready: set<int>)

  /** read of the one marker byte: the byte, or no byte (read returned 0 or
      -1) with errno EAGAIN or not. */
  datatype ReadResult = ReadByte(byte: char) | ReadFailed(wouldBlock: bool)

  /** send_fd: success, or -1 with errno EPIPE or not. */
  datatype SendResult = SendOk | SendFailed(brokenPipe: bool)

  /** The kernel's answers to the calls of one pass of the loop. */
  datatype PassCalls = PassCalls(select: SelectResult, read: ReadResult, send: SendResult,
                                 waits: seq<int>, spawn: SpawnCalls)

  /** The die() calls of the loop and the failed assert on the marker byte. */
  datatype Fatal = SelectError | ReadError | BadMarker | SendError

  /** Retry: the loop goes round again. Delegated: the connection was sent
      to `child` and delegate_request returns. Died: the process aborts.
      Crashed: reap_children dereferenced a null child. BecameWorker: fork
      returned 0, so this process is now the new worker. */
  datatype PassOutcome =
    | Retry
    | Delegated(child: Entry)
    | Died(why: Fatal)
    | Crashed
    | BecameWorker(channel: int)

  /** The outcome of a pass, the pool after it, the descriptors it closed,
      the select timeout (seconds) of the next pass, and whether the pass
      reached the reap-and-spawn part of the loop body. */
  datatype PassStep = PassStep(outcome: PassOutcome, pool: seq<Entry>, closed: seq<int>,
                               timeout: int, recovered: bool)

  /** The readable worker descriptors select reports: only those it was
      asked about. */
  function Returned(s: seq<Entry>, ready: set<int>): set<int>
  {
    ready * FdSet(s)
  }

  /** The end of the loop body: reap, then spawn when below max_children,
      then use a two-second select timeout. */
  function Recover(s: seq<Entry>, maxChildren: int, conn: int, calls: PassCalls): (p: PassStep)
    ensures p.recovered && p.timeout == 2
    ensures p.outcome.Retry? || p.outcome.Crashed? || p.outcome.BecameWorker?
    ensures |p.pool| <= |s| + 1
  {
    var r := Reap(s, calls.waits);
    if r.fault then PassStep(Crashed, r.pool, Fds(r.reaped), 2, true)
    else if |r.pool| < maxChildren then
      var sp := Spawn(r.pool, conn, calls.spawn);
      var outcome := if sp.outcome.ForkedWorker? then BecameWorker(sp.outcome.channel) else Retry;
      PassStep(outcome, sp.pool, Fds(r.reaped) + sp.closed, 2, true)
    else PassStep(Retry, r.pool, Fds(r.reaped), 2, true)
  }

  /** The select, read and send part of a pass on the pool `s`: the outcome
      when the pass ends there, or None when it falls through to the
      reap-and-spawn part. */
  function Examine(s: seq<Entry>, calls: PassCalls): (r: Option<PassOutcome>)
    ensures r.None? ==> calls.select.Selected?
    ensures r.Some? && r.value.Delegated? ==>
      calls.select.Selected? && r.value.child in s && r.value.child.fd in calls.select.ready
  {
    match calls.select
    case SelectFailed(interrupted) =>
      if interrupted then Some(Retry) else Some(Died(SelectError))
    case Selected(ready) =>
      var returned := Returned(s, ready);
      if returned == {} then None
      else match FirstReady(s, returned)
        case None => Some(Retry)
        case Some(i) => Answer(s, i, calls)
  }

  /** The part of a pass after select reported the worker `s[i]`: read its
      marker byte, then pass it the connection. */
  function Answer(s: seq<Entry>, i: nat, calls: PassCalls): (r: Option<PassOutcome>)
    requires i < |s|
    ensures (r.Some? && r.value.Delegated?) <==> calls.read == ReadByte('1') && calls.send == SendOk
    ensures r.Some? && r.value.Delegated? ==> r.value.child == s[i]
  {
    match calls.read
    case ReadFailed(wouldBlock) =>
      if wouldBlock then None else Some(Died(ReadError))
    case ReadByte(magic) =>
      if magic != '1' then Some(Died(BadMarker))
      else match calls.send
        case SendOk => Some(Delegated(s[i]))
        case SendFailed(brokenPipe) =>
          if brokenPipe then None else Some(Died(SendError))
  }

  /** One pass of the `while (1)` body of delegate_request on the pool `s`,
      with select timeout `timeout`. */
  function Pass(s: seq<Entry>, maxChildren: int, conn: int, timeout: int, calls: PassCalls): (p: PassStep)
    ensures !p.recovered ==> p.pool == s && p.closed == [] && p.timeout == timeout
    ensures p.outcome.Delegated? ==> !p.recovered && p.outcome.child in s
  {
    match Examine(s, calls)
    case Some(outcome) => PassStep(outcome, s, [], timeout, false)
    case None => Recover(s, maxChildren, conn, calls)
  }

  /** A pass delegates exactly when select reported a worker, the marker
      byte read from the first reported worker in pool order is '1', and the
      descriptor was sent to that same worker; the pool is then untouched. */
  lemma PassDelegates(s: seq<Entry>, maxChildren: int, conn: int, timeout: int, calls: PassCalls)
    ensures Pass(s, maxChildren, conn, timeout, calls).outcome.Delegated? <==>
        calls.select.Selected? && Returned(s, calls.select.ready) != {} &&
        calls.read == ReadByte('1') && calls.send == SendOk
    ensures var p := Pass(s, maxChildren, conn, timeout, calls);
      p.outcome.Delegated? ==>
        var returned := Returned(s, calls.select.ready);
        FirstReady(s, returned).Some? && p.outcome.child == s[FirstReady(s, returned).value] &&
        p.outcome.child.fd in calls.select.ready &&
        p.pool == s && p.closed == [] && p.timeout == timeout
  {
    if calls.select.Selected? && Returned(s, calls.select.ready) != {} {
      ReadyPartFindsChild(s, Returned(s, calls.select.ready));
    }
  }

  /** The fatal cases of the select, read and send part: a select error
      other than EINTR, a read failure other than EAGAIN, a marker byte
      other than '1', and a send_fd failure other than EPIPE. */
  lemma ExamineDies(s: seq<Entry>, calls: PassCalls)
    ensures var e := Examine(s, calls);
      var reported := calls.select.Selected? && Returned(s, calls.select.ready) != {};
      (e == Some(Died(SelectError)) <==> calls.select == SelectFailed(false)) &&
      (e == Some(Died(ReadError)) <==> reported && calls.read == ReadFailed(false)) &&
      (e == Some(Died(BadMarker)) <==> reported && calls.read.ReadByte? && calls.read.byte != '1') &&
      (e == Some(Died(SendError)) <==>
         reported && calls.read == ReadByte('1') && calls.send == SendFailed(false))
  {
    if calls.select.Selected? && Returned(s, calls.select.ready) != {} {
      ReadyPartFindsChild(s, Returned(s, calls.select.ready));
    }
  }

  /** The fatal cases of a pass are exactly those of its select, read and
      send part. None of them touches the pool. */
  lemma PassDies(s: seq<Entry>, maxChildren: int, conn: int, timeout: int, calls: PassCalls)
    ensures var p := Pass(s, maxChildren, conn, timeout, calls);
      var reported := calls.select.Selected? && Returned(s, calls.select.ready) != {};
      (p.outcome == Died(SelectError) <==> calls.select == SelectFailed(false)) &&
      (p.outcome == Died(ReadError) <==> reported && calls.read == ReadFailed(false)) &&
      (p.outcome == Died(BadMarker) <==> reported && calls.read.ReadByte? && calls.read.byte != '1') &&
      (p.outcome == Died(SendError) <==>
         reported && calls.read == ReadByte('1') && calls.send == SendFailed(false))
    ensures var p := Pass(s, maxChildren, conn, timeout, calls);
      p.outcome.Died? ==> p.pool == s && p.closed == []
  {
    ExamineDies(s, calls);
  }

  /** Only an interrupted select skips the reap-and-spawn part of a pass
      without ending the call; the "should never get here" branch, a
      reported descriptor with no worker behind it, cannot be taken. The
      timeout becomes two seconds exactly when that part runs. */
  lemma PassRecovers(s: seq<Entry>, maxChildren: int, conn: int, timeout: int, calls: PassCalls)
    ensures var p := Pass(s, maxChildren, conn, timeout, calls);
      (p.outcome.Retry? && !p.recovered <==> calls.select == SelectFailed(true)) &&
      (p.timeout == if p.recovered then 2 else timeout) &&
      (!p.recovered ==> p.pool == s && p.closed == [])
  {
    if calls.select.Selected? && Returned(s, calls.select.ready) != {} {
      ReadyPartFindsChild(s, Returned(s, calls.select.ready));
    }
  }

  /** The reap-and-spawn part leaves the survivors of the reap, followed by
      at most one new worker, which it adds only while the pool is below
      max_children. */
  lemma RecoverBoundsPool(s: seq<Entry>, maxChildren: int, conn: int, calls: PassCalls)
    ensures var r := Reap(s, calls.waits); var p := Recover(s, maxChildren, conn, calls);
      p.pool == r.pool ||
      (p.pool != [] && p.pool[..|p.pool| - 1] == r.pool && p.pool[|p.pool| - 1].pid > 0 &&
       |p.pool| <= maxChildren)
  {
    var r := Reap(s, calls.waits);
    if !r.fault && |r.pool| < maxChildren {
      var sp := Spawn(r.pool, conn, calls.spawn);
      if sp.outcome.Spawned? {
        assert sp.pool[..|sp.pool| - 1] == r.pool;
      }
    }
  }

  /** A pass adds at most one worker, keeps every other worker in its old
      order, and never takes the pool past max_children. */
  lemma PassBoundsPool(s: seq<Entry>, maxChildren: int, conn: int, timeout: int, calls: PassCalls)
    ensures var p := Pass(s, maxChildren, conn, timeout, calls);
      |s| <= maxChildren ==> |p.pool| <= maxChildren
    ensures var p := Pass(s, maxChildren, conn, timeout, calls);
      Sub(p.pool, s) ||
      (p.pool != [] && Sub(p.pool[..|p.pool| - 1], s) && p.pool[|p.pool| - 1].pid > 0 &&
       |p.pool| <= maxChildren)
  {
    var p := Pass(s, maxChildren, conn, timeout, calls);
    if Examine(s, calls).None? {
      RecoverBoundsPool(s, maxChildren, conn, calls);
      ReapOnlyShrinks(s, calls.waits);
    } else {
      SubRefl(s);
    }
    if Sub(p.pool, s) {
      SubLength(p.pool, s);
    }
  }

  // ---------------------------------------------------------------------
  // Several passes of delegate_request
  // ---------------------------------------------------------------------

  /** The passes delegate_request makes when the kernel answers with
      `passes`: each pass starts from the pool and timeout the previous one
      left, and the loop leaves at the first outcome other than Retry. */
  function Run(s: seq<Entry>, maxChildren: int, conn: int, timeout: int, passes: seq<PassCalls>): (r: seq<PassStep>)
    ensures |r| <= |passes|
    ensures r == [] <==> passes == []
    decreases |passes|
  {
    if passes == [] then []
    else
      var p := Pass(s, maxChildren, conn, timeout, passes[0]);
      [p] + if p.outcome.Retry? then Run(p.pool, maxChildren, conn, p.timeout, passes[1..]) else []
  }

  /** The descriptors closed over a run, in order. */
  function RunClosed(steps: seq<PassStep>): seq<int>
  {
    if steps == [] then [] else RunClosed(steps[..|steps| - 1]) + steps[|steps| - 1].closed
  }

  /** How a call of delegate_request ends: the outcome of its last pass (Retry
      when the passes ran out), the pool it leaves and every descriptor it
      closed, in order. */
  datatype CallEnd = CallEnd(outcome: PassOutcome, pool: seq<Entry>, closed: seq<int>)

  /** The end of delegate_request when the kernel answers with `passes`. */
  function Dispatch(s: seq<Entry>, maxChildren: int, conn: int, timeout: int, passes: seq<PassCalls>): (e: CallEnd)
    ensures e.outcome.Delegated? ==> e.outcome.child in e.pool
    decreases |passes|
  {
    if passes == [] then CallEnd(Retry, s, [])
    else
      var p := Pass(s, maxChildren, conn, timeout, passes[0]);
      if p.outcome.Retry? then AfterClosed(p.closed, Dispatch(p.pool, maxChildren, conn, p.timeout, passes[1..]))
      else CallEnd(p.outcome, p.pool, p.closed)
  }

  /** The end `e` of a call preceded by the closing of `log`. */
  function AfterClosed(log: seq<int>, e: CallEnd): CallEnd
  {
    CallEnd(e.outcome, e.pool, log + e.closed)
  }

  lemma DispatchUnfold(log: seq<int>, s: seq<Entry>, maxChildren: int, conn: int, timeout: int, passes: seq<PassCalls>)
    requires passes != []
    ensures var p := Pass(s, maxChildren, conn, timeout, passes[0]);
      AfterClosed(log, Dispatch(s, maxChildren, conn, timeout, passes)) ==
        if p.outcome.Retry? then AfterClosed(log + p.closed, Dispatch(p.pool, maxChildren, conn, p.timeout, passes[1..]))
        else CallEnd(p.outcome, p.pool, log + p.closed)
  {
    var p := Pass(s, maxChildren, conn, timeout, passes[0]);
    if p.outcome.Retry? {
      var e := Dispatch(p.pool, maxChildren, conn, p.timeout, passes[1..]);
      assert log + (p.closed + e.closed) == log + p.closed + e.closed;
    }
  }

  /** The end of the call is what its last pass left: the outcome and pool
      of the last pass of Run (the starting pool when no pass was made) and
      the descriptors closed by all passes. */
  lemma {:induction false} DispatchEndsRun(s: seq<Entry>, maxChildren: int, conn: int, timeout: int, passes: seq<PassCalls>)
    ensures Dispatch(s, maxChildren, conn, timeout, passes) ==
      var r := Run(s, maxChildren, conn, timeout, passes);
      if r == [] then CallEnd(Retry, s, [])
      else CallEnd(r[|r| - 1].outcome, r[|r| - 1].pool, RunClosed(r))
    decreases |passes|
  {
    if passes != [] {
      var p := Pass(s, maxChildren, conn, timeout, passes[0]);
      if p.outcome.Retry? {
        var t := Run(p.pool, maxChildren, conn, p.timeout, passes[1..]);
        DispatchEndsRun(p.pool, maxChildren, conn, p.timeout, passes[1..]);
        RunClosedCons(p, t);
        if t != [] {
          assert ([p] + t)[|t|] == t[|t| - 1];
        }
      } else {
        assert RunClosed([p]) == RunClosed([]) + p.closed;
      }
    }
  }

  lemma {:induction false} RunClosedCons(p: PassStep, steps: seq<PassStep>)
    ensures RunClosed([p] + steps) == p.closed + RunClosed(steps)
    decreases |steps|
  {
    if steps == [] {
      assert [p] + steps == [p];
      assert RunClosed([p]) == RunClosed([]) + p.closed;
    } else {
      var init := steps[..|steps| - 1];
      RunClosedCons(p, init);
      assert ([p] + steps)[..|steps|] == [p] + init;
      assert ([p] + steps)[|steps|] == steps[|steps| - 1];
    }
  }

  /** The call ends at its first outcome other than Retry, so at most one
      pass delegates (one successful send per connection), and the pool
      never goes past max_children. */
  lemma {:induction false} RunDelegatesOnce(s: seq<Entry>, maxChildren: int, conn: int, timeout: int, passes: seq<PassCalls>)
    ensures var r := Run(s, maxChildren, conn, timeout, passes);
      |r| <= |passes| &&
      (forall i :: 0 <= i < |r| - 1 ==> r[i].outcome.Retry?) &&
      (|r| < |passes| ==> r != [] && !r[|r| - 1].outcome.Retry?)
    ensures var r := Run(s, maxChildren, conn, timeout, passes);
      forall i, j :: 0 <= i < |r| && 0 <= j < |r| && r[i].outcome.Delegated? && r[j].outcome.Delegated? ==> i == j
    ensures var r := Run(s, maxChildren, conn, timeout, passes);
      |s| <= maxChildren ==> forall i :: 0 <= i < |r| ==> |r[i].pool| <= maxChildren
    decreases |passes|
  {
    if passes != [] {
      var p := Pass(s, maxChildren, conn, timeout, passes[0]);
      PassBoundsPool(s, maxChildren, conn, timeout, passes[0]);
      if p.outcome.Retry? {
        RunDelegatesOnce(p.pool, maxChildren, conn, p.timeout, passes[1..]);
      }
    }
  }

  /** A call of delegate_request never takes a pool of at most max_children
      workers past max_children. */
  lemma DispatchBounded(s: seq<Entry>, maxChildren: int, conn: int, timeout: int, passes: seq<PassCalls>)
    requires |s| <= maxChildren
    ensures |Dispatch(s, maxChildren, conn, timeout, passes).pool| <= maxChildren
  {
    DispatchEndsRun(s, maxChildren, conn, timeout, passes);
    RunDelegatesOnce(s, maxChildren, conn, timeout, passes);
  }

  /** Some pass among `steps` reached the reap-and-spawn part. */
  predicate AnyRecovered(steps: seq<PassStep>)
  {
    exists j :: 0 <= j < |steps| && steps[j].recovered
  }

  lemma AnyRecoveredCons(p: PassStep, steps: seq<PassStep>)
    ensures AnyRecovered([p] + steps) <==> p.recovered || AnyRecovered(steps)
  {
    var r := [p] + steps;
    assert r[0] == p;
    if AnyRecovered(steps) {
      var j :| 0 <= j < |steps| && steps[j].recovered;
      assert r[j + 1] == steps[j];
    }
    if AnyRecovered(r) {
      var j :| 0 <= j < |r| && r[j].recovered;
      if j > 0 { assert r[j] == steps[j - 1]; }
    }
  }

  /** Over the passes `steps` of a call that started with `timeout`, each
      pass leaves either that timeout or two seconds, and two seconds exactly
      when the call started with two seconds or some pass so far reached the
      reap-and-spawn part. */
  predicate TimeoutsFollowRecovery(steps: seq<PassStep>, timeout: int)
  {
    forall i :: 0 <= i < |steps| ==>
      (steps[i].timeout == 2 <==> timeout == 2 || AnyRecovered(steps[..i + 1])) &&
      (steps[i].timeout == timeout || steps[i].timeout == 2)
  }

  /** The first select of a call uses the timeout the call starts with (zero
      in delegate_request); the select after a pass uses two seconds exactly
      when some pass so far reached the reap-and-spawn part. */
  lemma {:induction false} RunTimeouts(s: seq<Entry>, maxChildren: int, conn: int, timeout: int, passes: seq<PassCalls>)
    ensures TimeoutsFollowRecovery(Run(s, maxChildren, conn, timeout, passes), timeout)
    decreases |passes|
  {
    if passes != [] {
      var p := Pass(s, maxChildren, conn, timeout, passes[0]);
      var r := Run(s, maxChildren, conn, timeout, passes);
      PassRecovers(s, maxChildren, conn, timeout, passes[0]);
      AnyRecoveredCons(p, []);
      assert r[..1] == [p] + [];
      if p.outcome.Retry? {
        var t := Run(p.pool, maxChildren, conn, p.timeout, passes[1..]);
        RunTimeouts(p.pool, maxChildren, conn, p.timeout, passes[1..]);
        assert r == [p] + t;
        forall i | 0 < i < |r|
          ensures r[i].timeout == 2 <==> timeout == 2 || AnyRecovered(r[..i + 1])
          ensures r[i].timeout == timeout || r[i].timeout == 2
        {
          assert r[i] == t[i - 1];
          assert r[..i + 1] == [p] + t[..i];
          AnyRecoveredCons(p, t[..i]);
        }
      }
    }
  }

  // ---------------------------------------------------------------------
  // The server (struct scgi_server) and its operations
  // ---------------------------------------------------------------------

  class Server {
    const listenPort: Port
    const maxChildren: int
    const children: Children
    /** The process-wide `restart` flag that the SIGHUP handler sets. */
    var restart: bool
    /** Descriptors passed to close(), oldest first. */
    var closed: seq<int>

    ghost predicate Valid()
      reads this, children, children.Repr
    {
      this !in children.Repr && children.Valid()
    }

    /** init_server (with the flag's static initialiser): an empty pool whose
        tail slot is `first`. */
    constructor (port: Port, maxChildren: int)
      ensures Valid() && fresh(children) && fresh(children.Repr)
      ensures listenPort == port && this.maxChildren == maxChildren
      ensures children.Contents() == [] && children.size == 0
      ensures children.first == null && children.last == null
      ensures !restart && closed == []
    {
      listenPort := port;
      this.maxChildren := maxChildren;
      children := new Children();
      restart := false;
      closed := [];
    }

    /** spawn_child, parent side. */
    method SpawnChild(conn: int, calls: SpawnCalls) returns (outcome: SpawnOutcome)
      requires Valid()
      modifies this, children.Repr
      ensures Valid() && fresh(children.Repr - old(children.Repr))
      ensures var sp := Spawn(old(children.Contents()), conn, calls);
        outcome == sp.outcome && children.Contents() == sp.pool && closed == old(closed) + sp.closed
      ensures children.size == |children.Contents()|
      ensures restart == old(restart)
    {
      match calls.pair
      case PairFailed =>
        return SpawnFailed;
      case Pair(fd0, fd1) =>
        if calls.getfl < 0 || calls.setfl < 0 {
          return SpawnFailed;
        }
        var pid := calls.fork;
        if pid == 0 {
          if conn != 0 {
            closed := closed + [conn];
          }
          closed := closed + [fd1];
          return ForkedWorker(fd0);
        } else if pid > 0 {
          closed := closed + [fd0];
          children.AddChild(pid, fd1);
        } else {
          return SpawnFailed;
        }
        return Spawned(pid);
    }

    /** The body of reap_children's loop for the exited process `pid`:
        close the channel of the first worker with that pid and unlink it. */
    method ReapOne(pid: int, ghost s: seq<Entry>) returns (found: bool)
      requires Valid() && children.Contents() == s
      modifies this, children.Repr
      ensures Valid() && children.Repr <= old(children.Repr)
      ensures found <==> FirstWithPid(s, pid).Some?
      ensures found ==> children.Contents() == RemoveAt(s, FirstWithPid(s, pid).value) &&
                        closed == old(closed) + [s[FirstWithPid(s, pid).value].fd]
      ensures !found ==> children.Contents() == s && closed == old(closed)
      ensures restart == old(restart)
    {
      var child := children.GetChild(pid);
      if child == null {
        return false;
      }
      Retire(child, s, FirstWithPid(s, pid).value);
      return true;
    }

    /** close(child->fd) followed by remove_child, for the worker at position `k`. */
    method Retire(child: Child, ghost s: seq<Entry>, ghost k: nat)
      requires Valid() && children.Contents() == s && k < |children.nodes| && child == children.nodes[k]
      modifies this, children.Repr
      ensures Valid() && children.Repr <= old(children.Repr)
      ensures children.Contents() == RemoveAt(s, k) && closed == old(closed) + [s[k].fd]
      ensures restart == old(restart)
    {
      children.IndexOfAt(k);
      closed := closed + [child.fd];
      children.RemoveChild(child);
    }

    /** One turn of reap_children's loop for the exited process `pid`, the
        first of the waitpid results `rest` still to be consumed: the reap
        `goal` of the whole call, with `reaped` taken out so far, goes on
        from the new pool, or ends with a fault when no worker has `pid`. */
    method ReapNext(pid: int, ghost cur: seq<Entry>, ghost rest: seq<int>, ghost goal: ReapStep,
                    ghost log: seq<int>, ghost reaped: seq<Entry>)
      returns (found: bool, ghost cur': seq<Entry>, ghost reaped': seq<Entry>)
      requires Valid() && children.Contents() == cur && cur != []
      requires rest != [] && rest[0] == pid && pid > 0
      requires goal == AfterReaped(reaped, Reap(cur, rest))
      requires closed == log + Fds(reaped)
      modifies this, children.Repr
      ensures Valid() && children.Repr <= old(children.Repr) && restart == old(restart)
      ensures children.Contents() == cur' && children.size == |cur'| && closed == log + Fds(reaped')
      ensures found ==> |cur'| < |cur| && goal == AfterReaped(reaped', Reap(cur', rest[1..]))
      ensures !found ==> goal == ReapStep(cur', reaped', true)
    {
      found := ReapOne(pid, cur);
      if !found {
        ReapTurnUnknown(cur, rest, goal, reaped);
        return false, cur, reaped;
      }
      ghost var k := FirstWithPid(cur, pid).value;
      ReapAdvance(cur, rest, k, goal, log, reaped, closed);
      return true, RemoveAt(cur, k), reaped + [cur[k]];
    }

    /** reap_children, with `waits` the successive waitpid results. */
    method ReapChildren(waits: seq<int>) returns (fault: bool)
      requires Valid()
      modifies this, children.Repr
      ensures Valid() && children.Repr <= old(children.Repr)
      ensures children.Contents() == Reap(old(children.Contents()), waits).pool
      ensures closed == old(closed) + Fds(Reap(old(children.Contents()), waits).reaped)
      ensures fault == Reap(old(children.Contents()), waits).fault
      ensures restart == old(restart)
    {
      ghost var cur := children.Contents();
      ghost var goal := Reap(cur, waits);
      ghost var log := closed;
      ghost var reaped: seq<Entry> := [];
      var i := 0;
      while children.size != 0
        invariant Valid() && children.Repr <= old(children.Repr) && restart == old(restart)
        invariant children.Contents() == cur && children.size == |cur|
        invariant 0 <= i <= |waits|
        invariant goal == AfterReaped(reaped, Reap(cur, waits[i..]))
        invariant closed == log + Fds(reaped)
        decreases |waits| - i
      {
        var pid := if i < |waits| then waits[i] else 0;
        if pid <= 0 {
          break;
        }
        var found;
        found, cur, reaped := ReapNext(pid, cur, waits[i..], goal, log, reaped);
        if !found {
          return true;
        }
        assert waits[i..][1..] == waits[i + 1..];
        i := i + 1;
      }
      ReapStops(cur, waits[i..]);
      assert reaped + [] == reaped;
      return false;
    }

    /** do_stop: close every worker's channel, in pool order. */
    method DoStop()
      requires Valid()
      modifies this
      ensures Valid() && children.Contents() == old(children.Contents()) && children.size == old(children.size)
      ensures closed == old(closed) + Fds(children.Contents())
      ensures restart == old(restart)
    {
      var c := children.first;
      ghost var i := 0;
      while c != null
        invariant 0 <= i <= |children.nodes|
        invariant c == if i < |children.nodes| then children.nodes[i] else null
        invariant closed == old(closed) + Fds(children.Contents()[..i])
        invariant restart == old(restart)
        decreases |children.nodes| - i
      {
        children.NextOf(i);
        assert Fds(children.Contents()[..i + 1]) == Fds(children.Contents()[..i]) + [c.fd];
        closed := closed + [c.fd];
        c := c.next;
        i := i + 1;
      }
      assert children.Contents()[..i] == children.Contents();
    }

    /** do_restart: close every worker's channel and clear the flag. The pool
        itself is left as it was. */
    method DoRestart()
      requires Valid()
      modifies this
      ensures Valid() && !restart
      ensures children.Contents() == old(children.Contents()) && children.size == old(children.size)
      ensures closed == old(closed) + Fds(children.Contents())
    {
      DoStop();
      restart := false;
    }

    /** The end of delegate_request's loop body: reap_children, then
        spawn_child when the pool is below max_children. */
    method ReapAndSpawn(conn: int, calls: PassCalls) returns (outcome: PassOutcome)
      requires Valid()
      modifies this, children.Repr
      ensures Valid() && fresh(children.Repr - old(children.Repr))
      ensures var p := Recover(old(children.Contents()), maxChildren, conn, calls);
        outcome == p.outcome && children.Contents() == p.pool && closed == old(closed) + p.closed
      ensures restart == old(restart)
    {
      ghost var r := Reap(children.Contents(), calls.waits);
      var fault := ReapChildren(calls.waits);
      if fault {
        return Crashed;
      }
      outcome := Retry;
      if children.size < maxChildren {
        ghost var sp := Spawn(r.pool, conn, calls.spawn);
        var spawned := SpawnChild(conn, calls.spawn);
        assert old(closed) + Fds(r.reaped) + sp.closed == old(closed) + (Fds(r.reaped) + sp.closed);
        if spawned.ForkedWorker? {
          outcome := BecameWorker(spawned.channel);
        }
      }
    }

    /** The select, read and send part of one pass of delegate_request's
        loop; none of it changes the pool. */
    method ExamineChildren(calls: PassCalls) returns (outcome: Option<PassOutcome>)
      requires Valid()
      ensures outcome == Examine(children.Contents(), calls)
    {
      ghost var s := children.Contents();
      var fds, highest := children.FillChildrenFdSet();
      match calls.select {
        case SelectFailed(interrupted) =>
          return if interrupted then Some(Retry) else Some(Died(SelectError));
        case Selected(ready) =>
          // select(highest + 1, ...) reports only descriptors below highest + 1
          var returned := set x | x in fds && x in ready && x < highest + 1;
          FdSetBelowNfds(s);
          assert returned == Returned(s, ready);
          if |returned| == 0 {
            return None;
          }
          var child := children.GetReadyChild(returned);
          if child == null {
            // "should never get here"
            return Some(Retry);
          }
          ghost var i := FirstReady(s, returned).value;
          outcome := AnswerChild(child, i, calls);
      }
    }

    /** The read-and-send part of a pass, once select reported `child`, the
        worker at position `i` of the pool. */
    method AnswerChild(child: Child, ghost i: nat, calls: PassCalls) returns (outcome: Option<PassOutcome>)
      requires Valid() && i < |children.nodes| && child == children.nodes[i]
      ensures outcome == Answer(children.Contents(), i, calls)
    {
      match calls.read {
        case ReadFailed(wouldBlock) =>
          // a read that would block falls through to the reap-and-spawn part
          return if wouldBlock then None else Some(Died(ReadError));
        case ReadByte(magic) =>
          if magic != '1' {
            return Some(Died(BadMarker));
          }
          match calls.send {
            case SendOk =>
              return Some(Delegated(Entry(child.pid, child.fd)));
            case SendFailed(brokenPipe) =>
              // so does a send to a worker that has gone away
              return if brokenPipe then None else Some(Died(SendError));
          }
      }
    }

    /** One pass of the `while (1)` body of delegate_request for connection
        `conn`, with select timeout `timeout`; returns the outcome and the
        timeout of the next pass. */
    method DelegatePass(conn: int, timeout: int, calls: PassCalls) returns (outcome: PassOutcome, nextTimeout: int)
      requires Valid()
      modifies this, children.Repr
      ensures Valid() && fresh(children.Repr - old(children.Repr))
      ensures var p := Pass(old(children.Contents()), maxChildren, conn, timeout, calls);
        outcome == p.outcome && nextTimeout == p.timeout &&
        children.Contents() == p.pool && closed == old(closed) + p.closed
      ensures restart == old(restart)
    {
      var early := ExamineChildren(calls);
      if early.Some? {
        return early.value, timeout;
      }
      outcome := ReapAndSpawn(conn, calls);
      nextTimeout := 2;
    }

    /** One pass of delegate_request's loop, stated as the step it takes
        through the rest of the call: `passes` are the kernel's answers to
        this pass and the ones after it. */
    method DelegateStep(conn: int, timeout: int, passes: seq<PassCalls>) returns (outcome: PassOutcome, nextTimeout: int)
      requires Valid() && passes != []
      modifies this, children.Repr
      ensures Valid() && fresh(children.Repr - old(children.Repr))
      ensures AfterClosed(old(closed), Dispatch(old(children.Contents()), maxChildren, conn, timeout, passes)) ==
        if outcome.Retry? then AfterClosed(closed, Dispatch(children.Contents(), maxChildren, conn, nextTimeout, passes[1..]))
        else CallEnd(outcome, children.Contents(), closed)
      ensures restart == old(restart)
    {
      DispatchUnfold(closed, children.Contents(), maxChildren, conn, timeout, passes);
      outcome, nextTimeout := DelegatePass(conn, timeout, passes[0]);
    }

    /** delegate_request for connection `conn`, the kernel answering the
        passes of its loop with `passes`: the loop runs until an outcome
        other than Retry, or until `passes` is used up (the call would still
        be waiting). */
    method DelegateRequest(conn: int, passes: seq<PassCalls>) returns (outcome: PassOutcome)
      requires Valid()
      modifies this, children.Repr
      ensures Valid() && fresh(children.Repr - old(children.Repr))
      ensures AfterClosed(old(closed), Dispatch(old(children.Contents()), maxChildren, conn, 0, passes)) ==
        CallEnd(outcome, children.Contents(), closed)
      ensures restart == old(restart)
    {
      ghost var goal := AfterClosed(closed, Dispatch(children.Contents(), maxChildren, conn, 0, passes));
      var timeout := 0;
      var i := 0;
      while i < |passes|
        invariant Valid() && fresh(children.Repr - old(children.Repr))
        invariant 0 <= i <= |passes|
        invariant goal == AfterClosed(closed, Dispatch(children.Contents(), maxChildren, conn, timeout, passes[i..]))
        invariant restart == old(restart)
        decreases |passes| - i
      {
        assert passes[i..][1..] == passes[i + 1..];
        outcome, timeout := DelegateStep(conn, timeout, passes[i..]);
        if !outcome.Retry? {
          return;
        }
        i := i + 1;
      }
      outcome := Retry;
      assert passes[i..] == [];
      assert closed + [] == closed;
    }
  }
}
