# cSCGI worker pool and dispatcher, in Dafny

This project models the parent process of the cSCGI server (`scgi.c`, `scgi.h`).
The parent keeps a pool of pre-forked worker processes. Each worker is one
`(pid, fd)` record in a FreeBSD-STAILQ-style tail queue. The fd is the parent's
end of a Unix socket pair shared with that worker. For each accepted connection,
`delegate_request` does the following:

- asks `select` which workers have written their one-byte "ready" marker;
- reads the marker from the first such worker in queue order;
- passes it the connection's descriptor.

When no worker is ready, the parent reaps the workers that exited, spawns a new
worker if the pool is below `max_children`, and tries again with a two-second
select timeout. `do_restart` closes every worker's channel, so the workers finish
their work and exit.

Two modules:

- `ChildList` (ChildList.dfy) is the queue of `scgi.h:4-15` and its operations
  `init_server`, `add_child`, `remove_child`, `fill_children_fdset`,
  `get_ready_child` and `get_child`.
  - `Children` is a class with the C fields `first`, `last` and `size`, and
    `Child` nodes whose `next` fields the methods rewrite in place.
  - The C `struct child **last` becomes a `Child?`. null stands for
    `&children->first` (empty queue), and a node `n` stands for `&n->next`.
  - A ghost `nodes` sequence and a `Repr` set describe the heap. `Valid()`
    states the queue invariant: the links follow `nodes`, `first` and `last`
    are its first and final node, `size` is its length, and nodes are distinct.
  - `Contents()` is the `(pid, fd)` sequence in insertion order.
- `Dispatcher` (Dispatcher.dfy) is `spawn_child`, `reap_children`,
  `do_stop`/`do_restart` and `delegate_request`, on a `Server` class
  (`struct scgi_server` plus the global `restart` flag).
  - Every system call is an input that carries the kernel's answer:
    - socketpair, fcntl and fork for a spawn;
    - the successive waitpid results for a reap;
    - select, the marker read and send_fd for one pass of the dispatch loop.
  - Each operation is specified by a pure function of the old pool and those
    answers: `Spawn`, `Reap`, `Pass` (split into `Examine` and `Recover`), and
    `Run`/`Dispatch` over a sequence of passes.
  - The methods are proved to change the heap exactly as those functions say.
    Lemmas then prove the properties the code relies on.
  - The descriptors the parent closes are recorded, in call order, in
    `Server.closed`.

Where the code and its documentation differ, the model follows the code:

- `do_restart` closes the workers' channels and clears the flag, but it does
  not empty the queue. `DoRestart` states that the pool and `size` are unchanged.
  A consequence visible in the model: after `DoRestart`, reaping a restarted
  worker closes its descriptor a second time (`ReapChildren` appends it to
  `closed` again). The next select is also handed descriptors that are already
  closed, which the kernel answers with EBADF, and scgi.c:247 treats that as
  fatal.
- A failed marker read whose errno is not EAGAIN aborts the parent. It does not
  fall through to the reap (the `XXX` at `scgi.c:274`).
- When fcntl or fork fails, `spawn_child` returns -1 without closing the
  socket pair. `Spawn` closes nothing on that path.

## Model

| member | source | states |
|---|---|---|
| ChildList.Child.constructor | scgi.c:86-89 | a new node holds the given pid and fd and has no successor yet |
| ChildList.Children.constructor | scgi.c:77-79 | the queue starts empty: no contents, size 0, `first` null, and the tail slot is `first` |
| ChildList.Children.AddChild | scgi.c:84-94 | the record `(pid, fd)` is appended after the earlier records, whose order is unchanged; size grows by one; the new node is the tail, with a null `next`; the queue invariant is kept |
| ChildList.Children.FindPrevious | scgi.c:103-106 | the walk stops at the node just before `child` in queue order |
| ChildList.Children.RemoveChild | scgi.c:96-113 | exactly the node `child` leaves the queue; the other records keep their relative order; size drops by one; `last` is the new final node, or the `first` slot when the queue is empty; the node leaves the footprint (freed) |
| ChildList.Highest | scgi.c:118-128 | the highest fd is at least every worker's fd and is one of them, or -1 for an empty pool |
| ChildList.Children.FillChildrenFdSet | scgi.c:115-129 | the set holds exactly the workers' fds; the result is the highest fd, or -1 when there is none |
| ChildList.FirstReady | scgi.c:135-139 | the position found is the first one whose fd is in the set; none is found exactly when no fd is in the set |
| ChildList.Children.GetReadyChild | scgi.c:131-140 | returns the first worker in queue order whose fd is in the set, or null when there is none; the queue is not modified |
| ChildList.FirstWithPid | scgi.c:146-150 | the position found is the first one with the pid; none is found exactly when no record has the pid |
| ChildList.Children.GetChild | scgi.c:142-151 | returns the first worker in queue order with the pid, or null when there is none; the queue is not modified |
| ChildList.FdSetBelowNfds | scgi.c:241-242 | every worker's fd is below `highest_fd + 1`, so select watches every worker |
| ChildList.ReadyPartFindsChild | scgi.c:254-259 | a non-empty readiness set made of worker fds always has a first ready worker, so the "should never get here" branch cannot be taken |
| Dispatcher.Server.constructor | scgi.c:71-82 | init_server: the port and max_children are stored; the pool is empty with size 0 and tail slot `first`; no restart is pending and nothing has been closed |
| Dispatcher.Spawn | scgi.c:153-188 | a record is appended iff socketpair, both fcntl calls and fork succeed in the parent (pid > 0); it holds the new pid and fd[1]; otherwise the pool is unchanged, and a failed spawn closes nothing |
| Dispatcher.Server.SpawnChild | scgi.c:153-188 | the outcome, the new pool and the closed descriptors are those of `Spawn` on the old pool |
| Dispatcher.Reap | scgi.c:190-204 | reap_children on a pool and the waitpid results: the records left and the records reaped together number as many as the old pool; at most one record is reaped per waitpid result (that they are the old records themselves is `ReapOnlyShrinks`) |
| Dispatcher.ReapOnlyShrinks | scgi.c:190-204 | reaping never adds a record: the pool left is a subsequence of the old one, in the old order, and together with the reaped records it is exactly the old pool (as a multiset) |
| Dispatcher.ReapFollowsWaitpid | scgi.c:195-203 | the i-th reaped record is the worker whose pid was the i-th positive waitpid result; the reap stops only when the pool is empty, waitpid returns <= 0, or a pid that no worker holds comes back (get_child returns NULL: a fault) |
| Dispatcher.Server.ReapOne | scgi.c:200-202 | a worker with the pid exists iff one is found; its fd is closed and exactly that record is removed; otherwise nothing changes |
| Dispatcher.Server.Retire | scgi.c:201-202 | closes the worker's fd, then removes exactly its record |
| Dispatcher.Server.ReapNext | scgi.c:196-202 | one turn of the reap loop takes the reap of the whole call one waitpid result further, or ends it with the fault |
| Dispatcher.Server.ReapChildren | scgi.c:190-204 | the new pool, the descriptors closed (those of the reaped workers, in order) and the fault are those of `Reap` on the old pool and the waitpid results |
| Dispatcher.Server.DoStop | scgi.c:213-221 | every worker's fd is closed, in queue order; the pool, size and flag are unchanged |
| Dispatcher.Server.DoRestart | scgi.c:223-227 | every worker's fd is closed and the restart flag is cleared; the pool contents and size are unchanged |
| Dispatcher.Answer | scgi.c:270-298 | after select reported the worker at position i: the pass delegates iff the marker read is '1' and send_fd succeeds, and then it delegates to that worker |
| Dispatcher.Examine | scgi.c:241-299 | the select, read and send part falls through to the reap only after select returned; when it delegates, it delegates to a worker of the pool whose fd select reported ready |
| Dispatcher.Recover | scgi.c:301-311 | the reap-and-spawn part ends with a two-second timeout, never aborts or delegates (it retries, crashes on an unknown pid, or becomes the forked worker), and grows the pool by at most one |
| Dispatcher.Pass | scgi.c:240-313 | one loop pass: when the reap-and-spawn part does not run, the pool, close log and timeout are unchanged; a delegating pass does not reap, and it sends to a worker of the pool |
| Dispatcher.ExamineDies | scgi.c:242-298 | the select-read-send part aborts exactly on a select error other than EINTR, a read failure other than EAGAIN, a marker other than '1', or a send_fd failure other than EPIPE |
| Dispatcher.PassDies | scgi.c:240-313 | a whole pass aborts exactly in those four cases, and an aborting pass leaves the pool unchanged and closes nothing |
| Dispatcher.PassDelegates | scgi.c:249-298 | a pass delegates iff select reported a worker, the marker read is '1' and send_fd succeeds; the worker is the first ready one in queue order, its fd was reported ready, and the pool and timeout are unchanged |
| Dispatcher.PassRecovers | scgi.c:240-313 | the only pass that retries without reaping and spawning is an interrupted select; the next timeout is 2 s after the reap-and-spawn part and the incoming timeout otherwise, and without that part the pool is unchanged and nothing is closed |
| Dispatcher.RecoverBoundsPool | scgi.c:301-306 | the pool left is the survivors of the reap (`Reap`), in their order, followed by at most one new worker with a positive pid, added only when that keeps the pool within max_children |
| Dispatcher.PassBoundsPool | scgi.c:240-313 | a pass never takes a pool of at most max_children workers above max_children; the others keep their old order, and at most one new worker is added, at the tail |
| Dispatcher.Run | scgi.c:240-313 | the passes of one call: no more passes than the kernel answered, and at least one when it answered any |
| Dispatcher.Dispatch | scgi.c:229-316 | how a call ends: when it delegates, the worker it sent the connection to is still in the pool it leaves |
| Dispatcher.DispatchEndsRun | scgi.c:240-313 | the end of a call is its last pass: the outcome and pool of that pass, and the descriptors closed by all passes in order |
| Dispatcher.RunDelegatesOnce | scgi.c:240-313 | every pass but the last retries; the call stops at its first outcome other than Retry, so at most one pass delegates (one send per connection); the pool stays within max_children |
| Dispatcher.DispatchBounded | scgi.c:229-316 | a whole call never takes a pool of at most max_children workers past max_children |
| Dispatcher.RunTimeouts | scgi.c:237-311 | each pass leaves the starting timeout or 2 s; 2 s exactly when the call started with 2 s or some pass so far reached the reap-and-spawn part |
| Dispatcher.Server.ExamineChildren | scgi.c:241-299 | fill the fd set, select, pick the first ready worker, read and send: the result is `Examine` on the current pool |
| Dispatcher.Server.AnswerChild | scgi.c:270-298 | reading the marker and passing the connection to the chosen worker gives `Answer` for that worker's position |
| Dispatcher.Server.ReapAndSpawn | scgi.c:301-311 | reap, then spawn when size < max_children: the outcome, the new pool and the closed descriptors are `Recover` on the old pool |
| Dispatcher.Server.DelegatePass | scgi.c:240-313 | one pass of the loop body changes the pool, the close log and the timeout as `Pass` says |
| Dispatcher.Server.DelegateStep | scgi.c:240-313 | after one pass, the rest of the call's end (`Dispatch`) is what the remaining passes give from the new pool and timeout, or this pass's outcome when it is not Retry |
| Dispatcher.Server.DelegateRequest | scgi.c:229-316 | starting with a zero timeout, the call returns the outcome, pool and closed descriptors of `Dispatch` over the kernel's answers |

## Left out

- Inside `send_fd`/`recv_fd` (scgi.c:22-69), the cmsg / SCM_RIGHTS plumbing is
  not modelled. send_fd is an input outcome: success, EPIPE, or another error.
- The forked child's branch of `spawn_child` (close `conn` and `fd[1]`, run
  the handler, exit) is modelled only as the outcome `BecameWorker` and the two
  closes. The handler is foreign code, and its `parent_fd`/`serve` members do
  not exist in the `scgi_handler` of scgi.h:17-20.
- `serve_scgi` (socket, bind, listen, accept loop, scgi.c:318-363) is network
  I/O. The SIGHUP handler `hup_signal` (scgi.c:206-211) runs asynchronously.
  `restart` is a field that only `DoRestart` changes.
- The `while (1)` loop of `delegate_request` need not end. It is modelled over
  a finite sequence of per-pass kernel answers, and running out of answers
  leaves the outcome `Retry`. Termination and liveness are not modelled.
- Signals other than SIGHUP are not modelled. send_fd calls `sendmsg` without
  MSG_NOSIGNAL (scgi.c:65), and nothing ignores SIGPIPE (scgi.c:347 installs
  only the SIGHUP handler). So a send to a worker that has gone away kills the
  parent with SIGPIPE before the EPIPE branch at scgi.c:287 can run. The model
  follows the code as written and treats `SendFailed(true)` as a retry.
- `malloc` failure in `add_child` and `free` are not modelled.
- Dispatcher.Server.ReapOne: when waitpid returns a pid that no worker holds,
  the C code dereferences NULL. The model turns this into the fault outcome
  `Crashed` rather than undefined behaviour.
- Dispatcher.RunTimeouts: Linux's select also writes the remaining time back
  into `timeout`. scgi.c:311 resets only `tv_sec` and keeps the leftover
  `tv_usec`, so a later pass can wait anywhere from under 2 s to just under
  3 s. The timeout here is only 0 or 2 seconds.
- Dispatcher.Server.AnswerChild: a `read` that returns 0 (end of file) leaves
  errno as it was. The model leaves the EAGAIN / other choice to the input.
  `assert(magic == '1')` is taken as enabled, so builds with NDEBUG are not
  modelled.
- FD_SETSIZE limits and the integer width of `size`, pids and fds are not
  modelled. The fd set is an unbounded set of integers.
- demo.c (application I/O) is not part of this model. Neither is the
  `init_server` / `init_scgi` name mismatch, which is a build issue.
