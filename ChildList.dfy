/** The parent's worker pool: a singly linked tail queue of (pid, fd) records
    in the style of FreeBSD's STAILQ, and the walks over it that the dispatcher
    uses (building the select set, picking the first ready worker, finding a
    worker by pid). */
module ChildList {

  datatype Option<T> = None | Some(value: T)

  /** One worker as the parent records it: its process id and the parent's
      end of its control channel. */
  datatype Entry = Entry(pid: int, fd: int)

  // ---------------------------------------------------------------------
  // The abstract queue: a sequence of entries, oldest first
  // ---------------------------------------------------------------------

  /** The descriptors of the entries, in queue order. */
  function Fds(s: seq<Entry>): seq<int>
  {
    seq(|s|, i requires 0 <= i < |s| => s[i].fd)
  }

  /** The descriptors of the entries, as a set (the contents of an fd_set). */
  function FdSet(s: seq<Entry>): set<int>
  {
    set i | 0 <= i < |s| :: s[i].fd
  }

  lemma FdSetSnoc(s: seq<Entry>, i: nat)
    requires i < |s|
    ensures FdSet(s[..i + 1]) == FdSet(s[..i]) + {s[i].fd}
  {
  }

  /** The highest descriptor of the queue as fill_children_fdset computes it,
      starting from -1 and scanning front to back. */
  function Highest(s: seq<Entry>): (h: int)
    ensures h >= -1
    ensures forall i :: 0 <= i < |s| ==> s[i].fd <= h
    ensures h == -1 || exists i :: 0 <= i < |s| && s[i].fd == h
  {
    if s == [] then -1
    else
      var h := Highest(s[..|s| - 1]);
      if s[|s| - 1].fd > h then s[|s| - 1].fd else h
  }

  /** The position of the first entry, in queue order, whose descriptor is in `ready`. */
  function FirstReady(s: seq<Entry>, ready: set<int>): (r: Option<nat>)
    ensures r.Some? ==> r.value < |s| && s[r.value].fd in ready
    ensures r.Some? ==> forall j :: 0 <= j < r.value ==> s[j].fd !in ready
    ensures r.None? <==> forall j :: 0 <= j < |s| ==> s[j].fd !in ready
  {
    if s == [] then None
    else if s[0].fd in ready then Some(0)
    else match FirstReady(s[1..], ready)
      case None => None
      case Some(k) => Some(k + 1)
  }

  /** The position of the first entry, in queue order, whose process id is `pid`. */
  function FirstWithPid(s: seq<Entry>, pid: int): (r: Option<nat>)
    ensures r.Some? ==> r.value < |s| && s[r.value].pid == pid
    ensures r.Some? ==> forall j :: 0 <= j < r.value ==> s[j].pid != pid
    ensures r.None? <==> forall j :: 0 <= j < |s| ==> s[j].pid != pid
  {
    if s == [] then None
    else if s[0].pid == pid then Some(0)
    else match FirstWithPid(s[1..], pid)
      case None => None
      case Some(k) => Some(k + 1)
  }

  /** `s` without its entry at position `k`. */
  function RemoveAt<T>(s: seq<T>, k: nat): (r: seq<T>)
    requires k < |s|
    ensures |r| == |s| - 1
    ensures forall i :: 0 <= i < k ==> r[i] == s[i]
    ensures forall i :: k <= i < |r| ==> r[i] == s[i + 1]
  {
    s[..k] + s[k + 1..]
  }

  /** `a` is `b` with some entries dropped and the rest kept in order. */
  ghost predicate Sub<T>(a: seq<T>, b: seq<T>)
    decreases |b|
  {
    if a == [] then true
    else if b == [] then false
    else (a[0] == b[0] && Sub(a[1..], b[1..])) || Sub(a, b[1..])
  }

  lemma {:induction false} SubRefl<T>(a: seq<T>)
    ensures Sub(a, a)
    decreases |a|
  {
    if a != [] { SubRefl(a[1..]); }
  }

  lemma {:induction false} SubLength<T>(a: seq<T>, b: seq<T>)
    requires Sub(a, b)
    ensures |a| <= |b|
    decreases |b|
  {
    if a != [] {
      if a[0] == b[0] && Sub(a[1..], b[1..]) { SubLength(a[1..], b[1..]); }
      else { SubLength(a, b[1..]); }
    }
  }

  /** Dropping one entry keeps the others in their order. */
  lemma {:induction false} SubRemoveAt<T>(s: seq<T>, k: nat)
    requires k < |s|
    ensures Sub(RemoveAt(s, k), s)
    decreases |s|
  {
    if k == 0 {
      assert RemoveAt(s, k) == s[1..];
      SubRefl(s[1..]);
      SubDropFront(s[1..], s);
    } else {
      assert RemoveAt(s, k)[1..] == RemoveAt(s[1..], k - 1);
      SubRemoveAt(s[1..], k - 1);
    }
  }

  lemma {:induction false} SubDropFront<T>(a: seq<T>, b: seq<T>)
    requires b != [] && Sub(a, b[1..])
    ensures Sub(a, b)
  {
  }

  lemma {:induction false} SubTrans<T>(a: seq<T>, b: seq<T>, c: seq<T>)
    requires Sub(a, b) && Sub(b, c)
    ensures Sub(a, c)
    decreases |c|
  {
    if a == [] {
    } else if b[0] == c[0] && Sub(b[1..], c[1..]) {
      if a[0] == b[0] && Sub(a[1..], b[1..]) {
        SubTrans(a[1..], b[1..], c[1..]);
      } else {
        SubTrans(a, b[1..], c[1..]);
      }
    } else {
      SubTrans(a, b, c[1..]);
    }
  }

  // ---------------------------------------------------------------------
  // The heap structure (struct child / struct children of scgi.h)
  // ---------------------------------------------------------------------

  /** One heap node. The pid and fd are set once, by add_child. */
  class Child {
    const pid: int
    const fd: int
    var next: Child?

    constructor (pid: int, fd: int)
      ensures this.pid == pid && this.fd == fd && next == null
    {
      this.pid := pid;
      this.fd := fd;
      next := null;
    }
  }

  /** The entries that a sequence of nodes records. */
  function Entries(ns: seq<Child>): (s: seq<Entry>)
    ensures |s| == |ns| && forall i :: 0 <= i < |ns| ==> s[i] == Entry(ns[i].pid, ns[i].fd)
  {
    seq(|ns|, i requires 0 <= i < |ns| => Entry(ns[i].pid, ns[i].fd))
  }

  lemma EntriesRemoveAt(ns: seq<Child>, k: nat)
    requires k < |ns|
    ensures Entries(RemoveAt(ns, k)) == RemoveAt(Entries(ns), k)
  {
  }

  /** The nodes at positions `i` and `j` of `ns` are different objects. The
      queue invariant states distinctness through this predicate, so that a
      proof brings a pair of positions into play only when it names them. */
  ghost predicate Apart(ns: seq<Child>, i: int, j: int)
  {
    0 <= i < |ns| && 0 <= j < |ns| && ns[i] != ns[j]
  }

  /** The first position of `c` in `ns`. */
  ghost function IndexOf(ns: seq<Child>, c: Child): (k: nat)
    requires c in ns
    ensures k < |ns| && ns[k] == c
  {
    if ns[0] == c then 0 else 1 + IndexOf(ns[1..], c)
  }

  /** The queue head. `last` stands for the C `struct child **last`, the
      address of the final `next` field: null stands for the address of
      `first` (the queue is empty), a node for the address of its `next`. */
  class Children {
    var first: Child?
    var last: Child?
    var size: int

    ghost var nodes: seq<Child>
    ghost var Repr: set<object>

    ghost predicate Valid()
      reads this, Repr
    {
      this in Repr &&
      (forall i :: 0 <= i < |nodes| ==> nodes[i] in Repr) &&
      (forall i, j :: 0 <= i < j < |nodes| ==> Apart(nodes, i, j)) &&
      first == (if nodes == [] then null else nodes[0]) &&
      last == (if nodes == [] then null else nodes[|nodes| - 1]) &&
      (forall i {:trigger nodes[i].next} :: 0 <= i < |nodes| ==>
         nodes[i].next == if i + 1 < |nodes| then nodes[i + 1] else null) &&
      size == |nodes|
    }

    /** The link out of the node at position `i`. */
    lemma NextOf(i: int)
      requires Valid() && 0 <= i < |nodes|
      ensures nodes[i].next == if i + 1 < |nodes| then nodes[i + 1] else null
    {
    }

    /** Nodes are distinct, so a node's position is the one IndexOf finds. */
    lemma IndexOfAt(k: int)
      requires Valid() && 0 <= k < |nodes|
      ensures IndexOf(nodes, nodes[k]) == k
    {
      var j := IndexOf(nodes, nodes[k]);
      assert j < k ==> Apart(nodes, j, k);
      assert k < j ==> Apart(nodes, k, j);
    }

    /** The recorded workers, oldest first. */
    ghost function Contents(): seq<Entry>
      reads this
    {
      Entries(nodes)
    }

    /** The queue part of init_server: empty, size 0, tail slot at `first`. */
    constructor ()
      ensures Valid() && fresh(Repr)
      ensures Contents() == [] && size == 0
      ensures first == null && last == null
    {
      first := null;
      last := null;
      size := 0;
      nodes := [];
      Repr := {this};
    }

    /** add_child: append a fresh node at the tail. */
    method AddChild(pid: int, fd: int)
      requires Valid()
      modifies Repr
      ensures Valid() && fresh(Repr - old(Repr)) && old(Repr) <= Repr
      ensures Contents() == old(Contents()) + [Entry(pid, fd)]
      ensures size == old(size) + 1 && last != null && last.next == null
    {
      var c := new Child(pid, fd);
      if last == null {
        first := c;
      } else {
        last.next := c;
      }
      last := c;
      size := size + 1;
      nodes := nodes + [c];
      Repr := Repr + {c};
      forall i, j | 0 <= i < j < |nodes| ensures Apart(nodes, i, j) {
        assert j < |nodes| - 1 ==> Apart(old(nodes), i, j);
      }
      forall i {:trigger nodes[i].next} | 0 <= i < |nodes|
        ensures nodes[i].next == if i + 1 < |nodes| then nodes[i + 1] else null
      {
        assert i + 2 < |nodes| ==> Apart(old(nodes), i, |nodes| - 2);
      }
      assert Entries(nodes) == Entries(old(nodes)) + [Entry(pid, fd)];
    }

    /** The queue is valid again once the node at position `k` of `was` has
        been unlinked by rewriting the `next` field of `pred` (or `first`). */
    lemma Unlinked(was: seq<Child>, k: nat, pred: Child?)
      requires k < |was| && nodes == RemoveAt(was, k) && size == |nodes|
      requires this in Repr && forall j :: 0 <= j < |was| && j != k ==> was[j] in Repr
      requires forall i, j :: 0 <= i < j < |was| ==> Apart(was, i, j)
      requires pred == if k == 0 then null else was[k - 1]
      requires forall j {:trigger was[j].next} :: 0 <= j < |was| && was[j] != pred ==>
                 was[j].next == if j + 1 < |was| then was[j + 1] else null
      requires pred != null ==> pred.next == if k + 1 < |was| then was[k + 1] else null
      requires first == if |was| == 1 then null else if k == 0 then was[1] else was[0]
      requires last == if k + 1 < |was| then was[|was| - 1] else pred
      ensures Valid()
    {
      forall j {:trigger nodes[j].next} | 0 <= j < |nodes|
        ensures nodes[j].next == if j + 1 < |nodes| then nodes[j + 1] else null
      {
        if j + 1 < k {
          assert Apart(was, j, k - 1);
          assert nodes[j] == was[j] && nodes[j + 1] == was[j + 1] && was[j] != pred;
        } else if j + 1 > k {
          assert k > 0 ==> Apart(was, k - 1, j + 1);
          assert nodes[j] == was[j + 1] && was[j + 1] != pred;
          if j + 1 < |nodes| { assert nodes[j + 1] == was[j + 2]; }
        } else {
          assert nodes[j] == pred;
          if j + 1 < |nodes| { assert nodes[j + 1] == was[k + 1]; }
        }
      }
      forall i, j | 0 <= i < j < |nodes| ensures Apart(nodes, i, j) {
        var i', j' := if i < k then i else i + 1, if j < k then j else j + 1;
        assert nodes[i] == was[i'] && nodes[j] == was[j'] && Apart(was, i', j');
      }
      forall i | 0 <= i < |nodes| ensures nodes[i] in Repr {
        var i' := if i < k then i else i + 1;
        assert nodes[i] == was[i'] && i' != k;
      }
    }

    /** The walk of remove_child: the node whose `next` field holds `child`,
        when `child` is not the first node. */
    method FindPrevious(child: Child) returns (c: Child)
      requires Valid() && child in nodes && first != child
      ensures 0 < IndexOf(nodes, child) && c == nodes[IndexOf(nodes, child) - 1]
    {
      ghost var k := IndexOf(nodes, child);
      assert first == nodes[0];
      c := first;
      ghost var i := 0;
      while c.next != child
        invariant 0 <= i < k && c == nodes[i]
        decreases k - i
      {
        NextOf(i);
        c := c.next;
        i := i + 1;
      }
      NextOf(i);
      assert i + 1 < k ==> Apart(nodes, i + 1, k);
      assert nodes[i + 1] == nodes[k];
    }

    /** remove_child: unlink `child`, repair the tail slot, and free it. */
    method RemoveChild(child: Child)
      requires Valid() && child in nodes
      modifies Repr
      ensures Valid() && Repr == old(Repr) - {child}
      ensures var k := IndexOf(old(nodes), child);
        nodes == RemoveAt(old(nodes), k) &&
        Contents() == RemoveAt(old(Contents()), k)
      ensures size == old(size) - 1
      ensures last == if nodes == [] then null else nodes[|nodes| - 1]
    {
      ghost var was := nodes;
      ghost var wasRepr := Repr;
      ghost var k := IndexOf(nodes, child);
      forall j | 0 <= j < |was| && j != k ensures was[j] in wasRepr - {child} {
        assert j < k ==> Apart(was, j, k);
        assert k < j ==> Apart(was, k, j);
      }
      forall j {:trigger was[j].next} | 0 <= j < |was|
        ensures was[j].next == if j + 1 < |was| then was[j + 1] else null
      {
        NextOf(j);
      }
      assert first == was[0] && last == was[|was| - 1];
      // `pred` is the node whose `next` field is rewritten (null: `first` is)
      ghost var pred: Child? := null;
      if first == child {
        assert k == 0;
        assert was[0].next == if 1 < |was| then was[1] else null;
        first := first.next;
        if first == null {
          last := null;
        }
      } else {
        var c := FindPrevious(child);
        assert was[k - 1].next == was[k];
        assert was[k].next == if k + 1 < |was| then was[k + 1] else null;
        c.next := c.next.next;
        if c.next == null {
          last := c;
        }
        pred := c;
      }
      assert forall j {:trigger was[j].next} :: 0 <= j < |was| && was[j] != pred ==> was[j].next == old(was[j].next);
      assert first == if |was| == 1 then null else if k == 0 then was[1] else was[0];
      assert last == if k + 1 < |was| then was[|was| - 1] else pred;
      size := size - 1;
      nodes := RemoveAt(was, k);
      Repr := wasRepr - {child};
      Unlinked(was, k, pred);
      EntriesRemoveAt(was, k);
    }

    /** fill_children_fdset: the set of every worker's descriptor and the
        highest of them (-1 when there is none). */
    method FillChildrenFdSet() returns (fds: set<int>, highest: int)
      requires Valid()
      ensures fds == FdSet(Contents())
      ensures highest == Highest(Contents())
    {
      fds := {};
      highest := -1;
      var c := first;
      ghost var i := 0;
      while c != null
        invariant 0 <= i <= |nodes|
        invariant c == if i < |nodes| then nodes[i] else null
        invariant fds == FdSet(Contents()[..i])
        invariant highest == Highest(Contents()[..i])
        decreases |nodes| - i
      {
        NextOf(i);
        assert Contents()[..i + 1][..i] == Contents()[..i];
        FdSetSnoc(Contents(), i);
        fds := fds + {c.fd};
        if c.fd > highest {
          highest := c.fd;
        }
        c := c.next;
        i := i + 1;
      }
      assert Contents()[..i] == Contents();
    }

    /** get_ready_child: the first worker, in queue order, whose descriptor
        is in `ready`, or null. */
    method GetReadyChild(ready: set<int>) returns (c: Child?)
      requires Valid()
      ensures match FirstReady(Contents(), ready)
                case None => c == null
                case Some(k) => c == nodes[k]
    {
      c := first;
      ghost var i := 0;
      while c != null && c.fd !in ready
        invariant 0 <= i <= |nodes|
        invariant c == if i < |nodes| then nodes[i] else null
        invariant forall j :: 0 <= j < i ==> nodes[j].fd !in ready
        decreases |nodes| - i
      {
        NextOf(i);
        c := c.next;
        i := i + 1;
      }
    }

    /** get_child: the first worker, in queue order, with process id `pid`, or null. */
    method GetChild(pid: int) returns (c: Child?)
      requires Valid()
      ensures match FirstWithPid(Contents(), pid)
                case None => c == null
                case Some(k) => c == nodes[k]
    {
      c := first;
      ghost var i := 0;
      while c != null && c.pid != pid
        invariant 0 <= i <= |nodes|
        invariant c == if i < |nodes| then nodes[i] else null
        invariant forall j :: 0 <= j < i ==> nodes[j].pid != pid
        decreases |nodes| - i
      {
        NextOf(i);
        c := c.next;
        i := i + 1;
      }
    }
  }

  /** Every descriptor of the set lies below highest + 1, the `nfds` that
      select is given, so select watches every worker. */
  lemma FdSetBelowNfds(s: seq<Entry>)
    ensures forall x :: x in FdSet(s) ==> x < Highest(s) + 1
  {
  }

  /** A non-empty part of the fd set always yields a first ready worker:
      the "should never get here" branch of delegate_request is dead. */
  lemma {:induction false} ReadyPartFindsChild(s: seq<Entry>, ready: set<int>)
    requires ready <= FdSet(s) && ready != {}
    ensures FirstReady(s, ready).Some?
  {
    var x :| x in ready;
    var i :| 0 <= i < |s| && s[i].fd == x;
    assert s[i].fd in ready;
  }
}
