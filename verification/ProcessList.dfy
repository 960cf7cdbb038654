/** kernel/process.c: the scheduler over its linked list of process records. */
module ProcessList {
  import opened SchedSpec

  class Process {
    var pid: int
    var status: Status
    var next: Process?

    constructor (pid: int, status: Status)
      ensures this.pid == pid && this.status == status && next == null
    {
      this.pid := pid;
      this.status := status;
      next := null;
    }
  }

  class Scheduler {
    var current: Process?
    var list: Process?
    var nextPid: int

    ghost var procs: seq<Process>
    ghost var cur: nat

    /** The list from `list` runs through `procs` once, in order, and ends; `current` is on it. */
    ghost predicate Valid()
      reads this, procs
    {
      && cur < |procs| && list == procs[0] && current == procs[cur]
      && (forall i, j :: 0 <= i < j < |procs| ==> procs[i] != procs[j])
      && (forall i {:trigger procs[i].next} :: 0 <= i < |procs| ==>
            procs[i].next == if i + 1 < |procs| then procs[i + 1] else null)
    }

    ghost function State(): Sched
      reads this, procs
    {
      Sched(seq(|procs|, i requires 0 <= i < |procs| reads this, procs => Proc(procs[i].pid, procs[i].status)),
            cur, nextPid)
    }

    constructor ()
      ensures current == null && list == null && nextPid == 0 && procs == []
    {
      current, list, nextPid := null, null, 0;
      procs, cur := [], 0;
    }

    /** `process_init`: the kernel's own process, running. */
    method Init()
      requires nextPid == 0
      modifies this
      ensures Valid() && fresh(procs) && State() == Boot == Sched([Proc(0, Running)], 0, 1)
    {
      var p := new Process(nextPid, Running);
      nextPid := nextPid + 1;
      list := p;
      current := p;
      procs, cur := [p], 0;
    }

    /** `process_create`, from the point where its allocations have succeeded or not: append at the end. */
    method Create(memoryOk: bool) returns (proc: Process?)
      requires Valid()
      modifies this, procs
      ensures Valid() && State() == SchedSpec.Create(old(State()), memoryOk)
      ensures procs == if memoryOk then old(procs) + [proc] else old(procs)
      ensures memoryOk ==> proc != null && fresh(proc)
    {
      if !memoryOk {
        return null;
      }
      var p := new Process(nextPid, Ready);
      nextPid := (nextPid + 1) % PID_LIMIT;
      var curr := list;
      ghost var i := 0;
      while curr.next != null
        invariant 0 <= i < |procs| && curr == procs[i]
        invariant procs == old(procs) && cur == old(cur) && list == old(list) && current == old(current)
        invariant Valid()
        invariant nextPid == (old(nextPid) + 1) % PID_LIMIT
        invariant forall j :: 0 <= j < |procs| ==>
          procs[j].pid == old(procs[j].pid) && procs[j].status == old(procs[j].status)
        invariant p.pid == old(nextPid) && p.status == Ready && p.next == null && p !in procs
        decreases |procs| - i
      {
        curr := curr.next;
        i := i + 1;
      }
      curr.next := p;
      procs := procs + [p];
      proc := p;
    }

    /** `process_exit`, up to the halt. */
    method Exit()
      requires Valid()
      modifies this, procs
      ensures Valid() && State() == SchedSpec.Exit(old(State())) && procs == old(procs)
    {
      current.status := Dead;
    }

    /** How far the skipping loop still is from coming round to the current process. */
    ghost function Ahead(j: nat): nat
      requires cur < |procs| && j < |procs|
      reads this
    {
      if j <= cur then cur - j else cur - j + |procs|
    }

    /** The search of `scheduler_tick`: from the successor on, wrapping round, past dead processes, and
        no further than the current one. */
    method FindNext() returns (next: Process, ghost n: nat)
      requires Valid()
      ensures n == NextOf(State().procs, cur)
      ensures next == procs[NextOf(State().procs, cur)]
    {
      ghost var ps := State().procs;
      ghost var j := if cur + 1 < |procs| then cur + 1 else 0;
      var q: Process? := current.next;
      if q == null {
        q := list;
      }
      while q.status == Dead && q != current
        invariant q != null && 0 <= j < |procs| && q == procs[j]
        invariant j > cur ==> forall k :: cur < k < j ==> !Alive(ps[k])
        invariant j <= cur ==> forall k :: cur < k < |ps| ==> !Alive(ps[k])
        invariant j <= cur ==> forall k :: 0 <= k < j ==> !Alive(ps[k])
        decreases Ahead(j)
      {
        assert ps[j] == Proc(procs[j].pid, procs[j].status);
        j := if j + 1 < |procs| then j + 1 else 0;
        q := if q.next != null then q.next else list;
      }
      assert ps[j] == Proc(procs[j].pid, procs[j].status);
      n := j;
      next := q;
    }

    /** `scheduler_tick` up to its call of `context_switch`, which it makes exactly when it has turned to
        another process. */
    method Tick() returns (switched: bool)
      requires current != null ==> Valid()
      modifies this, procs
      ensures old(current) == null ==> !switched && current == null
      ensures old(current) != null ==>
        && Valid() && procs == old(procs) && State() == SchedSpec.Tick(old(State()))
        && switched == (NextOf(old(State()).procs, old(cur)) != old(cur))
    {
      if current == null {
        return false;
      }
      hide NextOf, SchedSpec.SwitchTo;
      var next, n := FindNext();
      if next == current {
        return false;
      }
      HandOver(next, n);
      switched := true;
    }

    /** The state changes of a tick that has found another process. */
    method HandOver(next: Process, ghost n: nat)
      requires Valid() && n < |procs| && n != cur && next == procs[n]
      modifies this, procs
      ensures Valid() && procs == old(procs) && State() == SchedSpec.SwitchTo(old(State()), n)
    {
      ghost var ps, c := State().procs, cur;
      var prev := current;
      current := next;
      current.status := Running;
      if prev.status != Dead {
        prev.status := Ready;
      }
      cur := n;
      forall i | 0 <= i < |procs| && i != n && i != c ensures Proc(procs[i].pid, procs[i].status) == ps[i] {
        assert procs[i] != procs[n] && procs[i] != procs[c];
      }
    }
  }
}
