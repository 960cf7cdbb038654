/** The process list and the round-robin scheduler as values (kernel/process.c), with the properties
    that hold over every run of create, exit and tick. */
module SchedSpec {

  const PID_LIMIT := 0x1_0000_0000

  datatype Status = Running | Ready | Dead

  datatype Proc = Proc(pid: int, status: Status)

  /** The list in order, the position of `current_process`, and the pid counter. */
  datatype Sched = Sched(procs: seq<Proc>, cur: nat, nextPid: int)

  predicate Alive(p: Proc) { p.status != Dead }

  // ---------- the operations ----------

  /** The first process that is not dead in positions `a` to `b`, or `b`. */
  function FirstAlive(ps: seq<Proc>, a: nat, b: nat): (r: nat)
    requires a <= b <= |ps|
    ensures a <= r <= b
    ensures r < b ==> Alive(ps[r])
    ensures forall j :: a <= j < r ==> !Alive(ps[j])
    decreases b - a
  {
    if a == b || Alive(ps[a]) then a else FirstAlive(ps, a + 1, b)
  }

  /** The process a tick turns to: the next one alive after `cur`, wrapping round to the front of the
      list, or `cur` itself. */
  function NextOf(ps: seq<Proc>, cur: nat): (r: nat)
    requires cur < |ps|
    ensures r < |ps|
  {
    var i := FirstAlive(ps, cur + 1, |ps|);
    if i < |ps| then i else FirstAlive(ps, 0, cur)
  }

  /** The hand-over from the current process to process `n`. */
  function SwitchTo(s: Sched, n: nat): Sched
    requires s.cur < |s.procs| && n < |s.procs| && n != s.cur
  {
    var prev := s.procs[s.cur];
    var ps := s.procs[n := s.procs[n].(status := Running)];
    Sched(if Alive(prev) then ps[s.cur := prev.(status := Ready)] else ps, n, s.nextPid)
  }

  function Tick(s: Sched): Sched
    requires s.cur < |s.procs|
  {
    var n := NextOf(s.procs, s.cur);
    if n == s.cur then s else SwitchTo(s, n)
  }

  function Exit(s: Sched): Sched
    requires s.cur < |s.procs|
  {
    s.(procs := s.procs[s.cur := s.procs[s.cur].(status := Dead)])
  }

  /** `process_create`, whose two allocations may fail. */
  function Create(s: Sched, memoryOk: bool): Sched {
    if !memoryOk then s
    else Sched(s.procs + [Proc(s.nextPid, Ready)], s.cur, (s.nextPid + 1) % PID_LIMIT)
  }

  const Boot := Sched([Proc(0, Running)], 0, 1)

  datatype Event = DoTick | DoExit | DoCreate(memoryOk: bool)

  function Step(s: Sched, e: Event): Sched
    requires s.cur < |s.procs|
  {
    match e
    case DoTick => Tick(s)
    case DoExit => Exit(s)
    case DoCreate(memoryOk) => Create(s, memoryOk)
  }

  // ---------- safety ----------

  /** The current process runs or is dead, every other is ready or dead, and pids count up from 0. */
  predicate Safe(s: Sched) {
    && s.cur < |s.procs|
    && s.procs[s.cur].status in {Running, Dead}
    && (forall i :: 0 <= i < |s.procs| && i != s.cur ==> s.procs[i].status in {Ready, Dead})
    && (forall i :: 0 <= i < |s.procs| ==> s.procs[i].pid == i % PID_LIMIT)
    && s.nextPid == |s.procs| % PID_LIMIT
  }

  lemma {:induction false} PidCounts(n: nat)
    ensures (n % PID_LIMIT + 1) % PID_LIMIT == (n + 1) % PID_LIMIT
  {
  }

  /** Every step keeps the list safe, drops nobody from it, never revives a dead process and only ever
      switches to a live one. */
  lemma {:induction false} StepSafe(s: Sched, e: Event)
    requires Safe(s)
    ensures Safe(Step(s, e))
    ensures |Step(s, e).procs| >= |s.procs|
    ensures forall i :: 0 <= i < |s.procs| && !Alive(s.procs[i]) ==> !Alive(Step(s, e).procs[i])
    ensures forall i :: 0 <= i < |s.procs| ==> Step(s, e).procs[i].pid == s.procs[i].pid
    ensures Step(s, e).cur != s.cur ==> Alive(s.procs[Step(s, e).cur])
  {
    hide FirstAlive;
    match e
    case DoTick =>
    case DoExit =>
    case DoCreate(memoryOk) =>
      if memoryOk {
        PidCounts(|s.procs|);
      }
  }

  /** Position `j` lies after `a` and before `b`, going round. */
  predicate Between(a: nat, j: nat, b: nat) {
    if a < b then a < j < b else j > a || j < b
  }

  /** What a step does, entry by entry. Nobody leaves the list or changes pid; a process that was alive stays so
      unless it is the current one and exits, and nobody comes back to life. A create that finds memory adds
      one ready process at the end, any other step none. Only a tick moves on, to the next live process going
      round, or nowhere when there is no other. With `Safe`, which fixes the statuses, this is the whole
      new state. */
  lemma {:induction false} StepExactly(s: Sched, e: Event)
    requires Safe(s)
    ensures
      var t := Step(s, e);
      && Safe(t) && |t.procs| == |s.procs| + (if e == DoCreate(true) then 1 else 0)
      && (forall i :: 0 <= i < |s.procs| ==> t.procs[i].pid == s.procs[i].pid)
      && (forall i :: 0 <= i < |s.procs| ==>
            (Alive(t.procs[i]) <==> Alive(s.procs[i]) && !(e == DoExit && i == s.cur)))
      && (e == DoCreate(true) ==> t.procs[|s.procs|] == Proc(|s.procs| % PID_LIMIT, Ready))
      && (e != DoTick ==> t.cur == s.cur)
      && (e == DoTick ==>
            && (t.cur == s.cur <==> forall i :: 0 <= i < |s.procs| && i != s.cur ==> !Alive(s.procs[i]))
            && (t.cur != s.cur ==>
                  Alive(s.procs[t.cur])
                  && forall i :: 0 <= i < |s.procs| && Between(s.cur, i, t.cur) ==> !Alive(s.procs[i])))
  {
    hide FirstAlive;
    StepSafe(s, e);
  }

  /** Two states that agree on all this are the same: the law leaves no room. */
  lemma {:induction false} StepOnly(s: Sched, e: Event, t: Sched)
    requires Safe(s) && Safe(t) && t.cur == Step(s, e).cur && |t.procs| == |Step(s, e).procs|
    requires forall i :: 0 <= i < |t.procs| ==> (Alive(t.procs[i]) <==> Alive(Step(s, e).procs[i]))
    ensures t == Step(s, e)
  {
    hide Step;
    StepSafe(s, e);
    var u := Step(s, e);
    forall i | 0 <= i < |t.procs| ensures t.procs[i] == u.procs[i] {
      assert t.procs[i].pid == u.procs[i].pid;
    }
    assert t.procs == u.procs;
  }

  predicate RunOf(ss: seq<Sched>, es: seq<Event>) {
    && |ss| == |es| + 1
    && forall i :: 0 <= i < |es| ==> ss[i].cur < |ss[i].procs| && ss[i + 1] == Step(ss[i], es[i])
  }

  /** Safety over every run from boot; a process once dead stays dead. */
  lemma {:induction false} RunSafe(ss: seq<Sched>, es: seq<Event>, i: nat, j: nat)
    requires RunOf(ss, es) && ss[0] == Boot && i <= j < |ss|
    ensures Safe(ss[i]) && Safe(ss[j]) && |ss[i].procs| <= |ss[j].procs|
    ensures forall p :: 0 <= p < |ss[i].procs| && !Alive(ss[i].procs[p]) ==> !Alive(ss[j].procs[p])
    decreases i + j
  {
    hide Step;
    if i < j {
      RunSafe(ss, es, i, j - 1);
      StepSafe(ss[j - 1], es[j - 1]);
      assert ss[j - 1 + 1] == Step(ss[j - 1], es[j - 1]);
    } else if j > 0 {
      RunSafe(ss, es, j - 1, j - 1);
      StepSafe(ss[j - 1], es[j - 1]);
      assert ss[j - 1 + 1] == Step(ss[j - 1], es[j - 1]);
    }
  }

  /** Process `p` calls `process_exit` somewhere from step `i` up to step `j`. */
  predicate Exits(ss: seq<Sched>, es: seq<Event>, p: nat, i: nat, j: nat)
    requires |ss| == |es| + 1 && j <= |es|
  {
    exists k :: i <= k < j && es[k] == DoExit && ss[k].cur == p
  }

  /** A process alive at one point of a run is alive at a later one exactly when it has not exited in between. */
  lemma {:induction false} AliveUntilExit(ss: seq<Sched>, es: seq<Event>, p: nat, i: nat, j: nat)
    requires RunOf(ss, es) && Safe(ss[0]) && i <= j < |ss| && p < |ss[i].procs| && Alive(ss[i].procs[p])
    ensures p < |ss[j].procs| && (Alive(ss[j].procs[p]) <==> !Exits(ss, es, p, i, j))
    decreases j
  {
    hide Step, Safe;
    if i < j {
      AliveUntilExit(ss, es, p, i, j - 1);
      SafeAlong(ss, es, j - 1);
      StepExactly(ss[j - 1], es[j - 1]);
      assert ss[j - 1 + 1] == Step(ss[j - 1], es[j - 1]);
    }
  }

  /** Once a process has exited and been switched away from, it is never current again. */
  lemma {:induction false} ExitedIsGone(ss: seq<Sched>, es: seq<Event>, i: nat, k: nat, j: nat)
    requires RunOf(ss, es) && Safe(ss[0]) && i < k <= j < |ss| && es[i] == DoExit && ss[k].cur != ss[i].cur
    ensures ss[i].cur < |ss[j].procs| && !Alive(ss[j].procs[ss[i].cur]) && ss[j].cur != ss[i].cur
    decreases j
  {
    hide Step, Safe;
    if k < j {
      ExitedIsGone(ss, es, i, k, j - 1);
      SafeAlong(ss, es, j - 1);
      StepSafe(ss[j - 1], es[j - 1]);
      assert ss[j - 1 + 1] == Step(ss[j - 1], es[j - 1]);
    } else {
      DeadAfterExit(ss, es, i, j);
    }
  }

  lemma {:induction false} DeadAfterExit(ss: seq<Sched>, es: seq<Event>, i: nat, j: nat)
    requires RunOf(ss, es) && Safe(ss[0]) && i < j < |ss| && es[i] == DoExit
    ensures ss[i].cur < |ss[j].procs| && !Alive(ss[j].procs[ss[i].cur])
    decreases j
  {
    hide Step, Safe;
    SafeAlong(ss, es, j - 1);
    StepExactly(ss[j - 1], es[j - 1]);
    assert ss[j - 1 + 1] == Step(ss[j - 1], es[j - 1]);
    if i < j - 1 {
      DeadAfterExit(ss, es, i, j - 1);
    } else {
      assert ss[i].cur < |ss[i].procs|;
    }
  }

  lemma {:induction false} SafeAlong(ss: seq<Sched>, es: seq<Event>, i: nat)
    requires RunOf(ss, es) && Safe(ss[0]) && i < |ss|
    ensures Safe(ss[i])
  {
    hide Step, Safe;
    if i > 0 {
      SafeAlong(ss, es, i - 1);
      StepSafe(ss[i - 1], es[i - 1]);
      assert ss[i - 1 + 1] == Step(ss[i - 1], es[i - 1]);
    }
  }

  /** Two processes share a pid only if 2^32 others were created between them. */
  lemma {:induction false} PidsDistinct(s: Sched, i: nat, j: nat)
    requires Safe(s) && i < j < |s.procs| && s.procs[i].pid == s.procs[j].pid
    ensures j - i >= 0x1_0000_0000
  {
    assert s.procs[i].pid == i % PID_LIMIT && s.procs[j].pid == j % PID_LIMIT;
    assert (j - i) % PID_LIMIT == 0;
  }

  // ---------- bounded waiting ----------

  /** Processes alive in positions `a` to `b`. */
  function Count(ps: seq<Proc>, a: nat, b: nat): nat
    requires b <= |ps|
    decreases b - a
  {
    if a >= b then 0 else (if Alive(ps[a]) then 1 else 0) + Count(ps, a + 1, b)
  }

  /** How many processes alive lie after the current one, cyclically, up to and including `p`. */
  function DistanceIn(ps: seq<Proc>, cur: nat, p: nat): nat
    requires cur < |ps| && p < |ps|
  {
    if p == cur then 0
    else if p > cur then Count(ps, cur + 1, p + 1)
    else Count(ps, cur + 1, |ps|) + Count(ps, 0, p + 1)
  }

  function Distance(s: Sched, p: nat): nat
    requires s.cur < |s.procs| && p < |s.procs|
  {
    DistanceIn(s.procs, s.cur, p)
  }

  lemma {:induction false} CountSplit(ps: seq<Proc>, a: nat, m: nat, b: nat)
    requires a <= m <= b <= |ps|
    ensures Count(ps, a, b) == Count(ps, a, m) + Count(ps, m, b)
    decreases m - a
  {
    if a < m {
      CountSplit(ps, a + 1, m, b);
    }
  }

  lemma {:induction false} CountNone(ps: seq<Proc>, a: nat, b: nat)
    requires b <= |ps| && forall j :: a <= j < b ==> !Alive(ps[j])
    ensures Count(ps, a, b) == 0
    decreases b - a
  {
    if a < b {
      CountNone(ps, a + 1, b);
    }
  }

  /** Counting depends only on who is alive. */
  lemma {:induction false} CountSame(ps: seq<Proc>, qs: seq<Proc>, a: nat, b: nat)
    requires b <= |ps| && b <= |qs| && forall j :: a <= j < b ==> (Alive(ps[j]) <==> Alive(qs[j]))
    ensures Count(ps, a, b) == Count(qs, a, b)
    decreases b - a
  {
    if a < b {
      CountSame(ps, qs, a + 1, b);
    }
  }

  lemma {:induction false} CountUpTo(ps: seq<Proc>, a: nat, p: nat)
    requires a <= p < |ps|
    ensures Count(ps, a, p + 1) == Count(ps, a, p) + if Alive(ps[p]) then 1 else 0
  {
    CountSplit(ps, a, p, p + 1);
    assert Count(ps, p + 1, p + 1) == 0;
  }

  /** A tick turns to the first process alive after the current one. */
  lemma {:induction false} NextOfFacts(ps: seq<Proc>, cur: nat)
    requires cur < |ps|
    ensures
      var n := NextOf(ps, cur);
      && (n > cur ==> Alive(ps[n]) && Count(ps, cur + 1, n) == 0)
      && (n < cur ==> Alive(ps[n]) && Count(ps, cur + 1, |ps|) == 0 && Count(ps, 0, n) == 0)
      && (n == cur ==> Count(ps, cur + 1, |ps|) == 0 && Count(ps, 0, cur) == 0)
  {
    hide FirstAlive;
    var n := NextOf(ps, cur);
    if n > cur {
      CountNone(ps, cur + 1, n);
    } else {
      CountNone(ps, cur + 1, |ps|);
      CountNone(ps, 0, n);
    }
  }

  /** Moving on to the next process alive brings every waiting one nearer by exactly one. */
  lemma {:induction false} NextIsNearer(ps: seq<Proc>, cur: nat, p: nat)
    requires cur < |ps| && p < |ps| && p != cur && Alive(ps[p])
    ensures NextOf(ps, cur) != cur
    ensures DistanceIn(ps, NextOf(ps, cur), p) == DistanceIn(ps, cur, p) - 1
  {
    hide NextOf;
    var n := NextOf(ps, cur);
    NextOfFacts(ps, cur);
    if p > cur {
      CountUpTo(ps, cur + 1, p);
      CountSplit(ps, cur + 1, p + 1, |ps|);
      if n == cur {
        assert false;
      } else if n > cur {
        if n <= p {
          CountSplit(ps, cur + 1, n, p + 1);
        } else {
          CountSplit(ps, cur + 1, p + 1, n);
          assert false;
        }
      } else {
        assert false;
      }
    } else {
      CountUpTo(ps, 0, p);
      if n > cur {
        CountSplit(ps, cur + 1, n, |ps|);
      } else if n == cur {
        CountSplit(ps, 0, p + 1, cur);
        assert false;
      } else if n <= p {
        CountSplit(ps, 0, n, p + 1);
      } else {
        CountSplit(ps, 0, p + 1, n);
        assert false;
      }
    }
  }

  lemma {:induction false} DistanceSame(ps: seq<Proc>, qs: seq<Proc>, cur: nat, p: nat)
    requires |ps| == |qs| && cur < |ps| && p < |ps|
    requires forall j :: 0 <= j < |ps| && j != cur ==> (Alive(ps[j]) <==> Alive(qs[j]))
    ensures DistanceIn(ps, cur, p) == DistanceIn(qs, cur, p)
  {
    if p > cur {
      CountSame(ps, qs, cur + 1, p + 1);
    } else if p < cur {
      CountSame(ps, qs, cur + 1, |ps|);
      CountSame(ps, qs, 0, p + 1);
    }
  }

  /** A tick brings every live waiting process one nearer; an exit moves nobody; a create adds at most one,
      and nothing when it fails. */
  lemma {:induction false} StepDistance(s: Sched, e: Event, p: nat)
    requires Safe(s) && p < |s.procs| && p != s.cur && Alive(s.procs[p])
    ensures p < |Step(s, e).procs| && Step(s, e).cur < |Step(s, e).procs|
    ensures e == DoTick ==> Distance(Step(s, e), p) == Distance(s, p) - 1
    ensures e == DoExit ==> Distance(Step(s, e), p) == Distance(s, p)
    ensures e == DoCreate(true) ==> Distance(Step(s, e), p) <= Distance(s, p) + 1
    ensures e == DoCreate(false) ==> Step(s, e) == s
    ensures Distance(s, p) >= 1
  {
    hide NextOf;
    var ps := s.procs;
    var t := Step(s, e);
    NextIsNearer(ps, s.cur, p);
    match e
    case DoTick =>
      DistanceSame(ps, t.procs, t.cur, p);
    case DoExit =>
      DistanceSame(ps, t.procs, s.cur, p);
    case DoCreate(memoryOk) =>
      if memoryOk {
        if p > s.cur {
          CountSame(ps, t.procs, s.cur + 1, p + 1);
        } else {
          CountSplit(t.procs, s.cur + 1, |ps|, |ps| + 1);
          CountSame(ps, t.procs, s.cur + 1, |ps|);
          CountSame(ps, t.procs, 0, p + 1);
          assert Count(t.procs, |ps|, |ps| + 1) <= 1 by {
            assert Count(t.procs, |ps| + 1, |ps| + 1) == 0;
          }
        }
      }
  }

  function Ticks(es: seq<Event>): nat {
    if es == [] then 0 else Ticks(es[..|es| - 1]) + if es[|es| - 1] == DoTick then 1 else 0
  }

  /** The processes created: attempts that find no memory create none. */
  function Creates(es: seq<Event>): nat {
    if es == [] then 0 else Creates(es[..|es| - 1]) + if es[|es| - 1] == DoCreate(true) then 1 else 0
  }

  /** Process `p` is alive and not current. */
  predicate Waiting(s: Sched, p: nat) {
    s.cur < |s.procs| && p < |s.procs| && s.cur != p && Alive(s.procs[p])
  }

  /** While a live process waits, each tick uses up one unit of its cyclic distance, and only a new process
      can add one. */
  lemma {:induction false} WaitingBudget(ss: seq<Sched>, es: seq<Event>, p: nat)
    requires RunOf(ss, es) && Safe(ss[0])
    requires forall i :: 0 <= i < |ss| ==> Waiting(ss[i], p)
    ensures Waiting(ss[0], p) && Waiting(ss[|es|], p)
    ensures Ticks(es) + Distance(ss[|es|], p) <= Distance(ss[0], p) + Creates(es)
    decreases |es|
  {
    hide Step, Distance, Safe;
    assert Waiting(ss[0], p) && Waiting(ss[|es|], p);
    if es != [] {
      var n := |es| - 1;
      var rs, fs := ss[..n + 1], es[..n];
      RunPrefix(ss, es);
      forall i | 0 <= i < |rs| ensures Waiting(rs[i], p) {
        assert rs[i] == ss[i];
      }
      WaitingBudget(rs, fs, p);
      assert ss[n + 1] == Step(ss[n], es[n]);
      SafeAlong(ss, es, n);
      assert Waiting(ss[n], p);
      StepDistance(ss[n], es[n], p);
    }
  }

  lemma {:induction false} RunPrefix(ss: seq<Sched>, es: seq<Event>)
    requires RunOf(ss, es) && es != []
    ensures RunOf(ss[..|es|], es[..|es| - 1])
  {
    hide Step;
    var rs, fs := ss[..|es|], es[..|es| - 1];
    forall i | 0 <= i < |fs| ensures rs[i].cur < |rs[i].procs| && rs[i + 1] == Step(rs[i], fs[i]) {
      assert rs[i] == ss[i] && fs[i] == es[i] && rs[i + 1] == ss[i + 1];
    }
  }

  /** Bounded waiting: over every run with as many ticks as the cyclic distance of a live process, counted in live
      processes, plus the processes created meanwhile, that process is current at some point. */
  lemma {:induction false} BoundedWaiting(ss: seq<Sched>, es: seq<Event>, p: nat)
    requires RunOf(ss, es) && Safe(ss[0]) && p < |ss[0].procs| && Alive(ss[0].procs[p])
    requires Ticks(es) >= Distance(ss[0], p) + Creates(es)
    ensures exists i :: 0 <= i < |ss| && ss[i].cur == p
  {
    hide Step, Distance, Ticks, Creates;
    if forall i :: 0 <= i < |ss| ==> ss[i].cur != p {
      forall i | 0 <= i < |ss| ensures Waiting(ss[i], p) {
        SafeAlong(ss, es, i);
        AliveUntilExit(ss, es, p, 0, i);
      }
      WaitingBudget(ss, es, p);
      SafeAlong(ss, es, |es|);
      StepDistance(ss[|es|], DoExit, p);
      assert false;
    }
  }
}
