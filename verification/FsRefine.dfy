/** AshFS as a map from names to files: the abstract machine, and the proof that every run of the
    kernel's operations from a formatted disk returns what the abstract machine returns. */
module FsRefine {
  import opened Bytes
  import opened FsLayout
  import opened FsSpec
  import opened FsFrame
  import opened FsCrash
  import opened FsCount

  datatype Op =
    | Create(name: Name)
    | Write(name: Name, data: Data)
    | Read(name: Name, size: nat)
    | Delete(name: Name)
    | Reboot

  datatype Output = Code(ret: int) | Got(result: ReadResult)

  /** The operations the theorem speaks of: new names fit their field, and `size + 511` does not wrap. */
  predicate Admissible(op: Op) {
    match op
    case Create(name) => |name| <= 63
    case Write(_, data) => |data| + 511 < WORD_LIMIT
    case _ => true
  }

  // ---------- the abstract machine ----------

  /** Files by name, the counter in memory and the counter on disk. */
  datatype AbsFs = AbsFs(files: map<Name, File>, free: nat, saved: nat)

  function AbsStep(a: AbsFs, op: Op): AbsFs {
    match op
    case Create(name) =>
      if name in a.files || |a.files| >= 32 then a else a.(files := a.files[name := File([], 0)])
    case Write(name, data) =>
      var k := BlocksNeeded(|data|);
      if name !in a.files || k > 32 then a
      else if a.free < k then a.(free := 0)
      else AbsFs(a.files[name := File(Smear(data), Max(a.files[name].slots, k))], a.free - k, a.free - k)
    case Read(_, _) => a
    case Delete(name) =>
      if name !in a.files then a
      else
        var free := a.free + a.files[name].slots;
        AbsFs(a.files - {name}, free, free)
    case Reboot => a.(free := a.saved)
  }

  function AbsOutput(a: AbsFs, op: Op): Output {
    match op
    case Create(name) => Code(if name in a.files || |a.files| >= 32 then -1 else 0)
    case Write(name, data) =>
      Code(if name !in a.files || BlocksNeeded(|data|) > 32 || a.free < BlocksNeeded(|data|) then -1 else 0)
    case Read(name, size) =>
      if name !in a.files then Got(ReadResult(-1, []))
      else
        var c := a.files[name].bytes;
        var n := if size < |c| then size else |c|;
        Got(ReadResult(n, c[..n]))
    case Delete(name) => Code(if name in a.files then 0 else -1)
    case Reboot => Code(0)
  }

  function AbsRun(a: AbsFs, ops: seq<Op>): seq<Output>
    decreases |ops|
  {
    if ops == [] then [] else [AbsOutput(a, ops[0])] + AbsRun(AbsStep(a, ops[0]), ops[1..])
  }

  // ---------- the concrete machine ----------

  /** Both copies of the counter, plus the slots in use, stay within the 1024 blocks. */
  predicate CountOk(s: Fs) {
    && s.sb.free_blocks + SlotSum(Table(s.disk)) <= 1024
    && DecodeSuper(s.disk[0]).free_blocks + SlotSum(Table(s.disk)) <= 1024
  }

  predicate Inv(s: Fs) { FsOk(s) && CountOk(s) }

  function AbsOf(s: Fs): AbsFs
    requires FsOk(s)
  {
    AbsFs(Files(s.disk), s.sb.free_blocks, DecodeSuper(s.disk[0]).free_blocks)
  }

  function EffectOf(s: Fs, op: Op): Effect {
    match op
    case Create(name) => CreateEffect(s, name)
    case Write(name, data) => WriteEffect(s, name, data)
    case Read(_, _) => Effect(0, [], s.sb)
    case Delete(name) => DeleteEffect(s, name)
    case Reboot => InitEffect(s.disk)
  }

  function OutputOf(s: Fs, op: Op): Output
    requires FsOk(s)
  {
    if op.Read? then Got(ReadOutcome(s, op.name, op.size)) else Code(EffectOf(s, op).ret)
  }

  function After(s: Fs, e: Effect): Fs
    requires InDisk(s.disk, e.log)
  {
    Fs(Apply(s.disk, e.log), e.sb)
  }

  /** One step keeps the invariants, does what the abstract machine does and returns the same. */
  predicate StepRefines(s: Fs, op: Op)
    requires Inv(s)
  {
    var e := EffectOf(s, op);
    && InDisk(s.disk, e.log)
    && Inv(After(s, e))
    && AbsOf(After(s, e)) == AbsStep(AbsOf(s), op)
    && OutputOf(s, op) == AbsOutput(AbsOf(s), op)
  }

  lemma {:induction false} CreateRefines(s: Fs, name: Name)
    requires Inv(s) && |name| <= 63
    ensures StepRefines(s, Create(name))
  {
    hide TableOk, FilesOf, Table, DecodeSuper, NewInode, SlotSum, Apply, InodeSector, FindFrom, UnusedFrom, Slots;
    var t := Table(s.disk);
    CreateAtomic(s, name);
    FilesFind(t, s.disk, name);
    FilesSize(t, s.disk);
    if CreateEffect(s, name).ret == 0 {
      var i := UnusedFrom(t, 0);
      assert Truncated(name) == name;
      NewInodeOk(t, i, name);
      SlotSumPut(t, i, NewInode(name));
    }
  }

  lemma {:induction false} DeleteRefines(s: Fs, name: Name)
    requires Inv(s)
    ensures StepRefines(s, Delete(name))
  {
    hide TableOk, FilesOf, Table, DecodeSuper, Erased, SlotSum, InodeSector, SuperSector, FindFrom;
    var t := Table(s.disk);
    var e := DeleteEffect(s, name);
    DeleteCrashAtomic(s, name, |e.log|);
    FilesFind(t, s.disk, name);
    assert e.log[..|e.log|] == e.log;
    if e.ret == 0 {
      var i := Find(t, name);
      SlotSumPut(t, i, Erased(t[i]));
      ErasedOk(t, i);
    } else {
      assert e.log == [];
    }
  }

  lemma {:induction false} WriteRefines(s: Fs, name: Name, data: Data)
    requires Inv(s) && |data| + 511 < WORD_LIMIT
    ensures StepRefines(s, Write(name, data))
  {
    hide TableOk, FilesOf, Table, DecodeSuper, Rewritten, SlotSum, Apply, InodeSector, SuperSector, FindFrom, Smear;
    var t := Table(s.disk);
    var e := WriteEffect(s, name, data);
    WriteCrashAtomic(s, name, data, |e.log|);
    WriteTableAt(s, name, data, |e.log|);
    FilesFind(t, s.disk, name);
    assert e.log[..|e.log|] == e.log;
    var k, b, i := BlocksNeeded(|data|), FreeBlock(t, 1024), Find(t, name);
    if b == 0 {
      FullDisk(t);
    }
    if e.ret == 0 {
      var x := Rewritten(t[i], k, b, |data|);
      RewrittenOk(t, i, k, b, |data|);
      SlotSumPut(t, i, x);
    }
  }

  lemma {:induction false} ReadRefines(s: Fs, name: Name, size: nat)
    requires Inv(s)
    ensures StepRefines(s, Read(name, size))
  {
    hide TableOk, FilesOf, Table, DecodeSuper, SlotSum, FindFrom;
    FilesFind(Table(s.disk), s.disk, name);
  }

  lemma {:induction false} RebootRefines(s: Fs)
    requires Inv(s)
    ensures StepRefines(s, Reboot)
  {
    hide TableOk, FilesOf, Table, DecodeSuper, SlotSum, FindFrom;
  }

  /** Every operation refines its abstract counterpart: same effect on the files and counters, same answer. */
  lemma {:induction false} StepCorrect(s: Fs, op: Op)
    requires Inv(s) && Admissible(op)
    ensures StepRefines(s, op)
  {
    hide Inv, StepRefines;
    match op
    case Create(name) => CreateRefines(s, name);
    case Write(name, data) => WriteRefines(s, name, data);
    case Read(name, size) => ReadRefines(s, name, size);
    case Delete(name) => DeleteRefines(s, name);
    case Reboot => RebootRefines(s);
  }

  // ---------- runs ----------

  function Step(s: Fs, op: Op): (s': Fs)
    requires Inv(s) && Admissible(op)
    ensures Inv(s')
  {
    StepCorrect(s, op);
    After(s, EffectOf(s, op))
  }

  predicate AllAdmissible(ops: seq<Op>) { forall i :: 0 <= i < |ops| ==> Admissible(ops[i]) }

  /** The answers of a run. */
  function Run(s: Fs, ops: seq<Op>): seq<Output>
    requires Inv(s) && AllAdmissible(ops)
    decreases |ops|
  {
    if ops == [] then [] else [OutputOf(s, ops[0])] + Run(Step(s, ops[0]), ops[1..])
  }

  /** The state a run ends in; the invariants hold there. */
  function Final(s: Fs, ops: seq<Op>): (r: Fs)
    requires Inv(s) && AllAdmissible(ops)
    ensures Inv(r)
    decreases |ops|
  {
    if ops == [] then s else Final(Step(s, ops[0]), ops[1..])
  }

  function AbsFinal(a: AbsFs, ops: seq<Op>): AbsFs
    decreases |ops|
  {
    if ops == [] then a else AbsFinal(AbsStep(a, ops[0]), ops[1..])
  }

  lemma {:induction false} RunRefines(s: Fs, ops: seq<Op>)
    requires Inv(s) && AllAdmissible(ops)
    ensures Run(s, ops) == AbsRun(AbsOf(s), ops)
    ensures AbsOf(Final(s, ops)) == AbsFinal(AbsOf(s), ops)
    decreases |ops|
  {
    hide Inv, AbsStep, AbsOutput, OutputOf, EffectOf, AbsOf;
    if ops != [] {
      StepCorrect(s, ops[0]);
      RunRefines(Step(s, ops[0]), ops[1..]);
    }
  }

  /** The counter against the scan, after every run: the counter and the slots in use stay within 1024, so
      the counter never wraps and never exceeds the number of blocks the scan finds free, every block number
      is in the data area, and `block_alloc` fails exactly when the counter is 0. */
  lemma {:induction false} CounterAgainstScan(s: Fs, ops: seq<Op>)
    requires Inv(s) && AllAdmissible(ops)
    ensures
      var f := Final(s, ops);
      var t := Table(f.disk);
      && f.sb.free_blocks + SlotSum(t) <= 1024
      && f.sb.free_blocks <= |FreeBlocks(t)|
      && (forall i, j :: 0 <= i < 32 && InUse(t[i]) && 0 <= j < 32 ==>
            t[i].blocks[j] == 0 || 33 <= t[i].blocks[j] < 1057)
      && (f.sb.free_blocks == 0 || FreeBlock(t, f.sb.total_blocks) == 0 <==> f.sb.free_blocks == 0)
  {
    hide Table, SlotSum, FreeBlockFrom, FreeBlocksFrom;
    var f := Final(s, ops);
    ScanCount(Table(f.disk));
    if FreeBlock(Table(f.disk), 1024) == 0 {
      FullDisk(Table(f.disk));
    }
  }
}
