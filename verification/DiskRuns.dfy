/** Runs of the disk manager: it is a plain map from pages to bytes, and its file is never more than twice as large
    as the slots handed out need. */
module DiskRuns {
  import opened Common
  import opened Disk

  datatype Op = Put(page: PageId, data: Page) | Remove(page: PageId) | Get(page: PageId)

  /** Reads are of pages that are there. */
  ghost predicate Allowed(d: Disk, op: Op) {
    op.Get? ==> op.page in d.pages
  }

  ghost function Step(d: Disk, op: Op): (r: Outcome<Disk>) {
    match op
    case Put(p, data) => Write(d, p, data)
    case Remove(p) => Done(Delete(d, p))
    case Get(p) =>
      match Read(d, p, ZeroPage())
      case Panic => Panic
      case Done(x) => Done(x.0)
  }

  ghost predicate StepAt(states: seq<Disk>, ops: seq<Op>, i: nat)
    requires i < |ops| < |states|
  {
    Allowed(states[i], ops[i]) && Step(states[i], ops[i]) == Done(states[i + 1])
  }

  /** A run of a new disk manager over a file that held `existing`. */
  ghost predicate Run(existing: seq<byte>, states: seq<Disk>, ops: seq<Op>) {
    && |states| == |ops| + 1 && states[0] == NewDisk(existing)
    && forall i {:trigger StepAt(states, ops, i)} :: 0 <= i < |ops| ==> StepAt(states, ops, i)
  }

  /** The specification. */
  ghost function Plain(m: map<PageId, Page>, op: Op): (r: map<PageId, Page>) {
    match op
    case Put(p, data) => m[p := data]
    case Remove(p) => m - {p}
    case Get(_) => m
  }

  ghost function PlainRun(ops: seq<Op>, n: nat): (m: map<PageId, Page>)
    requires n <= |ops|
    decreases n
  {
    if n == 0 then map[] else Plain(PlainRun(ops, n - 1), ops[n - 1])
  }

  ghost function Slots(d: Disk): (n: nat) {
    |d.pages| + |d.freeSlots|
  }

  /** The file was not made larger than it has to be. */
  ghost predicate Lean(d: Disk) {
    d.capacity == 16 || d.capacity <= 2 * Slots(d)
  }

  lemma StepRefines(d: Disk, op: Op)
    requires DiskOk(d) && Allowed(d, op)
    ensures Step(d, op).Done? && DiskOk(Step(d, op).value)
    ensures Contents(Step(d, op).value) == Plain(Contents(d), op)
  {
    match op
    case Put(p, data) =>
      WriteStores(d, p, data);
      assert data[..PAGE_SIZE] == data;
    case Remove(p) => DeleteRemoves(d, p);
    case Get(p) => ReadReturns(d, p, ZeroPage());
  }

  lemma StepLean(d: Disk, op: Op)
    requires DiskOk(d) && Allowed(d, op) && Lean(d)
    ensures Step(d, op).Done? && Lean(Step(d, op).value)
  {
    match op
    case Put(p, data) =>
      WriteGrows(d, p, data);
      WriteSlots(d, p, data);
    case Remove(p) =>
      if p in d.pages {
        assert |d.pages| == |d.pages - {p}| + 1;
      }
    case Get(p) => ReadReturns(d, p, ZeroPage());
  }

  /** Over every run of writes, deletes and reads of pages that are there: no operation fails, the pages tile the
      file, they read as their last writes, and the file is no larger than it has to be. */
  lemma {:induction false} RunIsMap(existing: seq<byte>, states: seq<Disk>, ops: seq<Op>, n: nat)
    requires Run(existing, states, ops) && n <= |ops|
    ensures DiskOk(states[n]) && Contents(states[n]) == PlainRun(ops, n) && Lean(states[n])
    decreases n
  {
    NewDiskOk(existing);
    if n > 0 {
      RunIsMap(existing, states, ops, n - 1);
      assert StepAt(states, ops, n - 1);
      StepRefines(states[n - 1], ops[n - 1]);
      StepLean(states[n - 1], ops[n - 1]);
    }
  }
}
