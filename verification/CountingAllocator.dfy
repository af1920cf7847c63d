/** The allocator that counts bytes and allocations in use
    (examples/supervisor_startup_memory.rs): its calls as the code runs them
    alone, and every interleaving of their atomic operations. */
module CountingAllocator {
  import opened Sums

  // ----- one call, operation by operation

  datatype Counters = Counters(bytes: int, count: int, peak: int, peakCount: int)

  type Block = nat

  /** Where a thread is in a call: the atomic operation it does next, with the
      locals of `grew` it has computed. A block being (re)allocated has its new
      size here and joins the live blocks when the call returns. */
  datatype Pc =
    | Idle
    | GrewBytes(block: Block, size: nat, added: nat, allocations: nat)
    | GrewCount(block: Block, size: nat, allocations: nat, bytes: int)
    | GrewPeak(block: Block, size: nat, bytes: int, count: int)
    | GrewPeakCount(block: Block, size: nat, count: int)
    | FreeBytes(size: nat)
    | FreeCount
    | ShrinkBytes(block: Block, size: nat, added: nat)

  function Max(a: int, b: int): int {
    if a < b then b else a
  }

  /** The one atomic operation `pc` stands before, and where the call is then. */
  function Atomic(c: Counters, pc: Pc): (Counters, Pc) {
    match pc
    case Idle => (c, Idle)
    case GrewBytes(block, size, added, n) => (c.(bytes := c.bytes + added), GrewCount(block, size, n, c.bytes + added))
    case GrewCount(block, size, n, bytes) => (c.(count := c.count + n), GrewPeak(block, size, bytes, c.count + n))
    case GrewPeak(block, size, bytes, count) => (c.(peak := Max(c.peak, bytes)), GrewPeakCount(block, size, count))
    case GrewPeakCount(_, _, count) => (c.(peakCount := Max(c.peakCount, count)), Idle)
    case FreeBytes(size) => (c.(bytes := c.bytes - size), FreeCount)
    case FreeCount => (c.(count := c.count - 1), Idle)
    case ShrinkBytes(_, _, added) => (c.(bytes := c.bytes - added), Idle)
  }

  /** The operations left before the call returns. */
  function Left(pc: Pc): nat {
    match pc
    case Idle => 0
    case GrewBytes(_, _, _, _) => 4
    case GrewCount(_, _, _, _) => 3
    case GrewPeak(_, _, _, _) => 2
    case GrewPeakCount(_, _, _) => 1
    case FreeBytes(_) => 2
    case FreeCount => 1
    case ShrinkBytes(_, _, _) => 1
  }

  /** The counters after the call runs to its end with no other thread in between. */
  function Alone(c: Counters, pc: Pc): Counters
    decreases Left(pc)
  {
    if pc.Idle? then c else var (c', pc') := Atomic(c, pc); Alone(c', pc')
  }

  /** Where a successful `realloc` of a block of `size` bytes starts counting. */
  function Resizing(block: Block, size: nat, newSize: nat): Pc {
    if newSize >= size then GrewBytes(block, newSize, newSize - size, 0)
    else ShrinkBytes(block, newSize, size - newSize)
  }

  /** The allocator as the code has it, one call at a time. */
  class Counting {
    var bytes: int
    var count: int
    var peak: int
    var peakCount: int

    function Now(): Counters
      reads this
    {
      Counters(bytes, count, peak, peakCount)
    }

    predicate Unmoved(bytes: int, count: int, peak: int, peakCount: int)
      reads this
    {
      this.bytes == bytes && this.count == count && this.peak == peak && this.peakCount == peakCount
    }

    constructor ()
      ensures bytes == 0 && count == 0 && peak == 0 && peakCount == 0
    {
      bytes, count, peak, peakCount := 0, 0, 0, 0;
    }

    method Grew(added: nat, allocations: nat)
      modifies this
      ensures bytes == old(bytes) + added && count == old(count) + allocations
      ensures peak == (if old(peak) < bytes then bytes else old(peak))
      ensures peakCount == (if old(peakCount) < count then count else old(peakCount))
      ensures forall block, size :: Now() == Alone(old(Now()), GrewBytes(block, size, added, allocations))
    {
      bytes := bytes + added;
      var seen := bytes;
      count := count + allocations;
      var seenCount := count;
      peak := Max(peak, seen);
      peakCount := Max(peakCount, seenCount);
      forall block, size ensures Now() == Alone(old(Now()), GrewBytes(block, size, added, allocations)) {
        GrewAlone(old(Now()), block, size, added, allocations);
      }
    }

    /** `alloc` and `alloc_zeroed`; `ok` is whether the system gave the block. */
    method Alloc(block: Block, size: nat, ok: bool)
      modifies this
      ensures if ok then
                && bytes == old(bytes) + size && count == old(count) + 1
                && peak == (if old(peak) < bytes then bytes else old(peak))
                && peakCount == (if old(peakCount) < count then count else old(peakCount))
              else Unmoved(old(bytes), old(count), old(peak), old(peakCount))
      ensures Now() == if ok then Alone(old(Now()), GrewBytes(block, size, size, 1)) else old(Now())
    {
      if ok {
        Grew(size, 1);
      }
    }

    method Dealloc(size: nat)
      modifies this
      ensures bytes == old(bytes) - size && count == old(count) - 1
      ensures peak == old(peak) && peakCount == old(peakCount)
      ensures Now() == Alone(old(Now()), FreeBytes(size))
    {
      bytes := bytes - size;
      count := count - 1;
    }

    method Realloc(block: Block, size: nat, newSize: nat, ok: bool)
      modifies this
      ensures if !ok then Unmoved(old(bytes), old(count), old(peak), old(peakCount))
              else
                && bytes == old(bytes) + newSize - size && count == old(count)
                && peak == (if newSize >= size && old(peak) < bytes then bytes else old(peak))
                && peakCount == (if newSize >= size && old(peakCount) < count then count else old(peakCount))
      ensures Now() == if ok then Alone(old(Now()), Resizing(block, size, newSize)) else old(Now())
    {
      if ok {
        if newSize >= size {
          Grew(newSize - size, 0);
        } else {
          bytes := bytes - (size - newSize);
        }
      }
    }

    /** The peaks start again from what is in use. */
    method ResetPeak()
      modifies this
      ensures bytes == old(bytes) && count == old(count) && peak == bytes && peakCount == count
    {
      peak := bytes;
      peakCount := count;
    }
  }

  lemma GrewAlone(c: Counters, block: Block, size: nat, added: nat, n: nat)
    ensures Alone(c, GrewBytes(block, size, added, n)) ==
            Counters(c.bytes + added, c.count + n, Max(c.peak, c.bytes + added), Max(c.peakCount, c.count + n))
  {
    var c1 := c.(bytes := c.bytes + added);
    var c2 := c1.(count := c.count + n);
    var c3 := c2.(peak := Max(c.peak, c.bytes + added));
    assert Alone(c, GrewBytes(block, size, added, n)) == Alone(c1, GrewCount(block, size, n, c.bytes + added));
    assert Alone(c1, GrewCount(block, size, n, c.bytes + added)) == Alone(c2, GrewPeak(block, size, c.bytes + added, c.count + n));
    assert Alone(c2, GrewPeak(block, size, c.bytes + added, c.count + n)) == Alone(c3, GrewPeakCount(block, size, c.count + n));
    var c4 := c3.(peakCount := Max(c.peakCount, c.count + n));
    assert Alone(c3, GrewPeakCount(block, size, c.count + n)) == Alone(c4, Idle) == c4;
  }

  // ----- all threads

  datatype State = State(counters: Counters, live: map<Block, nat>, threads: map<nat, Pc>)

  /** Thread `t` is in no call. */
  predicate Resting(s: State, t: nat) {
    t !in s.threads || s.threads[t].Idle?
  }

  /** A thread handles `block` in a call. */
  ghost predicate InCall(s: State, block: Block) {
    exists t :: t in s.threads && Holds(s.threads[t], block)
  }

  predicate Holds(pc: Pc, block: Block) {
    (pc.GrewBytes? || pc.GrewCount? || pc.GrewPeak? || pc.GrewPeakCount? || pc.ShrinkBytes?) && pc.block == block
  }

  /** The system gives a block no one has. */
  ghost predicate Unused(s: State, block: Block) {
    block !in s.live && !InCall(s, block)
  }

  function Advance(s: State, t: nat): State
    requires t in s.threads
  {
    var pc := s.threads[t];
    var (c, pc') := Atomic(s.counters, pc);
    var live := if Returns(pc) then s.live[pc.block := pc.size] else s.live;
    State(c, live, s.threads[t := pc'])
  }

  /** One step of any thread: a call begins (the system's part is over, which
      touches no counter), or the thread does its next atomic operation. */
  ghost predicate Next(s: State, s': State) {
    || (exists t, block, size: nat :: BeginAlloc(s, s', t, block, size))
    || (exists t, block :: BeginDealloc(s, s', t, block))
    || (exists t, block, moved, newSize: nat :: BeginRealloc(s, s', t, block, moved, newSize))
    || (exists t :: t in s.threads && !s.threads[t].Idle? && s' == Advance(s, t))
  }

  ghost predicate BeginAlloc(s: State, s': State, t: nat, block: Block, size: nat) {
    && Resting(s, t) && Unused(s, block)
    && s' == s.(threads := s.threads[t := GrewBytes(block, size, size, 1)])
  }

  ghost predicate BeginDealloc(s: State, s': State, t: nat, block: Block) {
    && Resting(s, t) && block in s.live
    && s' == s.(live := s.live - {block}, threads := s.threads[t := FreeBytes(s.live[block])])
  }

  ghost predicate BeginRealloc(s: State, s': State, t: nat, block: Block, moved: Block, newSize: nat) {
    && Resting(s, t) && block in s.live && (moved == block || Unused(s, moved))
    && s' == s.(live := s.live - {block}, threads := s.threads[t := Resizing(moved, s.live[block], newSize)])
  }

  // ----- the account: what each thread's call has in the counters

  function PendingBytes(pc: Pc): int {
    match pc
    case Idle => 0
    case GrewBytes(_, size, added, _) => size - added
    case GrewCount(_, size, _, _) => size
    case GrewPeak(_, size, _, _) => size
    case GrewPeakCount(_, size, _) => size
    case FreeBytes(size) => size
    case FreeCount => 0
    case ShrinkBytes(_, size, added) => size + added
  }

  function PendingCount(pc: Pc): int {
    match pc
    case Idle => 0
    case GrewBytes(_, _, _, n) => 1 - n
    case GrewCount(_, _, n, _) => 1 - n
    case GrewPeak(_, _, _, _) => 1
    case GrewPeakCount(_, _, _) => 1
    case FreeBytes(_) => 1
    case FreeCount => 1
    case ShrinkBytes(_, _, _) => 1
  }

  function Size(size: nat): int {
    size
  }

  ghost function LiveBytes(s: State): int {
    Values(Size, s.live)
  }

  predicate Sound(pc: Pc) {
    && (pc.GrewBytes? ==> pc.added <= pc.size && pc.allocations <= 1)
    && (pc.GrewCount? ==> pc.allocations <= 1)
  }

  /** The counters are the live blocks and what the calls under way have counted. */
  ghost predicate Balanced(s: State) {
    && s.counters.bytes == LiveBytes(s) + Values(PendingBytes, s.threads)
    && s.counters.count == |s.live| + Values(PendingCount, s.threads)
  }

  /** Every block is live or in the hands of one call. */
  ghost predicate Owned(s: State) {
    && (forall t :: t in s.threads ==> Sound(s.threads[t]))
    && (forall t, b :: t in s.threads && Holds(s.threads[t], b) ==> b !in s.live)
    && (forall t, u, b :: t in s.threads && u in s.threads && Holds(s.threads[t], b) && Holds(s.threads[u], b) ==> t == u)
  }

  ghost predicate Accounted(s: State) {
    Balanced(s) && Owned(s)
  }

  lemma BeginKeepsBalance(s: State, s': State, t: nat, pc: Pc)
    requires Balanced(s) && Resting(s, t)
    requires s'.threads == s.threads[t := pc] && s'.counters == s.counters
    requires LiveBytes(s') == LiveBytes(s) - PendingBytes(pc) && |s'.live| == |s.live| - PendingCount(pc)
    ensures Balanced(s')
  {
    ValuesUpdate(PendingBytes, s.threads, t, pc);
    ValuesUpdate(PendingCount, s.threads, t, pc);
  }

  lemma BeginKeepsOwned(s: State, s': State, t: nat, pc: Pc)
    requires Owned(s) && s'.threads == s.threads[t := pc] && s'.live.Keys <= s.live.Keys && Sound(pc)
    requires forall b :: Holds(pc, b) ==> b !in s'.live && !InCall(s, b)
    ensures Owned(s')
  {
  }

  predicate Returns(pc: Pc) {
    pc.GrewPeakCount? || pc.ShrinkBytes?
  }

  lemma InnerStepKeepsBalance(s: State, t: nat)
    requires Accounted(s) && t in s.threads && !Returns(s.threads[t])
    ensures Balanced(Advance(s, t))
  {
    var pc := s.threads[t];
    var pc' := Atomic(s.counters, pc).1;
    ValuesUpdate(PendingBytes, s.threads, t, pc');
    ValuesUpdate(PendingCount, s.threads, t, pc');
  }

  lemma LiveWith(live: map<Block, nat>, block: Block, size: nat)
    requires block !in live
    ensures Values(Size, live[block := size]) == Values(Size, live) + size
    ensures |live[block := size]| == |live| + 1
  {
    ValuesUpdate(Size, live, block, size);
    assert live[block := size].Keys == live.Keys + {block};
  }

  /** The last operation of a call hands its block over to the live ones. */
  lemma ReturnKeepsBalance(s: State, t: nat)
    requires Accounted(s) && t in s.threads && Returns(s.threads[t])
    ensures Balanced(Advance(s, t))
  {
    var pc := s.threads[t];
    assert pc.block !in s.live by {
      assert Holds(pc, pc.block);
    }
    LiveWith(s.live, pc.block, pc.size);
    ValuesUpdate(PendingBytes, s.threads, t, Idle);
    ValuesUpdate(PendingCount, s.threads, t, Idle);
  }

  lemma AdvanceKeepsOwned(s: State, t: nat)
    requires Owned(s) && t in s.threads
    ensures Owned(Advance(s, t))
  {
    var pc := s.threads[t];
    var s' := Advance(s, t);
    if Returns(pc) {
      assert Holds(pc, pc.block);
    }
    assert forall b :: Holds(s'.threads[t], b) ==> Holds(pc, b);
  }

  lemma AllocKeepsAccount(s: State, s': State, t: nat, block: Block, size: nat)
    requires Accounted(s) && BeginAlloc(s, s', t, block, size)
    ensures Accounted(s')
  {
    BeginKeepsBalance(s, s', t, GrewBytes(block, size, size, 1));
    BeginKeepsOwned(s, s', t, GrewBytes(block, size, size, 1));
  }

  lemma LiveWithout(s: State, s': State, block: Block)
    requires block in s.live && s'.live == s.live - {block}
    ensures LiveBytes(s') == LiveBytes(s) - s.live[block] && |s'.live| == |s.live| - 1
  {
    ValuesWithout(Size, s.live, block);
    assert s'.live.Keys == s.live.Keys - {block};
  }

  lemma DeallocKeepsAccount(s: State, s': State, t: nat, block: Block)
    requires Accounted(s) && BeginDealloc(s, s', t, block)
    ensures Accounted(s')
  {
    LiveWithout(s, s', block);
    BeginKeepsBalance(s, s', t, FreeBytes(s.live[block]));
    BeginKeepsOwned(s, s', t, FreeBytes(s.live[block]));
  }

  lemma ReallocKeepsAccount(s: State, s': State, t: nat, block: Block, moved: Block, newSize: nat)
    requires Accounted(s) && BeginRealloc(s, s', t, block, moved, newSize)
    ensures Accounted(s')
  {
    LiveWithout(s, s', block);
    BeginKeepsBalance(s, s', t, Resizing(moved, s.live[block], newSize));
    BeginKeepsOwned(s, s', t, Resizing(moved, s.live[block], newSize));
  }

  /** Every step of every thread keeps the account. */
  lemma NextKeepsAccount(s: State, s': State)
    requires Accounted(s) && Next(s, s')
    ensures Accounted(s')
  {
    if t, block, size: nat :| BeginAlloc(s, s', t, block, size) {
      AllocKeepsAccount(s, s', t, block, size);
    } else if t, block :| BeginDealloc(s, s', t, block) {
      DeallocKeepsAccount(s, s', t, block);
    } else if t, block, moved, newSize: nat :| BeginRealloc(s, s', t, block, moved, newSize) {
      ReallocKeepsAccount(s, s', t, block, moved, newSize);
    } else {
      var t :| t in s.threads && !s.threads[t].Idle? && s' == Advance(s, t);
      if Returns(s.threads[t]) {
        ReturnKeepsBalance(s, t);
      } else {
        InnerStepKeepsBalance(s, t);
      }
      AdvanceKeepsOwned(s, t);
    }
  }

  lemma NonNegative(s: State)
    requires Accounted(s)
    ensures s.counters.bytes >= 0 && s.counters.count >= 0
  {
    ValuesAtLeast(Size, s.live, false);
    ValuesAtLeast(PendingBytes, s.threads, false);
    ValuesAtLeast(PendingCount, s.threads, false);
  }

  // ----- whole runs

  /** No thread is in a call. */
  ghost predicate Quiet(s: State) {
    forall t :: t in s.threads ==> s.threads[t].Idle?
  }

  /** The process start, or the moment after a `reset_peak` with no call under way. */
  ghost predicate Start(s: State) {
    Quiet(s) && Accounted(s) && s.counters.peak == s.counters.bytes && s.counters.peakCount == s.counters.count
  }

  ghost predicate StepAt(run: seq<State>, i: nat)
    requires i < |run| - 1
  {
    Next(run[i], run[i + 1])
  }

  ghost predicate Run(run: seq<State>) {
    run != [] && Start(run[0]) && forall i :: 0 <= i < |run| - 1 ==> StepAt(run, i)
  }

  ghost predicate BytesHeld(run: seq<State>, bytes: int) {
    exists i :: 0 <= i < |run| && run[i].counters.bytes == bytes
  }

  ghost predicate CountHeld(run: seq<State>, count: int) {
    exists i :: 0 <= i < |run| && run[i].counters.count == count
  }

  /** Thread `t` has computed `bytes` in `grew` and not yet raised PEAK. */
  predicate BytesSeen(s: State, t: nat, bytes: int) {
    t in s.threads && (s.threads[t].GrewCount? || s.threads[t].GrewPeak?) && s.threads[t].bytes == bytes
  }

  predicate CountSeen(s: State, t: nat, count: int) {
    t in s.threads && (s.threads[t].GrewPeak? || s.threads[t].GrewPeakCount?) && s.threads[t].count == count
  }

  ghost predicate BytesBounded(s: State, bytes: int) {
    bytes <= s.counters.peak || exists t, seen :: BytesSeen(s, t, seen) && bytes <= seen
  }

  ghost predicate CountBounded(s: State, count: int) {
    count <= s.counters.peakCount || exists t, seen :: CountSeen(s, t, seen) && count <= seen
  }

  /** What the peaks and the locals of `grew` know of the run so far. */
  ghost predicate PeaksKnown(run: seq<State>, s: State) {
    && BytesHeld(run, s.counters.peak) && CountHeld(run, s.counters.peakCount)
    && (forall t, bytes :: BytesSeen(s, t, bytes) ==> BytesHeld(run, bytes))
    && (forall t, count :: CountSeen(s, t, count) ==> CountHeld(run, count))
    && (forall bytes :: BytesHeld(run, bytes) ==> BytesBounded(s, bytes))
    && (forall count :: CountHeld(run, count) ==> CountBounded(s, count))
  }

  lemma HeldExtends(run: seq<State>, s: State)
    ensures forall bytes :: BytesHeld(run + [s], bytes) <==> BytesHeld(run, bytes) || bytes == s.counters.bytes
    ensures forall count :: CountHeld(run + [s], count) <==> CountHeld(run, count) || count == s.counters.count
  {
    var longer := run + [s];
    assert longer[|run|] == s;
    assert forall i :: 0 <= i < |run| ==> longer[i] == run[i];
  }

  /** Bounds known before a step are known after it. */
  lemma BoundsKept(s: State, s': State)
    requires Next(s, s')
    ensures forall bytes :: BytesBounded(s, bytes) ==> BytesBounded(s', bytes)
    ensures forall count :: CountBounded(s, count) ==> CountBounded(s', count)
  {
    forall bytes | BytesBounded(s, bytes) ensures BytesBounded(s', bytes) {
      if bytes > s.counters.peak {
        var t, seen :| BytesSeen(s, t, seen) && bytes <= seen;
        assert BytesSeen(s', t, seen) || seen <= s'.counters.peak;
      }
    }
    forall count | CountBounded(s, count) ensures CountBounded(s', count) {
      if count > s.counters.peakCount {
        var t, seen :| CountSeen(s, t, seen) && count <= seen;
        assert CountSeen(s', t, seen) || seen <= s'.counters.peakCount;
      }
    }
  }

  /** A step's new counts are within the old ones or seen by the thread that made them. */
  lemma NewCountsBounded(s: State, s': State)
    requires Next(s, s')
    ensures s'.counters.bytes > s.counters.bytes ==> exists t :: BytesSeen(s', t, s'.counters.bytes)
    ensures s'.counters.count > s.counters.count ==> exists t :: CountSeen(s', t, s'.counters.count)
  {
    if t :| t in s.threads && !s.threads[t].Idle? && s' == Advance(s, t) {
      if s.threads[t].GrewBytes? {
        assert BytesSeen(s', t, s'.counters.bytes);
      }
      if s.threads[t].GrewCount? {
        assert CountSeen(s', t, s'.counters.count);
      }
    }
  }

  /** Where a step's peaks and locals come from. */
  lemma SeenBefore(s: State, s': State)
    requires Next(s, s')
    ensures forall t, bytes :: BytesSeen(s', t, bytes) ==> BytesSeen(s, t, bytes) || bytes == s'.counters.bytes
    ensures forall t, count :: CountSeen(s', t, count) ==> CountSeen(s, t, count) || count == s'.counters.count
    ensures s'.counters.peak == s.counters.peak || exists t :: BytesSeen(s, t, s'.counters.peak)
    ensures s'.counters.peakCount == s.counters.peakCount || exists t :: CountSeen(s, t, s'.counters.peakCount)
  {
    if t :| t in s.threads && !s.threads[t].Idle? && s' == Advance(s, t) {
      if s'.counters.peak != s.counters.peak {
        assert BytesSeen(s, t, s'.counters.peak);
      }
      if s'.counters.peakCount != s.counters.peakCount {
        assert CountSeen(s, t, s'.counters.peakCount);
      }
    }
  }

  lemma PeaksKnownStep(run: seq<State>, s: State, s': State)
    requires run != [] && run[|run| - 1] == s && PeaksKnown(run, s) && Next(s, s')
    ensures PeaksKnown(run + [s'], s')
  {
    HeldExtends(run, s');
    BoundsKept(s, s');
    NewCountsBounded(s, s');
    SeenBefore(s, s');
    assert BytesHeld(run, s.counters.bytes) && CountHeld(run, s.counters.count);
    assert BytesBounded(s', s'.counters.bytes);
    assert CountBounded(s', s'.counters.count);
  }

  lemma RunPrefix(run: seq<State>, n: nat)
    requires Run(run) && 0 < n <= |run|
    ensures Run(run[..n])
  {
    forall i | 0 <= i < n - 1 ensures StepAt(run[..n], i) {
      assert StepAt(run, i);
    }
  }

  lemma {:induction false} RunKeeps(run: seq<State>)
    requires Run(run)
    ensures Accounted(run[|run| - 1]) && PeaksKnown(run, run[|run| - 1])
    decreases |run|
  {
    var n := |run| - 1;
    if n == 0 {
      StartKnown(run[0]);
      assert run == [run[0]];
    } else {
      var before := run[..n];
      RunLastStep(run);
      hide Run, Accounted, PeaksKnown, Next;
      RunKeeps(before);
      NextKeepsAccount(run[n - 1], run[n]);
      PeaksKnownStep(before, run[n - 1], run[n]);
    }
  }

  /** A run of more than its start is a run and one step. */
  lemma RunLastStep(run: seq<State>)
    requires Run(run) && |run| > 1
    ensures var n := |run| - 1; var before := run[..n];
            Run(before) && before[n - 1] == run[n - 1] && Next(run[n - 1], run[n]) && before + [run[n]] == run
  {
    hide Next;
    var n := |run| - 1;
    RunPrefix(run, n);
    assert StepAt(run, n - 1);
    assert run[..n] + [run[n]] == run;
  }

  lemma StartKnown(s: State)
    requires Start(s)
    ensures Accounted(s) && PeaksKnown([s], s)
  {
    assert [s][0].counters.bytes == s.counters.peak && [s][0].counters.count == s.counters.peakCount;
    assert BytesHeld([s], s.counters.peak) && CountHeld([s], s.counters.peakCount);
  }

  /** Under every interleaving no counter is ever below zero. */
  lemma CountersNeverNegative(run: seq<State>, i: nat)
    requires Run(run) && i < |run|
    ensures run[i].counters.bytes >= 0 && run[i].counters.count >= 0
  {
    RunPrefix(run, i + 1);
    RunKeeps(run[..i + 1]);
    NonNegative(run[i]);
  }

  lemma QuietPendsNothing(s: State)
    requires Quiet(s)
    ensures Values(PendingBytes, s.threads) == 0 && Values(PendingCount, s.threads) == 0
  {
    ValuesAtLeast(PendingBytes, s.threads, true);
    ValuesAtLeast(PendingCount, s.threads, true);
  }

  lemma QuietPeaks(run: seq<State>, s: State)
    requires Quiet(s) && PeaksKnown(run, s)
    ensures forall bytes :: BytesHeld(run, bytes) ==> bytes <= s.counters.peak
    ensures forall count :: CountHeld(run, count) ==> count <= s.counters.peakCount
  {
    assert forall bytes :: BytesBounded(s, bytes) ==> bytes <= s.counters.peak;
    assert forall count :: CountBounded(s, count) ==> count <= s.counters.peakCount;
  }

  /** Whenever no thread is in a call, BYTES and COUNT are the live blocks, and
      the peaks are exactly the largest values BYTES and COUNT ever held. */
  lemma QuietCountsAreExact(run: seq<State>)
    requires Run(run) && Quiet(run[|run| - 1])
    ensures var s := run[|run| - 1];
      && s.counters.bytes == LiveBytes(s) && s.counters.count == |s.live|
      && BytesHeld(run, s.counters.peak) && (forall bytes :: BytesHeld(run, bytes) ==> bytes <= s.counters.peak)
      && CountHeld(run, s.counters.peakCount) && (forall count :: CountHeld(run, count) ==> count <= s.counters.peakCount)
  {
    RunKeeps(run);
    QuietPendsNothing(run[|run| - 1]);
    QuietPeaks(run, run[|run| - 1]);
  }

  /** `reset_peak` with no call under way starts the peaks afresh. */
  lemma ResetStartsAgain(run: seq<State>)
    requires Run(run) && Quiet(run[|run| - 1])
    ensures var s := run[|run| - 1];
            Start(s.(counters := s.counters.(peak := s.counters.bytes, peakCount := s.counters.count)))
  {
    RunKeeps(run);
  }

  // ----- what each call does to the blocks

  /** The steps any thread may take: a call begins for a thread in no call, on a block
      nobody has for an allocation, on a live one for a release or a reallocation, and
      a thread in a call may go on. */
  lemma StepsAllowed(s: State, t: nat, block: Block, moved: Block, size: nat)
    requires t !in s.threads || s.threads[t] == Idle
    ensures block !in s.live && !InCall(s, block) ==>
              Next(s, State(s.counters, s.live, s.threads[t := GrewBytes(block, size, size, 1)]))
    ensures block in s.live ==> Next(s, State(s.counters, s.live - {block}, s.threads[t := FreeBytes(s.live[block])]))
    ensures block in s.live && (moved == block || (moved !in s.live && !InCall(s, moved))) ==>
              Next(s, State(s.counters, s.live - {block}, s.threads[t :=
                if size >= s.live[block] then GrewBytes(moved, size, size - s.live[block], 0)
                else ShrinkBytes(moved, size, s.live[block] - size)]))
    ensures forall u :: u in s.threads && s.threads[u] != Idle ==> Next(s, Advance(s, u))
  {
    if block !in s.live && !InCall(s, block) {
      var s' := State(s.counters, s.live, s.threads[t := GrewBytes(block, size, size, 1)]);
      assert BeginAlloc(s, s', t, block, size);
    }
    if block in s.live {
      assert BeginDealloc(s, State(s.counters, s.live - {block}, s.threads[t := FreeBytes(s.live[block])]), t, block);
      if moved == block || Unused(s, moved) {
        var s' := State(s.counters, s.live - {block}, s.threads[t := Resizing(moved, s.live[block], size)]);
        assert BeginRealloc(s, s', t, block, moved, size);
      }
    }
  }

  /** Thread `t` is in a call that will make `block` live with `size` bytes. */
  predicate Making(s: State, t: nat, block: Block, size: nat) {
    t in s.threads && Holds(s.threads[t], block) && s.threads[t].size == size
  }

  /** No step of any thread changes what another is making, and a call that returns
      makes its block live with its size. */
  lemma MakingStep(s: State, s': State, t: nat, block: Block, size: nat)
    requires Next(s, s') && Making(s, t, block, size)
    ensures if Resting(s', t) then block in s'.live && s'.live[block] == size else Making(s', t, block, size)
  {
  }

  lemma {:induction false} MakingUntil(run: seq<State>, i: nat, j: nat, t: nat, block: Block, size: nat)
    requires Run(run) && i < j < |run| && Making(run[i], t, block, size)
    requires forall k :: i < k < j ==> !Resting(run[k], t)
    ensures if Resting(run[j], t) then block in run[j].live && run[j].live[block] == size else Making(run[j], t, block, size)
    decreases j
  {
    if i < j - 1 {
      MakingUntil(run, i, j - 1, t, block, size);
    }
    assert StepAt(run, j - 1);
    hide Making, Next;
    MakingStep(run[j - 1], run[j], t, block, size);
  }

  /** An allocation that returns has made its block live with the size it was called
      with; a reallocation its new block with the new size. */
  lemma CallMakesBlock(run: seq<State>, i: nat, j: nat, t: nat, block: Block, moved: Block, size: nat)
    requires Run(run) && i + 1 < j < |run|
    requires BeginAlloc(run[i], run[i + 1], t, moved, size) || BeginRealloc(run[i], run[i + 1], t, block, moved, size)
    requires Resting(run[j], t) && forall k :: i < k < j ==> !Resting(run[k], t)
    ensures moved in run[j].live && run[j].live[moved] == size
  {
    MakingUntil(run, i + 1, j, t, moved, size);
  }
}
