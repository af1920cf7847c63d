/** The counting allocator that stops the process past a limit
    (examples/kpi_read_memory.rs), under every interleaving of its threads. */
module LimitAllocator {
  import opened Sums

  const LIMIT := 3 * 1024 * 1024 * 1024

  type Block = nat

  /** The atomic operation a thread does next. `grew` goes on from GrewBytes to
      GrewPeak and GrewCheck, which returns or goes into `stop_at_limit`:
      StopWrite writes the message, StopExit ends the process. */
  datatype Pc =
    | Idle
    | GrewBytes(block: Block, size: nat, added: nat)
    | GrewPeak(block: Block, size: nat, bytes: int)
    | GrewCheck(block: Block, size: nat, bytes: int)
    | StopWrite(block: Block, size: nat)
    | StopExit(block: Block, size: nat)
    | FreeBytes(size: nat)
    | ShrinkBytes(block: Block, size: nat, removed: nat)

  datatype State = State(bytes: int, peak: int, live: map<Block, nat>, threads: map<nat, Pc>, stopped: bool)

  predicate Resting(s: State, t: nat) {
    t !in s.threads || s.threads[t].Idle?
  }

  function Max(a: int, b: int): int {
    if a < b then b else a
  }

  function Resizing(block: Block, size: nat, newSize: nat): Pc {
    if newSize >= size then GrewBytes(block, newSize, newSize - size)
    else ShrinkBytes(block, newSize, size - newSize)
  }

  /** Thread `t` does its next operation. */
  function Advance(s: State, t: nat): State
    requires t in s.threads
  {
    match s.threads[t]
    case Idle => s
    case GrewBytes(block, size, added) =>
      s.(bytes := s.bytes + added, threads := s.threads[t := GrewPeak(block, size, s.bytes + added)])
    case GrewPeak(block, size, bytes) =>
      s.(peak := Max(s.peak, bytes), threads := s.threads[t := GrewCheck(block, size, bytes)])
    case GrewCheck(block, size, bytes) =>
      if bytes > LIMIT then s.(threads := s.threads[t := StopWrite(block, size)])
      else s.(live := s.live[block := size], threads := s.threads[t := Idle])
    case StopWrite(block, size) => s.(threads := s.threads[t := StopExit(block, size)])
    case StopExit(_, _) => s.(stopped := true)
    case FreeBytes(size) => s.(bytes := s.bytes - size, threads := s.threads[t := Idle])
    case ShrinkBytes(block, size, removed) =>
      s.(bytes := s.bytes - removed, live := s.live[block := size], threads := s.threads[t := Idle])
  }

  /** The operations left in a call that nothing comes between. */
  function Left(pc: Pc): nat {
    match pc
    case Idle => 0
    case GrewBytes(_, _, _) => 5
    case GrewPeak(_, _, _) => 4
    case GrewCheck(_, _, _) => 3
    case StopWrite(_, _) => 2
    case StopExit(_, _) => 1
    case FreeBytes(_) => 1
    case ShrinkBytes(_, _, _) => 1
  }

  /** The state after thread `t` finishes its call, or stops the process, alone. */
  function Alone(s: State, t: nat): State
    requires t in s.threads
    decreases Left(s.threads[t])
  {
    if s.threads[t].Idle? then s
    else if s.threads[t].StopExit? then Advance(s, t)
    else Alone(Advance(s, t), t)
  }

  /** The allocator as the code has it, one call at a time. */
  class Counting {
    var bytes: int
    var peak: int
    var stopped: bool

    ghost predicate Is(s: State)
      reads this
    {
      s.bytes == bytes && s.peak == peak && s.stopped == stopped
    }

    /** The process with one thread, about to do `pc`. */
    ghost function Single(pc: Pc): State
      reads this
    {
      State(bytes, peak, map[], map[0 := pc], stopped)
    }

    method Grew(added: nat)
      requires !stopped
      modifies this
      ensures bytes == old(bytes) + added && peak == (if old(peak) < bytes then bytes else old(peak))
      ensures stopped == (bytes > 3221225472)
      ensures forall block, size :: Is(Alone(old(Single(GrewBytes(block, size, added))), 0))
    {
      bytes := bytes + added;
      var seen := bytes;
      peak := Max(peak, seen);
      if seen > LIMIT {
        stopped := true;
      }
      forall block, size ensures Is(Alone(old(Single(GrewBytes(block, size, added))), 0)) {
        var s := old(Single(GrewBytes(block, size, added)));
        GrewAlone(s, block, size, added);
      }
    }

    /** `alloc` and `alloc_zeroed`; `ok` is whether the system gave the block. */
    method Alloc(block: Block, size: nat, ok: bool)
      requires !stopped
      modifies this
      ensures bytes == old(bytes) + (if ok then size else 0)
      ensures peak == (if ok && old(peak) < bytes then bytes else old(peak))
      ensures stopped == (ok && bytes > 3221225472)
      ensures Is(if ok then Alone(old(Single(GrewBytes(block, size, size))), 0) else old(Single(Idle)))
    {
      if ok {
        Grew(size);
      }
    }

    method Dealloc(size: nat)
      requires !stopped
      modifies this
      ensures bytes == old(bytes) - size && peak == old(peak) && !stopped
      ensures Is(Alone(old(Single(FreeBytes(size))), 0))
    {
      bytes := bytes - size;
    }

    method Realloc(block: Block, size: nat, newSize: nat, ok: bool)
      requires !stopped
      modifies this
      ensures bytes == old(bytes) + (if ok then newSize - size else 0)
      ensures peak == (if ok && newSize >= size && old(peak) < bytes then bytes else old(peak))
      ensures stopped == (ok && newSize >= size && bytes > 3221225472)
      ensures Is(if ok then Alone(old(Single(Resizing(block, size, newSize))), 0) else old(Single(Idle)))
    {
      if ok {
        if newSize >= size {
          Grew(newSize - size);
        } else {
          bytes := bytes - (size - newSize);
        }
      }
    }
  }

  lemma GrewAlone(s: State, block: Block, size: nat, added: nat)
    requires !s.stopped && s.threads == map[0 := GrewBytes(block, size, added)]
    ensures var s' := Alone(s, 0);
            && s'.bytes == s.bytes + added && s'.peak == Max(s.peak, s.bytes + added)
            && (s'.stopped <==> s.bytes + added > LIMIT)
  {
    var s1 := Advance(s, 0);
    var s2 := Advance(s1, 0);
    var s3 := Advance(s2, 0);
    assert Alone(s, 0) == Alone(s1, 0) == Alone(s2, 0) == Alone(s3, 0);
    if s.bytes + added > LIMIT {
      assert Alone(s3, 0) == Alone(Advance(s3, 0), 0);
    }
  }

  predicate Holds(pc: Pc, block: Block) {
    !pc.Idle? && !pc.FreeBytes? && pc.block == block
  }

  /** A thread handles `block` in a call. */
  ghost predicate InCall(s: State, block: Block) {
    exists t :: t in s.threads && Holds(s.threads[t], block)
  }

  /** The system gives a block no one has. */
  ghost predicate Unused(s: State, block: Block) {
    block !in s.live && !InCall(s, block)
  }

  ghost predicate BeginAlloc(s: State, s': State, t: nat, block: Block, size: nat) {
    && Resting(s, t) && Unused(s, block)
    && s' == s.(threads := s.threads[t := GrewBytes(block, size, size)])
  }

  ghost predicate BeginDealloc(s: State, s': State, t: nat, block: Block) {
    && Resting(s, t) && block in s.live
    && s' == s.(live := s.live - {block}, threads := s.threads[t := FreeBytes(s.live[block])])
  }

  ghost predicate BeginRealloc(s: State, s': State, t: nat, block: Block, moved: Block, newSize: nat) {
    && Resting(s, t) && block in s.live && (moved == block || Unused(s, moved))
    && s' == s.(live := s.live - {block}, threads := s.threads[t := Resizing(moved, s.live[block], newSize)])
  }

  ghost predicate Begins(s: State, s': State) {
    || (exists t, block, size: nat :: BeginAlloc(s, s', t, block, size))
    || (exists t, block :: BeginDealloc(s, s', t, block))
    || (exists t, block, moved, newSize: nat :: BeginRealloc(s, s', t, block, moved, newSize))
  }

  /** One step of any thread, while the process runs. */
  ghost predicate Next(s: State, s': State) {
    !s.stopped && (Begins(s, s') || exists t :: t in s.threads && !s.threads[t].Idle? && s' == Advance(s, t))
  }

  /** Thread `t` is inside `grew`, after its count and before its return. */
  predicate InGrew(s: State, t: nat) {
    t in s.threads && (s.threads[t].GrewPeak? || s.threads[t].GrewCheck? || s.threads[t].StopWrite? || s.threads[t].StopExit?)
  }

  /** Thread `t` is inside `grew` with a count past the limit. */
  predicate PastLimit(s: State, t: nat) {
    && t in s.threads
    && (|| s.threads[t].StopWrite? || s.threads[t].StopExit?
        || ((s.threads[t].GrewPeak? || s.threads[t].GrewCheck?) && s.threads[t].bytes > LIMIT))
  }

  ghost predicate NobodyInGrew(s: State) {
    forall t :: t in s.threads ==> !InGrew(s, t)
  }

  ghost predicate StepAt(run: seq<State>, i: nat)
    requires i < |run| - 1
  {
    Next(run[i], run[i + 1])
  }

  ghost predicate Run(run: seq<State>) {
    && run != [] && run[0].bytes <= LIMIT
    && forall i :: 0 <= i < |run| - 1 ==> StepAt(run, i)
  }

  /** A thread that takes the count past the limit is past it from then on. */
  lemma PastLimitStays(s: State, s': State, t: nat)
    requires Next(s, s') && PastLimit(s, t)
    ensures PastLimit(s', t)
  {
  }

  lemma CrossingIsPastLimit(s: State, s': State)
    requires Next(s, s') && s.bytes <= LIMIT < s'.bytes
    ensures exists t :: PastLimit(s', t)
  {
    var t :| t in s.threads && !s.threads[t].Idle? && s' == Advance(s, t);
    assert PastLimit(s', t);
  }

  lemma RunSteps(run: seq<State>, j: nat)
    requires Run(run) && 0 < j < |run|
    ensures Next(run[j - 1], run[j])
  {
    assert StepAt(run, j - 1);
  }

  /** An allocation call that takes the count past the limit never returns: its
      thread is inside `grew` at every later point of the run. */
  lemma {:induction false} PastLimitNeverReturns(run: seq<State>, i: nat, j: nat, t: nat)
    requires Run(run) && i <= j < |run| && PastLimit(run[i], t)
    ensures PastLimit(run[j], t) && InGrew(run[j], t)
    decreases j
  {
    if i < j {
      PastLimitNeverReturns(run, i, j - 1, t);
      RunSteps(run, j);
      PastLimitStays(run[j - 1], run[j], t);
    }
  }

  lemma {:induction false} OverLimitIsSeen(run: seq<State>, j: nat) returns (i: nat, t: nat)
    requires Run(run) && j < |run| && run[j].bytes > LIMIT
    ensures i <= j && PastLimit(run[i], t)
    decreases j
  {
    RunSteps(run, j);
    if run[j - 1].bytes > LIMIT {
      i, t := OverLimitIsSeen(run, j - 1);
    } else {
      CrossingIsPastLimit(run[j - 1], run[j]);
      i := j;
      t :| PastLimit(run[j], t);
    }
  }

  /** If no thread is inside `grew` at the end of a run, BYTES was never past the
      limit during it: a count past the limit leaves a thread inside for good. */
  lemma NeverPastLimit(run: seq<State>, j: nat)
    requires Run(run) && j < |run|
    requires NobodyInGrew(run[|run| - 1])
    ensures run[j].bytes <= LIMIT
  {
    if run[j].bytes > LIMIT {
      var i, t := OverLimitIsSeen(run, j);
      PastLimitNeverReturns(run, i, |run| - 1, t);
    }
  }

  /** The thread past the limit stops the process: at most four operations of its
      own end the run, whatever the others do in between. */
  function ToExit(s: State, t: nat): nat {
    if t !in s.threads then 0
    else match s.threads[t]
      case GrewPeak(_, _, _) => 4
      case GrewCheck(_, _, _) => 3
      case StopWrite(_, _) => 2
      case StopExit(_, _) => 1
      case _ => 0
  }

  lemma PastLimitHeadsToExit(s: State, t: nat)
    requires !s.stopped && PastLimit(s, t)
    ensures var s' := Advance(s, t);
            if s.threads[t].StopExit? then s'.stopped else !s'.stopped && ToExit(s', t) == ToExit(s, t) - 1
    ensures forall s' :: Next(s, s') && s' != Advance(s, t) && !s'.stopped ==> ToExit(s', t) == ToExit(s, t)
  {
    forall s' | Next(s, s') && s' != Advance(s, t) && !s'.stopped ensures ToExit(s', t) == ToExit(s, t) {
      if !Begins(s, s') {
        var u :| u in s.threads && !s.threads[u].Idle? && s' == Advance(s, u);
        assert u != t;
      }
    }
  }

  /** The peak, once every thread has left `grew`, is within the limit too. */
  lemma {:induction false} PeakWithinLimit(run: seq<State>, j: nat)
    requires Run(run) && run[0].peak <= LIMIT && j < |run|
    requires NobodyInGrew(run[|run| - 1])
    requires NobodyInGrew(run[0])
    ensures run[j].peak <= LIMIT && SeenWithinLimit(run[j])
    decreases j
  {
    if j > 0 {
      PeakWithinLimit(run, j - 1);
      NeverPastLimit(run, j);
      RunSteps(run, j);
      PeakStep(run[j - 1], run[j]);
    }
  }

  /** Every count seen in `grew` is within the limit. */
  ghost predicate SeenWithinLimit(s: State) {
    forall t :: t in s.threads && (s.threads[t].GrewPeak? || s.threads[t].GrewCheck?) ==> s.threads[t].bytes <= LIMIT
  }

  lemma PeakStep(s: State, s': State)
    requires Next(s, s') && s.peak <= LIMIT && SeenWithinLimit(s) && s'.bytes <= LIMIT
    ensures s'.peak <= LIMIT && SeenWithinLimit(s')
  {
    if Begins(s, s') {
      PeakBegin(s, s');
    } else {
      var t :| t in s.threads && !s.threads[t].Idle? && s' == Advance(s, t);
      hide Begins;
      PeakAdvance(s, t);
    }
  }

  lemma PeakBegin(s: State, s': State)
    requires Begins(s, s') && s.peak <= LIMIT && SeenWithinLimit(s)
    ensures s'.peak <= LIMIT && SeenWithinLimit(s')
  {
  }

  lemma PeakAdvance(s: State, t: nat)
    requires t in s.threads && s.peak <= LIMIT && SeenWithinLimit(s) && Advance(s, t).bytes <= LIMIT
    ensures Advance(s, t).peak <= LIMIT && SeenWithinLimit(Advance(s, t))
  {
  }

  // ----- the account: what each thread's call has in BYTES

  function Pending(pc: Pc): int {
    match pc
    case Idle => 0
    case GrewBytes(_, size, added) => size - added
    case FreeBytes(size) => size
    case ShrinkBytes(_, size, removed) => size + removed
    case _ => pc.size
  }

  function Size(size: nat): int {
    size
  }

  /** BYTES is the live blocks and what the calls under way have counted, and every
      block is live or in the hands of one call. */
  ghost predicate Accounted(s: State) {
    s.bytes == Values(Size, s.live) + Values(Pending, s.threads) && Owned(s)
  }

  ghost predicate Owned(s: State) {
    && (forall t :: t in s.threads && s.threads[t].GrewBytes? ==> s.threads[t].added <= s.threads[t].size)
    && (forall t, b :: t in s.threads && Holds(s.threads[t], b) ==> b !in s.live)
    && (forall t, u, b :: t in s.threads && u in s.threads && Holds(s.threads[t], b) && Holds(s.threads[u], b) ==> t == u)
  }

  lemma BeginKeepsAccount(s: State, s': State, t: nat, pc: Pc)
    requires Accounted(s) && Resting(s, t)
    requires s'.threads == s.threads[t := pc] && s'.bytes == s.bytes && s'.live.Keys <= s.live.Keys
    requires Values(Size, s'.live) == Values(Size, s.live) - Pending(pc)
    requires pc.GrewBytes? ==> pc.added <= pc.size
    requires forall b :: Holds(pc, b) ==> b !in s'.live && !InCall(s, b)
    ensures Accounted(s')
  {
    ValuesUpdate(Pending, s.threads, t, pc);
  }

  lemma AllocKeepsAccount(s: State, s': State, t: nat, block: Block, size: nat)
    requires Accounted(s) && BeginAlloc(s, s', t, block, size)
    ensures Accounted(s')
  {
    BeginKeepsAccount(s, s', t, GrewBytes(block, size, size));
  }

  lemma DeallocKeepsAccount(s: State, s': State, t: nat, block: Block)
    requires Accounted(s) && BeginDealloc(s, s', t, block)
    ensures Accounted(s')
  {
    ValuesWithout(Size, s.live, block);
    BeginKeepsAccount(s, s', t, FreeBytes(s.live[block]));
  }

  lemma ReallocKeepsAccount(s: State, s': State, t: nat, block: Block, moved: Block, newSize: nat)
    requires Accounted(s) && BeginRealloc(s, s', t, block, moved, newSize)
    ensures Accounted(s')
  {
    ValuesWithout(Size, s.live, block);
    BeginKeepsAccount(s, s', t, Resizing(moved, s.live[block], newSize));
  }

  lemma AdvanceKeepsOwned(s: State, t: nat)
    requires Owned(s) && t in s.threads && !s.threads[t].Idle?
    ensures Owned(Advance(s, t))
  {
    var pc, s' := s.threads[t], Advance(s, t);
    if !pc.FreeBytes? {
      assert Holds(pc, pc.block);
    }
    assert forall b :: Holds(s'.threads[t], b) ==> Holds(pc, b);
  }

  /** The operation moves between BYTES, the live blocks and the call what it takes. */
  lemma AdvanceMoves(s: State, t: nat)
    requires t in s.threads && !s.threads[t].Idle?
    requires !s.threads[t].FreeBytes? ==> s.threads[t].block !in s.live
    ensures var s' := Advance(s, t);
            && t in s'.threads && s'.threads == s.threads[t := s'.threads[t]]
            && s'.bytes - s.bytes ==
               Values(Size, s'.live) - Values(Size, s.live) + Pending(s'.threads[t]) - Pending(s.threads[t])
  {
    var pc := s.threads[t];
    if !pc.FreeBytes? {
      ValuesUpdate(Size, s.live, pc.block, pc.size);
    }
  }

  lemma AdvanceKeepsAccount(s: State, t: nat)
    requires Accounted(s) && t in s.threads && !s.threads[t].Idle?
    ensures Accounted(Advance(s, t))
  {
    AdvanceKeepsOwned(s, t);
    var pc := s.threads[t];
    assert !pc.FreeBytes? ==> Holds(pc, pc.block);
    AdvanceMoves(s, t);
    hide Advance, Owned, Holds;
    ValuesUpdate(Pending, s.threads, t, Advance(s, t).threads[t]);
  }

  /** Every step of every thread keeps the account. */
  lemma NextKeepsAccount(s: State, s': State)
    requires Accounted(s) && Next(s, s')
    ensures Accounted(s')
  {
    hide Accounted, BeginAlloc, BeginDealloc, BeginRealloc;
    if t, block, size: nat :| BeginAlloc(s, s', t, block, size) {
      AllocKeepsAccount(s, s', t, block, size);
    } else if t, block :| BeginDealloc(s, s', t, block) {
      DeallocKeepsAccount(s, s', t, block);
    } else if t, block, moved, newSize: nat :| BeginRealloc(s, s', t, block, moved, newSize) {
      ReallocKeepsAccount(s, s', t, block, moved, newSize);
    } else {
      var t :| t in s.threads && !s.threads[t].Idle? && s' == Advance(s, t);
      AdvanceKeepsAccount(s, t);
    }
  }

  lemma {:induction false} RunKeepsAccount(run: seq<State>, j: nat)
    requires Run(run) && Accounted(run[0]) && j < |run|
    ensures Accounted(run[j])
    decreases j
  {
    hide Accounted, Next;
    if j > 0 {
      RunKeepsAccount(run, j - 1);
      RunSteps(run, j);
      NextKeepsAccount(run[j - 1], run[j]);
    }
  }

  /** Under every interleaving BYTES is never below zero, and it is the sum of the live
      blocks whenever no thread is in a call. */
  lemma BytesAreLive(run: seq<State>, j: nat)
    requires Run(run) && Accounted(run[0]) && j < |run|
    ensures run[j].bytes >= 0
    ensures (forall t :: t in run[j].threads ==> run[j].threads[t] == Idle) ==> run[j].bytes == Values(Size, run[j].live)
  {
    var s := run[j];
    RunKeepsAccount(run, j);
    ValuesAtLeast(Size, s.live, false);
    ValuesAtLeast(Pending, s.threads, false);
    if forall t :: t in s.threads ==> s.threads[t] == Idle {
      ValuesAtLeast(Pending, s.threads, true);
    }
  }

  /** The steps any thread may take while the process runs. */
  lemma StepsAllowed(s: State, t: nat, block: Block, moved: Block, size: nat)
    requires !s.stopped && (t !in s.threads || s.threads[t] == Idle)
    ensures block !in s.live && !InCall(s, block) ==>
              Next(s, s.(threads := s.threads[t := GrewBytes(block, size, size)]))
    ensures block in s.live ==> Next(s, s.(live := s.live - {block}, threads := s.threads[t := FreeBytes(s.live[block])]))
    ensures block in s.live && (moved == block || (moved !in s.live && !InCall(s, moved))) ==>
              Next(s, s.(live := s.live - {block}, threads := s.threads[t :=
                if size >= s.live[block] then GrewBytes(moved, size, size - s.live[block])
                else ShrinkBytes(moved, size, s.live[block] - size)]))
    ensures forall u :: u in s.threads && s.threads[u] != Idle ==> Next(s, Advance(s, u))
  {
    if block !in s.live && !InCall(s, block) {
      assert BeginAlloc(s, s.(threads := s.threads[t := GrewBytes(block, size, size)]), t, block, size);
    }
    if block in s.live {
      assert BeginDealloc(s, s.(live := s.live - {block}, threads := s.threads[t := FreeBytes(s.live[block])]), t, block);
      if moved == block || Unused(s, moved) {
        var s' := s.(live := s.live - {block}, threads := s.threads[t := Resizing(moved, s.live[block], size)]);
        assert BeginRealloc(s, s', t, block, moved, size);
      }
    }
  }

  /** Thread `t` is in a call that will make `block` live with `size` bytes. */
  predicate Making(s: State, t: nat, block: Block, size: nat) {
    t in s.threads && Holds(s.threads[t], block) && s.threads[t].size == size
  }

  lemma MakingStep(s: State, s': State, t: nat, block: Block, size: nat)
    requires Next(s, s') && Making(s, t, block, size)
    ensures if Resting(s', t) then block in s'.live && s'.live[block] == size else Making(s', t, block, size)
  {
  }

  lemma {:induction false} MakingUntil(run: seq<State>, i: nat, j: nat, t: nat, block: Block, size: nat)
    requires Run(run) && i < j < |run| && Making(run[i], t, block, size)
    requires forall k :: i < k < j ==> !Resting(run[k], t)
    ensures if Resting(run[j], t) then block in run[j].live && run[j].live[block] == size else Making(run[j], t, block, size)
    decreases j
  {
    if i < j - 1 {
      MakingUntil(run, i, j - 1, t, block, size);
    }
    RunSteps(run, j);
    hide Making, Next;
    MakingStep(run[j - 1], run[j], t, block, size);
  }

  /** A call that returns has made its block live with the size it was called with. */
  lemma CallMakesBlock(run: seq<State>, i: nat, j: nat, t: nat, block: Block, moved: Block, size: nat)
    requires Run(run) && i + 1 < j < |run|
    requires BeginAlloc(run[i], run[i + 1], t, moved, size) || BeginRealloc(run[i], run[i + 1], t, block, moved, size)
    requires Resting(run[j], t) && forall k :: i < k < j ==> !Resting(run[k], t)
    ensures moved in run[j].live && run[j].live[moved] == size
  {
    MakingUntil(run, i + 1, j, t, moved, size);
  }
}
