/** The read-ahead ring of src/core/cdrom_async_reader.cpp as two threads interleaved at the grain
    of single atomic operations. Between two steps of one thread the other may take any number. */
module AsyncReader {
  import opened Common

  /** What a sector holds; opaque to the protocol. */
  type Sector = nat

  /** BufferSlot. */
  datatype Slot = Slot(lba: nat, data: Sector, result: bool)

  /** Program counter of the emulation thread. */
  datatype Main =
    | Idle
      // QueueReadSector(lba)
    | QCount(lba: nat)           // about to load m_buffer_count
    | QFront(lba: nat)           // about to load m_buffer_front
    | QSame(lba: nat, f: nat)    // about to compare the front slot's lba
    | QMore(lba: nat, f: nat)    // about to load m_buffer_count again
    | QNext(lba: nat, n: nat)    // about to compare the next slot's lba
    | QStore(lba: nat, n: nat)   // about to store m_buffer_front
    | QSub(lba: nat)             // about to decrement m_buffer_count
    | QKick(lba: nat)            // about to set m_can_readahead
    | QLock(lba: nat)            // waiting for the mutex
    | QSet(lba: nat)             // mutex held, about to set m_next_position_set
    | QPos(lba: nat)             // mutex held, about to store m_next_position
      // WaitForReadToComplete()
    | WFlag | WCount | WFront | WResult(f: nat) | WLock
    | WDone(result: bool)        // returned without consuming a seek error
      // SetMedia/RemoveMedia, after CancelReadahead
    | Swap

  /** Program counter of the read thread. */
  datatype Worker =
    | KWait                      // blocked on m_do_read_cv
    | KInner                     // head of the inner loop
    | KEmpty1(loc: nat) | KEmpty2(loc: nat) | KEmpty3(loc: nat) | KEmpty4(loc: nat) | KEmpty5(loc: nat)
    | KSeeking(loc: nat)         // mutex released, about to seek
    | KSeekDone(loc: nat, ok: bool)
    | KCheck(loc: nat, ok: bool) // mutex taken again
    | KLoop                      // head of the read-ahead loop
    | KLabel(slot: nat)          // slot reserved, about to record its lba
    | KReading(slot: nat)        // mutex released, about to read the sector
    | KReadDone(slot: nat)
    | KLoopExit
    | KOuter                     // head of the outer loop, mutex held

  datatype State = State(
    main: Main, worker: Worker,
    slots: seq<Slot>, front: nat, back: nat, count: nat,
    nextPosition: nat, nextSet: bool, isReading: bool, canReadahead: bool, seekError: bool,
    position: nat, disc: nat -> Sector,
    // History: the last queued lba, and whether its seek failed while m_can_readahead was set.
    want: Option<nat>, derailed: bool)

  predicate MainHolds(m: Main) { m.QSet? || m.QPos? }

  predicate WorkerHolds(w: Worker) {
    match w
    case KWait => false
    case KSeeking(_) => false
    case KSeekDone(_, _) => false
    case KReading(_) => false
    case KReadDone(_) => false
    case _ => true
  }

  /** The source's (i + 1) % size. */
  function Succ(i: nat, size: nat): nat
    requires size > 0
  {
    (i + 1) % size
  }

  // ---------------------------------------------------------------- the emulation thread

  /** What the environment chooses for a step of the emulation thread. */
  datatype MainChoice =
    | Continue
    | Queue(lba: nat)
    | Wait
    | Uncached(lba: nat, seekOk: bool, readOk: bool, returnOk: bool)
    | Cancel
    | NewMedia(disc: nat -> Sector, position: nat)

  ghost predicate MainEnabled(s: State, c: MainChoice) {
    match s.main
    case Idle =>
      (match c
       case Queue(_) => !s.nextSet                            // discipline: no request outstanding
       case Wait => true
       case Uncached(_, _, _, _) => !WorkerHolds(s.worker) && !s.isReading
       case Cancel => !WorkerHolds(s.worker) && !s.isReading && !s.nextSet   // discipline: no seek pending
       case _ => false)
    case QLock(_) => c.Continue? && !WorkerHolds(s.worker)
    case WLock => c.Continue? && !WorkerHolds(s.worker) && (s.count > 0 || s.seekError) && !s.nextSet
    case Swap => c.NewMedia?
    case _ => c.Continue?
  }

  ghost function MainStep(s: State, c: MainChoice): (t: State)
    requires MainEnabled(s, c) && 0 < |s.slots| && s.front < |s.slots|
    requires s.main.QSame? ==> s.main.f < |s.slots|
    requires s.main.QNext? ==> s.main.n < |s.slots|
    requires s.main.WResult? ==> s.main.f < |s.slots|
    requires s.main.QSub? ==> s.count > 0
    ensures t.worker == s.worker && (t.derailed ==> s.derailed)
  {
    match s.main
    case Idle =>
      (match c
       case Queue(lba) => s.(main := QCount(lba), want := Some(lba))
       case Wait => s.(main := WFlag)
       case Uncached(lba, seekOk, readOk, returnOk) => UncachedRead(s, lba, seekOk, readOk, returnOk)
       case Cancel =>
         s.(main := Swap, canReadahead := false, front := 0, back := 0, count := 0, want := None, derailed := false)
       case _ => s)
    case QCount(lba) => if s.count > 0 then s.(main := QFront(lba)) else s.(main := QLock(lba))
    case QFront(lba) => s.(main := QSame(lba, s.front))
    case QSame(lba, f) =>
      if s.slots[f].lba == lba then s.(main := Idle, derailed := false) else s.(main := QMore(lba, f))
    case QMore(lba, f) =>
      if s.count > 1 then s.(main := QNext(lba, Succ(f, |s.slots|))) else s.(main := QLock(lba))
    case QNext(lba, n) =>
      if s.slots[n].lba == lba then s.(main := QStore(lba, n)) else s.(main := QLock(lba))
    case QStore(lba, n) => s.(main := QSub(lba), front := n)
    case QSub(lba) => s.(main := QKick(lba), count := s.count - 1)
    case QKick(lba) => s.(main := Idle, canReadahead := true, derailed := false)
    case QLock(lba) => s.(main := QSet(lba))
    case QSet(lba) => s.(main := QPos(lba), nextSet := true, derailed := false)
    case QPos(lba) => s.(main := Idle, nextPosition := lba)
    case WFlag => s.(main := if s.nextSet then WLock else WCount)
    case WCount => s.(main := if s.count > 0 then WFront else WLock)
    case WFront => s.(main := WResult(s.front))
    case WResult(f) => s.(main := WDone(s.slots[f].result))
    case WLock =>
      if s.seekError then s.(main := Idle, seekError := false) else s.(main := WDone(s.slots[s.front].result))
    case WDone(_) => s.(main := Idle)
    case Swap => s.(main := Idle, disc := c.disc, position := c.position)
  }

  /** ReadSectorUncached with the mutex held: read elsewhere, then seek back. */
  ghost function UncachedRead(s: State, lba: nat, seekOk: bool, readOk: bool, returnOk: bool): (t: State)
    ensures t == s.(position := t.position, canReadahead := t.canReadahead)
  {
    var moved := if s.position != lba && !seekOk then s.position else if readOk then lba + 1 else lba;
    if returnOk then s else s.(position := moved, canReadahead := false)
  }

  // ---------------------------------------------------------------- the read thread

  /** What the environment chooses: the outcome of a seek, or of a sector read. */
  datatype WorkerChoice = WorkerChoice(ok: bool, garbage: Sector)

  ghost predicate WorkerEnabled(s: State) {
    match s.worker
    case KWait => !MainHolds(s.main) && (s.nextSet || s.canReadahead)
    case KSeekDone(_, _) => !MainHolds(s.main)
    case KReadDone(_) => !MainHolds(s.main)
    case _ => true
  }

  ghost function WorkerStep(s: State, c: WorkerChoice): (t: State)
    requires WorkerEnabled(s) && 0 < |s.slots|
    requires s.worker.KLabel? ==> s.worker.slot < |s.slots|
    requires s.worker.KReading? ==> s.worker.slot < |s.slots|
    ensures t.main == s.main
    ensures t.derailed ==> s.derailed || (s.worker.KCheck? && !s.worker.ok && s.canReadahead)
    ensures t.worker.KSeekDone? ==> s.worker.KSeeking? && t.worker.ok == (s.position == s.worker.loc || c.ok)
    ensures t.worker.KCheck? ==> s.worker.KSeekDone? && t.worker.ok == s.worker.ok
  {
    match s.worker
    case KWait => s.(worker := KInner)
    case KInner =>
      if s.nextSet then s.(worker := KEmpty1(s.nextPosition))
      else if s.canReadahead then s.(worker := KLoop) else s.(worker := KOuter)
    case KEmpty1(loc) => s.(worker := KEmpty2(loc), front := 0)
    case KEmpty2(loc) => s.(worker := KEmpty3(loc), back := 0)
    case KEmpty3(loc) => s.(worker := KEmpty4(loc), count := 0)
    case KEmpty4(loc) => s.(worker := KEmpty5(loc), nextSet := false)
    case KEmpty5(loc) => s.(worker := KSeeking(loc), seekError := false, isReading := true)
    case KSeeking(loc) =>
      if s.position == loc || c.ok then s.(worker := KSeekDone(loc, true), position := loc)
      else s.(worker := KSeekDone(loc, false))
    case KSeekDone(loc, ok) => s.(worker := KCheck(loc, ok), isReading := false)
    case KCheck(loc, ok) =>
      if s.nextSet then s.(worker := KInner)
      else if !ok then s.(worker := KOuter, seekError := true, derailed := s.canReadahead)
      else s.(worker := KLoop, canReadahead := true)
    case KLoop =>
      if s.count < |s.slots| && !s.nextSet
      then s.(worker := KLabel(s.back), back := Succ(s.back, |s.slots|))
      else s.(worker := KLoopExit)
    case KLabel(slot) =>
      s.(worker := KReading(slot), slots := s.slots[slot := s.slots[slot].(lba := s.position)], isReading := true)
    case KReading(slot) =>
      if c.ok
      then s.(worker := KReadDone(slot), position := s.position + 1,
              slots := s.slots[slot := s.slots[slot].(data := s.disc(s.position), result := true)])
      else s.(worker := KReadDone(slot),
              slots := s.slots[slot := s.slots[slot].(data := c.garbage, result := false)])
    case KReadDone(slot) => s.(worker := KLoop, isReading := false, count := s.count + 1)
    case KLoopExit => s.(worker := KOuter, canReadahead := false)
    case KOuter => if s.nextSet || s.canReadahead then s.(worker := KInner) else s.(worker := KWait)
  }

  // ---------------------------------------------------------------- the invariant

  /** Slots that the consumer may look at: between the lock-free front store and the count
      decrement the counter still includes the slot that was just given up. */
  function Valid(s: State): int { s.count - (if s.main.QSub? then 1 else 0) }

  predicate InFlight(w: Worker) { w.KLabel? || w.KReading? || w.KReadDone? }

  predicate Emptying(w: Worker) { w.KEmpty1? || w.KEmpty2? || w.KEmpty3? }

  /** Position k of the window that starts at `front`, without division. */
  function At(front: nat, k: nat, size: nat): (i: nat)
    requires front < size && k <= size
    ensures i < size
  {
    if front + k < size then front + k else front + k - size
  }

  predicate InQueue(m: Main) {
    m.QCount? || m.QFront? || m.QSame? || m.QMore? || m.QNext? || m.QStore? || m.QSub? || m.QKick? || m.QLock?
    || m.QSet?
  }

  /** Ring safety: the producer's end is the consumer's end plus the valid slots, plus the one in
      flight; the slot in flight lies outside the window of valid slots. */
  ghost predicate RingSafe(s: State) {
    var n := |s.slots|;
    && 0 < n && s.front < n && s.back < n && s.count <= n
    && (s.worker.KEmpty2? || s.worker.KEmpty3? ==> s.front == 0)
    && (s.worker.KEmpty3? ==> s.back == 0)
    && (!Emptying(s.worker) ==>
          && 0 <= Valid(s)
          && s.count + (if InFlight(s.worker) then 1 else 0) <= n
          && s.back == At(s.front, Valid(s) + (if InFlight(s.worker) then 1 else 0), n)
          && (InFlight(s.worker) ==> s.worker.slot == At(s.front, Valid(s), n)))
  }

  /** A slot that reports success holds the data of the lba it is labelled with. */
  ghost predicate Good(slot: Slot, disc: nat -> Sector) {
    slot.result ==> slot.data == disc(slot.lba)
  }

  /** All of the `valid` slots from `front` on are good. */
  ghost predicate WindowGood(slots: seq<Slot>, disc: nat -> Sector, front: nat, valid: int)
    requires front < |slots| && valid <= |slots|
  {
    forall k :: 0 <= k < valid ==> Good(slots[At(front, k, |slots|)], disc)
  }

  ghost predicate SlotsTrue(s: State)
    requires RingSafe(s)
  {
    && (!Emptying(s.worker) ==> WindowGood(s.slots, s.disc, s.front, Valid(s)))
    && (s.worker.KReadDone? ==> Good(s.slots[s.worker.slot], s.disc))
    && (s.worker.KReading? ==> s.slots[s.worker.slot].lba == s.position)
  }

  /** Who may be where: mutual exclusion, and what the lock-free reader has seen stays true. */
  ghost predicate Control(s: State) {
    && !(MainHolds(s.main) && WorkerHolds(s.worker))
    && s.isReading == (s.worker.KSeeking? || s.worker.KSeekDone? || s.worker.KReading? || s.worker.KReadDone?)
    && (InQueue(s.main) ==> !s.nextSet && s.want == Some(s.main.lba))
    && (s.main.QPos? ==> s.nextSet && s.want == Some(s.main.lba))
    && (s.nextSet && !s.main.QPos? ==> s.want == Some(s.nextPosition))
    && (Emptying(s.worker) || s.worker.KEmpty4? ==> s.nextSet && s.want == Some(s.worker.loc))
    && (s.nextSet ==> !s.main.WCount? && !s.main.WFront? && !s.main.WResult? && !s.main.WDone? && !s.main.Swap?)
    && (s.main.Swap? ==> s.worker == KWait && !s.canReadahead && !s.nextSet && s.count == 0 && s.want == None)
    && (Seeking(s.worker) ==> s.count == 0)
  }

  predicate Seeking(w: Worker) { w.KEmpty4? || w.KEmpty5? || w.KSeeking? || w.KSeekDone? || w.KCheck? }

  predicate HasSeenSlot(m: Main) {
    m.QFront? || m.QSame? || m.QMore? || m.QNext? || m.QStore? || m.QSub? || m.QKick? || m.WFront? || m.WResult?
    || m.WDone?
  }

  ghost predicate LocalsTrue(s: State)
    requires RingSafe(s)
  {
    var n := |s.slots|;
    && (HasSeenSlot(s.main) ==> Valid(s) >= 1)
    && (s.main.QSame? || s.main.QMore? || s.main.WResult? ==> s.main.f == s.front)
    && (s.main.QNext? || s.main.QStore? ==> Valid(s) >= 2 && s.main.n == At(s.front, 1, n))
    && (s.main.QStore? ==> s.slots[s.main.n].lba == s.main.lba)
    && (s.main.QSub? || s.main.QKick? ==> s.slots[s.front].lba == s.main.lba)
    && (s.main.WDone? ==> s.main.result == s.slots[s.front].result)
  }

  /** No call of QueueReadSector is under way and none waits for the read thread. */
  predicate Settled(s: State) { !InQueue(s.main) && !s.nextSet }

  /** Is x the lba that the emulation thread last asked for? */
  ghost predicate Wanted(s: State, x: nat) { s.want == Some(x) }

  /** The first slot of the window is, or will be, the wanted one exactly if the last request was
      not derailed. */
  ghost predicate FrontTrue(s: State)
    requires RingSafe(s)
  {
    && (Settled(s) && !Emptying(s.worker) && Valid(s) > 0 ==> (Wanted(s, s.slots[s.front].lba) <==> !s.derailed))
    && (Settled(s) && Valid(s) == 0 && (s.worker.KLoop? || s.worker.KLabel?) ==>
          (Wanted(s, s.position) <==> !s.derailed))
    && (Settled(s) && Valid(s) == 0 && s.derailed && (s.worker.KInner? || s.worker.KOuter?) ==>
          !Wanted(s, s.position) && s.canReadahead)
    && (Settled(s) && Valid(s) == 0 && (s.worker.KReading? || s.worker.KReadDone?) ==>
          (Wanted(s, s.slots[s.worker.slot].lba) <==> !s.derailed))
    && (Settled(s) && Valid(s) == 0 && s.derailed ==>
          (s.worker.KInner? || s.worker.KOuter? || s.worker.KLoop? || s.worker.KLabel? || s.worker.KReading?
           || s.worker.KReadDone?))
    && (s.worker.KInner? || s.worker.KOuter? || s.worker.KWait? ==>
          (s.canReadahead && !s.nextSet ==> s.count >= 1 || s.derailed))
    && (s.worker.KEmpty5? || s.worker.KSeeking? || s.worker.KSeekDone? || s.worker.KCheck? ==>
          (Settled(s) ==> Wanted(s, s.worker.loc) && !s.derailed))
    && (s.worker.KSeekDone? || s.worker.KCheck? ==> s.worker.ok == (s.position == s.worker.loc))
    && (s.worker.KLoopExit? ==> Valid(s) >= 1 || s.nextSet)
    && (s.nextSet ==> !s.derailed)
    && (s.derailed ==> s.want.Some?)
  }

  ghost predicate Inv(s: State) {
    RingSafe(s) && SlotsTrue(s) && Control(s) && LocalsTrue(s) && FrontTrue(s)
  }

  /** A freshly started thread. */
  ghost predicate Init(s: State) {
    && s.main == Idle && s.worker == KWait && 0 < |s.slots| && s.front == s.back == s.count == 0
    && !s.nextSet && !s.isReading && !s.canReadahead && !s.seekError && s.want == None && !s.derailed
  }

  lemma InitInv(s: State)
    requires Init(s)
    ensures Inv(s)
  {
  }

  lemma SuccIsAt(front: nat, k: nat, size: nat)
    requires 0 < size && front < size && k < size
    ensures Succ(At(front, k, size), size) == At(front, k + 1, size)
  {
    var i := At(front, k, size);
    if i + 1 == size {
      assert (i + 1) % size == 0;
    } else {
      assert (i + 1) % size == i + 1;
    }
  }

  lemma SuccIsNext(front: nat, size: nat)
    requires 0 < size && front < size
    ensures Succ(front, size) == At(front, 1, size)
  {
    SuccIsAt(front, 0, size);
  }

  /** Writing the slot just past the window leaves the window alone. */
  lemma WriteOutsideWindow(slots: seq<Slot>, disc: nat -> Sector, front: nat, valid: nat, v: Slot)
    requires front < |slots| && valid < |slots| && WindowGood(slots, disc, front, valid)
    ensures var i := At(front, valid, |slots|);
            && WindowGood(slots[i := v], disc, front, valid)
            && (valid > 0 ==> slots[i := v][front] == slots[front])
            && (valid > 1 ==> slots[i := v][At(front, 1, |slots|)] == slots[At(front, 1, |slots|)])
  {
    assert valid > 0 ==> At(front, 0, |slots|) == front;
  }

  lemma WindowGrows(slots: seq<Slot>, disc: nat -> Sector, front: nat, valid: nat)
    requires front < |slots| && valid < |slots| && WindowGood(slots, disc, front, valid)
    requires Good(slots[At(front, valid, |slots|)], disc)
    ensures WindowGood(slots, disc, front, valid + 1)
  {
  }

  lemma WindowShrinks(slots: seq<Slot>, disc: nat -> Sector, front: nat, valid: nat)
    requires front < |slots| && 0 < valid <= |slots| && WindowGood(slots, disc, front, valid)
    ensures WindowGood(slots, disc, At(front, 1, |slots|), valid - 1)
    ensures forall k :: 0 < k <= |slots| ==> At(front, k, |slots|) == At(At(front, 1, |slots|), k - 1, |slots|)
  {
    forall k | 0 <= k < valid - 1
      ensures Good(slots[At(At(front, 1, |slots|), k, |slots|)], disc)
    {
      assert Good(slots[At(front, k + 1, |slots|)], disc);
    }
  }

  // ---------------------------------------------------------------- each step keeps the invariant

  /** Entering QueueReadSector or WaitForReadToComplete, an uncached read, a media swap. */
  lemma EnterCall(s: State, c: MainChoice)
    requires Inv(s) && (s.main.Idle? || s.main.Swap?) && MainEnabled(s, c)
    ensures Inv(MainStep(s, c))
  {
    hide Succ;
  }

  lemma LoadRing(s: State, c: MainChoice)
    requires Inv(s) && (s.main.QCount? || s.main.QFront?) && MainEnabled(s, c)
    ensures Inv(MainStep(s, c))
  {
    hide WindowGood, Good, Succ, At, WorkerHolds, InFlight, Emptying, Seeking;
  }

  lemma CompareFront(s: State, c: MainChoice)
    requires Inv(s) && s.main.QSame? && MainEnabled(s, c)
    ensures Inv(MainStep(s, c))
  {
    hide WindowGood, Good, Succ, At, WorkerHolds, InFlight, Emptying;
    var t := MainStep(s, c);
    assert RingSafe(t) && Control(t);
    assert LocalsTrue(t);
  }

  lemma LoadCountAgain(s: State, c: MainChoice)
    requires Inv(s) && s.main.QMore? && MainEnabled(s, c)
    ensures Inv(MainStep(s, c))
  {
    hide WindowGood, Good, Succ, At, WorkerHolds, Emptying;
    SuccIsNext(s.front, |s.slots|);
    var t := MainStep(s, c);
    assert RingSafe(t) && Control(t);
    assert LocalsTrue(t);
  }

  lemma CompareNext(s: State, c: MainChoice)
    requires Inv(s) && s.main.QNext? && MainEnabled(s, c)
    ensures Inv(MainStep(s, c))
  {
    hide WindowGood, Good, Succ, At, WorkerHolds, InFlight, Emptying, Seeking;
  }

  /** The lock-free hand-over of one slot: store the front, decrement the count, kick the thread. */
  lemma AdvanceFront(s: State, c: MainChoice)
    requires Inv(s) && (s.main.QStore? || s.main.QSub? || s.main.QKick?) && MainEnabled(s, c)
    ensures Inv(MainStep(s, c))
  {
    hide WindowGood, Good, Succ, At, WorkerHolds;
    if s.main.QStore? {
      WindowShrinks(s.slots, s.disc, s.front, Valid(s));
      assert Valid(MainStep(s, c)) == Valid(s) - 1;
    }
  }

  lemma RequestSeek(s: State, c: MainChoice)
    requires Inv(s) && (s.main.QLock? || s.main.QSet? || s.main.QPos?) && MainEnabled(s, c)
    ensures Inv(MainStep(s, c))
  {
    hide WindowGood, Good, Succ, At;
  }

  lemma WaitFast(s: State, c: MainChoice)
    requires Inv(s) && (s.main.WFlag? || s.main.WCount? || s.main.WFront?) && MainEnabled(s, c)
    ensures Inv(MainStep(s, c))
  {
    hide WindowGood, Good, Succ, At, WorkerHolds, InFlight, Emptying, Seeking;
  }

  lemma WaitReturns(s: State, c: MainChoice)
    requires Inv(s) && (s.main.WResult? || s.main.WLock? || s.main.WDone?) && MainEnabled(s, c)
    ensures Inv(MainStep(s, c))
  {
    hide WindowGood, Good, Succ, At, WorkerHolds, InFlight, Emptying, Seeking;
  }

  lemma WakeUp(s: State, c: WorkerChoice)
    requires Inv(s) && (s.worker.KWait? || s.worker.KInner?) && WorkerEnabled(s)
    ensures Inv(WorkerStep(s, c))
  {
    hide WindowGood, Good, Succ, At;
  }

  lemma Restart(s: State, c: WorkerChoice)
    requires Inv(s) && (s.worker.KOuter? || s.worker.KLoopExit?) && WorkerEnabled(s)
    ensures Inv(WorkerStep(s, c))
  {
    hide WindowGood, Good, Succ, At;
  }

  lemma EmptyBuffers(s: State, c: WorkerChoice)
    requires Inv(s) && WorkerEnabled(s)
    requires s.worker.KEmpty1? || s.worker.KEmpty2? || s.worker.KEmpty3? || s.worker.KEmpty4? || s.worker.KEmpty5?
    ensures Inv(WorkerStep(s, c))
  {
    hide Succ;
  }

  lemma Seek(s: State, c: WorkerChoice)
    requires Inv(s) && s.worker.KSeeking? && WorkerEnabled(s)
    ensures Inv(WorkerStep(s, c))
  {
    hide WindowGood, Good, Succ, At;
  }

  lemma AfterSeek(s: State, c: WorkerChoice)
    requires Inv(s) && (s.worker.KSeekDone? || s.worker.KCheck?) && WorkerEnabled(s)
    ensures Inv(WorkerStep(s, c))
  {
    hide WindowGood, Good, Succ, At;
  }

  lemma ReserveSlot(s: State, c: WorkerChoice)
    requires Inv(s) && s.worker.KLoop? && WorkerEnabled(s)
    ensures Inv(WorkerStep(s, c))
  {
    hide WindowGood, Good, Succ, MainHolds, At;
    SuccIsAt(s.front, if Valid(s) < |s.slots| then Valid(s) else 0, |s.slots|);
    var t := WorkerStep(s, c);
    if s.count < |s.slots| && !s.nextSet {
      assert RingSafe(t);
      assert Control(t);
      assert LocalsTrue(t);
    } else {
      assert RingSafe(t) && Control(t);
    }
  }

  lemma LabelSlot(s: State, c: WorkerChoice)
    requires Inv(s) && s.worker.KLabel? && WorkerEnabled(s)
    ensures Inv(WorkerStep(s, c))
  {
    hide WindowGood, Good, Succ, At, MainHolds;
    WriteOutsideWindow(s.slots, s.disc, s.front, Valid(s), WorkerStep(s, c).slots[s.worker.slot]);
  }

  lemma ReadSector(s: State, c: WorkerChoice)
    requires Inv(s) && s.worker.KReading? && WorkerEnabled(s)
    ensures Inv(WorkerStep(s, c))
  {
    hide WindowGood, Succ, At, MainHolds;
    WriteOutsideWindow(s.slots, s.disc, s.front, Valid(s), WorkerStep(s, c).slots[s.worker.slot]);
  }

  lemma PublishSlot(s: State, c: WorkerChoice)
    requires Inv(s) && s.worker.KReadDone? && WorkerEnabled(s)
    ensures Inv(WorkerStep(s, c))
  {
    hide WindowGood, Good, Succ;
    WindowGrows(s.slots, s.disc, s.front, Valid(s));
  }

  lemma MainPreserves(s: State, c: MainChoice)
    requires Inv(s) && MainEnabled(s, c)
    ensures Inv(MainStep(s, c))
  {
    hide Inv, MainEnabled, MainStep;
    match s.main {
      case Idle => EnterCall(s, c);
      case Swap => EnterCall(s, c);
      case QCount(_) => LoadRing(s, c);
      case QFront(_) => LoadRing(s, c);
      case QSame(_, _) => CompareFront(s, c);
      case QMore(_, _) => LoadCountAgain(s, c);
      case QNext(_, _) => CompareNext(s, c);
      case QStore(_, _) => AdvanceFront(s, c);
      case QSub(_) => AdvanceFront(s, c);
      case QKick(_) => AdvanceFront(s, c);
      case QLock(_) => RequestSeek(s, c);
      case QSet(_) => RequestSeek(s, c);
      case QPos(_) => RequestSeek(s, c);
      case WFlag => WaitFast(s, c);
      case WCount => WaitFast(s, c);
      case WFront => WaitFast(s, c);
      case WResult(_) => WaitReturns(s, c);
      case WLock => WaitReturns(s, c);
      case WDone(_) => WaitReturns(s, c);
    }
  }

  lemma WorkerPreserves(s: State, c: WorkerChoice)
    requires Inv(s) && WorkerEnabled(s)
    ensures Inv(WorkerStep(s, c))
  {
    hide Inv, WorkerEnabled, WorkerStep;
    match s.worker {
      case KWait => WakeUp(s, c);
      case KInner => WakeUp(s, c);
      case KEmpty1(_) => EmptyBuffers(s, c);
      case KEmpty2(_) => EmptyBuffers(s, c);
      case KEmpty3(_) => EmptyBuffers(s, c);
      case KEmpty4(_) => EmptyBuffers(s, c);
      case KEmpty5(_) => EmptyBuffers(s, c);
      case KSeeking(_) => Seek(s, c);
      case KSeekDone(_, _) => AfterSeek(s, c);
      case KCheck(_, _) => AfterSeek(s, c);
      case KLoop => ReserveSlot(s, c);
      case KLabel(_) => LabelSlot(s, c);
      case KReading(_) => ReadSector(s, c);
      case KReadDone(_) => PublishSlot(s, c);
      case KLoopExit => Restart(s, c);
      case KOuter => Restart(s, c);
    }
  }

  // ---------------------------------------------------------------- runs

  datatype Action = ByMain(m: MainChoice) | ByWorker(w: WorkerChoice)

  ghost predicate Enabled(s: State, a: Action) {
    match a
    case ByMain(c) => MainEnabled(s, c)
    case ByWorker(_) => WorkerEnabled(s)
  }

  ghost function Step(s: State, a: Action): (t: State)
    requires Inv(s) && Enabled(s, a)
    ensures Inv(t)
  {
    match a
    case ByMain(c) => MainPreserves(s, c); MainStep(s, c)
    case ByWorker(c) => WorkerPreserves(s, c); WorkerStep(s, c)
  }

  /** One interleaving: the two threads take the listed steps in this order. */
  ghost predicate Run(s: State, actions: seq<Action>, t: State)
    requires Inv(s)
    decreases |actions|
  {
    if actions == [] then s == t
    else Enabled(s, actions[0]) && Run(Step(s, actions[0]), actions[1..], t)
  }

  lemma {:induction false} RunInv(s: State, actions: seq<Action>, t: State)
    requires Inv(s) && Run(s, actions, t)
    ensures Inv(t)
    decreases |actions|
  {
    hide Inv, Step, Enabled;
    if actions != [] {
      RunInv(Step(s, actions[0]), actions[1..], t);
    }
  }

  /** Slot k of the window, in the source's own modular arithmetic. */
  function Cell(front: nat, k: nat, size: nat): nat
    requires size > 0
  {
    (front + k) % size
  }

  lemma AtIsCell(front: nat, k: nat, size: nat)
    requires front < size && k <= size
    ensures At(front, k, size) == Cell(front, k, size)
  {
  }

  /** Ring safety in every state of every interleaving. */
  lemma {:induction false} RingSafety(s0: State, actions: seq<Action>, s: State)
    requires Init(s0) && Inv(s0) && Run(s0, actions, s)
    ensures var n := |s.slots|;
            && 0 < n && s.count <= n
            && (!Emptying(s.worker) ==>
                  && 0 <= Valid(s)
                  && s.back == Cell(s.front, Valid(s) + (if InFlight(s.worker) then 1 else 0), n)
                  && (InFlight(s.worker) ==> forall k :: 0 <= k < Valid(s) ==> Cell(s.front, k, n) != s.worker.slot))
  {
    hide Run, Init, SlotsTrue, Control, LocalsTrue, FrontTrue, Cell;
    RunInv(s0, actions, s);
    var n := |s.slots|;
    if !Emptying(s.worker) {
      AtIsCell(s.front, Valid(s) + (if InFlight(s.worker) then 1 else 0), n);
      forall k | 0 <= k < Valid(s)
        ensures InFlight(s.worker) ==> Cell(s.front, k, n) != s.worker.slot
      {
        AtIsCell(s.front, k, n);
      }
    }
  }

  /** What WaitForReadToComplete hands over, in every interleaving: a successful result is the data
      of the lba on the front slot; and that lba is the one last queued exactly if the seek of
      the last request was not derailed. */
  lemma {:induction false} WaitIsRight(s0: State, actions: seq<Action>, s: State)
    requires Init(s0) && Inv(s0) && Run(s0, actions, s) && s.main.WDone?
    ensures s.front < |s.slots| && s.count > 0
    ensures s.main.result ==> s.slots[s.front].result && s.slots[s.front].data == s.disc(s.slots[s.front].lba)
    ensures s.want == Some(s.slots[s.front].lba) <==> !s.derailed
  {
    hide Run, Init;
    RunInv(s0, actions, s);
    assert Good(s.slots[At(s.front, 0, |s.slots|)], s.disc);
  }

  /** No sector seek of the run fails. */
  ghost predicate SeeksSucceed(s: State, actions: seq<Action>)
    requires Inv(s)
    decreases |actions|
  {
    actions != [] && Enabled(s, actions[0]) ==>
      (actions[0].ByWorker? && s.worker.KSeeking? && s.position != s.worker.loc ==> actions[0].w.ok)
      && SeeksSucceed(Step(s, actions[0]), actions[1..])
  }

  /** No seek has failed that has not been dealt with. */
  predicate OnTrack(s: State) { !s.derailed && (s.worker.KSeekDone? || s.worker.KCheck? ==> s.worker.ok) }

  lemma StepOnTrack(s: State, a: Action)
    requires Inv(s) && Enabled(s, a) && OnTrack(s)
    requires a.ByWorker? && s.worker.KSeeking? && s.position != s.worker.loc ==> a.w.ok
    ensures OnTrack(Step(s, a))
  {
    hide Inv, MainStep, WorkerStep;
  }

  lemma {:induction false} NoFailureNoDerailing(s: State, actions: seq<Action>, t: State)
    requires Inv(s) && Run(s, actions, t) && SeeksSucceed(s, actions) && OnTrack(s)
    ensures !t.derailed
    decreases |actions|
  {
    hide Inv, MainStep, WorkerStep;
    if actions != [] {
      StepOnTrack(s, actions[0]);
      NoFailureNoDerailing(Step(s, actions[0]), actions[1..], t);
    }
  }

  /** While every seek succeeds, WaitForReadToComplete always hands over the lba last queued. */
  lemma {:induction false} WaitIsRightWithoutSeekErrors(s0: State, actions: seq<Action>, s: State)
    requires Init(s0) && Inv(s0) && Run(s0, actions, s) && SeeksSucceed(s0, actions) && s.main.WDone?
    ensures s.front < |s.slots| && s.want == Some(s.slots[s.front].lba)
  {
    hide Run, Inv, SeeksSucceed;
    NoFailureNoDerailing(s0, actions, s);
    WaitIsRight(s0, actions, s);
  }

  /** The emulation thread touches the image only while the read thread is parked. */
  lemma {:induction false} MediaIsExclusive(s0: State, actions: seq<Action>, s: State, c: MainChoice)
    requires Init(s0) && Inv(s0) && Run(s0, actions, s) && MainEnabled(s, c)
    requires c.Uncached? || c.Cancel? || c.NewMedia?
    ensures s.worker == KWait
  {
    hide Run, Init;
    RunInv(s0, actions, s);
  }

  // ---------------------------------------------------------------- a derailed run

  ghost predicate Reaches(s: State, t: State) {
    Inv(s) && Inv(t) && exists actions :: Run(s, actions, t)
  }

  lemma {:induction false} RunAppend(s: State, actions: seq<Action>, t: State, a: Action)
    requires Inv(s) && Run(s, actions, t) && Inv(t) && Enabled(t, a)
    ensures Run(s, actions + [a], Step(t, a))
    decreases |actions|
  {
    hide Inv, Step, Enabled;
    if actions == [] {
      assert [a][1..] == [];
      assert Run(Step(t, a), [], Step(t, a));
      assert actions + [a] == [a];
    } else {
      RunAppend(Step(s, actions[0]), actions[1..], t, a);
      assert (actions + [a])[1..] == actions[1..] + [a];
    }
  }

  lemma TakeMain(s0: State, s: State, c: MainChoice) returns (t: State)
    requires Reaches(s0, s) && MainEnabled(s, c)
    ensures Inv(s) && t == MainStep(s, c) && Reaches(s0, t)
  {
    hide Inv, Run, MainEnabled, MainStep;
    var actions :| Run(s0, actions, s);
    RunAppend(s0, actions, s, ByMain(c));
    t := Step(s, ByMain(c));
  }

  lemma TakeWorker(s0: State, s: State, ok: bool) returns (t: State)
    requires Reaches(s0, s) && WorkerEnabled(s)
    ensures Inv(s) && t == WorkerStep(s, WorkerChoice(ok, 0)) && Reaches(s0, t)
  {
    hide Inv, Run, WorkerEnabled, WorkerStep;
    var actions :| Run(s0, actions, s);
    RunAppend(s0, actions, s, ByWorker(WorkerChoice(ok, 0)));
    t := Step(s, ByWorker(WorkerChoice(ok, 0)));
  }

  /** QueueReadSector on an empty ring, or with no hit: four more steps leave a request behind. */
  lemma QueueSlow(s0: State, s: State) returns (t: State)
    requires Reaches(s0, s) && s.main.QLock? && !WorkerHolds(s.worker)
    ensures Reaches(s0, t)
    ensures t == s.(main := Idle, nextSet := true, nextPosition := s.main.lba, derailed := false)
  {
    hide Reaches, Inv;
    t := TakeMain(s0, s, Continue);
    t := TakeMain(s0, t, Continue);
    t := TakeMain(s0, t, Continue);
  }

  lemma WakeForRequest(s0: State, s: State) returns (t: State)
    requires Reaches(s0, s) && s.main == Idle && s.worker == KWait && s.nextSet
    ensures Reaches(s0, t) && t == s.(worker := KEmpty4(s.nextPosition), front := 0, back := 0, count := 0)
  {
    hide Reaches, Inv;
    t := TakeWorker(s0, s, true);
    t := TakeWorker(s0, t, true);
    t := TakeWorker(s0, t, true);
    t := TakeWorker(s0, t, true);
    t := TakeWorker(s0, t, true);
  }

  /** The read thread wakes up for a request and tries the seek. */
  lemma ServeRequest(s0: State, s: State, ok: bool) returns (t: State)
    requires Reaches(s0, s) && s.main == Idle && s.worker == KWait && s.nextSet
    requires s.position != s.nextPosition
    ensures Reaches(s0, t)
    ensures t == s.(worker := KCheck(s.nextPosition, ok), front := 0, back := 0, count := 0, nextSet := false,
                    seekError := false, isReading := false, position := if ok then s.nextPosition else s.position)
  {
    hide Reaches, Inv;
    t := WakeForRequest(s0, s);
    t := TakeWorker(s0, t, ok);
    t := TakeWorker(s0, t, ok);
    t := TakeWorker(s0, t, ok);
    t := TakeWorker(s0, t, ok);
  }

  /** The read-ahead loop reads one sector. */
  lemma ReadOne(s0: State, s: State) returns (t: State)
    requires Reaches(s0, s) && s.main == Idle && s.worker == KLoop && s.count < |s.slots| && !s.nextSet
    requires s.back < |s.slots|
    ensures Reaches(s0, t)
    ensures t == s.(worker := KLoop, slots := s.slots[s.back := Slot(s.position, s.disc(s.position), true)],
                    back := Succ(s.back, |s.slots|), count := s.count + 1, isReading := false,
                    position := s.position + 1)
  {
    hide Reaches, Succ, Inv;
    t := TakeWorker(s0, s, true);
    t := TakeWorker(s0, t, true);
    t := TakeWorker(s0, t, true);
    t := TakeWorker(s0, t, true);
  }

  /** WaitForReadToComplete on a non-empty ring takes the lock-free path. */
  lemma WaitFastPath(s0: State, s: State) returns (t: State)
    requires Reaches(s0, s) && s.main == Idle && !s.nextSet && s.count > 0 && s.front < |s.slots|
    ensures Reaches(s0, t) && t == s.(main := WDone(s.slots[s.front].result))
  {
    hide Reaches, Inv;
    t := TakeMain(s0, s, Wait);
    t := TakeMain(s0, t, Continue);
    t := TakeMain(s0, t, Continue);
    t := TakeMain(s0, t, Continue);
    t := TakeMain(s0, t, Continue);
  }

  // ---------------------------------------------------------------- seek errors

  /** The read thread is about to find that its seek has failed, and that no other one is asked for. */
  predicate SeekFailed(s: State) { s.worker.KCheck? && !s.worker.ok && !s.nextSet }

  /** These steps do not end a blocking wait, and do not begin another seek. */
  ghost predicate Untouched(s: State, actions: seq<Action>)
    requires Inv(s)
    decreases |actions|
  {
    actions != [] && Enabled(s, actions[0]) ==>
      && !(if actions[0].ByMain? then s.main == WLock else s.worker.KEmpty5?)
      && Untouched(Step(s, actions[0]), actions[1..])
  }

  /** The last seek that was begun has failed, and no wait has reported it yet. */
  ghost predicate FailedSince(s0: State, t: State) {
    exists pre, r, w, post ::
      Inv(s0) && Run(s0, pre, r) && Inv(r) && SeekFailed(r) && WorkerEnabled(r) && Unreported(r, w, post, t)
  }

  ghost predicate Unreported(r: State, w: WorkerChoice, post: seq<Action>, t: State)
    requires Inv(r) && WorkerEnabled(r)
  {
    Run(Step(r, ByWorker(w)), post, t) && Untouched(Step(r, ByWorker(w)), post)
  }

  /** What MainStep asks for. */
  ghost predicate Steppable(s: State, c: MainChoice) {
    && MainEnabled(s, c) && 0 < |s.slots| && s.front < |s.slots|
    && (s.main.QSame? ==> s.main.f < |s.slots|) && (s.main.QNext? ==> s.main.n < |s.slots|)
    && (s.main.WResult? ==> s.main.f < |s.slots|) && (s.main.QSub? ==> s.count > 0)
  }

  predicate Looking(m: Main) { m.QCount? || m.QFront? || m.QSame? || m.QMore? || m.QNext? }

  lemma ErrorLookStep(s: State, c: MainChoice)
    requires Steppable(s, c) && Looking(s.main)
    ensures MainStep(s, c).seekError == s.seekError
  {
    hide MainEnabled, Succ, UncachedRead;
  }

  lemma ErrorQueueStep(s: State, c: MainChoice)
    requires Steppable(s, c) && (InQueue(s.main) || s.main.QPos?) && !Looking(s.main)
    ensures MainStep(s, c).seekError == s.seekError
  {
    hide MainEnabled, Succ, UncachedRead;
  }

  lemma ErrorCallStep(s: State, c: MainChoice)
    requires Steppable(s, c) && (s.main.Idle? || s.main.Swap?)
    ensures MainStep(s, c).seekError == s.seekError
  {
    hide Succ, UncachedRead, WorkerHolds;
  }

  lemma ErrorWaitStep(s: State, c: MainChoice)
    requires Steppable(s, c) && !(InQueue(s.main) || s.main.QPos? || s.main.Idle? || s.main.Swap?)
    ensures MainStep(s, c).seekError == (s.seekError && s.main != WLock)
  {
    hide MainEnabled, Succ, UncachedRead;
  }

  lemma ErrorSeekStep(s: State, c: WorkerChoice)
    requires WorkerEnabled(s) && 0 < |s.slots| && (Emptying(s.worker) || Seeking(s.worker))
    ensures WorkerStep(s, c).seekError == (SeekFailed(s) || (s.seekError && !s.worker.KEmpty5?))
  {
    hide WorkerEnabled, Succ;
  }

  lemma ErrorLoopStep(s: State, c: WorkerChoice)
    requires WorkerEnabled(s) && 0 < |s.slots| && !(Emptying(s.worker) || Seeking(s.worker) || InFlight(s.worker))
    ensures WorkerStep(s, c).seekError == s.seekError && !SeekFailed(s) && !s.worker.KEmpty5?
  {
    hide WorkerEnabled, Succ;
  }

  lemma ErrorReadStep(s: State, c: WorkerChoice)
    requires WorkerEnabled(s) && 0 < |s.slots| && InFlight(s.worker)
    requires !s.worker.KReadDone? ==> s.worker.slot < |s.slots|
    ensures WorkerStep(s, c).seekError == s.seekError && !SeekFailed(s) && !s.worker.KEmpty5?
  {
    hide WorkerEnabled, Succ;
  }

  lemma ErrorStep(s: State, a: Action)
    requires Inv(s) && Enabled(s, a)
    ensures a.ByWorker? && SeekFailed(s) ==> Step(s, a).seekError
    ensures (if a.ByMain? then s.main == WLock else s.worker.KEmpty5?) ==> !Step(s, a).seekError
    ensures !(if a.ByMain? then s.main == WLock else s.worker.KEmpty5? || SeekFailed(s)) ==>
              Step(s, a).seekError == s.seekError
  {
    hide MainEnabled, WorkerEnabled, MainStep, WorkerStep, SlotsTrue, FrontTrue, WorkerHolds, MainHolds;
    match a
    case ByMain(c) =>
      if Looking(s.main) {
        ErrorLookStep(s, c);
      } else if InQueue(s.main) || s.main.QPos? {
        ErrorQueueStep(s, c);
      } else if s.main.Idle? || s.main.Swap? {
        ErrorCallStep(s, c);
      } else {
        ErrorWaitStep(s, c);
      }
    case ByWorker(w) =>
      if InFlight(s.worker) {
        ErrorReadStep(s, w);
      } else if Emptying(s.worker) || Seeking(s.worker) {
        ErrorSeekStep(s, w);
      } else {
        ErrorLoopStep(s, w);
      }
  }

  lemma {:induction false} ErrorKept(s: State, actions: seq<Action>, t: State)
    requires Inv(s) && Run(s, actions, t) && Untouched(s, actions) && s.seekError
    ensures t.seekError
    decreases |actions|
  {
    hide Inv, Step, Enabled;
    if actions != [] {
      ErrorStep(s, actions[0]);
      ErrorKept(Step(s, actions[0]), actions[1..], t);
    }
  }

  /** Where an error comes from: it was there, and nothing has touched it, or a seek has failed. */
  lemma {:induction false} ErrorCause(s: State, actions: seq<Action>, t: State)
    requires Inv(s) && Run(s, actions, t) && t.seekError
    ensures (s.seekError && Untouched(s, actions)) || FailedSince(s, t)
    decreases |actions|
  {
    hide Inv, Step, Enabled, FailedSince, SeekFailed;
    if actions != [] {
      var u := Step(s, actions[0]);
      ErrorStep(s, actions[0]);
      ErrorCause(u, actions[1..], t);
      if u.seekError && Untouched(u, actions[1..]) {
        if actions[0].ByWorker? && SeekFailed(s) {
          FailsNow(s, actions[0], actions[1..], t);
        }
      } else {
        FailedLater(s, actions[0], t);
      }
    }
  }

  lemma FailsNow(s: State, a: Action, post: seq<Action>, t: State)
    requires Inv(s) && a.ByWorker? && SeekFailed(s) && Enabled(s, a)
    requires Run(Step(s, a), post, t) && Untouched(Step(s, a), post)
    ensures FailedSince(s, t)
  {
    hide Inv, Step, SeekFailed, WorkerEnabled;
    assert Run(s, [], s);
    assert Unreported(s, a.w, post, t);
  }

  lemma FailedLater(s: State, a: Action, t: State)
    requires Inv(s) && Enabled(s, a) && FailedSince(Step(s, a), t)
    ensures FailedSince(s, t)
  {
    hide Inv, Step, SeekFailed, WorkerEnabled, Unreported;
    var pre, r, w, post :| Run(Step(s, a), pre, r) && Inv(r) && SeekFailed(r) && WorkerEnabled(r) && Unreported(r, w, post, t);
    assert ([a] + pre)[1..] == pre;
    assert Run(s, [a] + pre, r);
  }

  /** A blocking wait reports a seek error exactly if the last seek has failed and no wait has reported that
      yet, whatever has been read since; the error is then gone. Otherwise it hands over the front slot. */
  lemma {:induction false} WaitReportsSeekError(s0: State, actions: seq<Action>, s: State)
    requires Init(s0) && Inv(s0) && Run(s0, actions, s) && s.main == WLock && Enabled(s, ByMain(Continue))
    ensures Inv(s)
    ensures var t := Step(s, ByMain(Continue));
            if FailedSince(s0, s) then t.main == Idle && !t.seekError
            else s.count > 0 && t.main == WDone(s.slots[s.front].result)
  {
    RunInv(s0, actions, s);
    hide Run, Untouched, FailedSince, WorkerHolds;
    if FailedSince(s0, s) {
      FailedIsError(s0, s);
    } else if s.seekError {
      ErrorCause(s0, actions, s);
    }
  }

  lemma FailedIsError(s0: State, t: State)
    requires FailedSince(s0, t)
    ensures t.seekError
  {
    hide Inv, Step, Run, Untouched, SeekFailed, WorkerEnabled;
    var pre, r, w, post :|
      Inv(s0) && Run(s0, pre, r) && Inv(r) && SeekFailed(r) && WorkerEnabled(r) && Unreported(r, w, post, t);
    WorkerIsAction(r, w);
    ErrorStep(r, ByWorker(w));
    ErrorKept(Step(r, ByWorker(w)), post, t);
  }

  lemma WorkerIsAction(s: State, w: WorkerChoice)
    requires WorkerEnabled(s)
    ensures Enabled(s, ByWorker(w))
  {
  }

  /** And such a wait is not held up: once its error is set, and no new seek is under way, a few steps of the
      read thread let it go on. */
  lemma ErrorGetsReported(s0: State, s: State) returns (t: State)
    requires Reaches(s0, s) && s.main == WLock && s.seekError && !s.nextSet && !s.worker.KEmpty5?
    ensures Reaches(s0, t) && t.main == WLock && t.seekError && MainEnabled(t, Continue)
    ensures Inv(t) && Enabled(t, ByMain(Continue)) && Step(t, ByMain(Continue)).main == Idle
    decreases match s.worker
              case KCheck(_, _) => 6
              case KOuter => if s.canReadahead then 5 else 1
              case KInner => if s.canReadahead then 4 else 2
              case KLoop => 3
              case KLoopExit => 2
              case KLabel(_) => 1
              case _ => 0
  {
    hide Run, SlotsTrue, FrontTrue;
    t := s;
    if WorkerHolds(s.worker) {
      t := TakeWorker(s0, s, true);
      t := ErrorGetsReported(s0, t);
    }
  }

  /** With m_can_readahead set, a failed seek leads straight back into the read-ahead loop. */
  lemma ReadAheadAfterFailure(s0: State, s: State) returns (t: State)
    requires Reaches(s0, s) && s.main == Idle
    requires s.worker.KCheck? && !s.worker.ok && !s.nextSet && s.canReadahead
    ensures Reaches(s0, t) && t == s.(worker := KLoop, seekError := true, derailed := true)
  {
    hide Reaches, Inv;
    t := TakeWorker(s0, s, true);
    t := TakeWorker(s0, t, true);
    t := TakeWorker(s0, t, true);
  }

  /** The read-ahead loop ends with the thread parked. */
  lemma Park(s0: State, s: State) returns (t: State)
    requires Reaches(s0, s) && s.main == Idle && s.worker == KLoop && s.count == |s.slots| && !s.nextSet
    ensures Reaches(s0, t) && t == s.(worker := KWait, canReadahead := false)
  {
    hide Reaches, Inv;
    t := TakeWorker(s0, s, true);
    t := TakeWorker(s0, t, true);
    t := TakeWorker(s0, t, true);
  }

  /** If a seek fails while m_can_readahead is set, the thread goes on to read ahead from where it
      stands, and WaitForReadToComplete hands over that sector instead of reporting the error. */
  lemma DerailedWaitReturnsWrongSector(s0: State, s: State) returns (t: State)
    requires Reaches(s0, s) && s.main == Idle
    requires s.worker.KCheck? && !s.worker.ok && !s.nextSet && s.canReadahead
    ensures Reaches(s0, t) && t.main == WDone(true) && t.seekError
    ensures t.front < |t.slots| && t.slots[t.front].lba == s.position && t.want == Some(s.worker.loc)
    ensures t.want != Some(t.slots[t.front].lba)
  {
    assert s.count == 0 && s.want == Some(s.worker.loc) && s.position != s.worker.loc && s.front < |s.slots|
           && s.back == At(s.front, 0, |s.slots|);
    hide Reaches, Succ, Inv;
    t := ReadAheadAfterFailure(s0, s);
    t := ReadOne(s0, t);
    t := WaitFastPath(s0, t);
  }

  function StartState(disc: nat -> Sector): State {
    State(Idle, KWait, [Slot(0, 0, false), Slot(0, 0, false)], 0, 0, 0, 0, false, false, false, false, 0, disc, None, false)
  }

  lemma FirstRequest(disc: nat -> Sector) returns (s: State)
    ensures Init(StartState(disc)) && Reaches(StartState(disc), s)
    ensures s == StartState(disc).(nextSet := true, nextPosition := 10, want := Some(10))
  {
    var s0 := StartState(disc);
    InitInv(s0);
    assert Run(s0, [], s0);
    hide Reaches, Inv;
    s := TakeMain(s0, s0, Queue(10));
    s := TakeMain(s0, s, Continue);
    s := QueueSlow(s0, s);
  }

  /** Queue lba 10 and let the thread fill a ring of two. */
  lemma FilledRun(disc: nat -> Sector) returns (s: State)
    ensures Init(StartState(disc)) && Reaches(StartState(disc), s)
    ensures s.main == Idle && s.worker == KWait && !s.nextSet && s.front == 0 && s.count == 2 && s.position == 12
    ensures |s.slots| == 2 && s.slots[0].lba == 10 && s.slots[1].lba == 11
  {
    var s0 := StartState(disc);
    hide Reaches, Inv, Init;
    s := FirstRequest(disc);
    s := ServeRequest(s0, s, true);
    s := TakeWorker(s0, s, true);
    s := ReadOne(s0, s);
    s := ReadOne(s0, s);
    s := Park(s0, s);
  }

  lemma FindNext(s0: State, s: State) returns (t: State)
    requires Reaches(s0, s) && s.main == Idle && !s.nextSet && |s.slots| == 2
    requires s.front == 0 && s.count == 2 && s.slots[0].lba == 10 && s.slots[1].lba == 11
    ensures Reaches(s0, t) && t == s.(main := QStore(11, 1), want := Some(11))
  {
    hide Reaches, Inv;
    t := TakeMain(s0, s, Queue(11));
    t := TakeMain(s0, t, Continue);
    t := TakeMain(s0, t, Continue);
    t := TakeMain(s0, t, Continue);
    t := TakeMain(s0, t, Continue);
    t := TakeMain(s0, t, Continue);
  }

  /** Queue 11: a hit in the ring, so the thread is only kicked. */
  lemma QueueHit(s0: State, s: State) returns (t: State)
    requires Reaches(s0, s) && s.main == Idle && !s.nextSet && |s.slots| == 2
    requires s.front == 0 && s.count == 2 && s.slots[0].lba == 10 && s.slots[1].lba == 11
    ensures Reaches(s0, t)
    ensures t == s.(front := 1, count := 1, want := Some(11), canReadahead := true, derailed := false)
  {
    hide Reaches, Inv;
    t := FindNext(s0, s);
    t := TakeMain(s0, t, Continue);
    t := TakeMain(s0, t, Continue);
    t := TakeMain(s0, t, Continue);
  }

  /** Queue 99 before the thread wakes up: not in the ring, so a seek is requested. */
  lemma QueueMiss(s0: State, s: State) returns (t: State)
    requires Reaches(s0, s) && s.main == Idle && s.worker == KWait && !s.nextSet && s.count == 1
    requires s.front == 1 && |s.slots| == 2 && s.slots[1].lba == 11
    ensures Reaches(s0, t)
    ensures t == s.(nextSet := true, nextPosition := 99, want := Some(99), derailed := false)
  {
    hide Reaches, Inv;
    t := TakeMain(s0, s, Queue(99));
    t := TakeMain(s0, t, Continue);
    t := TakeMain(s0, t, Continue);
    t := TakeMain(s0, t, Continue);
    t := TakeMain(s0, t, Continue);
    t := QueueSlow(s0, t);
  }

  /** Wrong sectors do get handed over: the seek for the queued lba 99 fails, and
      WaitForReadToComplete returns true with sector 12 on the front slot. */
  lemma DerailedRunExists(disc: nat -> Sector) returns (s: State)
    ensures Init(StartState(disc)) && Reaches(StartState(disc), s)
    ensures s.main == WDone(true) && s.want == Some(99) && s.front < |s.slots| && s.slots[s.front].lba == 12
  {
    hide Reaches, Init, Inv;
    var s0 := StartState(disc);
    s := FilledRun(disc);
    s := QueueHit(s0, s);
    s := QueueMiss(s0, s);
    s := ServeRequest(s0, s, false);
    s := DerailedWaitReturnsWrongSector(s0, s);
  }
}
