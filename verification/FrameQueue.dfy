/**
 The frame queue between the decoding thread and the display thread, in its keep-last mode. Only
 the tests and updates of size are made under the mutex; every other access to the queue is a step
 of its own, and the two threads interleave freely.
 */
module FrameQueue {
  import opened Arithmetic
  import opened Options

  type Frame = nat

  // The slot of position k on a ring of m slots.
  function Slot(k: nat, m: nat): (i: nat)
    requires m > 0
    ensures i < m
  {
    k % m
  }

  // Where the writer is: frame_queue_peek_writable, filling the slot, frame_queue_push.
  datatype Writer =
    | Testing                           // about to lock and test for space
    | Sleeping(signalled: bool)         // in pthread_cond_wait
    | Granted                           // unlocked; about to read windex
    | Holding(slot: nat)                // owns a pointer to the slot
    | Filled(slot: nat, frame: Frame)   // has moved the frame into it
    | Bumped(frame: Frame)              // has incremented windex
    | Moved(frame: Frame)               // has wrapped windex; about to lock and count the frame

  // Where the reader is: frame_queue_peek_readable, using the frame, frame_queue_next.
  datatype Reader =
    | Polling                           // about to lock and test for an unread frame
    | Dozing(signalled: bool)           // in pthread_cond_wait
    | Admitted                          // unlocked; about to read rindex and rindex_shown
    | Looking(slot: nat)                // owns a pointer to the slot
    | Done(slot: nat)                   // has used the frame
    | Stepped                           // has incremented rindex
    | Wrapped                           // has wrapped rindex; about to release the slot there
    | Released                          // has released it; about to lock and count it out

  datatype State = State(
    slots: seq<Option<Frame>>,
    rindex: nat,
    windex: nat,
    rindexShown: nat,
    size: int,
    writer: Writer,
    reader: Reader,
    // What has happened so far: the frames counted in, the frames used, what was in the slots that
    // were released, the completed calls of next.
    pushed: seq<Frame>,
    read: seq<Frame>,
    released: seq<Option<Frame>>,
    nexts: nat)
  {
    function MaxSize(): nat { |slots| }
  }

  predicate Init(s: State) {
    && |s.slots| > 0 && (forall i :: 0 <= i < |s.slots| ==> s.slots[i] == None)
    && s.rindex == s.windex == s.rindexShown == s.nexts == 0 && s.size == 0
    && s.writer == Testing && s.reader == Polling
    && s.pushed == s.read == [] && s.released == []
  }

  // pthread_cond_signal wakes a thread that waits, if there is one.
  predicate Signalled(w: Writer, r: Reader, w': Writer, r': Reader) {
    || (w == Sleeping(false) && w' == Sleeping(true) && r' == r)
    || (r == Dozing(false) && r' == Dozing(true) && w' == w)
    || (w != Sleeping(false) && r != Dozing(false) && w' == w && r' == r)
  }

  predicate WriterStep(s: State, s': State) {
    match s.writer
    case Testing => WriterTest(s, s')
    case Sleeping(_) => WriterTest(s, s')  // woken by a signal, or spuriously
    case Granted => s' == s.(writer := Holding(s.windex))
    case Holding(slot) =>
      && slot < |s.slots| && s'.writer.Filled?
      && s' == s.(slots := s.slots[slot := Some(s'.writer.frame)], writer := Filled(slot, s'.writer.frame))
    case Filled(_, f) => s' == s.(windex := s.windex + 1, writer := Bumped(f))
    case Bumped(f) => s' == s.(windex := if s.windex == s.MaxSize() then 0 else s.windex, writer := Moved(f))
    case Moved(f) =>
      && Signalled(Testing, s.reader, s'.writer, s'.reader)
      && s' == s.(size := s.size + 1, pushed := s.pushed + [f], writer := s'.writer, reader := s'.reader)
  }

  predicate WriterTest(s: State, s': State) {
    s' == s.(writer := if s.size >= s.MaxSize() then Sleeping(false) else Granted)
  }

  predicate ReaderStep(s: State, s': State) {
    match s.reader
    case Polling => ReaderTest(s, s')
    case Dozing(_) => ReaderTest(s, s')
    case Admitted => |s.slots| > 0 && s' == s.(reader := Looking(Slot(s.rindex + s.rindexShown, s.MaxSize())))
    case Looking(slot) =>
      && slot < |s.slots| && s.slots[slot].Some?
      && s' == s.(read := s.read + [s.slots[slot].value], reader := Done(slot))
    case Done(_) =>
      if s.rindexShown == 0 then s' == s.(rindexShown := 1, nexts := s.nexts + 1, reader := Polling)
      else s' == s.(rindex := s.rindex + 1, reader := Stepped)
    case Stepped => s' == s.(rindex := if s.rindex == s.MaxSize() then 0 else s.rindex, reader := Wrapped)
    case Wrapped =>
      && s.rindex < |s.slots|
      && s' == s.(slots := s.slots[s.rindex := None], released := s.released + [s.slots[s.rindex]], reader := Released)
    case Released =>
      && Signalled(s.writer, Polling, s'.writer, s'.reader)
      && s' == s.(size := s.size - 1, nexts := s.nexts + 1, writer := s'.writer, reader := s'.reader)
  }

  predicate ReaderTest(s: State, s': State) {
    s' == s.(reader := if s.size - s.rindexShown <= 0 then Dozing(false) else Admitted)
  }

  predicate Step(s: State, s': State) {
    WriterStep(s, s') || ReaderStep(s, s')
  }

  ghost predicate Run(trace: seq<State>) {
    && trace != [] && Init(trace[0])
    && forall i :: 0 <= i < |trace| - 1 ==> Step(trace[i], trace[i + 1])
  }

  // ----- The invariant -----

  // Completed calls of next, less the first, which only marks the kept frame as shown.
  function CountedOut(s: State): nat {
    if s.nexts == 0 then 0 else s.nexts - 1
  }

  // Past the test for space and not yet counted in.
  predicate Writing(w: Writer) {
    w.Granted? || w.Holding? || w.Filled? || w.Bumped? || w.Moved?
  }

  // Past the test for a frame and not yet through next.
  predicate Reading(r: Reader) {
    r.Admitted? || r.Looking? || r.Done? || r.Stepped? || r.Wrapped? || r.Released?
  }

  // Reads of the frame at the head that are not yet matched by a completed next.
  function Ahead(r: Reader): nat {
    if r.Done? || r.Stepped? || r.Wrapped? || r.Released? then 1 else 0
  }

  predicate Counters(s: State) {
    && |s.slots| > 0
    && s.nexts <= |s.pushed|
    && s.rindexShown == (if s.nexts == 0 then 0 else 1)
    && s.size == |s.pushed| - CountedOut(s)
    && s.size <= s.MaxSize()
    && (Writing(s.writer) ==> s.size < s.MaxSize())
    && (Reading(s.reader) ==> s.nexts < |s.pushed|)
  }

  predicate WriterPlace(s: State)
    requires |s.slots| > 0
  {
    var head := Slot(|s.pushed|, s.MaxSize());
    match s.writer
    case Holding(slot) => s.windex == head == slot
    case Filled(slot, f) => s.windex == head == slot && s.slots[head] == Some(f)
    case Bumped(f) => s.windex == head + 1 && s.slots[head] == Some(f)
    case Moved(f) => s.windex == Slot(|s.pushed| + 1, s.MaxSize()) && s.slots[head] == Some(f)
    case _ => s.windex == head
  }

  predicate ReaderPlace(s: State)
    requires |s.slots| > 0
  {
    var tail := Slot(s.nexts, s.MaxSize());
    match s.reader
    case Looking(slot) => s.rindex == Slot(CountedOut(s), s.MaxSize()) && slot == tail
    case Done(slot) => s.rindex == Slot(CountedOut(s), s.MaxSize()) && slot == tail
    case Stepped => s.nexts > 0 && s.rindex == Slot(CountedOut(s), s.MaxSize()) + 1
    case Wrapped => s.nexts > 0 && s.rindex == tail
    case Released => s.nexts > 0 && s.rindex == tail
    case _ => s.rindex == Slot(CountedOut(s), s.MaxSize())
  }

  // Every frame counted in and not yet released is in its slot.
  ghost predicate Contents(s: State)
    requires |s.slots| > 0
  {
    forall k :: s.nexts + (if s.reader.Released? then 1 else 0) <= k < |s.pushed| ==>
      s.slots[Slot(k, s.MaxSize())] == Some(s.pushed[k])
  }

  predicate History(s: State) {
    && |s.read| == s.nexts + Ahead(s.reader) <= |s.pushed|
    && s.read == s.pushed[..|s.read|]
  }

  // A sleeping thread that has not been signalled is still right to sleep.
  predicate Wakeups(s: State) {
    && (s.writer == Sleeping(false) ==> s.size >= s.MaxSize())
    && (s.reader == Dozing(false) ==> s.size - s.rindexShown <= 0)
  }

  ghost predicate Inv(s: State) {
    Counters(s) && WriterPlace(s) && ReaderPlace(s) && Contents(s) && History(s) && Wakeups(s)
  }

  // ----- What is left behind: a second invariant, on the slots of frames already used -----

  // Frames released, all but the first of those counted out and the one just released.
  function Out(s: State): nat {
    CountedOut(s) + (if s.reader.Released? then 1 else 0)
  }

  // Frames that have taken up a slot, the one being pushed included.
  function Taken(s: State): nat {
    |s.pushed| + (if s.writer.Filled? || s.writer.Bumped? || s.writer.Moved? then 1 else 0)
  }

  // The first frame that took up a slot.
  function First(s: State): Option<Frame> {
    if s.pushed != [] then Some(s.pushed[0])
    else match s.writer
      case Filled(_, f) => Some(f)
      case Bumped(f) => Some(f)
      case Moved(f) => Some(f)
      case _ => None
  }

  // Released is every frame but the first, in the order pushed.
  predicate ReleasedInOrder(s: State) {
    |s.released| == Out(s) && Out(s) + (if Out(s) > 0 then 1 else 0) <= |s.pushed|
    && forall k :: 0 <= k < |s.released| ==> s.released[k] == Some(s.pushed[k + 1])
  }

  // What position k has left in its slot, while no later frame has taken it.
  predicate Left(s: State, k: nat)
    requires |s.slots| > 0
  {
    Taken(s) <= k + s.MaxSize() ==> s.slots[Slot(k, s.MaxSize())] == None
  }

  // The slots of released frames are empty, those never used too, and the first frame stays where it is.
  ghost predicate Leftovers(s: State)
    requires |s.slots| > 0
  {
    && (forall k :: 1 <= k <= Out(s) ==> Left(s, k))
    && (forall i :: Taken(s) <= i < s.MaxSize() ==> s.slots[i] == None)
    && (0 < Taken(s) <= s.MaxSize() ==> s.slots[0] == First(s))
  }

  // ----- Positions on the ring -----

  lemma NextSlot(a: nat, m: nat)
    requires m > 0
    ensures Slot(a + 1, m) == if Slot(a, m) + 1 == m then 0 else Slot(a, m) + 1
  {
    if a % m + 1 == m {
      DivModUnique(a + 1, m, a / m + 1, 0);
    } else {
      DivModUnique(a + 1, m, a / m, a % m + 1);
    }
  }

  lemma SmallSlot(a: nat, m: nat)
    requires a < m
    ensures Slot(a, m) == a && Slot(m, m) == 0
  {
    DivModUnique(a, m, 0, a);
    DivModUnique(m, m, 1, 0);
  }

  // Fewer than m frames apart, two frames never share a slot.
  lemma DistinctSlots(a: nat, b: nat, m: nat)
    requires a < b < a + m
    ensures Slot(a, m) != Slot(b, m)
  {
    var e, r := b - a, a % m;
    if r + e < m {
      DivModUnique(b, m, a / m, r + e);
    } else {
      DivModUnique(b, m, a / m + 1, r + e - m);
    }
  }

  // ----- Every step keeps the invariant -----

  lemma InitInv(s: State)
    requires Init(s)
    ensures Inv(s)
  {
    SmallSlot(0, s.MaxSize());
  }

  // The writer's slot holds none of the frames that are still to be read.
  lemma WriterSlotFree(s: State)
    requires Counters(s) && s.size < s.MaxSize()
    ensures forall k :: s.nexts <= k < |s.pushed| ==> Slot(k, s.MaxSize()) != Slot(|s.pushed|, s.MaxSize())
  {
    hide Slot;
    forall k | s.nexts <= k < |s.pushed|
      ensures Slot(k, s.MaxSize()) != Slot(|s.pushed|, s.MaxSize())
    {
      DistinctSlots(k, |s.pushed|, s.MaxSize());
    }
  }

  lemma WriterStepCounts(s: State, s': State)
    requires Inv(s) && WriterStep(s, s')
    ensures Counters(s') && History(s') && Wakeups(s')
  {
    hide Slot, WriterPlace, ReaderPlace, Contents;
  }

  lemma WriterStepPlaces(s: State, s': State)
    requires Inv(s) && WriterStep(s, s') && Counters(s')
    ensures WriterPlace(s') && ReaderPlace(s')
  {
    hide Slot, Contents, History, Wakeups;
    NextSlot(|s.pushed|, s.MaxSize());
  }

  lemma WriterStepContents(s: State, s': State)
    requires Inv(s) && WriterStep(s, s') && Counters(s')
    ensures Contents(s')
  {
    hide Slot, ReaderPlace, History, Wakeups;
    if s.writer.Holding? {
      WriterSlotFree(s);
    }
  }

  lemma WriterStepInv(s: State, s': State)
    requires Inv(s) && WriterStep(s, s')
    ensures Inv(s')
  {
    WriterStepCounts(s, s');
    WriterStepPlaces(s, s');
    WriterStepContents(s, s');
  }

  lemma ReaderStepCounts(s: State, s': State)
    requires Inv(s) && ReaderStep(s, s')
    ensures Counters(s') && History(s') && Wakeups(s')
  {
    hide Slot, WriterPlace;
    if s.reader.Looking? {
      assert s.slots[Slot(s.nexts, s.MaxSize())] == Some(s.pushed[s.nexts]);
    }
  }

  lemma ReaderStepPlaces(s: State, s': State)
    requires Inv(s) && ReaderStep(s, s') && Counters(s')
    ensures WriterPlace(s') && ReaderPlace(s')
  {
    hide Slot, Contents, History, Wakeups;
    NextSlot(CountedOut(s), s.MaxSize());
    if s.reader.Admitted? {
      ReadSlot(s);
    } else if s.reader.Wrapped? && Writing(s.writer) {
      WriterSlotFree(s);
    }
  }

  lemma ReaderStepContents(s: State, s': State)
    requires Inv(s) && ReaderStep(s, s') && Counters(s')
    ensures Contents(s')
  {
    hide Slot, WriterPlace, History, Wakeups;
    if s.reader.Wrapped? {
      forall k | s.nexts + 1 <= k < |s.pushed|
        ensures Slot(k, s.MaxSize()) != Slot(s.nexts, s.MaxSize())
      {
        DistinctSlots(s.nexts, k, s.MaxSize());
      }
    }
  }

  lemma ReaderStepInv(s: State, s': State)
    requires Inv(s) && ReaderStep(s, s')
    ensures Inv(s')
  {
    ReaderStepCounts(s, s');
    ReaderStepPlaces(s, s');
    ReaderStepContents(s, s');
  }

  lemma ReadSlot(s: State)
    requires Counters(s) && ReaderPlace(s) && s.reader == Admitted
    ensures Slot(s.rindex + s.rindexShown, s.MaxSize()) == Slot(s.nexts, s.MaxSize())
  {
    hide Slot;
    var m, c := s.MaxSize(), CountedOut(s);
    NextSlot(c, m);
    SmallSlot(s.rindex, m);
    if s.rindex + 1 < m {
      SmallSlot(s.rindex + 1, m);
    }
  }

  lemma {:induction false} RunInv(trace: seq<State>, i: nat)
    requires Run(trace) && i < |trace|
    ensures Inv(trace[i])
  {
    hide Inv, Init, WriterStep, ReaderStep;
    if i == 0 {
      InitInv(trace[0]);
    } else {
      RunInv(trace, i - 1);
      assert Step(trace[i - 1], trace[i]);
      if WriterStep(trace[i - 1], trace[i]) {
        WriterStepInv(trace[i - 1], trace[i]);
      } else {
        ReaderStepInv(trace[i - 1], trace[i]);
      }
    }
  }

  // ----- What every run guarantees -----

  // The slot a thread is working on, if any.
  function WriterSlot(s: State): Option<nat> {
    match s.writer
    case Holding(slot) => Some(slot)
    case Filled(slot, _) => Some(slot)
    case _ => None
  }

  function ReaderSlot(s: State): Option<nat> {
    match s.reader
    case Looking(slot) => Some(slot)
    case Done(slot) => Some(slot)
    case Wrapped => Some(s.rindex)
    case _ => None
  }

  // The k-th use of a frame is of the k-th frame pushed.
  lemma FramesReadInOrder(trace: seq<State>, i: nat)
    requires Run(trace) && i < |trace|
    ensures var s := trace[i]; |s.read| <= |s.pushed| && s.read == s.pushed[..|s.read|]
  {
    RunInv(trace, i);
  }

  // The writer never works on the slot that is being read or released, nor on one that holds an unread
  // frame, nor, once a frame has been shown, on the slot at rindex.
  lemma SlotsNeverCollide(trace: seq<State>, i: nat)
    requires Run(trace) && i < |trace| && WriterSlot(trace[i]).Some?
    ensures var s := trace[i];
            && |s.slots| > 0
            && WriterSlot(s) != ReaderSlot(s)
            && (forall k :: |s.read| <= k < |s.pushed| ==> Slot(k, |s.slots|) != WriterSlot(s).value)
            && (s.rindexShown == 1 && !s.reader.Stepped? ==> s.rindex != WriterSlot(s).value)
  {
    hide Slot;
    RunInv(trace, i);
    WriterSlotFree(trace[i]);
    if trace[i].rindexShown == 1 && !trace[i].reader.Stepped? {
      ShownSlotFree(trace[i]);
    }
  }

  lemma ShownSlotFree(s: State)
    requires Counters(s) && ReaderPlace(s) && Writing(s.writer) && s.rindexShown == 1 && !s.reader.Stepped?
    ensures s.rindex != Slot(|s.pushed|, s.MaxSize())
  {
    hide Slot;
    if s.reader.Wrapped? || s.reader.Released? {
      DistinctSlots(s.nexts, |s.pushed|, s.MaxSize());
    } else {
      DistinctSlots(CountedOut(s), |s.pushed|, s.MaxSize());
    }
  }

  // What the reader looks at is there, unread and next in order; what it releases is what it has just used.
  lemma ReaderSeesTheNextFrame(trace: seq<State>, i: nat)
    requires Run(trace) && i < |trace|
    ensures var s := trace[i];
            && (s.reader.Looking? ==> |s.read| < |s.pushed| && s.reader.slot < |s.slots|
                                      && s.slots[s.reader.slot] == Some(s.pushed[|s.read|]))
            && (s.reader.Wrapped? ==> 0 < |s.read| && s.rindex < |s.slots|
                                      && s.slots[s.rindex] == Some(s.read[|s.read| - 1]))
  {
    hide Slot;
    RunInv(trace, i);
  }

  // ----- What the queue keeps, and what it releases -----

  lemma WriterStepLeaves(s: State, s': State)
    requires Inv(s) && Inv(s') && ReleasedInOrder(s) && Leftovers(s) && WriterStep(s, s')
    ensures ReleasedInOrder(s') && Leftovers(s')
  {
    hide Slot, Left, WriterPlace, ReaderPlace, Contents, Wakeups, Leftovers;
    if s.writer.Holding? {
      WriterStepFills(s, s');
    } else {
      LeftAlone(s, s');
    }
  }

  // Most steps touch neither the slots nor what counts as taken or out.
  lemma LeftAlone(s: State, s': State)
    requires |s.slots| > 0 && s'.slots == s.slots && Taken(s') == Taken(s) && Out(s') == Out(s)
    requires Leftovers(s) && First(s') == First(s)
    ensures Leftovers(s')
  {
    hide Slot;
    forall k | 1 <= k <= Out(s')
      ensures Left(s', k)
    {
      assert Left(s, k);
    }
  }

  lemma WriterStepFills(s: State, s': State)
    requires Inv(s) && Inv(s') && Leftovers(s) && WriterStep(s, s') && s.writer.Holding?
    ensures Leftovers(s')
  {
    hide Slot;
    var m, n := s.MaxSize(), |s.pushed|;
    if n < m {
      SmallSlot(n, m);
    }
    forall k | 1 <= k <= Out(s')
      ensures Left(s', k)
    {
      if n + 1 <= k + m {
        assert Left(s, k);
        DistinctSlots(k, n, m);
      }
    }
  }

  lemma ReaderStepLeaves(s: State, s': State)
    requires Inv(s) && Inv(s') && ReleasedInOrder(s) && Leftovers(s) && ReaderStep(s, s')
    ensures ReleasedInOrder(s') && Leftovers(s')
  {
    hide Slot, Left, WriterPlace, ReaderPlace, Contents, Wakeups, Leftovers;
    if s.reader.Wrapped? {
      ReaderStepFrees(s, s');
    } else {
      LeftAlone(s, s');
    }
  }

  lemma ReaderStepFrees(s: State, s': State)
    requires Inv(s) && Inv(s') && ReleasedInOrder(s) && Leftovers(s) && ReaderStep(s, s') && s.reader.Wrapped?
    ensures ReleasedInOrder(s') && Leftovers(s')
  {
    hide Slot;
    var m := s.MaxSize();
    assert s.slots[s.rindex] == Some(s.pushed[s.nexts]);
    forall k | 1 <= k <= Out(s')
      ensures Left(s', k)
    {
      assert k < Out(s') ==> Left(s, k);
    }
    if Taken(s) <= m {
      SmallSlot(s.nexts, m);
    }
  }

  lemma {:induction false} RunLeaves(trace: seq<State>, i: nat)
    requires Run(trace) && i < |trace|
    ensures Inv(trace[i]) && ReleasedInOrder(trace[i]) && Leftovers(trace[i])
  {
    hide Inv, WriterStep, ReaderStep, ReleasedInOrder, Leftovers;
    RunInv(trace, i);
    if i == 0 {
      NothingLeft(trace[0]);
    } else {
      RunLeaves(trace, i - 1);
      assert Step(trace[i - 1], trace[i]);
      if WriterStep(trace[i - 1], trace[i]) {
        WriterStepLeaves(trace[i - 1], trace[i]);
      } else {
        ReaderStepLeaves(trace[i - 1], trace[i]);
      }
    }
  }

  lemma NothingLeft(s: State)
    requires Init(s)
    ensures |s.slots| > 0 && ReleasedInOrder(s) && Leftovers(s)
  {
  }

  // Every frame but the first is released, once and in order; the first never is.
  lemma AllButTheFirstReleased(trace: seq<State>, i: nat)
    requires Run(trace) && i < |trace|
    ensures var s := trace[i];
            && |s.released| < |s.pushed| + (if s.pushed == [] then 1 else 0)
            && forall k :: 0 <= k < |s.released| ==> s.released[k] == Some(s.pushed[k + 1])
  {
    RunLeaves(trace, i);
  }

  // What the slot at rindex holds between two calls of next: after the first call the first frame,
  // which is the one shown; after any later one nothing, since next releases the slot it moves to.
  lemma KeptBetweenCalls(trace: seq<State>, i: nat)
    requires Run(trace) && i < |trace|
    requires var r := trace[i].reader; r.Polling? || r.Dozing? || r.Admitted? || r.Looking?
    ensures var s := trace[i];
            && s.rindex < |s.slots|
            && (s.nexts == 1 ==> s.pushed != [] && s.slots[s.rindex] == Some(s.pushed[0]))
            && (s.nexts > 1 ==> s.slots[s.rindex] == None)
  {
    RunLeaves(trace, i);
    var s := trace[i];
    SmallSlot(0, s.MaxSize());
    hide Slot;
    if s.nexts > 1 {
      assert Left(s, s.nexts - 1);
    }
  }

  // The writer fills an empty slot, except that frame max_size goes over the first frame, which was
  // not released.
  lemma FirstFrameOverwritten(trace: seq<State>, i: nat)
    requires Run(trace) && i < |trace| && trace[i].writer.Holding?
    ensures var s := trace[i];
            && s.writer.slot < |s.slots|
            && s.slots[s.writer.slot] == if |s.pushed| == |s.slots| then Some(s.pushed[0]) else None
  {
    RunLeaves(trace, i);
    var s := trace[i];
    var m, n := s.MaxSize(), |s.pushed|;
    if n < m {
      SmallSlot(n, m);
    } else if n == m {
      SmallSlot(0, m);
    } else {
      OneRoundBack(n, m);
      hide Slot;
      assert Left(s, n - m);
    }
  }

  lemma OneRoundBack(n: nat, m: nat)
    requires 0 < m <= n
    ensures Slot(n, m) == Slot(n - m, m)
  {
    DivModUnique(n, m, (n - m) / m + 1, (n - m) % m);
  }

  // The condition each thread waits for.
  predicate WriterBlocked(s: State) {
    s.size >= s.MaxSize()
  }

  predicate ReaderBlocked(s: State) {
    s.size - s.rindexShown <= 0
  }

  // With two slots or more, never both: and whoever sleeps unsignalled does so with reason, so no wake-up is lost.
  lemma NeverBothBlocked(trace: seq<State>, i: nat)
    requires Run(trace) && i < |trace| && |trace[0].slots| >= 2
    ensures var s := trace[i];
            && !(WriterBlocked(s) && ReaderBlocked(s))
            && !(s.writer == Sleeping(false) && s.reader == Dozing(false))
  {
    RunInv(trace, i);
    SlotCountFixed(trace, i);
  }

  lemma {:induction false} SlotCountFixed(trace: seq<State>, i: nat)
    requires Run(trace) && i < |trace|
    ensures |trace[i].slots| == |trace[0].slots|
  {
    if i > 0 {
      SlotCountFixed(trace, i - 1);
      assert Step(trace[i - 1], trace[i]);
    }
  }

  // Two slots are needed: with a single one, the kept frame fills the queue and both threads wait for ever.
  lemma SingleSlotDeadlocks()
    ensures exists trace: seq<State> :: Run(trace) && |trace[0].slots| == 1 &&
              trace[|trace| - 1].writer == Sleeping(false) && trace[|trace| - 1].reader == Dozing(false)
  {
    var trace := FillTheSlot();
    trace := UseTheFrame(trace);
  }

  lemma Extended(trace: seq<State>, s: State) returns (longer: seq<State>)
    requires Run(trace) && Step(trace[|trace| - 1], s)
    ensures Run(longer) && longer[0] == trace[0] && longer[|longer| - 1] == s
  {
    hide Step, Init;
    longer := trace + [s];
  }

  lemma FillTheSlot() returns (trace: seq<State>)
    ensures Run(trace) && |trace[0].slots| == 1
    ensures trace[|trace| - 1] == State([Some(7)], 0, 0, 0, 1, Testing, Polling, [7], [], [], 0)
  {
    var s0 := State([None], 0, 0, 0, 0, Testing, Polling, [], [], [], 0);
    trace := [s0];
    var s1 := s0.(writer := Granted);
    trace := Extended(trace, s1);
    var s2 := s1.(writer := Holding(0));
    trace := Extended(trace, s2);
    var s3 := s2.(slots := [Some(7)], writer := Filled(0, 7));
    trace := Extended(trace, s3);
    var s4 := s3.(windex := 1, writer := Bumped(7));
    trace := Extended(trace, s4);
    var s5 := s4.(windex := 0, writer := Moved(7));
    trace := Extended(trace, s5);
    var s6 := s5.(size := 1, pushed := [7], writer := Testing);
    trace := Extended(trace, s6);
  }

  lemma UseTheFrame(before: seq<State>) returns (trace: seq<State>)
    requires Run(before) && |before[0].slots| == 1
    requires before[|before| - 1] == State([Some(7)], 0, 0, 0, 1, Testing, Polling, [7], [], [], 0)
    ensures Run(trace) && |trace[0].slots| == 1
    ensures trace[|trace| - 1].writer == Sleeping(false) && trace[|trace| - 1].reader == Dozing(false)
  {
    hide Run, Slot;
    SmallSlot(0, 1);
    var s6 := State([Some(7)], 0, 0, 0, 1, Testing, Polling, [7], [], [], 0);
    trace := before;
    var s7 := s6.(reader := Admitted);
    trace := Extended(trace, s7);
    var s8 := s7.(reader := Looking(0));
    trace := Extended(trace, s8);
    var s9 := s8.(read := [7], reader := Done(0));
    trace := Extended(trace, s9);
    var s10 := s9.(rindexShown := 1, nexts := 1, reader := Polling);
    trace := Extended(trace, s10);
    var s11 := s10.(reader := Dozing(false));
    trace := Extended(trace, s11);
    var s12 := s11.(writer := Sleeping(false));
    trace := Extended(trace, s12);
  }
}
