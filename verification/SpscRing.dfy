/** The single-producer single-consumer ring as a transition system: one step per atomic access
    and per buffer access, on wrapping 64-bit indices, under acquire/release ordering.

    Each atomic index is its modification order, the sequence of all values ever stored to it.
    An acquire load may return any entry from the newest one its thread has already read up to
    the current one (read-read coherence, section 6.9.2.1 of ISO/IEC 14882:2020), and makes the
    thread aware of every buffer access made before that entry was stored (section 31.4). */
module SpscRing {
  import opened Words

  /** A buffer element; moving out of it leaves nothing that may be read. */
  datatype Cell<T> = Raw | Holds(value: T)

  /** A release store: the word, and how many buffer accesses its thread had made by then. */
  datatype Store = Store(word: nat, accesses: nat)

  datatype Producer<T> =
    | PIdle
    | PRefresh(value: T, tail: nat)
    | PWrite(value: T, tail: nat)
    | PPublish(value: T, tail: nat)
    | PSize(head: nat)

  datatype Consumer<T> =
    | CIdle
    | CRefresh(head: nat)
    | CRead(head: nat)
    | CRelease(taken: Cell<T>, head: nat)
    | CSize(head: nat)

  datatype State<T> = State(
    buffer: seq<Cell<T>>,
    head: seq<Store>,      // modification order of head_
    tail: seq<Store>,      // modification order of tail_
    headCache: nat,
    tailCache: nat,
    producer: Producer<T>,
    consumer: Consumer<T>,
    // bookkeeping the program does not have
    headCached: nat,       // entry of `head` that headCache was loaded from
    tailCached: nat,
    headSeen: nat,         // newest entry of `head` the producer has read
    tailSeen: nat,
    slotWrites: seq<nat>,      // slots written by the producer, in program order
    slotReads: seq<nat>,       // slots moved from by the consumer, in program order
    readsKnown: nat,       // this many reads happen before the producer's next step
    writesKnown: nat,
    pushed: seq<T>)        // values of the successful pushes
  {
    function Pushes(): int { |tail| - 1 }
    function Pops(): int { |head| - 1 }
  }

  datatype Action<T> =
    | PushBegin(value: T)        // load tail_, test the cached head
    | PushRefresh(entry: nat)    // acquire load of head_, test again
    | PushWrite                  // write the slot
    | PushPublish                // release store of tail_
    | PopBegin
    | PopRefresh(entry: nat)
    | PopRead
    | PopRelease
    | ProducerSizeBegin(entry: nat)   // size(): acquire load of head_
    | ProducerSizeEnd                 // size(): load of its own tail_
    | ConsumerSizeBegin
    | ConsumerSizeEnd(entry: nat)

  /** What a step returns to the caller, if it ends a call. */
  datatype Event<T> =
    | Quiet
    | Pushed(value: T)
    | PushFull
    | Popped(taken: Cell<T>)
    | PopEmpty
    | Size(size: nat)

  // ---------------------------------------------------------------- the protocol

  /** `static_assert((N & (N - 1)) == 0)` for a capacity that fits a word. */
  predicate Capacity(n: nat) {
    0 < n < WORD && BitAnd(n, n - 1) == 0
  }

  function Slot(index: nat, n: nat): (slot: nat)
    requires n > 0
    ensures slot < n
  {
    BitAnd(index, n - 1)
  }

  function Init<T>(n: nat): State<T> {
    State(seq(n, i => Raw), [Store(0, 0)], [Store(0, 0)], 0, 0, PIdle, CIdle, 0, 0, 0, 0, [], [], 0, 0, [])
  }

  predicate Shape<T>(n: nat, s: State<T>) {
    n > 0 && |s.buffer| == n && |s.head| > 0 && |s.tail| > 0
  }

  predicate Enabled<T>(n: nat, s: State<T>, a: Action<T>) {
    && Shape(n, s)
    && match a
       case PushBegin(_) => s.producer.PIdle?
       case PushRefresh(k) => s.producer.PRefresh? && s.headSeen <= k < |s.head|
       case PushWrite => s.producer.PWrite?
       case PushPublish => s.producer.PPublish?
       case PopBegin => s.consumer.CIdle?
       case PopRefresh(k) => s.consumer.CRefresh? && s.tailSeen <= k < |s.tail|
       case PopRead => s.consumer.CRead?
       case PopRelease => s.consumer.CRelease?
       case ProducerSizeBegin(k) => s.producer.PIdle? && s.headSeen <= k < |s.head|
       case ProducerSizeEnd => s.producer.PSize?
       case ConsumerSizeBegin => s.consumer.CIdle?
       case ConsumerSizeEnd(k) => s.consumer.CSize? && s.tailSeen <= k < |s.tail|
  }

  function Max(a: nat, b: nat): nat { if a < b then b else a }

  /** `nextTail - head_cache_ > N` on wrapping words. */
  predicate LooksFull(n: nat, tail: nat, headCache: nat) {
    Wrap(Wrap(tail + 1) - headCache) > n
  }

  function Step<T>(n: nat, s: State<T>, a: Action<T>): (r: (State<T>, Event<T>))
    requires Enabled(n, s, a)
    ensures Shape(n, r.0)
  {
    match a
    case PushBegin(v) =>
      var tail := s.tail[|s.tail| - 1].word;
      if LooksFull(n, tail, s.headCache)
      then (s.(producer := PRefresh(v, tail)), Quiet)
      else (s.(producer := PWrite(v, tail)), Quiet)
    case PushRefresh(k) =>
      var s' := s.(headCache := s.head[k].word, headCached := k, headSeen := k,
                   readsKnown := Max(s.readsKnown, s.head[k].accesses));
      if LooksFull(n, s.producer.tail, s'.headCache)
      then (s'.(producer := PIdle), PushFull)
      else (s'.(producer := PWrite(s.producer.value, s.producer.tail)), Quiet)
    case PushWrite =>
      var slot := Slot(s.producer.tail, n);
      (s.(buffer := s.buffer[slot := Holds(s.producer.value)], slotWrites := s.slotWrites + [slot],
          producer := PPublish(s.producer.value, s.producer.tail)), Quiet)
    case PushPublish =>
      (s.(tail := s.tail + [Store(Wrap(s.producer.tail + 1), |s.slotWrites|)],
          pushed := s.pushed + [s.producer.value], producer := PIdle), Pushed(s.producer.value))
    case PopBegin =>
      var head := s.head[|s.head| - 1].word;
      if head == s.tailCache
      then (s.(consumer := CRefresh(head)), Quiet)
      else (s.(consumer := CRead(head)), Quiet)
    case PopRefresh(k) =>
      var s' := s.(tailCache := s.tail[k].word, tailCached := k, tailSeen := k,
                   writesKnown := Max(s.writesKnown, s.tail[k].accesses));
      if s.consumer.head == s'.tailCache
      then (s'.(consumer := CIdle), PopEmpty)
      else (s'.(consumer := CRead(s.consumer.head)), Quiet)
    case PopRead =>
      var slot := Slot(s.consumer.head, n);
      (s.(buffer := s.buffer[slot := Raw], slotReads := s.slotReads + [slot],
          consumer := CRelease(s.buffer[slot], s.consumer.head)), Quiet)
    case PopRelease =>
      (s.(head := s.head + [Store(Wrap(s.consumer.head + 1), |s.slotReads|)], consumer := CIdle),
       Popped(s.consumer.taken))
    case ProducerSizeBegin(k) =>
      (s.(producer := PSize(s.head[k].word), headSeen := k,
          readsKnown := Max(s.readsKnown, s.head[k].accesses)), Quiet)
    case ProducerSizeEnd =>
      (s.(producer := PIdle), Size(Wrap(s.tail[|s.tail| - 1].word - s.producer.head)))
    case ConsumerSizeBegin =>
      (s.(consumer := CSize(s.head[|s.head| - 1].word)), Quiet)
    case ConsumerSizeEnd(k) =>
      (s.(consumer := CIdle, tailSeen := k, writesKnown := Max(s.writesKnown, s.tail[k].accesses)),
       Size(Wrap(s.tail[k].word - s.consumer.head)))
  }

  // ---------------------------------------------------------------- runs

  ghost predicate Enableds<T>(n: nat, s: State<T>, acts: seq<Action<T>>)
    decreases |acts|
  {
    acts == [] || (Enabled(n, s, acts[0]) && Enableds(n, Step(n, s, acts[0]).0, acts[1..]))
  }

  ghost function Final<T>(n: nat, s: State<T>, acts: seq<Action<T>>): (s': State<T>)
    requires Enableds(n, s, acts)
    ensures Shape(n, s) ==> Shape(n, s')
    decreases |acts|
  {
    if acts == [] then s else Final(n, Step(n, s, acts[0]).0, acts[1..])
  }

  ghost function Events<T>(n: nat, s: State<T>, acts: seq<Action<T>>): seq<Event<T>>
    requires Enableds(n, s, acts)
    decreases |acts|
  {
    if acts == [] then [] else
      var (s', e) := Step(n, s, acts[0]);
      [e] + Events(n, s', acts[1..])
  }

  /** Some interleaving of the two threads leads to `s`. */
  ghost predicate Reachable<T(!new)>(n: nat, s: State<T>) {
    Capacity(n) && exists acts: seq<Action<T>> :: Enableds(n, Init(n), acts) && Final(n, Init(n), acts) == s
  }

  // ---------------------------------------------------------------- the invariant

  /** Counting with unbounded numbers: entry `k` of each index is the word of counter value `k`. */
  ghost predicate Counts(order: seq<Store>) {
    forall k :: 0 <= k < |order| ==> order[k] == Store(Wrap(k), k)
  }

  /** The slot of counter value `i`. */
  function Turn(i: nat, n: nat): (slot: nat)
    requires n > 0
    ensures slot < n
  {
    i % n
  }

  /** Slots are visited in turn. */
  ghost predicate InTurn(n: nat, slots: seq<nat>)
    requires n > 0
  {
    forall i :: 0 <= i < |slots| ==> slots[i] == Turn(i, n)
  }

  /** The values written but not yet moved out, oldest first. */
  ghost function Written<T>(s: State<T>): seq<T> {
    if s.producer.PPublish? then s.pushed + [s.producer.value] else s.pushed
  }

  ghost function Moved<T>(s: State<T>): int {
    s.Pops() + if s.consumer.CRelease? then 1 else 0
  }

  ghost predicate IndexInv<T>(n: nat, s: State<T>) {
    && Counts(s.head) && Counts(s.tail)
    && s.headCache == Wrap(s.headCached) && s.tailCache == Wrap(s.tailCached)
    && s.headCached <= s.headSeen <= s.Pops() <= s.tailCached <= s.tailSeen <= s.Pushes() <= s.headCached + n
  }

  ghost predicate PcInv<T>(n: nat, s: State<T>) {
    && (s.producer.PRefresh? ==> s.producer.tail == Wrap(s.Pushes()) && s.Pushes() == s.headCached + n)
    && (s.producer.PWrite? || s.producer.PPublish? ==>
          s.producer.tail == Wrap(s.Pushes()) && s.Pushes() < s.headCached + n)
    && (s.producer.PSize? ==> s.producer.head == Wrap(s.headSeen))
    && (s.consumer.CRefresh? ==> s.consumer.head == Wrap(s.Pops()) && s.Pops() == s.tailCached)
    && (s.consumer.CRead? || s.consumer.CRelease? ==>
          s.consumer.head == Wrap(s.Pops()) && s.Pops() < s.tailCached)
    && (s.consumer.CSize? ==> s.consumer.head == Wrap(s.Pops()))
  }

  ghost predicate AccessInv<T>(n: nat, s: State<T>)
    requires n > 0
  {
    && InTurn(n, s.slotWrites) && InTurn(n, s.slotReads)
    && |s.slotWrites| == |Written(s)| && |s.slotReads| == Moved(s)
    && s.readsKnown == s.headSeen && s.writesKnown == s.tailSeen
  }

  /** From counter value `low` on, the written values sit in their slots. */
  ghost predicate Stored<T>(n: nat, buffer: seq<Cell<T>>, written: seq<T>, low: nat)
    requires n > 0 && |buffer| == n
  {
    forall i :: low <= i < |written| ==> buffer[Turn(i, n)] == Holds(written[i])
  }

  ghost predicate DataInv<T>(n: nat, s: State<T>)
    requires Shape(n, s)
  {
    && |s.pushed| == s.Pushes()
    && Moved(s) <= |Written(s)|
    && Stored(n, s.buffer, Written(s), Moved(s))
    && (s.consumer.CRelease? ==> 0 <= s.Pops() < |s.pushed| && s.consumer.taken == Holds(s.pushed[s.Pops()]))
  }

  ghost predicate Inv<T>(n: nat, s: State<T>) {
    && Capacity(n) && Shape(n, s)
    && IndexInv(n, s) && PcInv(n, s) && AccessInv(n, s) && DataInv(n, s)
  }

  lemma EntryIs(order: seq<Store>, k: nat)
    requires Counts(order) && k < |order|
    ensures order[k] == Store(Wrap(k), k)
  {
  }

  lemma SlotOf(index: nat, n: nat)
    requires Capacity(n)
    ensures Slot(Wrap(index), n) == Turn(index, n)
  {
    PowerOfTwoTest(n);
    var k: nat :| n == Pow2(k);
    MaskIsMod(Wrap(index), k);
    WrapKeepsSlot(index, n);
  }

  /** The largest capacity is 2^63, so `N + 1` still fits a word. */
  lemma CapacityFits(n: nat)
    requires Capacity(n)
    ensures n + 1 < WORD
  {
    PowerOfTwoTest(n);
    var k: nat :| n == Pow2(k);
    WordIsPow2();
    if k >= 64 {
      Pow2Monotone(64, k);
    } else {
      Pow2Monotone(k, 63);
      assert Pow2(64) == 2 * Pow2(63);
    }
  }

  /** The admissible capacities are 2^0 to 2^63. */
  lemma CapacityIs(n: nat)
    ensures Capacity(n) <==> exists k: nat :: k < 64 && n == Pow2(k)
  {
    WordIsPow2();
    if Capacity(n) {
      PowerOfTwoTest(n);
      var k: nat :| n == Pow2(k);
      if k >= 64 {
        Pow2Monotone(64, k);
        assert false;
      }
    }
    if k: nat :| k < 64 && n == Pow2(k) {
      assert IsPow2(n);
      PowerOfTwoTest(n);
      Pow2Monotone(k, 63);
      assert Pow2(64) == 2 * Pow2(63);
    }
  }

  /** The modular test agrees with the exact one. */
  lemma FullTestIsExact(n: nat, tail: nat, head: nat)
    requires Capacity(n) && head <= tail <= head + n
    ensures LooksFull(n, Wrap(tail), Wrap(head)) <==> tail == head + n
  {
    CapacityFits(n);
    WrapSuccessor(tail);
    WrapDifference(tail + 1, head);
  }

  /** Equality of words is equality of counters that are at most a capacity apart. */
  lemma EmptyTestIsExact(n: nat, head: nat, tail: nat)
    requires Capacity(n) && head <= tail <= head + n
    ensures Wrap(head) == Wrap(tail) <==> head == tail
  {
    CapacityFits(n);
    WrapDifference(tail, head);
  }

  /** Counters fewer than `n` apart use different slots. */
  lemma SlotsDiffer(i: nat, j: nat, n: nat)
    requires n > 0 && i < j < i + n
    ensures Turn(i, n) != Turn(j, n)
  {
    if i % n == j % n {
      var d := j / n - i / n;
      assert n * d == j - i by {
        assert i == n * (i / n) + i % n && j == n * (j / n) + j % n;
        assert n * d == n * (j / n) - n * (i / n);
      }
      SmallMultiple(n, d);
      assert false;
    }
  }

  lemma InitInv<T>(n: nat)
    requires Capacity(n)
    ensures Inv<T>(n, Init(n))
  {
  }

  lemma PushBeginInv<T>(n: nat, s: State<T>, v: T)
    requires Inv(n, s) && Enabled(n, s, PushBegin(v))
    ensures Inv(n, Step(n, s, PushBegin(v)).0)
  {
    hide Wrap, BitAnd, Turn, Counts, InTurn, Stored;
    EntryIs(s.tail, s.Pushes());
    FullTestIsExact(n, s.Pushes(), s.headCached);
  }

  lemma PushRefreshInv<T>(n: nat, s: State<T>, k: nat)
    requires Inv(n, s) && Enabled(n, s, PushRefresh(k))
    ensures Inv(n, Step(n, s, PushRefresh(k)).0)
  {
    hide Wrap, BitAnd, Turn, Counts, InTurn, Stored;
    EntryIs(s.head, k);
    FullTestIsExact(n, s.Pushes(), k);
  }

  lemma PopBeginInv<T>(n: nat, s: State<T>)
    requires Inv(n, s) && Enabled(n, s, PopBegin)
    ensures Inv(n, Step(n, s, PopBegin).0)
  {
    hide Wrap, BitAnd, Turn, Counts, InTurn, Stored;
    EntryIs(s.head, s.Pops());
    EmptyTestIsExact(n, s.Pops(), s.tailCached);
  }

  lemma PopRefreshInv<T>(n: nat, s: State<T>, k: nat)
    requires Inv(n, s) && Enabled(n, s, PopRefresh(k))
    ensures Inv(n, Step(n, s, PopRefresh(k)).0)
  {
    hide Wrap, BitAnd, Turn, Counts, InTurn, Stored;
    EntryIs(s.tail, k);
    EmptyTestIsExact(n, s.Pops(), k);
  }

  lemma StoredWrite<T>(n: nat, buffer: seq<Cell<T>>, written: seq<T>, low: nat, v: T)
    requires n > 0 && |buffer| == n && Stored(n, buffer, written, low) && low <= |written| < low + n
    ensures Stored(n, buffer[Turn(|written|, n) := Holds(v)], written + [v], low)
  {
    hide Turn;
    forall i | low <= i < |written| ensures Turn(i, n) != Turn(|written|, n) {
      SlotsDiffer(i, |written|, n);
    }
  }

  lemma StoredRead<T>(n: nat, buffer: seq<Cell<T>>, written: seq<T>, low: nat)
    requires n > 0 && |buffer| == n && Stored(n, buffer, written, low) && low < |written| <= low + n
    ensures buffer[Turn(low, n)] == Holds(written[low])
    ensures Stored(n, buffer[Turn(low, n) := Raw], written, low + 1)
  {
    hide Turn;
    forall i | low < i < |written| ensures Turn(i, n) != Turn(low, n) {
      SlotsDiffer(low, i, n);
    }
  }

  lemma InTurnNext(n: nat, slots: seq<nat>)
    requires n > 0 && InTurn(n, slots)
    ensures InTurn(n, slots + [Turn(|slots|, n)])
  {
  }

  lemma PushWriteInv<T>(n: nat, s: State<T>)
    requires Inv(n, s) && Enabled(n, s, PushWrite)
    ensures Inv(n, Step(n, s, PushWrite).0)
  {
    hide Wrap, BitAnd, Turn, Counts, InTurn, Stored;
    SlotOf(s.Pushes(), n);
    InTurnNext(n, s.slotWrites);
    StoredWrite(n, s.buffer, s.pushed, Moved(s), s.producer.value);
  }

  lemma PopReadInv<T>(n: nat, s: State<T>)
    requires Inv(n, s) && Enabled(n, s, PopRead)
    ensures Inv(n, Step(n, s, PopRead).0)
  {
    hide Wrap, BitAnd, Turn, Counts, InTurn, Stored;
    SlotOf(s.Pops(), n);
    InTurnNext(n, s.slotReads);
    StoredRead(n, s.buffer, Written(s), s.Pops());
  }

  lemma PushPublishInv<T>(n: nat, s: State<T>)
    requires Inv(n, s) && Enabled(n, s, PushPublish)
    ensures Inv(n, Step(n, s, PushPublish).0)
  {
    hide Wrap, BitAnd, Turn, InTurn, Stored;
    WrapSuccessor(s.Pushes());
    assert Written(s) == s.pushed + [s.producer.value];
  }

  lemma PopReleaseInv<T>(n: nat, s: State<T>)
    requires Inv(n, s) && Enabled(n, s, PopRelease)
    ensures Inv(n, Step(n, s, PopRelease).0)
  {
    hide Wrap, BitAnd, Turn, InTurn, Stored;
    WrapSuccessor(s.Pops());
  }

  lemma SizeStepsInv<T>(n: nat, s: State<T>, a: Action<T>)
    requires Inv(n, s) && Enabled(n, s, a)
    requires a.ProducerSizeBegin? || a.ProducerSizeEnd? || a.ConsumerSizeBegin? || a.ConsumerSizeEnd?
    ensures Inv(n, Step(n, s, a).0)
  {
    hide Wrap, BitAnd, Turn, Counts, InTurn, Stored;
    match a {
      case ProducerSizeBegin(k) => EntryIs(s.head, k);
      case ConsumerSizeBegin => EntryIs(s.head, s.Pops());
      case ConsumerSizeEnd(k) => EntryIs(s.tail, k);
      case _ =>
    }
  }

  /** Every step of either thread keeps the invariant. */
  lemma StepInv<T>(n: nat, s: State<T>, a: Action<T>)
    requires Inv(n, s) && Enabled(n, s, a)
    ensures Inv(n, Step(n, s, a).0)
  {
    hide *;
    match a
    case PushBegin(v) => PushBeginInv(n, s, v);
    case PushRefresh(k) => PushRefreshInv(n, s, k);
    case PushWrite => PushWriteInv(n, s);
    case PushPublish => PushPublishInv(n, s);
    case PopBegin => PopBeginInv(n, s);
    case PopRefresh(k) => PopRefreshInv(n, s, k);
    case PopRead => PopReadInv(n, s);
    case PopRelease => PopReleaseInv(n, s);
    case _ => SizeStepsInv(n, s, a);
  }

  // ---------------------------------------------------------------- safety over whole runs

  lemma {:induction false} RunInv<T>(n: nat, s: State<T>, acts: seq<Action<T>>)
    requires Inv(n, s) && Enableds(n, s, acts)
    ensures Inv(n, Final(n, s, acts))
    decreases |acts|
  {
    if acts != [] {
      StepInv(n, s, acts[0]);
      RunInv(n, Step(n, s, acts[0]).0, acts[1..]);
    }
  }

  lemma ReachableInv<T(!new)>(n: nat, s: State<T>)
    requires Reachable(n, s)
    ensures Inv(n, s)
  {
    var acts: seq<Action<T>> :| Enableds(n, Init(n), acts) && Final(n, Init(n), acts) == s;
    InitInv<T>(n);
    RunInv(n, Init(n), acts);
  }

  /** `head_cache_ <= head_ <= tail_cache_ <= tail_ <= head_cache_ + N` on unbounded counters,
      and the four words are those counters wrapped. */
  lemma IndexOrder<T(!new)>(n: nat, s: State<T>)
    requires Reachable(n, s)
    ensures s.headCached <= s.Pops() <= s.tailCached <= s.Pushes() <= s.headCached + n
    ensures s.headCache == Wrap(s.headCached) && s.head[s.Pops()].word == Wrap(s.Pops())
    ensures s.tailCache == Wrap(s.tailCached) && s.tail[s.Pushes()].word == Wrap(s.Pushes())
  {
    ReachableInv(n, s);
  }

  /** The wrapping tests, differences and masks of the code give the unbounded answers, so the ring
      on 64-bit words behaves as the ring on unbounded counters over runs of any length. */
  lemma WordsRefineCounters<T(!new)>(n: nat, s: State<T>, k: nat)
    requires Reachable(n, s)
    ensures Shape(n, s)
    ensures s.headSeen <= k < |s.head| ==>
              (LooksFull(n, s.tail[s.Pushes()].word, s.head[k].word) <==> s.Pushes() + 1 - k > n)
    ensures s.tailSeen <= k < |s.tail| ==>
              (s.head[s.Pops()].word == s.tail[k].word <==> s.Pops() == k)
    ensures LooksFull(n, s.tail[s.Pushes()].word, s.headCache) <==> s.Pushes() + 1 - s.headCached > n
    ensures s.head[s.Pops()].word == s.tailCache <==> s.Pops() == s.tailCached
    ensures Wrap(s.tail[s.Pushes()].word - s.head[s.Pops()].word) == s.Pushes() - s.Pops()
    ensures Slot(s.tail[s.Pushes()].word, n) == Turn(s.Pushes(), n)
    ensures Slot(s.head[s.Pops()].word, n) == Turn(s.Pops(), n)
  {
    hide Wrap, BitAnd, Turn;
    ReachableInv(n, s);
    CapacityFits(n);
    WrapDifference(s.Pushes(), s.Pops());
    SlotOf(s.Pushes(), n);
    SlotOf(s.Pops(), n);
    FullTestIsExact(n, s.Pushes(), s.headCached);
    EmptyTestIsExact(n, s.Pops(), s.tailCached);
    if s.headSeen <= k < |s.head| {
      FullTestIsExact(n, s.Pushes(), k);
    }
    if s.tailSeen <= k < |s.tail| {
      EmptyTestIsExact(n, s.Pops(), k);
    }
  }

  /** The next access to the buffer conflicts with no access of the other thread that it does not
      happen after; a read takes the value of the push it belongs to, published before. */
  ghost predicate RaceFree<T>(n: nat, s: State<T>, a: Action<T>)
    requires Enabled(n, s, a)
  {
    match a
    case PushWrite =>
      forall i :: s.readsKnown <= i < |s.slotReads| ==> s.slotReads[i] != Slot(s.producer.tail, n)
    case PopRead =>
      && (forall i :: s.writesKnown <= i < |s.slotWrites| ==> s.slotWrites[i] != Slot(s.consumer.head, n))
      && 0 <= s.Pops() < s.writesKnown && s.Pops() < |s.pushed|
      && s.buffer[Slot(s.consumer.head, n)] == Holds(s.pushed[s.Pops()])
    case _ => true
  }

  lemma NoDataRace<T(!new)>(n: nat, s: State<T>, a: Action<T>)
    requires Reachable(n, s) && Enabled(n, s, a)
    ensures RaceFree(n, s, a)
  {
    hide Wrap, BitAnd, Turn;
    ReachableInv(n, s);
    if a.PushWrite? {
      SlotOf(s.Pushes(), n);
      forall i | s.readsKnown <= i < |s.slotReads|
        ensures s.slotReads[i] != Slot(s.producer.tail, n)
      {
        SlotsDiffer(i, s.Pushes(), n);
      }
    } else if a.PopRead? {
      SlotOf(s.Pops(), n);
      forall i | s.writesKnown <= i < |s.slotWrites|
        ensures s.slotWrites[i] != Slot(s.consumer.head, n)
      {
        SlotsDiffer(s.Pops(), i, n);
      }
    }
  }

  // ---------------------------------------------------------------- the bounded queue it implements

  /** The elements outstanding: pushed and published, not yet released by a pop. */
  ghost function Queue<T>(s: State<T>): seq<T>
    requires 0 <= s.Pops() <= |s.pushed|
  {
    s.pushed[s.Pops()..]
  }

  ghost function QueueAfter<T>(q: seq<T>, e: Event<T>): seq<T> {
    match e
    case Pushed(v) => q + [v]
    case Popped(_) => if q == [] then q else q[1..]
    case _ => q
  }

  /** What a FIFO queue of capacity `n` may answer; under `current`, failures are only allowed when
      the queue really is full or empty. */
  ghost predicate Legal<T>(n: nat, q: seq<T>, e: Event<T>, current: bool) {
    match e
    case Quiet => true
    case Pushed(_) => |q| < n
    case PushFull => current ==> |q| == n
    case Popped(c) => q != [] && c == Holds(q[0])
    case PopEmpty => current ==> q == []
    case Size(k) => k <= n
  }

  ghost predicate LegalAll<T>(n: nat, q: seq<T>, events: seq<Event<T>>, current: bool)
    decreases |events|
  {
    events == [] || (Legal(n, q, events[0], current) && LegalAll(n, QueueAfter(q, events[0]), events[1..], current))
  }

  ghost function QueueAfterAll<T>(q: seq<T>, events: seq<Event<T>>): seq<T>
    decreases |events|
  {
    if events == [] then q else QueueAfterAll(QueueAfter(q, events[0]), events[1..])
  }

  /** The refresh loads of this step return the current entry. */
  ghost predicate Current<T>(s: State<T>, a: Action<T>) {
    && (a.PushRefresh? ==> a.entry == s.Pops())
    && (a.PopRefresh? ==> a.entry == s.Pushes())
  }

  ghost predicate CurrentAll<T>(n: nat, s: State<T>, acts: seq<Action<T>>)
    requires Enableds(n, s, acts)
    decreases |acts|
  {
    acts == [] || (Current(s, acts[0]) && CurrentAll(n, Step(n, s, acts[0]).0, acts[1..]))
  }

  /** This step is a step of the bounded queue, or leaves it alone. */
  ghost predicate Refines<T>(n: nat, s: State<T>, a: Action<T>)
    requires Enabled(n, s, a)
  {
    var (s', e) := Step(n, s, a);
    && 0 <= s.Pops() <= |s.pushed| && 0 <= s'.Pops() <= |s'.pushed|
    && Legal(n, Queue(s), e, Current(s, a)) && Queue(s') == QueueAfter(Queue(s), e)
  }

  lemma BeginRefines<T>(n: nat, s: State<T>, a: Action<T>)
    requires Inv(n, s) && Enabled(n, s, a) && (a.PushBegin? || a.PopBegin?)
    ensures Refines(n, s, a)
  {
    hide Wrap, BitAnd, Turn, Counts, InTurn, Stored;
  }

  lemma WriteRefines<T>(n: nat, s: State<T>)
    requires Inv(n, s) && Enabled(n, s, PushWrite)
    ensures Refines(n, s, PushWrite)
  {
    hide Wrap, BitAnd, Turn, Counts, InTurn, Stored;
  }

  lemma ReadRefines<T>(n: nat, s: State<T>)
    requires Inv(n, s) && Enabled(n, s, PopRead)
    ensures Refines(n, s, PopRead)
  {
    hide Wrap, BitAnd, Turn, Counts, InTurn, Stored;
  }

  lemma PushRefreshRefines<T>(n: nat, s: State<T>, k: nat)
    requires Inv(n, s) && Enabled(n, s, PushRefresh(k))
    ensures Refines(n, s, PushRefresh(k))
  {
    hide Wrap, BitAnd, Turn, Counts, InTurn, Stored;
    EntryIs(s.head, k);
    FullTestIsExact(n, s.Pushes(), k);
  }

  lemma PopRefreshRefines<T>(n: nat, s: State<T>, k: nat)
    requires Inv(n, s) && Enabled(n, s, PopRefresh(k))
    ensures Refines(n, s, PopRefresh(k))
  {
    hide Wrap, BitAnd, Turn, Counts, InTurn, Stored;
    EntryIs(s.tail, k);
    EmptyTestIsExact(n, s.Pops(), k);
  }

  lemma PublishRefines<T>(n: nat, s: State<T>)
    requires Inv(n, s) && Enabled(n, s, PushPublish)
    ensures Refines(n, s, PushPublish)
  {
    hide Wrap, BitAnd, Turn, Counts, InTurn, Stored;
  }

  lemma ReleaseRefines<T>(n: nat, s: State<T>)
    requires Inv(n, s) && Enabled(n, s, PopRelease)
    ensures Refines(n, s, PopRelease)
  {
    hide Wrap, BitAnd, Turn, Counts, InTurn, Stored;
  }

  /** The producer's `size()` never under-counts, the consumer's never over-counts, and neither
      leaves `0..N`. */
  lemma SizeWithinBounds<T>(n: nat, s: State<T>, a: Action<T>)
    requires Inv(n, s) && Enabled(n, s, a)
    ensures var e := Step(n, s, a).1;
            && (a.ProducerSizeEnd? ==> e.Size? && |Queue(s)| <= e.size <= n)
            && (a.ConsumerSizeEnd? ==> e.Size? && e.size <= |Queue(s)| <= n)
  {
    hide Wrap, BitAnd, Turn, Counts, InTurn, Stored;
    CapacityFits(n);
    if a.ProducerSizeEnd? {
      WrapDifference(s.Pushes(), s.headSeen);
      EntryIs(s.tail, s.Pushes());
      assert Step(n, s, a).1 == Size(s.Pushes() - s.headSeen);
    } else if a.ConsumerSizeEnd? {
      WrapDifference(a.entry, s.Pops());
      EntryIs(s.tail, a.entry);
      assert Step(n, s, a).1 == Size(a.entry - s.Pops());
    }
  }

  lemma SizeStepsRefine<T>(n: nat, s: State<T>, a: Action<T>)
    requires Inv(n, s) && Enabled(n, s, a)
    requires a.ProducerSizeBegin? || a.ProducerSizeEnd? || a.ConsumerSizeBegin? || a.ConsumerSizeEnd?
    ensures Refines(n, s, a)
  {
    hide Wrap, BitAnd, Turn, Counts, InTurn, Stored;
    SizeWithinBounds(n, s, a);
  }

  /** Every step is a step of the bounded queue, or leaves it alone. */
  lemma StepRefines<T>(n: nat, s: State<T>, a: Action<T>)
    requires Inv(n, s) && Enabled(n, s, a)
    ensures Refines(n, s, a)
  {
    hide *;
    match a
    case PushBegin(_) => BeginRefines(n, s, a);
    case PushRefresh(k) => PushRefreshRefines(n, s, k);
    case PushWrite => WriteRefines(n, s);
    case PushPublish => PublishRefines(n, s);
    case PopBegin => BeginRefines(n, s, a);
    case PopRefresh(k) => PopRefreshRefines(n, s, k);
    case PopRead => ReadRefines(n, s);
    case PopRelease => ReleaseRefines(n, s);
    case _ => SizeStepsRefine(n, s, a);
  }

  lemma LegalWeaken<T>(n: nat, q: seq<T>, e: Event<T>, strong: bool, weak: bool)
    requires Legal(n, q, e, strong) && (weak ==> strong)
    ensures Legal(n, q, e, weak)
  {
  }

  lemma {:induction false} RunRefines<T>(n: nat, s: State<T>, acts: seq<Action<T>>, current: bool)
    requires Inv(n, s) && Enableds(n, s, acts)
    requires current ==> CurrentAll(n, s, acts)
    ensures Inv(n, Final(n, s, acts))
    ensures LegalAll(n, Queue(s), Events(n, s, acts), current)
    ensures QueueAfterAll(Queue(s), Events(n, s, acts)) == Queue(Final(n, s, acts))
    decreases |acts|
  {
    if acts != [] {
      var (s', e) := Step(n, s, acts[0]);
      StepInv(n, s, acts[0]);
      StepRefines(n, s, acts[0]);
      LegalWeaken(n, Queue(s), e, Current(s, acts[0]), current);
      RunRefines(n, s', acts[1..], current);
      assert Events(n, s, acts)[1..] == Events(n, s', acts[1..]);
    }
  }

  ghost function PushedBy<T>(e: Event<T>): seq<T> {
    if e.Pushed? then [e.value] else []
  }

  ghost function PoppedBy<T>(e: Event<T>): seq<T> {
    if e.Popped? && e.taken.Holds? then [e.taken.value] else []
  }

  ghost function PushedOf<T>(events: seq<Event<T>>): seq<T> {
    if events == [] then [] else PushedBy(events[0]) + PushedOf(events[1..])
  }

  ghost function PoppedOf<T>(events: seq<Event<T>>): seq<T> {
    if events == [] then [] else PoppedBy(events[0]) + PoppedOf(events[1..])
  }

  lemma StepConserves<T>(n: nat, q: seq<T>, e: Event<T>, current: bool)
    requires Legal(n, q, e, current)
    ensures q + PushedBy(e) == PoppedBy(e) + QueueAfter(q, e)
  {
  }

  lemma Regroup<T>(a: seq<T>, b: seq<T>, c: seq<T>)
    ensures (a + b) + c == a + (b + c)
  {
  }

  lemma {:induction false} QueueConserves<T>(n: nat, q: seq<T>, events: seq<Event<T>>, current: bool)
    requires LegalAll(n, q, events, current)
    ensures q + PushedOf(events) == PoppedOf(events) + QueueAfterAll(q, events)
    decreases |events|
  {
    if events != [] {
      var e, rest := events[0], events[1..];
      var q' := QueueAfter(q, e);
      hide LegalAll, Legal;
      Regroup(q, PushedBy(e), PushedOf(rest));
      Regroup(PoppedBy(e), q', PushedOf(rest));
      Regroup(PoppedBy(e), PoppedOf(rest), QueueAfterAll(q', rest));
      calc {
        q + PushedOf(events);
        (q + PushedBy(e)) + PushedOf(rest);
        { StepConserves(n, q, e, current); }
        (PoppedBy(e) + q') + PushedOf(rest);
        PoppedBy(e) + (q' + PushedOf(rest));
        { QueueConserves(n, q', rest, current); }
        PoppedBy(e) + (PoppedOf(rest) + QueueAfterAll(q', rest));
        PoppedOf(events) + QueueAfterAll(q, events);
      }
    }
  }

  // ---------------------------------------------------------------- calls and answers

  /** The arguments of the pushes begun, in order. */
  ghost function PushArguments<T>(acts: seq<Action<T>>): seq<T> {
    if acts == [] then [] else (if acts[0].PushBegin? then [acts[0].value] else []) + PushArguments(acts[1..])
  }

  /** The answers to pushes, in order. */
  ghost function PushAnswers<T>(events: seq<Event<T>>): seq<Event<T>> {
    if events == [] then [] else
      (if events[0].Pushed? || events[0].PushFull? then [events[0]] else []) + PushAnswers(events[1..])
  }

  /** The arguments of the calls that were not refused. */
  ghost function Accepted<T>(args: seq<T>, answers: seq<Event<T>>): seq<T>
    requires |answers| <= |args|
  {
    if answers == [] then [] else
      (if answers[0].Pushed? then [args[0]] else []) + Accepted(args[1..], answers[1..])
  }

  /** Each answer is to the call of the same number: a refusal, or its own argument pushed; and at most
      the last call is unanswered. */
  ghost predicate Answered<T>(args: seq<T>, answers: seq<Event<T>>) {
    && |answers| <= |args| <= |answers| + 1
    && forall i :: 0 <= i < |answers| ==> answers[i] == PushFull || answers[i] == Pushed(args[i])
  }

  /** The push under way. */
  ghost function UnderWay<T>(p: Producer<T>): seq<T> {
    match p
    case PRefresh(v, _) => [v]
    case PWrite(v, _) => [v]
    case PPublish(v, _) => [v]
    case _ => []
  }

  lemma StepAnswers<T>(n: nat, s: State<T>, a: Action<T>)
    requires Enabled(n, s, a)
    ensures var (s', e) := Step(n, s, a);
            if e.Pushed? || e.PushFull?
            then |UnderWay(s.producer)| == 1 && !a.PushBegin? && UnderWay(s'.producer) == []
                 && (e == PushFull || e == Pushed(UnderWay(s.producer)[0]))
            else UnderWay(s'.producer) == UnderWay(s.producer) + (if a.PushBegin? then [a.value] else [])
  {
    hide Wrap, BitAnd;
  }

  lemma AnswerInFront<T>(v: T, e: Event<T>, more: seq<T>, rest: seq<Event<T>>)
    requires Answered(more, rest) && (e == PushFull || e == Pushed(v))
    ensures Answered([v] + more, [e] + rest) && ([v] + more)[|rest| + 1..] == more[|rest|..]
  {
    var args, answers := [v] + more, [e] + rest;
    forall i | 0 <= i < |answers| ensures answers[i] == PushFull || answers[i] == Pushed(args[i]) {
      if i > 0 {
        assert answers[i] == rest[i - 1] && args[i] == more[i - 1];
      }
    }
  }

  /** An answer, or a step without one, in front of what is answered in order. */
  lemma AnswersCons<T>(under: seq<T>, begun: seq<T>, under': seq<T>, e: Event<T>, more: seq<T>, rest: seq<Event<T>>)
    requires Answered(under' + more, rest)
    requires if e.Pushed? || e.PushFull?
             then |under| == 1 && begun == [] && under' == [] && (e == PushFull || e == Pushed(under[0]))
             else under' == under + begun
    ensures var args, answers := under + (begun + more), (if e.Pushed? || e.PushFull? then [e] else []) + rest;
            Answered(args, answers) && args[|answers|..] == (under' + more)[|rest|..]
  {
    hide Answered;
    if e.Pushed? || e.PushFull? {
      assert under == [under[0]] && begun + more == more && under' + more == more;
      AnswerInFront(under[0], e, more, rest);
    } else {
      assert under + (begun + more) == under' + more && [] + rest == rest;
    }
  }

  lemma {:induction false} RunAnswers<T>(n: nat, s: State<T>, acts: seq<Action<T>>)
    requires Enableds(n, s, acts)
    ensures var args, answers := UnderWay(s.producer) + PushArguments(acts), PushAnswers(Events(n, s, acts));
            Answered(args, answers) && UnderWay(Final(n, s, acts).producer) == args[|answers|..]
    decreases |acts|
  {
    if acts != [] {
      var a := acts[0];
      var (s', e) := Step(n, s, a);
      StepAnswers(n, s, a);
      RunAnswers(n, s', acts[1..]);
      assert Events(n, s, acts)[1..] == Events(n, s', acts[1..]);
      hide Step, Enabled, Answered, UnderWay;
      AnswersCons(UnderWay(s.producer), if a.PushBegin? then [a.value] else [], UnderWay(s'.producer), e,
                  PushArguments(acts[1..]), PushAnswers(Events(n, s', acts[1..])));
    }
  }

  lemma {:induction false} AcceptedIsPushed<T>(args: seq<T>, events: seq<Event<T>>)
    requires |PushAnswers(events)| <= |args|
    requires forall i :: 0 <= i < |PushAnswers(events)| ==> PushAnswers(events)[i] == PushFull || PushAnswers(events)[i] == Pushed(args[i])
    ensures Accepted(args, PushAnswers(events)) == PushedOf(events)
    decreases |events|
  {
    if events != [] {
      var e, rest := events[0], PushAnswers(events[1..]);
      if e.Pushed? || e.PushFull? {
        assert PushAnswers(events) == [e] + rest && PushAnswers(events)[1..] == rest;
        forall i | 0 <= i < |rest| ensures rest[i] == PushFull || rest[i] == Pushed(args[1..][i]) {
          assert rest[i] == PushAnswers(events)[i + 1];
        }
        AcceptedIsPushed(args[1..], events[1..]);
      } else {
        assert PushAnswers(events) == rest && PushedOf(events) == PushedOf(events[1..]);
        AcceptedIsPushed(args, events[1..]);
      }
    }
  }

  /** Calls and answers. Over every run, and so at every moment of one, the pushes begun are answered one
      by one, at most the last being under way; each is refused or pushes its own argument. */
  lemma PushesAnswered<T>(n: nat, acts: seq<Action<T>>)
    requires Enableds(n, Init(n), acts)
    ensures Answered(PushArguments(acts), PushAnswers(Events(n, Init(n), acts)))
  {
    RunAnswers(n, Init(n), acts);
    assert [] + PushArguments(acts) == PushArguments(acts);
  }

  /** Pops begun, and answers to pops. */
  ghost function PopsBegun<T>(acts: seq<Action<T>>): nat {
    if acts == [] then 0 else (if acts[0].PopBegin? then 1 else 0) + PopsBegun(acts[1..])
  }

  ghost function PopAnswers<T>(events: seq<Event<T>>): nat {
    if events == [] then 0 else (if events[0].Popped? || events[0].PopEmpty? then 1 else 0) + PopAnswers(events[1..])
  }

  ghost function PopUnderWay<T>(c: Consumer<T>): nat {
    if c.CRefresh? || c.CRead? || c.CRelease? then 1 else 0
  }

  lemma StepPopAnswer<T>(n: nat, s: State<T>, a: Action<T>)
    requires Enabled(n, s, a)
    ensures var (s', e) := Step(n, s, a);
            PopUnderWay(s.consumer) + (if a.PopBegin? then 1 else 0) ==
            (if e.Popped? || e.PopEmpty? then 1 else 0) + PopUnderWay(s'.consumer)
  {
    hide Wrap, BitAnd;
  }

  lemma {:induction false} RunPopAnswers<T>(n: nat, s: State<T>, acts: seq<Action<T>>)
    requires Enableds(n, s, acts)
    ensures PopUnderWay(s.consumer) + PopsBegun(acts) == PopAnswers(Events(n, s, acts)) + PopUnderWay(Final(n, s, acts).consumer)
    decreases |acts|
  {
    if acts != [] {
      var (s', e) := Step(n, s, acts[0]);
      StepPopAnswer(n, s, acts[0]);
      hide Step, Enabled, PopUnderWay;
      RunPopAnswers(n, s', acts[1..]);
      assert Events(n, s, acts)[1..] == Events(n, s', acts[1..]);
    }
  }

  /** The pops begun are answered one by one too, at most the last being under way. */
  lemma PopsAnswered<T>(n: nat, acts: seq<Action<T>>)
    requires Enableds(n, Init(n), acts)
    ensures PopAnswers(Events(n, Init(n), acts)) <= PopsBegun(acts) <= PopAnswers(Events(n, Init(n), acts)) + 1
  {
    RunPopAnswers(n, Init(n), acts);
  }

  // ---------------------------------------------------------------- no thread waits for the other

  predicate ByProducer<T>(a: Action<T>) {
    a.PushBegin? || a.PushRefresh? || a.PushWrite? || a.PushPublish? || a.ProducerSizeBegin? || a.ProducerSizeEnd?
  }

  /** Steps a call has left at most. */
  function ProducerLeft<T>(p: Producer<T>): nat {
    match p
    case PIdle => 0
    case PRefresh(_, _) => 3
    case PWrite(_, _) => 2
    case PPublish(_, _) => 1
    case PSize(_) => 1
  }

  function ConsumerLeft<T>(c: Consumer<T>): nat {
    match c
    case CIdle => 0
    case CRefresh(_) => 3
    case CRead(_) => 2
    case CRelease(_, _) => 1
    case CSize(_) => 1
  }

  /** The producer never waits: it may begin a call whenever it is in none, a call always has a next step,
      whatever entry a load returns, and is over after four; no step of the consumer interferes. */
  lemma ProducerNeverWaits<T(!new)>(n: nat, s: State<T>, a: Action<T>, v: T, k: nat)
    requires Reachable(n, s)
    ensures s.producer.PIdle? ==> Enabled(n, s, PushBegin(v))
    ensures s.headSeen <= k <= s.Pops() ==>
              && (s.producer.PIdle? ==> Enabled(n, s, ProducerSizeBegin(k)))
              && (s.producer.PRefresh? ==> Enabled(n, s, PushRefresh(k)))
    ensures !s.producer.PIdle? ==> exists b :: ByProducer(b) && Enabled(n, s, b)
    ensures Enabled(n, s, a) ==>
              var p, p' := s.producer, Step(n, s, a).0.producer;
              if !ByProducer(a) then p' == p
              else if p.PIdle? then ProducerLeft(p') <= 3 else ProducerLeft(p') < ProducerLeft(p)
  {
    hide Wrap, BitAnd, Counts, InTurn, Stored;
    ReachableInv(n, s);
    assert s.producer.PRefresh? ==> Enabled(n, s, PushRefresh(s.Pops()));
    assert s.producer.PWrite? ==> Enabled(n, s, PushWrite);
    assert s.producer.PPublish? ==> Enabled(n, s, PushPublish);
    assert s.producer.PSize? ==> Enabled(n, s, ProducerSizeEnd);
  }

  /** Nor does the consumer. */
  lemma ConsumerNeverWaits<T(!new)>(n: nat, s: State<T>, a: Action<T>, k: nat)
    requires Reachable(n, s)
    ensures s.consumer.CIdle? ==> Enabled(n, s, PopBegin) && Enabled(n, s, ConsumerSizeBegin)
    ensures s.tailSeen <= k <= s.Pushes() ==>
              && (s.consumer.CRefresh? ==> Enabled(n, s, PopRefresh(k)))
              && (s.consumer.CSize? ==> Enabled(n, s, ConsumerSizeEnd(k)))
    ensures !s.consumer.CIdle? ==> exists b :: !ByProducer(b) && Enabled(n, s, b)
    ensures Enabled(n, s, a) ==>
              var c, c' := s.consumer, Step(n, s, a).0.consumer;
              if ByProducer(a) then c' == c
              else if c.CIdle? then ConsumerLeft(c') <= 3 else ConsumerLeft(c') < ConsumerLeft(c)
  {
    hide Wrap, BitAnd, Counts, InTurn, Stored;
    ReachableInv(n, s);
    assert s.consumer.CRefresh? ==> Enabled(n, s, PopRefresh(s.Pushes()));
    assert s.consumer.CRead? ==> Enabled(n, s, PopRead);
    assert s.consumer.CRelease? ==> Enabled(n, s, PopRelease);
    assert s.consumer.CSize? ==> Enabled(n, s, ConsumerSizeEnd(s.Pushes()));
  }

  // ---------------------------------------------------------------- linearizability

  /** Hence delivery: the arguments that were not refused are the values popped so far followed by those
      outstanding, in the order of the calls. */
  lemma Delivered<T>(n: nat, acts: seq<Action<T>>)
    requires Capacity(n) && Enableds(n, Init(n), acts)
    ensures var s, events := Final(n, Init(n), acts), Events(n, Init(n), acts);
            && |PushAnswers(events)| <= |PushArguments(acts)| && 0 <= s.Pops() <= |s.pushed|
            && Accepted(PushArguments(acts), PushAnswers(events)) == PoppedOf(events) + Queue(s)
  {
    PushesAnswered(n, acts);
    AcceptedIsPushed(PushArguments(acts), Events(n, Init(n), acts));
    Linearizable(n, acts, false);
  }

  /** Linearizability. Every interleaving answers as one FIFO queue of capacity `n` would, taking
      effect at the release stores; no value is lost, duplicated or reordered; and when the refresh
      loads are current, calls fail only on a full or an empty queue. */
  lemma Linearizable<T>(n: nat, acts: seq<Action<T>>, current: bool)
    requires Capacity(n) && Enableds(n, Init(n), acts)
    requires current ==> CurrentAll(n, Init(n), acts)
    ensures var s, events := Final(n, Init(n), acts), Events(n, Init(n), acts);
            && Shape(n, s) && s.Pops() <= |s.pushed|
            && LegalAll(n, [], events, current)
            && PushedOf(events) == PoppedOf(events) + Queue(s)
            && |Queue(s)| <= n
            && forall i :: Moved(s) <= i < |s.pushed| ==> s.buffer[Turn(i, n)] == Holds(s.pushed[i])
  {
    InitInv<T>(n);
    var s, events := Final(n, Init<T>(n), acts), Events(n, Init<T>(n), acts);
    RunRefines(n, Init<T>(n), acts, current);
    QueueConserves(n, [], events, current);
    assert [] + PushedOf(events) == PushedOf(events);
    forall i | Moved(s) <= i < |s.pushed|
      ensures s.buffer[Turn(i, n)] == Holds(s.pushed[i])
    {
      assert Written(s)[i] == s.pushed[i];
    }
  }

  /** Exactly when calls fail: when the refresh load returns the very entry already cached. The
      queue is full (empty) as well exactly if that entry is the current one. */
  lemma FailureExactly<T(!new)>(n: nat, s: State<T>, a: Action<T>)
    requires Reachable(n, s) && Enabled(n, s, a)
    ensures 0 <= s.Pops() <= |s.pushed|
    ensures Step(n, s, a).1 == PushFull <==> a.PushRefresh? && a.entry == s.headCached
    ensures Step(n, s, a).1 == PopEmpty <==> a.PopRefresh? && a.entry == s.tailCached
    ensures Step(n, s, a).1 == PushFull ==> (|Queue(s)| == n <==> a.entry == s.Pops())
    ensures Step(n, s, a).1 == PopEmpty ==> (|Queue(s)| == 0 <==> a.entry == s.Pushes())
  {
    hide Wrap, BitAnd, Turn;
    ReachableInv(n, s);
    if a.PushRefresh? {
      FullTestIsExact(n, s.Pushes(), a.entry);
    } else if a.PopRefresh? {
      EmptyTestIsExact(n, s.Pops(), a.entry);
    }
  }

  ghost predicate MayFail<T>(n: nat, s: State<T>, a: Action<T>, failure: Event<T>) {
    Enabled(n, s, a) && Step(n, s, a).1 == failure
  }

  /** Whether a push about to refresh can fail is settled by what the producer has read before: it can
      exactly if `n` elements are outstanding as far as the producer knows. */
  lemma PushMayFail<T(!new)>(n: nat, s: State<T>)
    requires Reachable(n, s) && s.producer.PRefresh?
    ensures (exists k :: MayFail(n, s, PushRefresh(k), PushFull)) <==> s.Pushes() - s.headSeen == n
  {
    hide Wrap, BitAnd, Turn;
    ReachableInv(n, s);
    if s.Pushes() - s.headSeen == n {
      FailureExactly(n, s, PushRefresh(s.headSeen));
      assert MayFail(n, s, PushRefresh(s.headSeen), PushFull);
    }
    forall k | MayFail(n, s, PushRefresh(k), PushFull) ensures s.Pushes() - s.headSeen == n {
      FailureExactly(n, s, PushRefresh(k));
    }
  }

  /** And a pop exactly if nothing is outstanding as far as the consumer knows. */
  lemma PopMayFail<T(!new)>(n: nat, s: State<T>)
    requires Reachable(n, s) && s.consumer.CRefresh?
    ensures (exists k :: MayFail(n, s, PopRefresh(k), PopEmpty)) <==> s.tailSeen == s.Pops()
  {
    hide Wrap, BitAnd, Turn;
    ReachableInv(n, s);
    if s.tailSeen == s.Pops() {
      FailureExactly(n, s, PopRefresh(s.tailSeen));
      assert MayFail(n, s, PopRefresh(s.tailSeen), PopEmpty);
    }
    forall k | MayFail(n, s, PopRefresh(k), PopEmpty) ensures s.tailSeen == s.Pops() {
      FailureExactly(n, s, PopRefresh(k));
    }
  }

  lemma KnownRoomStep<T(!new)>(n: nat, s: State<T>, a: Action<T>)
    requires Reachable(n, s) && Enabled(n, s, a) && s.Pushes() - s.headSeen < n && !a.PushPublish?
    ensures var (s', e) := Step(n, s, a); e != PushFull && s'.Pushes() - s'.headSeen < n
  {
    hide Wrap, BitAnd, Turn, Counts, InTurn, Stored;
    FailureExactly(n, s, a);
    ReachableInv(n, s);
  }

  /** The same before the call: it can come to fail exactly if `n` are outstanding as far as the producer
      knows. */
  lemma PushBeginMayFail<T(!new)>(n: nat, s: State<T>, v: T)
    requires Reachable(n, s) && s.producer.PIdle? && Enabled(n, s, PushBegin(v))
    ensures var s' := Step(n, s, PushBegin(v)).0;
            (exists k :: MayFail(n, s', PushRefresh(k), PushFull)) <==> s.Pushes() - s.headSeen == n
  {
    hide Wrap, BitAnd, Turn, Counts, InTurn, Stored, Reachable;
    var s' := Step(n, s, PushBegin(v)).0;
    ReachableInv(n, s);
    ReachableStep(n, s, PushBegin(v));
    EntryIs(s.tail, s.Pushes());
    FullTestIsExact(n, s.Pushes(), s.headCached);
    if s'.producer.PRefresh? {
      PushMayFail(n, s');
    }
  }

  lemma PopBeginMayFail<T(!new)>(n: nat, s: State<T>)
    requires Reachable(n, s) && s.consumer.CIdle? && Enabled(n, s, PopBegin)
    ensures var s' := Step(n, s, PopBegin).0;
            (exists k :: MayFail(n, s', PopRefresh(k), PopEmpty)) <==> s.tailSeen == s.Pops()
  {
    hide Wrap, BitAnd, Turn, Counts, InTurn, Stored, Reachable;
    var s' := Step(n, s, PopBegin).0;
    ReachableInv(n, s);
    ReachableStep(n, s, PopBegin);
    EntryIs(s.head, s.Pops());
    EmptyTestIsExact(n, s.Pops(), s.tailCached);
    if s'.consumer.CRefresh? {
      PopMayFail(n, s');
    }
  }

  /** Room the producer knows of stays: whatever the consumer does, the next push does not fail. Such
      knowledge comes from `size()`, which answers with just this difference (`SizeIsKnowledge`). */
  lemma {:induction false} KnownRoomSuffices<T(!new)>(n: nat, s: State<T>, acts: seq<Action<T>>)
    requires Reachable(n, s) && Enableds(n, s, acts)
    requires s.Pushes() - s.headSeen < n && PushPublish !in acts
    ensures PushFull !in Events(n, s, acts)
    decreases |acts|
  {
    if acts != [] {
      hide Reachable, Step, Enabled;
      assert acts[0] in acts;
      KnownRoomStep(n, s, acts[0]);
      ReachableStep(n, s, acts[0]);
      KnownRoomSuffices(n, Step(n, s, acts[0]).0, acts[1..]);
    }
  }

  lemma KnownStockStep<T(!new)>(n: nat, s: State<T>, a: Action<T>)
    requires Reachable(n, s) && Enabled(n, s, a) && s.Pops() < s.tailSeen && !a.PopRelease?
    ensures var (s', e) := Step(n, s, a); e != PopEmpty && s'.Pops() < s'.tailSeen
  {
    hide Wrap, BitAnd, Turn, Counts, InTurn, Stored;
    FailureExactly(n, s, a);
    ReachableInv(n, s);
  }

  /** Elements the consumer knows of stay: whatever the producer does, the next pop does not fail. */
  lemma {:induction false} KnownStockSuffices<T(!new)>(n: nat, s: State<T>, acts: seq<Action<T>>)
    requires Reachable(n, s) && Enableds(n, s, acts)
    requires s.Pops() < s.tailSeen && PopRelease !in acts
    ensures PopEmpty !in Events(n, s, acts)
    decreases |acts|
  {
    if acts != [] {
      hide Reachable, Step, Enabled;
      assert acts[0] in acts;
      KnownStockStep(n, s, acts[0]);
      ReachableStep(n, s, acts[0]);
      KnownStockSuffices(n, Step(n, s, acts[0]).0, acts[1..]);
    }
  }

  /** `size()` tells an endpoint what is outstanding as far as it knows by then. */
  lemma SizeIsKnowledge<T(!new)>(n: nat, s: State<T>, a: Action<T>)
    requires Reachable(n, s) && Enabled(n, s, a)
    ensures a.ProducerSizeEnd? ==> s.headSeen <= s.Pushes() && Step(n, s, a).1 == Size(s.Pushes() - s.headSeen)
    ensures a.ConsumerSizeEnd? ==>
              var s' := Step(n, s, a).0; s'.Pops() <= s'.tailSeen && Step(n, s, a).1 == Size(s'.tailSeen - s'.Pops())
  {
    hide Wrap, BitAnd, Turn, Counts, InTurn, Stored;
    ReachableInv(n, s);
    CapacityFits(n);
    if a.ProducerSizeEnd? {
      WrapDifference(s.Pushes(), s.headSeen);
      EntryIs(s.tail, s.Pushes());
    } else if a.ConsumerSizeEnd? {
      WrapDifference(a.entry, s.Pops());
      EntryIs(s.tail, a.entry);
    }
  }

  /** `empty()` compares the words that `size()` subtracts. With the head loaded first, as in `size()`:
      called by the producer, "empty" is always true; called by the consumer, "not empty" is. Likewise
      the producer's "not full" and the consumer's "full". */
  lemma EmptyFromEndpoints<T(!new)>(n: nat, s: State<T>, a: Action<T>)
    requires Reachable(n, s) && Enabled(n, s, a)
    ensures 0 <= s.Pops() <= |s.pushed|
    ensures a.ProducerSizeEnd? ==>
              && (s.producer.head == s.tail[s.Pushes()].word ==> Queue(s) == [])
              && (|Queue(s)| == n ==> Step(n, s, a).1 == Size(n))
    ensures a.ConsumerSizeEnd? ==>
              && (Queue(s) == [] ==> s.consumer.head == s.tail[a.entry].word)
              && (Step(n, s, a).1 == Size(n) ==> |Queue(s)| == n)
  {
    hide Wrap, BitAnd, Turn, Counts, InTurn, Stored;
    ReachableInv(n, s);
    SizeWithinBounds(n, s, a);
    if a.ProducerSizeEnd? {
      EmptyTestIsExact(n, s.headSeen, s.Pushes());
      EntryIs(s.tail, s.Pushes());
    } else if a.ConsumerSizeEnd? {
      EmptyTestIsExact(n, s.Pops(), a.entry);
      EntryIs(s.tail, a.entry);
    }
  }

  /** The operands of `==` may also be evaluated in the other order. An endpoint's own index does not move
      during its call, so at the moment it loads entry `k` of the other side's index both words are
      those compared, and the answer means the same. */
  lemma EmptyTailFirst<T(!new)>(n: nat, s: State<T>, k: nat)
    requires Reachable(n, s)
    ensures Shape(n, s) && 0 <= s.Pops() <= |s.pushed|
    ensures s.headSeen <= k < |s.head| && s.head[k].word == s.tail[s.Pushes()].word ==> Queue(s) == []
    ensures s.tailSeen <= k < |s.tail| && s.head[s.Pops()].word != s.tail[k].word ==> Queue(s) != []
  {
    hide Wrap, BitAnd, Turn, Counts, InTurn, Stored;
    ReachableInv(n, s);
    EntryIs(s.head, s.Pops());
    EntryIs(s.tail, s.Pushes());
    if s.headSeen <= k < |s.head| {
      EntryIs(s.head, k);
      EmptyTestIsExact(n, k, s.Pushes());
    }
    if s.tailSeen <= k < |s.tail| {
      EntryIs(s.tail, k);
      EmptyTestIsExact(n, s.Pops(), k);
    }
  }

  /** `size()` called by either endpoint stays in `0..N`, over-counting at most what the consumer and
      under-counting at most what the producer has done unseen. */
  lemma SizeInRange<T(!new)>(n: nat, s: State<T>, a: Action<T>)
    requires Reachable(n, s) && Enabled(n, s, a)
    ensures 0 <= s.Pops() <= |s.pushed|
    ensures a.ProducerSizeEnd? ==> exists k: nat :: Step(n, s, a).1 == Size(k) && |Queue(s)| <= k <= n
    ensures a.ConsumerSizeEnd? ==> exists k: nat :: Step(n, s, a).1 == Size(k) && k <= |Queue(s)| <= n
  {
    ReachableInv(n, s);
    SizeWithinBounds(n, s, a);
  }

  lemma {:induction false} RunAppend<T>(n: nat, s: State<T>, acts: seq<Action<T>>, a: Action<T>)
    requires Enableds(n, s, acts) && Enabled(n, Final(n, s, acts), a)
    ensures Enableds(n, s, acts + [a])
    ensures Final(n, s, acts + [a]) == Step(n, Final(n, s, acts), a).0
    decreases |acts|
  {
    if acts == [] {
      assert (acts + [a])[1..] == [];
    } else {
      RunAppend(n, Step(n, s, acts[0]).0, acts[1..], a);
      assert (acts + [a])[1..] == acts[1..] + [a];
    }
  }

  lemma ReachableStep<T(!new)>(n: nat, s: State<T>, a: Action<T>)
    requires Reachable(n, s) && Enabled(n, s, a)
    ensures Reachable(n, Step(n, s, a).0)
  {
    var acts: seq<Action<T>> :| Enableds(n, Init(n), acts) && Final(n, Init(n), acts) == s;
    RunAppend(n, Init(n), acts, a);
  }

  /** A stale refresh load makes `push` report a full ring although it is empty. */
  lemma StaleLoadFailsPush(x: int, y: int) returns (s: State<int>)
    ensures Reachable(1, s) && Enabled(1, s, PushRefresh(0))
    ensures Step(1, s, PushRefresh(0)).1 == PushFull
    ensures s.Pops() == |s.pushed| && Queue(s) == []
  {
    s := OnePushed(x);
    hide Reachable;
    s := Taken(s, PopBegin);
    s := Taken(s, PopRefresh(1));
    s := Taken(s, PopRead);
    assert s.slotReads == [0];
    s := Taken(s, PopRelease);
    assert s.head == [Store(0, 0), Store(1, 1)] && s.tail[1].word == 1;
    s := Taken(s, PushBegin(y));
    assert s.producer == PRefresh(y, 1);
  }

  /** A stale refresh load makes `pop` report an empty ring although it is full. */
  lemma StaleLoadFailsPop(x: int) returns (s: State<int>)
    ensures Reachable(1, s) && Enabled(1, s, PopRefresh(0))
    ensures Step(1, s, PopRefresh(0)).1 == PopEmpty
    ensures s.Pops() == 0 && Queue(s) == [x]
  {
    s := OnePushed(x);
    hide Reachable;
    s := Taken(s, PopBegin);
  }

  lemma OnePushed(x: int) returns (s: State<int>)
    ensures Reachable(1, s)
    ensures s == State([Holds(x)], [Store(0, 0)], [Store(0, 0), Store(1, 1)], 0, 0, PIdle, CIdle,
                       0, 0, 0, 0, [0], [], 0, 0, [x])
  {
    s := Init(1);
    assert Enableds<int>(1, s, []) && Final<int>(1, s, []) == s;
    hide Reachable;
    s := Taken(s, PushBegin(x));
    s := Taken(s, PushWrite);
    assert s.slotWrites == [0] && s.buffer == [Holds(x)];
    s := Taken(s, PushPublish);
  }

  lemma Taken(s: State<int>, a: Action<int>) returns (s': State<int>)
    requires Reachable(1, s) && Enabled(1, s, a)
    ensures s' == Step(1, s, a).0 && Reachable(1, s')
  {
    s' := Step(1, s, a).0;
    ReachableStep(1, s, a);
  }

  /** A producer about to write has room, whatever the consumer does meanwhile. */
  lemma Room<T(!new)>(n: nat, s: State<T>)
    requires Reachable(n, s) && s.producer.PWrite?
    ensures s.Pops() <= |s.pushed| && |Queue(s)| < n
  {
    ReachableInv(n, s);
  }

  /** A consumer about to read finds the oldest outstanding value, whatever the producer does. */
  lemma Stocked<T(!new)>(n: nat, s: State<T>)
    requires Reachable(n, s) && s.consumer.CRead?
    ensures Shape(n, s) && s.Pops() < |s.pushed|
    ensures Queue(s) != [] && s.buffer[Slot(s.consumer.head, n)] == Holds(Queue(s)[0])
  {
    ReachableInv(n, s);
    SlotOf(s.Pops(), n);
  }

  /** What the release store of a pop changes. */
  lemma ReleaseStep<T>(n: nat, s: State<T>)
    requires Enabled(n, s, PopRelease)
    ensures var (s', e) := Step(n, s, PopRelease);
            && s' == s.(head := s'.head, consumer := CIdle) && e == Popped(s.consumer.taken)
            && |s'.head| == |s.head| + 1 && s'.head[|s.head|].word == Wrap(s.consumer.head + 1)
  {
    hide Wrap;
  }

  lemma SeenIsPast<T>(n: nat, s: State<T>)
    requires Inv(n, s)
    ensures s.headSeen <= s.Pops() && s.tailSeen <= s.Pushes()
  {
  }

  // ---------------------------------------------------------------- the class, call by call

  /** The object itself, with calls that nothing interrupts: each body is a path of the machine. */
  class SpscRingBuffer<T(!new)> {
    const n: nat
    const buffer: array<Cell<T>>
    var head: nat
    var tail: nat
    var headCache: nat
    var tailCache: nat
    ghost var model: State<T>

    /** The fields are those of the model, which some run reaches. */
    ghost predicate Mirrors()
      reads this, buffer
    {
      && Reachable(n, model) && Shape(n, model)
      && model.buffer == buffer[..]
      && head == model.head[model.Pops()].word && tail == model.tail[model.Pushes()].word
      && headCache == model.headCache && tailCache == model.tailCache
      && 0 <= model.Pops() <= |model.pushed|
    }

    ghost predicate Valid()
      reads this, buffer
    {
      Mirrors() && model.producer.PIdle? && model.consumer.CIdle?
    }

    ghost function Contents(): seq<T>
      reads this, buffer
      requires Valid()
    {
      Queue(model)
    }

    constructor (n: nat)
      requires Capacity(n)
      ensures Valid() && this.n == n && Contents() == [] && fresh(buffer)
    {
      this.n := n;
      buffer := new Cell<T>[n](i => Raw);
      head, tail, headCache, tailCache := 0, 0, 0, 0;
      model := Init(n);
      new;
      assert Enableds(n, Init<T>(n), []) && Final(n, Init<T>(n), []) == model;
    }

    ghost method Take(a: Action<T>)
      requires Inv(n, model) && Reachable(n, model) && Enabled(n, model, a)
      modifies this`model
      ensures model == Step(n, old(model), a).0 && Reachable(n, model) && Inv(n, model)
      ensures model.headSeen <= model.Pops() <= |model.pushed| && model.tailSeen <= model.Pushes()
      ensures Queue(model) == QueueAfter(old(Queue(model)), Step(n, old(model), a).1)
    {
      ReachableStep(n, model, a);
      StepInv(n, model, a);
      StepRefines(n, model, a);
      model := Step(n, model, a).0;
    }

    /** `head_cache_` is refreshed and the test made again. */
    method RefreshHead(value: T) returns (ok: bool)
      requires Mirrors() && model.producer == PRefresh(value, tail) && model.consumer.CIdle?
      modifies this`headCache, this`model
      ensures Mirrors() && model.consumer.CIdle? && Queue(model) == old(Queue(model))
      ensures ok == (|Queue(model)| < n)
      ensures model.producer == if ok then PWrite(value, tail) else PIdle
    {
      hide Wrap, Reachable, Inv, BitAnd, Turn;
      ReachableInv(n, model);
      SeenIsPast(n, model);
      FailureExactly(n, model, PushRefresh(model.Pops()));
      headCache := head;
      Take(PushRefresh(model.Pops()));
      ok := !LooksFull(n, tail, headCache);
      if ok {
        Room(n, model);
      }
    }

    /** The checks at the start of `emplace`: the slot at `tail` is granted unless the ring is full. */
    method Reserve(value: T) returns (ok: bool)
      requires Valid()
      modifies this`headCache, this`model
      ensures Mirrors() && model.consumer.CIdle? && Queue(model) == old(Contents())
      ensures ok == (|old(Contents())| < n)
      ensures model.producer == if ok then PWrite(value, tail) else PIdle
    {
      hide Wrap, Reachable, Inv, BitAnd, Turn;
      ReachableInv(n, model);
      Take(PushBegin(value));
      ok := true;
      if LooksFull(n, tail, headCache) {
        ok := RefreshHead(value);
      } else {
        Room(n, model);
      }
    }

    method Emplace(value: T) returns (ok: bool)
      requires Valid()
      modifies this, buffer
      ensures Valid()
      ensures ok == (|old(Contents())| < n)
      ensures Contents() == if ok then old(Contents()) + [value] else old(Contents())
    {
      hide Wrap, Reachable, Inv, BitAnd, Turn;
      ok := Reserve(value);
      if ok {
        ReachableInv(n, model);
        buffer[Slot(tail, n)] := Holds(value);
        Take(PushWrite);
        tail := Wrap(tail + 1);
        Take(PushPublish);
      }
    }

    /** `tail_cache_` is refreshed and the test made again. */
    method RefreshTail() returns (ok: bool)
      requires Mirrors() && model.producer.PIdle? && model.consumer == CRefresh(head)
      modifies this`tailCache, this`model
      ensures Mirrors() && model.producer.PIdle? && Queue(model) == old(Queue(model))
      ensures ok == (Queue(model) != [])
      ensures model.consumer == if ok then CRead(head) else CIdle
    {
      hide Wrap, Reachable, Inv, BitAnd, Turn;
      ReachableInv(n, model);
      SeenIsPast(n, model);
      FailureExactly(n, model, PopRefresh(model.Pushes()));
      tailCache := tail;
      Take(PopRefresh(model.Pushes()));
      ok := head != tailCache;
      if ok {
        Stocked(n, model);
      }
    }

    /** The checks at the start of `pop`: the slot at `head` is granted unless the ring is empty. */
    method Await() returns (ok: bool)
      requires Valid()
      modifies this`tailCache, this`model
      ensures Mirrors() && model.producer.PIdle? && Queue(model) == old(Contents())
      ensures ok == (old(Contents()) != [])
      ensures model.consumer == if ok then CRead(head) else CIdle
    {
      hide Wrap, Reachable, Inv, BitAnd, Turn;
      ReachableInv(n, model);
      Take(PopBegin);
      ok := true;
      if head == tailCache {
        ok := RefreshTail();
      } else {
        Stocked(n, model);
      }
    }

    /** The slot at `head` is moved from. */
    method MoveFront() returns (out: Cell<T>)
      requires Mirrors() && model.producer.PIdle? && model.consumer == CRead(head)
      modifies this`model, buffer
      ensures Mirrors() && model.producer.PIdle? && model.consumer == CRelease(out, head)
      ensures Queue(model) == old(Queue(model)) != [] && out == Holds(Queue(model)[0])
    {
      hide Wrap, Reachable, Inv, BitAnd, Turn, Slot;
      ReachableInv(n, model);
      Stocked(n, model);
      out := buffer[Slot(head, n)];
      buffer[Slot(head, n)] := Raw;
      Take(PopRead);
    }

    /** And released. */
    method TakeFront() returns (out: Cell<T>)
      requires Mirrors() && model.producer.PIdle? && model.consumer == CRead(head)
      modifies this, buffer
      ensures Valid() && old(Queue(model)) != []
      ensures out == Holds(old(Queue(model))[0]) && Contents() == old(Queue(model))[1..]
    {
      hide Wrap, Reachable, Inv, BitAnd, Turn, Slot;
      out := MoveFront();
      ReachableInv(n, model);
      head := Wrap(head + 1);
      ReleaseStep(n, model);
      hide Step;
      Take(PopRelease);
    }

    method Pop() returns (out: Cell<T>)
      requires Valid()
      modifies this, buffer
      ensures Valid()
      ensures out == if old(Contents()) == [] then Raw else Holds(old(Contents())[0])
      ensures Contents() == if old(Contents()) == [] then [] else old(Contents())[1..]
    {
      hide Wrap, Reachable, Inv, BitAnd, Turn;
      out := Raw;
      var ok := Await();
      if ok {
        out := TakeFront();
      }
    }

    method Size() returns (size: nat)
      requires Valid()
      ensures size == |Contents()| && size <= n
    {
      hide Wrap, Reachable, BitAnd, Turn;
      ReachableInv(n, model);
      CapacityFits(n);
      WrapDifference(model.Pushes(), model.Pops());
      size := Wrap(tail - head);
    }

    method Full() returns (full: bool)
      requires Valid()
      ensures full <==> |Contents()| == n
    {
      var size := Size();
      full := size == n;
    }

    method Empty() returns (empty: bool)
      requires Valid()
      ensures empty <==> Contents() == []
    {
      ReachableInv(n, model);
      EmptyTestIsExact(n, model.Pops(), model.Pushes());
      empty := head == tail;
    }
  }
}
