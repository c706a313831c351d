/**
  The single-producer single-consumer ring buffer: every interleaving of the two threads' atomic steps,
  and the sequential queue.
 */
module RingBuffers {
  import Arithmetic
  import opened BitReversal
  import opened BitMasks
  import opened Sequences

  // ---------- Atomic steps ----------

  /**
    Where the producer is in push: between calls, after loading its index, after seeing room, after writing the
    slot.
   */
  datatype Producer<T> =
    Resting | Loaded(item: T, head: nat) | Cleared(item: T, head: nat) | Written(item: T, head: nat)

  /**
    Where the consumer is in pop: between calls, after loading its index, after seeing an element, after taking
    the slot.
   */
  datatype Consumer<T> = Waiting | HasTail(tail: nat) | Seen(tail: nat) | Taken(tail: nat, item: T)

  /** The shared buffer and indices, the two threads, and what each has completed. A moved-from slot holds None. */
  datatype State<T> = State(
    capacity: nat, buffer: seq<Option<T>>, head: nat, tail: nat,
    producer: Producer<T>, consumer: Consumer<T>, pushed: seq<T>, popped: seq<T>)

  datatype Step<T> = BeginPush(item: T) | LoadTail | WriteSlot | StoreHead | BeginPop | LoadHead | TakeSlot | StoreTail

  function Next(s: State, index: nat): nat
    requires s.capacity > 0
  {
    And(index + 1, s.capacity - 1)
  }

  /** What a step does; None when the thread is not at that point of its call, or the slot it needs is not there. */
  function Do<T>(s: State<T>, step: Step<T>): Option<State<T>>
    requires s.capacity > 0
  {
    match step
    case BeginPush(item) =>
      if s.producer.Resting? then Some(s.(producer := Loaded(item, s.head))) else None
    case LoadTail =>
      if !s.producer.Loaded? then None
      else if Next(s, s.producer.head) == s.tail then Some(s.(producer := Resting))
      else Some(s.(producer := Cleared(s.producer.item, s.producer.head)))
    case WriteSlot =>
      if !s.producer.Cleared? || s.producer.head >= |s.buffer| then None
      else Some(s.(buffer := s.buffer[s.producer.head := Some(s.producer.item)],
                   producer := Written(s.producer.item, s.producer.head)))
    case StoreHead =>
      if !s.producer.Written? then None
      else Some(s.(head := Next(s, s.producer.head), producer := Resting, pushed := s.pushed + [s.producer.item]))
    case BeginPop =>
      if s.consumer.Waiting? then Some(s.(consumer := HasTail(s.tail))) else None
    case LoadHead =>
      if !s.consumer.HasTail? then None
      else if s.consumer.tail == s.head then Some(s.(consumer := Waiting))
      else Some(s.(consumer := Seen(s.consumer.tail)))
    case TakeSlot =>
      if !s.consumer.Seen? || s.consumer.tail >= |s.buffer| || s.buffer[s.consumer.tail].None? then None
      else Some(s.(buffer := s.buffer[s.consumer.tail := None],
                   consumer := Taken(s.consumer.tail, s.buffer[s.consumer.tail].value)))
    case StoreTail =>
      if !s.consumer.Taken? then None
      else Some(s.(tail := Next(s, s.consumer.tail), consumer := Waiting, popped := s.popped + [s.consumer.item]))
  }

  ghost predicate Initial(s: State) {
    && IsPowerOfTwo(s.capacity) && |s.buffer| == s.capacity && s.head == s.tail == 0
    && s.producer.Resting? && s.consumer.Waiting? && s.pushed == s.popped == []
  }

  /** The state after the steps, where steps that are not possible change nothing. */
  function Run<T>(s: State<T>, steps: seq<Step<T>>): (r: State<T>)
    requires s.capacity > 0
    ensures r.capacity == s.capacity
  {
    var n := |steps|;
    if n == 0 then s
    else
      var before := Run(s, steps[..n - 1]);
      match Do(before, steps[n - 1])
      case None => before
      case Some(after) => after
  }

  // ---------- The invariant ----------

  /** The first element that is still in its slot. */
  function First(s: State): nat {
    |s.popped| + (if s.consumer.Taken? then 1 else 0)
  }

  /** The end of the elements in slots: a written slot counts before it is published. */
  function Last(s: State): nat {
    |s.pushed| + (if s.producer.Written? then 1 else 0)
  }

  function Element<T>(s: State<T>, i: nat): Option<T> {
    if i < |s.pushed| then Some(s.pushed[i])
    else if i == |s.pushed| && s.producer.Written? then Some(s.producer.item)
    else None
  }

  ghost predicate Shape(s: State) {
    && IsPowerOfTwo(s.capacity) && |s.buffer| == s.capacity
    && s.head == |s.pushed| % s.capacity && s.tail == |s.popped| % s.capacity
  }

  /** At most capacity - 1 elements are held, and what has been popped is what was pushed first. */
  ghost predicate Order<T(!new)>(s: State<T>) {
    && |s.popped| <= |s.pushed| && |s.pushed| - |s.popped| <= s.capacity - 1
    && s.popped <= s.pushed
  }

  ghost predicate Slots<T(!new)>(s: State<T>)
    requires s.capacity > 0
  {
    forall i: nat :: First(s) <= i < Last(s) ==>
      i % s.capacity < |s.buffer| && s.buffer[i % s.capacity] == Element(s, i)
  }

  ghost predicate ProducerAt<T(!new)>(s: State<T>) {
    match s.producer
    case Resting => true
    case Loaded(_, h) => h == s.head
    case Cleared(_, h) => h == s.head && |s.pushed| - |s.popped| < s.capacity - 1
    case Written(_, h) => h == s.head && |s.pushed| - |s.popped| < s.capacity - 1
  }

  ghost predicate ConsumerAt<T(!new)>(s: State<T>) {
    match s.consumer
    case Waiting => true
    case HasTail(t) => t == s.tail
    case Seen(t) => t == s.tail && |s.popped| < |s.pushed|
    case Taken(t, x) => t == s.tail && |s.popped| < |s.pushed| && x == s.pushed[|s.popped|]
  }

  ghost predicate Inv<T(!new)>(s: State<T>) {
    s.capacity > 0 && Shape(s) && Order(s) && Slots(s) && ProducerAt(s) && ConsumerAt(s)
  }

  lemma InitialInv<T(!new)>(s: State<T>)
    requires Initial(s)
    ensures Inv(s)
  {
    ZeroMod(s.capacity);
  }

  lemma ZeroMod(n: nat)
    requires n > 0
    ensures 0 % n == 0
  {
    Arithmetic.DivModUnique(0, n, 0, 0);
  }

  /** The next index, by mask, is the next number modulo the capacity. */
  lemma NextIs(s: State, n: nat)
    requires s.capacity > 0 && IsPowerOfTwo(s.capacity)
    ensures Next(s, n % s.capacity) == (n + 1) % s.capacity
  {
    hide And;
    var c := s.capacity;
    MaskOfPower(c, n % c + 1);
    NextRemainder(n, c);
  }

  lemma NextRemainder(n: nat, c: nat)
    requires c > 0
    ensures (n % c + 1) % c == (n + 1) % c
  {
    var q, r := n / c, n % c;
    assert n == q * c + r;
    if r + 1 < c {
      Arithmetic.DivModUnique(r + 1, c, 0, r + 1);
      Arithmetic.DivModUnique(n + 1, c, q, r + 1);
    } else {
      Arithmetic.DivModUnique(r + 1, c, 1, 0);
      Arithmetic.NextMultiple(q, c);
      Arithmetic.DivModUnique(n + 1, c, q + 1, 0);
    }
  }

  /** Two numbers less than c apart have different remainders. */
  lemma WindowDistinct(i: nat, j: nat, c: nat)
    requires i < j < i + c
    ensures i % c != j % c
  {
    if i % c == j % c {
      var e := j / c - i / c;
      assert j - i == c * e;
      Arithmetic.MulGrows(c, e);
    }
  }

  lemma RemainderBound(n: nat, c: nat)
    requires c > 0
    ensures n % c < c
  {}

  // ---------- Every step keeps the invariant ----------

  /** A producer about to write and a consumer about to take never address the same slot. */
  lemma NeverSameSlot<T(!new)>(s: State<T>)
    requires Inv(s) && s.producer.Cleared? && s.consumer.Seen?
    ensures s.producer.head != s.consumer.tail
  {
    WindowDistinct(|s.popped|, |s.pushed|, s.capacity);
  }

  /** push reports a full queue exactly when capacity - 1 elements are held, pop an empty one exactly when none is. */
  lemma ReportsAreExact<T(!new)>(s: State<T>)
    requires Inv(s)
    ensures s.producer.Loaded? ==>
              (Next(s, s.producer.head) == s.tail <==> |s.pushed| - |s.popped| == s.capacity - 1)
    ensures s.consumer.HasTail? ==> (s.consumer.tail == s.head <==> |s.pushed| == |s.popped|)
  {
    hide And, IsPowerOfTwo;
    var c := s.capacity;
    NextIs(s, |s.pushed|);
    if |s.pushed| + 1 == |s.popped| + c {
      Wraps(|s.popped|, c);
    } else if |s.popped| < |s.pushed| + 1 {
      WindowDistinct(|s.popped|, |s.pushed| + 1, c);
    }
    if |s.popped| < |s.pushed| {
      WindowDistinct(|s.popped|, |s.pushed|, c);
    }
  }

  /**
    What each step of a push does: it is refused exactly when capacity - 1 elements are held, and else appends
    its item.
   */
  lemma PushAnswers<T(!new)>(s: State<T>, x: T)
    requires Inv(s)
    ensures s.producer.Resting? ==> Do(s, BeginPush(x)) == Some(s.(producer := Loaded(x, s.head)))
    ensures s.producer.Loaded? ==>
              var full := |s.pushed| - |s.popped| == s.capacity - 1;
              Do(s, LoadTail) == Some(s.(producer := if full then Resting else Cleared(s.producer.item, s.head)))
    ensures s.producer.Cleared? ==>
              var r := Do(s, WriteSlot);
              r.Some? && r.value == s.(buffer := r.value.buffer, producer := Written(s.producer.item, s.head))
    ensures s.producer.Written? ==>
              var r := Do(s, StoreHead);
              && r.Some?
              && r.value == s.(head := r.value.head, producer := Resting, pushed := s.pushed + [s.producer.item])
  {
    hide And, IsPowerOfTwo, Slots;
    ReportsAreExact(s);
    RemainderBound(|s.pushed|, s.capacity);
  }

  /** What each step of a pop does: it reports empty exactly when nothing is held, and else takes the oldest element. */
  lemma PopAnswers<T(!new)>(s: State<T>)
    requires Inv(s)
    ensures s.consumer.Waiting? ==> Do(s, BeginPop) == Some(s.(consumer := HasTail(s.tail)))
    ensures s.consumer.HasTail? ==>
              var empty := |s.pushed| == |s.popped|;
              Do(s, LoadHead) == Some(s.(consumer := if empty then Waiting else Seen(s.tail)))
    ensures s.consumer.Seen? ==>
              var r := Do(s, TakeSlot);
              && |s.popped| < |s.pushed| && r.Some?
              && r.value == s.(buffer := r.value.buffer, consumer := Taken(s.tail, s.pushed[|s.popped|]))
    ensures s.consumer.Taken? ==>
              var r := Do(s, StoreTail);
              && |s.popped| < |s.pushed| && r.Some?
              && r.value == s.(tail := r.value.tail, consumer := Waiting, popped := s.popped + [s.pushed[|s.popped|]])
  {
    hide And, IsPowerOfTwo, Slots;
    ReportsAreExact(s);
    if s.consumer.Seen? {
      TakeKeeps(s);
      SlotHolds(s);
    }
  }

  lemma SlotHolds<T(!new)>(s: State<T>)
    requires Inv(s) && s.consumer.Seen?
    ensures s.consumer.tail < |s.buffer| && s.buffer[s.consumer.tail] == Some(s.pushed[|s.popped|])
  {
    hide And, IsPowerOfTwo;
    RemainderBound(|s.popped|, s.capacity);
    assert s.buffer[|s.popped| % s.capacity] == Element(s, |s.popped|);
  }

  lemma Wraps(n: nat, c: nat)
    requires c > 0
    ensures (n + c) % c == n % c
  {
    var q := n / c;
    Arithmetic.NextMultiple(q, c);
    Arithmetic.DivModUnique(n + c, c, q + 1, n % c);
  }

  lemma WriteKeeps<T(!new)>(s: State<T>)
    requires Inv(s) && s.producer.Cleared?
    ensures var r := Do(s, WriteSlot); r.Some? && Inv(r.value)
  {
    hide And, IsPowerOfTwo;
    var c, h := s.capacity, s.producer.head;
    RemainderBound(|s.pushed|, c);
    var r := Do(s, WriteSlot).value;
    forall i: nat | First(r) <= i < Last(r)
      ensures i % c < |r.buffer| && r.buffer[i % c] == Element(r, i)
    {
      RemainderBound(i, c);
      if i < |s.pushed| {
        WindowDistinct(i, |s.pushed|, c);
        assert s.buffer[i % c] == Element(s, i);
      }
    }
  }

  lemma TakeKeeps<T(!new)>(s: State<T>)
    requires Inv(s) && s.consumer.Seen?
    ensures var r := Do(s, TakeSlot); r.Some? && Inv(r.value)
  {
    hide And, IsPowerOfTwo;
    var c, t := s.capacity, |s.popped|;
    RemainderBound(t, c);
    assert s.buffer[t % c] == Element(s, t);
    var r := Do(s, TakeSlot).value;
    forall i: nat | First(r) <= i < Last(r)
      ensures i % c < |r.buffer| && r.buffer[i % c] == Element(r, i)
    {
      RemainderBound(i, c);
      WindowDistinct(t, i, c);
      assert s.buffer[i % c] == Element(s, i);
    }
  }

  lemma PublishKeeps<T(!new)>(s: State<T>)
    requires Inv(s)
    ensures s.producer.Written? ==> Inv(Do(s, StoreHead).value)
    ensures s.consumer.Taken? ==> Inv(Do(s, StoreTail).value)
  {
    hide And, IsPowerOfTwo;
    if s.producer.Written? {
      NextIs(s, |s.pushed|);
      var r := Do(s, StoreHead).value;
      forall i: nat | First(r) <= i < Last(r)
        ensures i % s.capacity < |r.buffer| && r.buffer[i % s.capacity] == Element(r, i)
      {
        assert Element(r, i) == Element(s, i);
      }
    }
    if s.consumer.Taken? {
      NextIs(s, |s.popped|);
      var r := Do(s, StoreTail).value;
      forall i: nat | First(r) <= i < Last(r)
        ensures i % s.capacity < |r.buffer| && r.buffer[i % s.capacity] == Element(r, i)
      {
        assert Element(r, i) == Element(s, i);
      }
    }
  }

  lemma LoadKeeps<T(!new)>(s: State<T>, step: Step<T>)
    requires Inv(s) && (step.BeginPush? || step.LoadTail? || step.BeginPop? || step.LoadHead?)
    ensures var r := Do(s, step); r.Some? ==> Inv(r.value)
  {
    hide And, IsPowerOfTwo, Next, Slots;
    ReportsAreExact(s);
    var r := Do(s, step);
    if r.Some? {
      SameSlots(s, r.value);
    }
  }

  lemma SameSlots<T(!new)>(s: State<T>, r: State<T>)
    requires s.capacity > 0 && Slots(s) && r.capacity == s.capacity && r.buffer == s.buffer
    requires r.pushed == s.pushed && First(r) == First(s) && Last(r) == Last(s)
    requires (!s.producer.Written? && !r.producer.Written?) || r.producer == s.producer
    ensures Slots(r)
  {
    forall i: nat | First(r) <= i < Last(r)
      ensures i % r.capacity < |r.buffer| && r.buffer[i % r.capacity] == Element(r, i)
    {
      assert Element(r, i) == Element(s, i);
    }
  }

  lemma StepKeeps<T(!new)>(s: State<T>, step: Step<T>)
    requires Inv(s)
    ensures var r := Do(s, step); r.Some? ==> Inv(r.value)
  {
    hide Inv, And;
    InvCapacity(s);
    match step
    case WriteSlot => if s.producer.Cleared? { WriteKeeps(s); }
    case TakeSlot => if s.consumer.Seen? { TakeKeeps(s); }
    case StoreHead => PublishKeeps(s);
    case StoreTail => PublishKeeps(s);
    case _ => LoadKeeps(s, step);
  }

  lemma InvCapacity<T(!new)>(s: State<T>)
    requires Inv(s)
    ensures s.capacity > 0
  {}

  /** Every interleaving: the popped elements are a prefix of the pushed ones, and at most capacity - 1 are held. */
  lemma {:induction false} EveryInterleaving<T(!new)>(s: State<T>, steps: seq<Step<T>>)
    requires Initial(s)
    ensures s.capacity > 0
    ensures var r := Run(s, steps); Inv(r) && r.popped <= r.pushed && |r.pushed| - |r.popped| <= s.capacity - 1
    decreases |steps|
  {
    InitialInv(s);
    if |steps| > 0 {
      EveryInterleaving(s, steps[..|steps| - 1]);
      StepKeeps(Run(s, steps[..|steps| - 1]), steps[|steps| - 1]);
    }
  }

  /** A thread in the middle of a call always has its next step: no slot it needs is ever missing. */
  lemma NeverStuck<T(!new)>(s: State<T>)
    requires Inv(s)
    ensures s.producer.Loaded? ==> Do(s, LoadTail).Some?
    ensures s.producer.Cleared? ==> Do(s, WriteSlot).Some?
    ensures s.producer.Written? ==> Do(s, StoreHead).Some?
    ensures s.consumer.HasTail? ==> Do(s, LoadHead).Some?
    ensures s.consumer.Seen? ==> Do(s, TakeSlot).Some?
    ensures s.consumer.Taken? ==> Do(s, StoreTail).Some?
  {
    hide Inv, Next;
    InvCapacity(s);
    if s.producer.Cleared? {
      WriteKeeps(s);
    }
    if s.consumer.Seen? {
      TakeKeeps(s);
    }
  }

  // ---------- The sequential queue ----------

  lemma {:induction false} Pow2Product(j: nat, k: nat)
    ensures Pow2(j + k) == Pow2(j) * Pow2(k)
    decreases j
  {
    if j > 0 {
      Pow2Product(j - 1, k);
      Twice(Pow2(j - 1), Pow2(k));
    }
  }

  lemma Twice(a: nat, b: nat)
    ensures 2 * (a * b) == (2 * a) * b
  {}

  /** Subtraction of indices wraps at 64 bits; the mask still yields the distance around the ring. */
  function Wrapped(head: nat, tail: nat): nat
    requires head < Pow2(64) && tail < Pow2(64)
  {
    if head >= tail then head - tail else head + Pow2(64) - tail
  }

  lemma WrappedDistance(k: nat, head: nat, tail: nat)
    requires k <= 64 && head < Pow2(k) && tail < Pow2(k)
    ensures head < Pow2(64) && tail < Pow2(64)
    ensures And(Wrapped(head, tail), Pow2(k) - 1) == if head >= tail then head - tail else head + Pow2(k) - tail
  {
    hide And, Pow2;
    var c, m := Pow2(k), Pow2(64 - k);
    Pow2Product(64 - k, k);
    Arithmetic.MulMono(1, m, c);
    MaskIsModulo(k, Wrapped(head, tail));
    if head >= tail {
      Arithmetic.DivModUnique(head - tail, c, 0, head - tail);
    } else {
      Arithmetic.NextMultiple(m - 1, c);
      Arithmetic.DivModUnique(head + Pow2(64) - tail, c, m - 1, head + c - tail);
    }
  }

  // ---------- Observers under interleaving ----------

  /** size(): the masked difference of a loaded head and a loaded tail. */
  function SizeOf(capacity: nat, head: nat, tail: nat): nat
    requires 0 < capacity <= Pow2(64) && head < capacity && tail < capacity
  {
    And(Wrapped(head, tail), capacity - 1)
  }

  lemma IntMod(x: int, c: nat, q: int, r: nat)
    requires x == c * q + r && r < c
    ensures x % c == r
  {
    var e := x / c - q;
    assert c * e == r - x % c;
    Arithmetic.MulGrows(c, e);
  }

  /** Masked subtraction is subtraction modulo the capacity, whichever number is larger. */
  lemma SizeIsDifference(capacity: nat, pushes: nat, pops: nat)
    requires IsPowerOfTwo(capacity) && capacity <= Pow2(64)
    requires pushes % capacity < capacity && pops % capacity < capacity
    ensures SizeOf(capacity, pushes % capacity, pops % capacity) == (pushes - pops) % capacity
  {
    hide And, Pow2, IsPowerOfTwo, Wrapped;
    var k := TestFindsPower(capacity);
    WithinWord(k);
    var a, b, h, t := pushes / capacity, pops / capacity, pushes % capacity, pops % capacity;
    WrappedDistance(k, h, t);
    assert pushes == capacity * a + h && pops == capacity * b + t;
    assert capacity * (a - b) == capacity * a - capacity * b;
    if h >= t {
      IntMod(pushes - pops, capacity, a - b, h - t);
    } else {
      assert capacity * (a - b - 1) == capacity * (a - b) - capacity;
      IntMod(pushes - pops, capacity, a - b - 1, h + capacity - t);
    }
  }

  /** k - d leaves k modulo c exactly when d is a multiple of c. */
  lemma ShiftedMod(k: nat, d: nat, c: nat)
    requires k < c
    ensures (k - d) % c == k <==> d % c == 0
  {
    var q, e := d / c, d % c;
    assert d == c * q + e;
    if e == 0 {
      assert c * -q == -(c * q);
      IntMod(k - d, c, -q, k);
    }
    if (k - d) % c == k {
      var p := (k - d) / c;
      assert d == c * -p;
      IntMod(d, c, -p, 0);
    }
  }

  lemma RunNext<T(!new)>(s: State<T>, steps: seq<Step<T>>, step: Step<T>)
    requires s.capacity > 0
    ensures var before := Run(s, steps);
            Run(s, steps + [step]) == match Do(before, step) case None => before case Some(after) => after
  {
    assert (steps + [step])[..|steps|] == steps;
  }

  lemma DoGrows<T(!new)>(s: State<T>, step: Step<T>)
    requires s.capacity > 0
    ensures var r := Do(s, step); r.Some? ==> |s.pushed| <= |r.value.pushed| && |s.popped| <= |r.value.popped|
  {
    hide And;
  }

  /** Nothing completed is taken back. */
  lemma {:induction false} CompletedGrow<T(!new)>(s: State<T>, a: seq<Step<T>>, b: seq<Step<T>>)
    requires s.capacity > 0
    ensures var (s1, s2) := (Run(s, a), Run(s, a + b)); |s1.pushed| <= |s2.pushed| && |s1.popped| <= |s2.popped|
    decreases |b|
  {
    hide And, Do, Run;
    if |b| == 0 {
      assert a + b == a;
    } else {
      var front := b[..|b| - 1];
      CompletedGrow(s, a, front);
      DoGrows(Run(s, a + front), b[|b| - 1]);
      assert a + b == a + front + [b[|b| - 1]];
      RunNext(s, a + front, b[|b| - 1]);
    }
  }

  /**
    What an observed size n says, when it loads head after some pushes and pops and tail after more.  It is the
    number of elements held when head was loaded exactly when the pops completed in between are a multiple of the
    capacity, none at least when the consumer itself asks; it is the number held when tail was loaded exactly when
    the pushes completed in between are one, none at least when the producer asks.  It is pushes less pops, and so
    at most either of the two, exactly when nothing pushed in between was popped in between.
   */
  ghost predicate Tells(capacity: nat, n: nat, pushes1: nat, pops1: nat, pushes2: nat, pops2: nat)
    requires capacity > 0
  {
    && (n == pushes1 - pops1 <==> (pops2 - pops1) % capacity == 0)
    && (n == pushes2 - pops2 <==> (pushes2 - pushes1) % capacity == 0)
    && (n == pushes1 - pops2 <==> pops2 <= pushes1)
  }

  /** An observer that loads head after the steps a and tail after the further steps b, in any interleaving. */
  lemma ObservedSize<T(!new)>(s: State<T>, a: seq<Step<T>>, b: seq<Step<T>>)
    requires Initial(s) && s.capacity <= Pow2(64)
    ensures s.capacity > 0 && Run(s, a).head < s.capacity && Run(s, a + b).tail < s.capacity
    ensures var (s1, s2, c) := (Run(s, a), Run(s, a + b), s.capacity);
            && |s1.pushed| <= |s2.pushed| && |s1.popped| <= |s2.popped|
            && Tells(c, SizeOf(c, s1.head, s2.tail), |s1.pushed|, |s1.popped|, |s2.pushed|, |s2.popped|)
  {
    hide And, Pow2, IsPowerOfTwo, SizeOf, Run, Tells, Initial;
    RunFacts(s, a);
    RunFacts(s, a + b);
    var s1, s2 := Run(s, a), Run(s, a + b);
    CompletedGrow(s, a, b);
    SizeIsDifference(s.capacity, |s1.pushed|, |s2.popped|);
    DifferenceMod(s.capacity, |s1.pushed|, |s1.popped|, |s2.pushed|, |s2.popped|);
  }

  lemma RunFacts<T(!new)>(s: State<T>, steps: seq<Step<T>>)
    requires Initial(s)
    ensures var (r, c) := (Run(s, steps), s.capacity);
            && c > 0 && IsPowerOfTwo(c)
            && r.head == |r.pushed| % c < c && r.tail == |r.popped| % c < c
            && |r.popped| <= |r.pushed| < |r.popped| + c
  {
    hide And, IsPowerOfTwo, Slots, ProducerAt, ConsumerAt, Run;
    EveryInterleaving(s, steps);
    var r := Run(s, steps);
    RemainderBound(|r.pushed|, s.capacity);
    RemainderBound(|r.popped|, s.capacity);
  }

  lemma DifferenceMod(c: nat, pushes1: nat, pops1: nat, pushes2: nat, pops2: nat)
    requires pops1 <= pushes1 < pops1 + c && pops2 <= pushes2 < pops2 + c && pushes1 <= pushes2 && pops1 <= pops2
    ensures Tells(c, (pushes1 - pops2) % c, pushes1, pops1, pushes2, pops2)
  {
    ShiftedMod(pushes1 - pops1, pops2 - pops1, c);
    ShiftedMod(pushes2 - pops2, pushes2 - pushes1, c);
    if pops2 <= pushes1 {
      IntMod(pushes1 - pops2, c, 0, pushes1 - pops2);
    }
  }

  /** empty() and full() compare the same two loads: they say that the observed size is 0, or the capacity less one. */
  lemma ObservedTests(s: State, head: nat, tail: nat)
    requires IsPowerOfTwo(s.capacity) && s.capacity <= Pow2(64) && head < s.capacity && tail < s.capacity
    ensures head == tail <==> SizeOf(s.capacity, head, tail) == 0
    ensures Next(s, head) == tail <==> SizeOf(s.capacity, head, tail) == s.capacity - 1
  {
    hide And, Pow2, IsPowerOfTwo, Wrapped;
    var k := TestFindsPower(s.capacity);
    WithinWord(k);
    WrappedDistance(k, head, tail);
    MaskOfPower(s.capacity, head + 1);
    if head + 1 < s.capacity {
      Arithmetic.DivModUnique(head + 1, s.capacity, 0, head + 1);
    } else {
      Arithmetic.DivModUnique(head + 1, s.capacity, 1, 0);
    }
  }

  /** The steps of one push and one pop, in full. */
  function OnePushOnePop<T>(item: T): seq<Step<T>> {
    [BeginPush(item), LoadTail, WriteSlot, StoreHead, BeginPop, LoadHead, TakeSlot, StoreTail]
  }

  /** On an empty queue, with one push and one pop between the two loads, size() answers capacity - 1. */
  lemma EmptySeemsFull<T(!new)>(s: State<T>, item: T)
    requires Initial(s) && 2 <= s.capacity <= Pow2(64)
    ensures var after := Run(s, OnePushOnePop(item));
            && |after.pushed| == |after.popped| == 1
            && after.tail < s.capacity && SizeOf(s.capacity, s.head, after.tail) == s.capacity - 1
  {
    hide And, Pow2, IsPowerOfTwo, Run, SizeOf;
    NextIs(s, 0);
    ZeroMod(s.capacity);
    Arithmetic.DivModUnique(1, s.capacity, 0, 1);
    RunOfNothing(s);
    PushHalf(s, item);
    var before := [BeginPush(item), LoadTail, WriteSlot, StoreHead];
    RunNext(s, before, BeginPop);
    RunNext(s, before + [BeginPop], LoadHead);
    RunNext(s, before + [BeginPop] + [LoadHead], TakeSlot);
    RunNext(s, before + [BeginPop] + [LoadHead] + [TakeSlot], StoreTail);
    assert OnePushOnePop(item) == before + [BeginPop] + [LoadHead] + [TakeSlot] + [StoreTail];
    SizeIsDifference(s.capacity, 0, 1);
    IntMod(-1, s.capacity, -1, s.capacity - 1);
  }

  lemma RunOfNothing<T(!new)>(s: State<T>)
    requires s.capacity > 0
    ensures Run(s, []) == s
  {}

  lemma PushHalf<T(!new)>(s: State<T>, item: T)
    requires Initial(s) && s.capacity >= 2 && Next(s, 0) == 1
    ensures var r := Run(s, [BeginPush(item), LoadTail, WriteSlot, StoreHead]);
            r == s.(buffer := s.buffer[0 := Some(item)], head := 1, pushed := [item])
  {
    hide And, IsPowerOfTwo, Run;
    var none: seq<Step<T>> := [];
    RunOfNothing(s);
    RunNext(s, none, BeginPush(item));
    RunNext(s, none + [BeginPush(item)], LoadTail);
    RunNext(s, none + [BeginPush(item)] + [LoadTail], WriteSlot);
    RunNext(s, none + [BeginPush(item)] + [LoadTail] + [WriteSlot], StoreHead);
    assert none + [BeginPush(item)] + [LoadTail] + [WriteSlot] + [StoreHead] ==
           [BeginPush(item), LoadTail, WriteSlot, StoreHead];
  }

  // ---------- The queue of one thread ----------

  class RingBuffer<T(0)> {
    const capacity: nat
    const buffer: array<T>
    var head: nat
    var tail: nat

    ghost predicate Valid()
      reads this
    {
      && IsPowerOfTwo(capacity) && buffer.Length == capacity <= Pow2(64)
      && head < capacity && tail < capacity
    }

    function Count(): (n: nat)
      requires Valid()
      reads this
      ensures n < capacity
    {
      if head >= tail then head - tail else head + capacity - tail
    }

    /** The elements held, oldest first. */
    ghost function Contents(): (q: seq<T>)
      requires Valid()
      reads this, buffer
      ensures |q| == Count()
    {
      if head >= tail then buffer[tail..head] else buffer[tail..] + buffer[..head]
    }

    constructor (capacity: nat)
      requires IsPowerOfTwo(capacity) && capacity <= Pow2(64)
      ensures Valid() && fresh(buffer) && this.capacity == capacity && Contents() == []
    {
      hide And, Pow2;
      this.capacity := capacity;
      buffer := new T[capacity];
      head, tail := 0, 0;
    }

    lemma NextIndex(index: nat)
      requires Valid() && index < capacity
      ensures And(index + 1, capacity - 1) == if index + 1 < capacity then index + 1 else 0
    {
      hide And;
      MaskOfPower(capacity, index + 1);
      if index + 1 < capacity {
        Arithmetic.DivModUnique(index + 1, capacity, 0, index + 1);
      } else {
        Arithmetic.DivModUnique(index + 1, capacity, 1, 0);
      }
    }

    method Push(item: T) returns (ok: bool)
      requires Valid()
      modifies this`head, buffer
      ensures Valid()
      ensures ok <==> |old(Contents())| < capacity - 1
      ensures Contents() == if ok then old(Contents()) + [item] else old(Contents())
    {
      hide And, Pow2, IsPowerOfTwo;
      NextIndex(head);
      var nextHead := And(head + 1, capacity - 1);
      if nextHead == tail {
        return false;
      }
      buffer[head] := item;
      head := nextHead;
      ok := true;
    }

    method Pop() returns (item: Option<T>)
      requires Valid()
      modifies this`tail
      ensures Valid()
      ensures item.None? <==> old(Contents()) == []
      ensures Contents() == if item.None? then old(Contents()) else old(Contents())[1..]
      ensures item.Some? ==> item.value == old(Contents())[0]
    {
      hide And, Pow2, IsPowerOfTwo;
      if tail == head {
        return None;
      }
      item := Some(buffer[tail]);
      NextIndex(tail);
      tail := And(tail + 1, capacity - 1);
    }

    method IsEmpty() returns (b: bool)
      requires Valid()
      ensures b <==> Contents() == []
    {
      b := head == tail;
    }

    method IsFull() returns (b: bool)
      requires Valid()
      ensures b <==> |Contents()| == capacity - 1
    {
      hide And, Pow2, IsPowerOfTwo;
      NextIndex(head);
      b := And(head + 1, capacity - 1) == tail;
    }

    method Size() returns (n: nat)
      requires Valid()
      ensures n == |Contents()|
    {
      hide And, Pow2, IsPowerOfTwo;
      ghost var k := TestFindsPower(capacity);
      WithinWord(k);
      WrappedDistance(k, head, tail);
      n := SizeOf(capacity, head, tail);
    }
  }

  lemma WithinWord(k: nat)
    requires Pow2(k) <= Pow2(64)
    ensures k <= 64
  {
    hide Pow2;
    if k > 64 {
      Pow2Product(k - 64, 64);
      AtLeastTwo(k - 64);
      Arithmetic.MulMono(2, Pow2(k - 64), Pow2(64));
    }
  }

  lemma AtLeastTwo(j: nat)
    requires j > 0
    ensures Pow2(j) >= 2
  {}
}
