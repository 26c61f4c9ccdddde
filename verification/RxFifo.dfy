/** When the capture thread keeps delivery order. It does in every run in which poll comes
    back only because a frame waits; one failed or spurious poll can already swap frames. */
module RxFifo {
  import opened Words
  import opened Pcap
  import opened RxRing

  /** What poll may do besides returning because a frame waits: fail, or return with
      nothing to read. */
  datatype Policy = Policy(mayFail: bool, maySpurious: bool)

  predicate FramePending(s: State) {
    exists i :: 0 <= i < |s.slots| && IsUser(s.slots[i].status)
  }

  predicate Allowed(p: Policy, s: State, e: Event) {
    e.User? && s.pc.Poll? ==>
      if e.poll < 0 then p.mayFail else FramePending(s) || p.maySpurious
  }

  predicate Obeys(p: Policy, c: Config, s: State, es: seq<Event>)
    requires Shaped(c, s)
    decreases |es|
  {
    es != [] ==> Allowed(p, s, es[0]) && Obeys(p, c, Step(c, s, es[0]), es[1..])
  }

  const STRICT := Policy(false, false)

  ghost predicate InOrder(s: State) {
    s.stored <= s.delivered
  }

  /** Every run of this ring under this policy stores frames in delivery order. */
  ghost predicate AlwaysInOrder(c: Config, p: Policy) {
    forall file, es :: Obeys(p, c, Init(c, file), es) ==> InOrder(Run(c, file, es))
  }

  // ---------------------------------------------------------------- the invariant

  function Wrap(x: nat, n: nat): (r: nat)
    requires x < n + n
    ensures r < n
  {
    if x < n then x else x - n
  }

  /** The j-th slot from the thread's position on. */
  function From(s: State, j: nat): Slot
    requires s.index < |s.slots| && j < |s.slots|
  {
    s.slots[Wrap(s.index + j, |s.slots|)]
  }

  /** The k slots from the thread's position on hold the k latest deliveries, oldest first,
      and the others are the kernel's. */
  ghost predicate Holds(c: Config, s: State, k: nat)
    requires Shaped(c, s) && k <= c.frameNr && k <= |s.delivered|
  {
    && (forall j :: 0 <= j < k ==> IsUser(From(s, j).status) && From(s, j).frame == s.delivered[|s.delivered| - k + j])
    && (forall j :: k <= j < c.frameNr ==> From(s, j).status == TP_STATUS_KERNEL)
  }

  /** The k filled slots are one cyclic run that starts at the thread's position and ends
      at the kernel's; they hold the k latest deliveries, oldest first, and everything
      delivered before them is stored. */
  ghost predicate Queue(c: Config, s: State, k: nat) {
    var n, d := c.frameNr, |s.delivered|;
    && Shaped(c, s) && k <= n && k <= d
    && s.head == (if k == n then s.index else Wrap(s.index + k, n))
    && Holds(c, s, k)
    && (s.pc.Store? || s.pc.Release? || (s.pc.Check? && 1 < n) ==> 1 <= k)
    && s.stored == s.delivered[..d - k + (if s.pc.Release? then 1 else 0)]
  }

  lemma QueueKernel(c: Config, s: State, k: nat, frame: Frame, status: UserStatus) returns (k': nat)
    requires Queue(c, s, k)
    ensures Queue(c, KernelStep(c, s, frame, status), k')
  {
    if k == c.frameNr {
      assert From(s, 0) == s.slots[s.head];
      k' := k;
    } else {
      QueueFills(c, s, k, frame, status);
      k' := k + 1;
    }
  }

  lemma FillsAt(c: Config, s: State, k: nat, frame: Frame, status: UserStatus)
    requires Shaped(c, s) && k < c.frameNr && s.head == Wrap(s.index + k, c.frameNr)
    requires From(s, k).status == TP_STATUS_KERNEL
    ensures var n, r := c.frameNr, KernelStep(c, s, frame, status);
            && r == s.(slots := r.slots, head := r.head, delivered := s.delivered + [frame])
            && r.head == (if k + 1 == n then s.index else Wrap(s.index + k + 1, n))
            && From(r, k) == Slot(status, frame)
            && forall j :: 0 <= j < n && j != k ==> From(r, j) == From(s, j)
  {
  }

  lemma QueueFills(c: Config, s: State, k: nat, frame: Frame, status: UserStatus)
    requires Queue(c, s, k) && k < c.frameNr
    ensures Queue(c, KernelStep(c, s, frame, status), k + 1)
  {
    FillsAt(c, s, k, frame, status);
    hide KernelStep, From;
    QueueGrows(c, s, k, KernelStep(c, s, frame, status), frame, status);
  }

  /** The queue invariant after a fill, from what FillsAt says of it. */
  lemma QueueGrows(c: Config, s: State, k: nat, r: State, frame: Frame, status: UserStatus)
    requires Queue(c, s, k) && k < c.frameNr && Shaped(c, r)
    requires r == s.(slots := r.slots, head := r.head, delivered := s.delivered + [frame])
    requires r.head == (if k + 1 == c.frameNr then s.index else Wrap(s.index + k + 1, c.frameNr))
    requires From(r, k) == Slot(status, frame)
    requires forall j :: 0 <= j < c.frameNr && j != k ==> From(r, j) == From(s, j)
    ensures Queue(c, r, k + 1)
  {
    HoldsMore(c, s, k, r, frame, status);
    hide From, Wrap, Holds;
    var m := |s.delivered| - k + (if s.pc.Release? then 1 else 0);
    assert r.delivered[..m] == s.delivered[..m];
  }

  lemma HoldsMore(c: Config, s: State, k: nat, r: State, frame: Frame, status: UserStatus)
    requires Shaped(c, s) && k < c.frameNr && k <= |s.delivered| && Holds(c, s, k) && Shaped(c, r)
    requires r.delivered == s.delivered + [frame]
    requires From(r, k) == Slot(status, frame)
    requires forall j :: 0 <= j < c.frameNr && j != k ==> From(r, j) == From(s, j)
    ensures Holds(c, r, k + 1)
  {
    hide From, Wrap;
    var d := |s.delivered|;
    assert r.delivered[d] == frame;
    assert forall i :: 0 <= i < d ==> r.delivered[i] == s.delivered[i];
  }

  /** The slot at the thread's position leaves the queue. */
  lemma QueueRelease(c: Config, s: State, k: nat)
    requires Queue(c, s, k) && s.pc.Release?
    ensures 1 <= k && Queue(c, UserStep(c, s, 0, 0), k - 1)
  {
    var n, r := c.frameNr, UserStep(c, s, 0, 0);
    ReleaseShifts(c, s);
    hide UserStep, From;
    assert Holds(c, r, k - 1);
    hide Holds;
  }

  lemma ReleaseShifts(c: Config, s: State)
    requires Shaped(c, s) && s.pc.Release?
    ensures var n, r := c.frameNr, UserStep(c, s, 0, 0);
            && r == s.(slots := r.slots, index := Next(s.index, n), pc := Top)
            && forall j :: 0 <= j < n ==>
                 From(r, j) == if j == n - 1 then From(s, 0).(status := TP_STATUS_KERNEL) else From(s, j + 1)
  {
  }

  /** Steps that leave ring and position alone keep the queue, as long as the history and
      the thread's place fit it. */
  lemma QueueStays(c: Config, s: State, r: State, k: nat)
    requires Queue(c, s, k) && Shaped(c, r)
    requires r.slots == s.slots && r.head == s.head && r.index == s.index && r.delivered == s.delivered
    requires r.pc.Store? || r.pc.Release? || (r.pc.Check? && 1 < c.frameNr) ==> 1 <= k
    requires r.stored == s.delivered[..|s.delivered| - k + (if r.pc.Release? then 1 else 0)]
    ensures Queue(c, r, k)
  {
    HoldsStill(c, s, r, k);
    hide Holds;
  }

  lemma HoldsStill(c: Config, s: State, r: State, k: nat)
    requires Shaped(c, s) && Shaped(c, r) && k <= c.frameNr && k <= |s.delivered| && Holds(c, s, k)
    requires r.slots == s.slots && r.index == s.index && r.delivered == s.delivered
    ensures Holds(c, r, k)
  {
    assert forall j :: 0 <= j < c.frameNr ==> From(r, j) == From(s, j);
    hide From;
  }

  lemma QueueStore(c: Config, s: State, k: nat, taken: nat)
    requires Queue(c, s, k) && s.pc.Store?
    ensures Queue(c, UserStep(c, s, 0, taken), k)
  {
    hide EncodeRecord;
    var d, r := |s.delivered|, UserStep(c, s, 0, taken);
    assert From(s, 0) == s.slots[s.index];
    assert r.stored == s.delivered[..d - k + 1];
    QueueStays(c, s, r, k);
  }

  /** Testing the status and polling move the thread only past a slot with no frame,
      which under this policy can be none but the only slot of the ring. */
  lemma QueueTest(c: Config, s: State, k: nat, p: Policy, poll: int)
    requires Queue(c, s, k) && (s.pc.Top? || s.pc.Poll? || s.pc.Check?)
    requires Allowed(p, s, User(poll, 0))
    requires p == STRICT || c.frameNr == 1
    ensures Queue(c, UserStep(c, s, poll, 0), k)
  {
    assert From(s, 0) == s.slots[s.index];
    if s.pc.Poll? && 1 < c.frameNr {
      PendingMeansHere(c, s, k);
    }
    TestMoves(c, s, k, p, poll);
    hide UserStep, From, Allowed;
    QueueStays(c, s, UserStep(c, s, poll, 0), k);
  }

  lemma TestMoves(c: Config, s: State, k: nat, p: Policy, poll: int)
    requires Shaped(c, s) && (s.pc.Top? || s.pc.Poll? || s.pc.Check?)
    requires Allowed(p, s, User(poll, 0))
    requires p == STRICT || c.frameNr == 1
    requires 1 <= k ==> IsUser(s.slots[s.index].status)
    requires k == 0 ==> s.slots[s.index].status == TP_STATUS_KERNEL
    requires (s.pc.Check? || s.pc.Poll?) && 1 < c.frameNr ==> 1 <= k
    ensures var r := UserStep(c, s, poll, 0);
            && r == s.(pc := r.pc)
            && (r.pc.Top? || r.pc.Poll? || r.pc.Check? || r.pc.Store?)
            && (r.pc.Store? || (r.pc.Check? && 1 < c.frameNr) ==> 1 <= k)
  {
    hide EncodeRecord, FramePending;
  }

  lemma QueueUser(c: Config, s: State, k: nat, p: Policy, poll: int, taken: nat) returns (k': nat)
    requires Queue(c, s, k)
    requires Allowed(p, s, User(poll, taken))
    requires p == STRICT || c.frameNr == 1
    ensures Queue(c, UserStep(c, s, poll, taken), k')
  {
    hide EncodeRecord, Queue;
    k' := k;
    if s.pc.Release? {
      QueueRelease(c, s, k);
      k' := k - 1;
    } else if s.pc.Store? {
      QueueStore(c, s, k, taken);
    } else {
      QueueTest(c, s, k, p, poll);
    }
  }

  /** If any frame waits, one waits in the slot the thread looks at. */
  lemma PendingMeansHere(c: Config, s: State, k: nat)
    requires Queue(c, s, k) && FramePending(s)
    ensures 1 <= k
  {
    var i :| 0 <= i < |s.slots| && IsUser(s.slots[i].status);
    var j := if s.index <= i then i - s.index else i + c.frameNr - s.index;
    assert From(s, j) == s.slots[i];
  }

  lemma QueueInit(c: Config, file: seq<byte>)
    ensures Queue(c, Init(c, file), 0)
  {
  }

  lemma {:induction false} QueueRun(c: Config, p: Policy, s: State, k: nat, es: seq<Event>) returns (k': nat)
    requires Queue(c, s, k) && Obeys(p, c, s, es)
    requires p == STRICT || c.frameNr == 1
    ensures Queue(c, RunFrom(c, s, es), k')
    decreases |es|
  {
    k' := k;
    if es != [] {
      match es[0] {
        case Deliver(frame, status) => k' := QueueKernel(c, s, k, frame, status);
        case User(poll, taken) => k' := QueueUser(c, s, k, p, poll, taken);
      }
      hide Queue, KernelStep, UserStep;
      k' := QueueRun(c, p, Step(c, s, es[0]), k', es[1..]);
    }
  }

  /** First in, first out: when poll returns only because a frame waits, the stored frames
      are the delivered ones in delivery order, none lost or doubled, at most one ring
      of them still to come. */
  lemma Fifo(c: Config, file: seq<byte>, es: seq<Event>)
    requires Obeys(STRICT, c, Init(c, file), es)
    ensures var s := Run(c, file, es);
            && s.stored <= s.delivered
            && |s.delivered| - |s.stored| <= c.frameNr
            && exists k :: Queue(c, s, k)
  {
    QueueInit(c, file);
    var k := QueueRun(c, STRICT, Init(c, file), 0, es);
  }

  // ---------------------------------------------------------------- exactly when

  lemma Unroll(p: Policy, c: Config, s: State, e: Event, es: seq<Event>)
    requires Shaped(c, s)
    ensures RunFrom(c, s, [e] + es) == RunFrom(c, Step(c, s, e), es)
    ensures Obeys(p, c, s, [e] + es) <==> Allowed(p, s, e) && Obeys(p, c, Step(c, s, e), es)
  {
    hide Step;
    assert ([e] + es)[1..] == es && ([e] + es)[0] == e;
  }

  const GO := User(0, 0)

  /** The thread passes an empty slot; both ways of doing so leave it at the next one. */
  function Skip(poll: int, es: seq<Event>): seq<Event> {
    [GO] + ([User(poll, 0)] + if poll < 0 then es else [GO] + es)
  }

  lemma Skips(p: Policy, c: Config, file: seq<byte>, poll: int, es: seq<Event>)
    requires 2 <= c.frameNr
    requires if poll < 0 then p.mayFail else p.maySpurious
    ensures var s, r := Init(c, file), Init(c, file).(index := 1);
            && RunFrom(c, s, Skip(poll, es)) == RunFrom(c, r, es)
            && (Obeys(p, c, s, Skip(poll, es)) <==> Obeys(p, c, r, es))
  {
    hide RunFrom, Obeys, EncodeRecord;
    var s := Init(c, file);
    var rest := if poll < 0 then es else [GO] + es;
    Unroll(p, c, s, GO, [User(poll, 0)] + rest);
    var s1 := s.(pc := Poll);
    assert Step(c, s, GO) == s1;
    Unroll(p, c, s1, User(poll, 0), rest);
    if 0 <= poll {
      var s2 := s.(pc := Check);
      assert Step(c, s1, User(poll, 0)) == s2;
      Unroll(p, c, s2, GO, es);
    }
  }

  /** Two frames arrive behind a thread that has just passed the first one's slot. */
  function Overtaking(first: Frame, second: Frame): seq<Event> {
    [Deliver(first, TP_STATUS_USER)] + ([Deliver(second, TP_STATUS_USER)] + ([GO] + ([GO] + ([GO] + []))))
  }

  lemma Overtakes(p: Policy, c: Config, file: seq<byte>, first: Frame, second: Frame)
    requires 2 <= c.frameNr
    ensures var r := Init(c, file).(index := 1);
            var es := Overtaking(first, second);
            && Obeys(p, c, r, es)
            && RunFrom(c, r, es).delivered == [first, second] && RunFrom(c, r, es).stored == [second]
  {
    hide EncodeRecord;
    var n, s := c.frameNr, Init(c, file).(index := 1);
    var s1 := Step(c, s, Deliver(first, TP_STATUS_USER));
    var s2 := Step(c, s1, Deliver(second, TP_STATUS_USER));
    assert s2.slots[1] == Slot(TP_STATUS_USER, second) && s2.delivered == [first, second] && s2.pc.Top? && s2.stored == [];
    var s3 := Step(c, s2, GO);
    var s4 := Step(c, s3, GO);
    var s5 := Step(c, s4, GO);
    assert s3.pc.Check? && s4.pc.Store? && s5.stored == [second];
    hide Step, RunFrom, Obeys;
    Unroll(p, c, s4, GO, []);
    Unroll(p, c, s3, GO, [GO] + []);
    Unroll(p, c, s2, GO, [GO] + ([GO] + []));
    Unroll(p, c, s1, Deliver(second, TP_STATUS_USER), [GO] + ([GO] + ([GO] + [])));
    Unroll(p, c, s, Deliver(first, TP_STATUS_USER), [Deliver(second, TP_STATUS_USER)] + ([GO] + ([GO] + ([GO] + []))));
    Finish(p, c, s5);
  }

  lemma Finish(p: Policy, c: Config, s: State)
    requires Shaped(c, s)
    ensures RunFrom(c, s, []) == s && Obeys(p, c, s, [])
  {
  }

  /** Delivery order is kept in every run exactly when the ring has a single slot or poll
      neither fails nor returns early. */
  lemma FifoExactly(c: Config, p: Policy)
    ensures AlwaysInOrder(c, p) <==> c.frameNr == 1 || p == STRICT
  {
    if c.frameNr == 1 || p == STRICT {
      forall file, es | Obeys(p, c, Init(c, file), es)
        ensures InOrder(Run(c, file, es))
      {
        QueueInit(c, file);
        var k := QueueRun(c, p, Init(c, file), 0, es);
        QueueInOrder(c, Run(c, file, es), k);
      }
    } else {
      hide Obeys, RunFrom;
      var first, second := RawFrame.Frame(1, 1, 0, 0, [0]), RawFrame.Frame(1, 1, 0, 0, [1]);
      var poll := if p.mayFail then -1 else 0;
      Overtakes(p, c, [], first, second);
      Skips(p, c, [], poll, Overtaking(first, second));
      var es := Skip(poll, Overtaking(first, second));
      assert Obeys(p, c, Init(c, []), es);
      assert Run(c, [], es).stored[0] != Run(c, [], es).delivered[0];
      assert !InOrder(Run(c, [], es));
    }
  }

  lemma QueueInOrder(c: Config, s: State, k: nat)
    requires Queue(c, s, k)
    ensures InOrder(s)
  {
  }

  // ---------------------------------------------------------------- progress

  function Rank(pc: Pc): nat {
    match pc case Top => 4 case Poll => 4 case Check => 3 case Store => 2 case Release => 1
  }

  /** While a frame waits, each step of the thread brings it nearer to storing one. */
  lemma Approaches(c: Config, s: State, k: nat)
    requires Queue(c, s, k) && 1 <= k
    ensures Allowed(STRICT, s, GO)
    ensures var r := UserStep(c, s, 0, 0);
            && r.delivered == s.delivered
            && if s.pc.Release? then Queue(c, r, k - 1) && r.pc.Top? else Queue(c, r, k) && Rank(r.pc) < Rank(s.pc)
  {
    hide EncodeRecord;
    assert From(s, 0) == s.slots[s.index];
    assert FramePending(s);
    if s.pc.Release? {
      QueueRelease(c, s, k);
    } else if s.pc.Store? {
      QueueStore(c, s, k, 0);
    } else {
      QueueTest(c, s, k, STRICT, 0);
    }
  }

  lemma {:induction false} DrainsQueue(c: Config, s: State, k: nat) returns (es: seq<Event>)
    requires Queue(c, s, k)
    ensures Obeys(STRICT, c, s, es)
    ensures forall i :: 0 <= i < |es| ==> es[i] == GO
    ensures RunFrom(c, s, es).stored == RunFrom(c, s, es).delivered == s.delivered
    ensures |es| <= 4 * k
    ensures 1 <= k ==> |es| <= 4 * (k - 1) + Rank(s.pc)
    decreases k, Rank(s.pc)
  {
    es := [];
    if 1 <= k {
      Approaches(c, s, k);
      assert Shaped(c, s);
      hide Queue, UserStep, RunFrom, Obeys;
      var rest := DrainsQueue(c, UserStep(c, s, 0, 0), if s.pc.Release? then k - 1 else k);
      Unroll(STRICT, c, s, GO, rest);
      es := [GO] + rest;
    }
  }

  /** From any state of such a run, at most four steps of the thread per slot, and none of
      the kernel, store every frame that was delivered. */
  lemma Drains(c: Config, file: seq<byte>, es: seq<Event>) returns (more: seq<Event>)
    requires Obeys(STRICT, c, Init(c, file), es)
    ensures Obeys(STRICT, c, Run(c, file, es), more)
    ensures forall i :: 0 <= i < |more| ==> more[i] == GO
    ensures |more| <= 4 * c.frameNr
    ensures Run(c, file, es + more).stored == Run(c, file, es + more).delivered == Run(c, file, es).delivered
  {
    QueueInit(c, file);
    var k := QueueRun(c, STRICT, Init(c, file), 0, es);
    more := DrainsQueue(c, Run(c, file, es), k);
    RunConcat(c, Init(c, file), es, more);
  }
}
