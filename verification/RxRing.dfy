/** The receive ring. The kernel fills frame slots in cyclic order; the capture thread
    walks the same slots, copies each filled one into the pcap file and hands it back.
    Slots change owner only through tp_status, as the Linux kernel document
    Documentation/networking/packet_mmap describes. A run is any interleaving of kernel
    deliveries with the single steps of the capture thread. */
module RxRing {
  import opened Words
  import opened Pcap
  import Bits

  const TP_STATUS_KERNEL: nat := 0
  const TP_STATUS_USER: nat := 1

  /** The lowest bit gives the slot to the thread, whatever other bits the kernel sets. */
  predicate IsUser(status: nat) {
    status % 2 == TP_STATUS_USER
  }

  /** ... which is what masking with TP_STATUS_USER tests. */
  lemma IsUserExactly(status: nat)
    ensures IsUser(status) <==> Bits.And(status, 1) == 1
  {
    Bits.LowBit(status);
  }

  /** A frame as the kernel stores it: at least tp_snaplen bytes follow tp_mac. */
  datatype RawFrame = Frame(len: u32, snaplen: u32, sec: u32, usec: u32, data: seq<byte>)
  type Frame = f: RawFrame | 1 <= f.snaplen <= |f.data| witness RawFrame.Frame(1, 1, 0, 0, [0])
  type UserStatus = s: nat | IsUser(s) witness TP_STATUS_USER

  datatype Slot = Slot(status: nat, frame: Frame)

  /** Where the capture thread is: about to test the status (line 49), in poll (line 50),
      about to test the status again (line 54), about to copy (line 57), about to hand
      the slot back (line 69). */
  datatype Pc = Top | Poll | Check | Store | Release

  /** recording says whether pcap_fd > 0. */
  datatype RawConfig = Config(frameNr: nat, frameSize: u32, recording: bool)
  type Config = c: RawConfig | 1 <= c.frameNr && 1 <= c.frameSize witness RawConfig.Config(8, 2048, true)

  /** delivered, stored and order are histories: the frames the kernel delivered, the
      frames the thread copied, and for each copied frame its delivery number. */
  datatype State = State(
    slots: seq<Slot>, head: nat, index: nat, pc: Pc, file: seq<byte>,
    delivered: seq<Frame>, stored: seq<Frame>, order: seq<int>)

  datatype Event =
    | Deliver(frame: Frame, status: UserStatus)
    | User(poll: int, taken: nat)

  predicate Shaped(c: Config, s: State) {
    |s.slots| == c.frameNr && s.head < c.frameNr && s.index < c.frameNr
  }

  function Next(i: nat, n: nat): (r: nat)
    requires i < n
    ensures r < n
  {
    if i + 1 == n then 0 else i + 1
  }

  /** How many deliveries ago the kernel last passed slot i. */
  function Behind(i: nat, head: nat, n: nat): (t: nat)
    requires i < n && head < n
    ensures 1 <= t <= n
  {
    if i < head then head - i else head + n - i
  }

  /** The slot the kernel passed t deliveries ago. */
  function Back(t: nat, head: nat, n: nat): (i: nat)
    requires 1 <= t <= n && head < n
    ensures i < n && Behind(i, head, n) == t
  {
    if t <= head then head - t else head + n - t
  }

  /** The delivery number of the frame in slot i, if it holds one. */
  function Number(s: State, i: nat): int
    requires i < |s.slots| && s.head < |s.slots|
  {
    |s.delivered| - Behind(i, s.head, |s.slots|)
  }

  function CapturedBytes(f: Frame, c: Config): (p: seq<byte>)
    ensures 1 <= |p| <= c.frameSize
    ensures p <= f.data && |p| == Min(f.snaplen, c.frameSize)
  {
    f.data[..Min(f.snaplen, c.frameSize)]
  }

  function RecordOf(f: Frame, c: Config): Record {
    Record(f.sec, f.usec, f.len, CapturedBytes(f, c))
  }

  function RecordsOf(fs: seq<Frame>, c: Config): (rs: seq<Record>)
    ensures |rs| == |fs|
    ensures forall k :: 0 <= k < |fs| ==> rs[k] == RecordOf(fs[k], c)
  {
    seq(|fs|, k requires 0 <= k < |fs| => RecordOf(fs[k], c))
  }

  // ---------------------------------------------------------------- steps

  function Advance(s: State): State
    requires s.index < |s.slots|
  {
    s.(index := Next(s.index, |s.slots|), pc := Top)
  }

  function UserStep(c: Config, s: State, poll: int, taken: nat): (r: State)
    requires Shaped(c, s)
    ensures Shaped(c, r)
  {
    var slot := s.slots[s.index];
    match s.pc
    case Top => s.(pc := if slot.status == TP_STATUS_KERNEL then Poll else Check)
    case Poll => if poll < 0 then Advance(s) else s.(pc := Check)
    case Check => if IsUser(slot.status) then s.(pc := Store) else Advance(s)
    case Store =>
      var record := EncodeRecord(RecordOf(slot.frame, c));
      s.(pc := Release,
         file := if c.recording then s.file + record[..Min(taken, |record|)] else s.file,
         stored := s.stored + [slot.frame],
         order := s.order + [Number(s, s.index)])
    case Release => Advance(s.(slots := s.slots[s.index := slot.(status := TP_STATUS_KERNEL)]))
  }

  /** The kernel drops the frame when its next slot is still in the thread's hands. */
  function KernelStep(c: Config, s: State, frame: Frame, status: UserStatus): (r: State)
    requires Shaped(c, s)
    ensures Shaped(c, r)
  {
    if s.slots[s.head].status != TP_STATUS_KERNEL then s
    else s.(slots := s.slots[s.head := Slot(status, frame)],
            head := Next(s.head, c.frameNr),
            delivered := s.delivered + [frame])
  }

  function Step(c: Config, s: State, e: Event): (r: State)
    requires Shaped(c, s)
    ensures Shaped(c, r)
  {
    match e
    case Deliver(frame, status) => KernelStep(c, s, frame, status)
    case User(poll, taken) => UserStep(c, s, poll, taken)
  }

  function Init(c: Config, file: seq<byte>): (s: State)
    ensures Shaped(c, s)
  {
    var blank := Slot(TP_STATUS_KERNEL, RawFrame.Frame(1, 1, 0, 0, [0]));
    State(seq(c.frameNr, _ => blank), 0, 0, Top, file, [], [], [])
  }

  function RunFrom(c: Config, s: State, es: seq<Event>): (r: State)
    requires Shaped(c, s)
    ensures Shaped(c, r)
    decreases |es|
  {
    if es == [] then s else RunFrom(c, Step(c, s, es[0]), es[1..])
  }

  function Run(c: Config, file: seq<byte>, es: seq<Event>): (s: State)
    ensures Shaped(c, s)
  {
    RunFrom(c, Init(c, file), es)
  }

  lemma {:induction false} RunConcat(c: Config, s: State, es: seq<Event>, fs: seq<Event>)
    requires Shaped(c, s)
    ensures RunFrom(c, s, es + fs) == RunFrom(c, RunFrom(c, s, es), fs)
    decreases |es|
  {
    hide Step;
    if es == [] {
      assert es + fs == fs;
    } else {
      RunConcat(c, Step(c, s, es[0]), es[1..], fs);
      assert (es + fs)[1..] == es[1..] + fs && (es + fs)[0] == es[0];
    }
  }

  // ------------------------------------------------------- conservation, any poll results

  /** Slot i holds a frame that has not been copied yet. */
  predicate Waiting(s: State, i: nat)
    requires i < |s.slots|
  {
    IsUser(s.slots[i].status) && !(s.pc.Release? && i == s.index)
  }

  /** Delivery x waits in the slot the kernel put it in. */
  predicate Waits(s: State, x: int)
    requires s.head < |s.slots|
  {
    var t := |s.delivered| - x;
    1 <= t <= |s.slots| && Waiting(s, Back(t, s.head, |s.slots|))
  }

  /** A slot out of the kernel's hands holds the frame its position says; the thread
      copies and returns only such slots. */
  ghost predicate Owned(c: Config, s: State) {
    && Shaped(c, s)
    && (forall i :: 0 <= i < c.frameNr ==>
          s.slots[i].status == TP_STATUS_KERNEL || (IsUser(s.slots[i].status) && 0 <= Number(s, i) && s.slots[i].frame == s.delivered[Number(s, i)]))
    && (s.pc.Store? || s.pc.Release? ==> IsUser(s.slots[s.index].status))
  }

  /** Every delivery is either copied, once, or waiting. */
  ghost predicate Logged(c: Config, s: State) {
    && Shaped(c, s)
    && |s.order| == |s.stored|
    && (forall u :: 0 <= u < |s.order| ==> 0 <= s.order[u] < |s.delivered| && s.stored[u] == s.delivered[s.order[u]])
    && (forall u, v :: 0 <= u < v < |s.order| ==> s.order[u] != s.order[v])
    && (forall x :: 0 <= x < |s.delivered| ==> (x in s.order <==> !Waits(s, x)))
  }

  /** No copied frame overtakes another by a whole ring. */
  ghost predicate Windowed(c: Config, s: State) {
    forall u, v :: 0 <= u < v < |s.order| ==> s.order[u] < s.order[v] + c.frameNr
  }

  lemma OwnedKernel(c: Config, s: State, frame: Frame, status: UserStatus)
    requires Owned(c, s)
    ensures Owned(c, KernelStep(c, s, frame, status))
  {
    var n, r := c.frameNr, KernelStep(c, s, frame, status);
    if s.slots[s.head].status == TP_STATUS_KERNEL {
      forall i | 0 <= i < n
        ensures Number(r, i) == if i == s.head then |s.delivered| else Number(s, i)
      {
      }
    }
  }

  /** What a step of the thread leaves alone. */
  lemma UserKeeps(c: Config, s: State, poll: int, taken: nat)
    requires Shaped(c, s)
    ensures var r := UserStep(c, s, poll, taken);
            && r.head == s.head && r.delivered == s.delivered && |r.slots| == |s.slots|
            && (forall i :: 0 <= i < c.frameNr ==>
                  r.slots[i] == s.slots[i] || (s.pc.Release? && i == s.index && r.slots[i] == s.slots[i].(status := TP_STATUS_KERNEL)))
            && (r.pc.Store? || r.pc.Release? ==> r.slots == s.slots && r.index == s.index)
            && (r.pc.Store? ==> IsUser(s.slots[s.index].status))
            && (r.pc.Release? <==> s.pc.Store?)
            && (s.pc.Release? ==> r.slots[s.index].status == TP_STATUS_KERNEL)
  {
    hide EncodeRecord;
  }

  lemma OwnedUser(c: Config, s: State, poll: int, taken: nat)
    requires Owned(c, s)
    ensures Owned(c, UserStep(c, s, poll, taken))
  {
    var r := UserStep(c, s, poll, taken);
    UserKeeps(c, s, poll, taken);
    hide UserStep, Behind;
    assert forall i :: 0 <= i < c.frameNr ==> Number(r, i) == Number(s, i);
  }

  lemma WaitsKernel(c: Config, s: State, frame: Frame, status: UserStatus, x: int)
    requires Owned(c, s) && Logged(c, s) && s.slots[s.head].status == TP_STATUS_KERNEL
    requires 0 <= x <= |s.delivered|
    ensures Waits(KernelStep(c, s, frame, status), x) <==> x == |s.delivered| || Waits(s, x)
  {
    var n, r, d := c.frameNr, KernelStep(c, s, frame, status), |s.delivered|;
    if x == d {
      assert Back(1, r.head, n) == s.head;
    } else if d - x < n {
      assert Back(d + 1 - x, r.head, n) == Back(d - x, s.head, n);
      assert Back(d - x, s.head, n) != s.head;
    } else {
      assert Back(n, s.head, n) == s.head;
    }
  }

  lemma LoggedKernel(c: Config, s: State, frame: Frame, status: UserStatus)
    requires Owned(c, s) && Logged(c, s)
    ensures Logged(c, KernelStep(c, s, frame, status))
  {
    var r := KernelStep(c, s, frame, status);
    if s.slots[s.head].status == TP_STATUS_KERNEL {
      forall x | 0 <= x < |r.delivered|
        ensures x in r.order <==> !Waits(r, x)
      {
        WaitsKernel(c, s, frame, status, x);
      }
    }
  }

  lemma WaitsUser(c: Config, s: State, poll: int, taken: nat, x: int)
    requires Owned(c, s)
    ensures Waits(UserStep(c, s, poll, taken), x) <==> Waits(s, x) && !(s.pc.Store? && x == Number(s, s.index))
  {
    UserKeeps(c, s, poll, taken);
    var n, t := c.frameNr, |s.delivered| - x;
    hide UserStep;
    if 1 <= t <= n {
      var i := Back(t, s.head, n);
      assert i == s.index <==> x == Number(s, s.index);
      hide Back, Behind;
    }
  }

  lemma LoggedUser(c: Config, s: State, poll: int, taken: nat)
    requires Owned(c, s) && Logged(c, s)
    ensures Logged(c, UserStep(c, s, poll, taken))
  {
    hide EncodeRecord, Waits, Behind;
    var r := UserStep(c, s, poll, taken);
    var x := Number(s, s.index);
    if s.pc.Store? {
      CurrentWaits(c, s);
      assert x !in s.order;
      assert forall y :: y in r.order <==> y in s.order || y == x;
    }
    forall y | 0 <= y < |r.delivered|
      ensures y in r.order <==> !Waits(r, y)
    {
      WaitsUser(c, s, poll, taken, y);
    }
  }

  lemma CurrentWaits(c: Config, s: State)
    requires Owned(c, s) && s.pc.Store?
    ensures 0 <= Number(s, s.index) < |s.delivered|
    ensures s.slots[s.index].frame == s.delivered[Number(s, s.index)]
    ensures Waits(s, Number(s, s.index))
  {
    assert Back(Behind(s.index, s.head, c.frameNr), s.head, c.frameNr) == s.index;
  }

  lemma {:induction false} ConservingFrom(c: Config, s: State, es: seq<Event>)
    requires Owned(c, s) && Logged(c, s) && Windowed(c, s)
    ensures var r := RunFrom(c, s, es); Owned(c, r) && Logged(c, r) && Windowed(c, r)
    decreases |es|
  {
    assert Shaped(c, s);
    hide Step, Owned, Logged, Windowed, Shaped;
    if es != [] {
      ConservingStep(c, s, es[0]);
      ConservingFrom(c, Step(c, s, es[0]), es[1..]);
    }
  }

  lemma ConservingRun(c: Config, file: seq<byte>, es: seq<Event>)
    ensures var s := Run(c, file, es); Owned(c, s) && Logged(c, s) && Windowed(c, s)
  {
    ConservingInit(c, file);
    ConservingFrom(c, Init(c, file), es);
  }

  lemma ConservingInit(c: Config, file: seq<byte>)
    ensures var s := Init(c, file); Owned(c, s) && Logged(c, s) && Windowed(c, s)
  {
  }

  lemma ConservingStep(c: Config, s: State, e: Event)
    requires Owned(c, s) && Logged(c, s) && Windowed(c, s)
    ensures var r := Step(c, s, e); Owned(c, r) && Logged(c, r) && Windowed(c, r)
  {
    match e
    case Deliver(frame, status) =>
      hide Owned, Logged;
      OwnedKernel(c, s, frame, status);
      LoggedKernel(c, s, frame, status);
    case User(poll, taken) =>
      WindowedUser(c, s, poll, taken);
      hide Owned, Logged, Windowed, UserStep;
      OwnedUser(c, s, poll, taken);
      LoggedUser(c, s, poll, taken);
  }

  lemma WindowedUser(c: Config, s: State, poll: int, taken: nat)
    requires Owned(c, s) && Logged(c, s) && Windowed(c, s)
    ensures Windowed(c, UserStep(c, s, poll, taken))
  {
    hide EncodeRecord, Waits;
  }

  /** In every run, whatever poll returns: each delivered frame is copied exactly once or
      waits in exactly one slot, and the thread touches a slot's frame only while it owns
      the slot. */
  lemma Conservation(c: Config, file: seq<byte>, es: seq<Event>)
    ensures var s := Run(c, file, es);
            && |s.order| == |s.stored|
            && (forall u :: 0 <= u < |s.order| ==> 0 <= s.order[u] < |s.delivered| && s.stored[u] == s.delivered[s.order[u]])
            && (forall u, v :: 0 <= u < v < |s.order| ==> s.order[u] != s.order[v])
            && (forall x :: 0 <= x < |s.delivered| ==>
                  (x !in s.order <==> exists i :: 0 <= i < c.frameNr && Waiting(s, i) && Number(s, i) == x))
            && (forall i :: 0 <= i < c.frameNr && Waiting(s, i) ==>
                  0 <= Number(s, i) < |s.delivered| && s.slots[i].frame == s.delivered[Number(s, i)])
            && (s.pc.Store? || s.pc.Release? ==> IsUser(s.slots[s.index].status))
  {
    ConservingRun(c, file, es);
    var s := Run(c, file, es);
    forall x | 0 <= x < |s.delivered|
      ensures x !in s.order <==> exists i :: 0 <= i < c.frameNr && Waiting(s, i) && Number(s, i) == x
    {
      WaitsSomewhere(c, s, x);
    }
  }

  lemma WaitsSomewhere(c: Config, s: State, x: int)
    requires Owned(c, s)
    ensures Waits(s, x) <==> exists i :: 0 <= i < c.frameNr && Waiting(s, i) && Number(s, i) == x
  {
    var n := c.frameNr;
    if Waits(s, x) {
      var i := Back(|s.delivered| - x, s.head, n);
      assert Waiting(s, i) && Number(s, i) == x;
    }
    forall i | 0 <= i < n && Waiting(s, i) && Number(s, i) == x
      ensures Waits(s, x)
    {
      assert Back(Behind(i, s.head, n), s.head, n) == i;
    }
  }

  /** In every run, a thread step that changes a slot hands it back, status 0, frame
      untouched, and only a slot that is the thread's and whose frame has been copied. */
  lemma ReturnsOnlyStored(c: Config, file: seq<byte>, es: seq<Event>, poll: int, taken: nat, i: nat)
    requires i < c.frameNr
    ensures var s, r := Run(c, file, es), Step(c, Run(c, file, es), User(poll, taken));
            r.slots[i] != s.slots[i] ==>
              && Bits.And(s.slots[i].status, 1) == 1 && r.slots[i] == s.slots[i].(status := 0)
              && 0 <= Number(s, i) && Number(s, i) in s.order
  {
    ConservingRun(c, file, es);
    hide RunFrom;
    var s := Run(c, file, es);
    UserKeeps(c, s, poll, taken);
    IsUserExactly(s.slots[i].status);
    if s.pc.Release? {
      assert Back(Behind(s.index, s.head, c.frameNr), s.head, c.frameNr) == s.index;
      assert !Waits(s, Number(s, s.index));
    }
    hide UserStep;
  }

  /** Without a pcap file nothing is written. */
  lemma {:induction false} NotRecording(c: Config, s: State, es: seq<Event>)
    requires Shaped(c, s) && !c.recording
    ensures RunFrom(c, s, es).file == s.file
    decreases |es|
  {
    if es != [] {
      assert Step(c, s, es[0]).file == s.file;
      hide Step;
      NotRecording(c, Step(c, s, es[0]), es[1..]);
    }
  }

  /** Frames can be copied out of order when poll misbehaves, but never by a whole ring:
      a frame copied before an earlier delivery is less than frameNr deliveries ahead. */
  lemma ReorderingIsBounded(c: Config, file: seq<byte>, es: seq<Event>, u: nat, v: nat)
    requires u < v < |Run(c, file, es).order|
    ensures Run(c, file, es).order[u] < Run(c, file, es).order[v] + c.frameNr
  {
    ConservingRun(c, file, es);
  }
}
