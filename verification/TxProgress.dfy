/** How fast the replay thread hands over packets. The kernel may complete slots in any order
    and at any time, or never; it cannot take an available slot away from the thread. */
module TxProgress {
  import opened Words
  import opened Pcap
  import opened TxRing

  function ThreadSteps(es: seq<Event>): nat {
    if es == [] then 0 else (if es[0].User? then 1 else 0) + ThreadSteps(es[1..])
  }

  predicate Available(s: State, i: nat) {
    i < |s.slots| && s.slots[i].status == TP_STATUS_AVAILABLE
  }

  /** Thread steps left at most until a packet is handed over, when slot i is available: to
      that slot, once around if it lies behind, and once more if the file is at its end. */
  function Wait(c: Config, s: State, atEnd: bool, i: nat): (d: nat)
    requires Shaped(c, s) && i < c.frameNr
    ensures 0 < d <= 2 * c.frameNr + 9
  {
    var n := c.frameNr;
    var reading := if atEnd then n + 7 else 4;
    match s.pc
    case Publish => 1
    case SetSnaplen => 2
    case SetLen => 3
    case Read => reading
    case Rewind => n + 5
    case Send => if s.eof then n + 6 else reading + i + 2
    case Check => reading + if s.a <= i then i - s.a + 1 else n - s.a + i + 3
  }

  /** Slot i stays the thread's until a packet is handed over. */
  lemma StaysAvailable(c: Config, s: State, e: Event, i: nat)
    requires Shaped(c, s) && Available(s, i) && !(e.User? && s.pc.Publish?)
    ensures Available(Step(c, s, e), i)
  {
    hide ReadWith, Filled;
  }

  /** A thread step on the way. */
  lemma Walks(c: Config, rs: seq<Record>, s: State, ms: seq<nat>, m: nat, i: nat)
    requires Aligned(c, rs, s, ms, m) && Live(rs) != [] && Available(s, i)
    requires !s.pc.Publish? && !s.pc.Read?
    ensures var r := UserStep(c, s, NoFault);
            var m' := if s.pc.Rewind? then 0 else m;
            r.handed == s.handed && Wait(c, r, m' == |Live(rs)|, i) < Wait(c, s, m == |Live(rs)|, i)
  {
    hide Live, Ordered, Holds, OffsetOf;
  }

  lemma Reads(c: Config, rs: seq<Record>, s: State, ms: seq<nat>, m: nat, i: nat)
    requires IsSavefile(c.file, rs) && Aligned(c, rs, s, ms, m) && Available(s, i) && s.pc.Read?
    ensures var r := UserStep(c, s, NoFault);
            r.handed == s.handed && Wait(c, r, m == |Live(rs)|, i) < Wait(c, s, m == |Live(rs)|, i)
  {
    AlignedRead(c, rs, s, ms, m, NoFault);
    assert m <= |Live(rs)|;
    hide UserStep, Live, Aligned, IsSavefile;
  }

  lemma {:induction false} HandedGrows(c: Config, s: State, es: seq<Event>)
    requires Shaped(c, s)
    ensures s.handed <= RunFrom(c, s, es).handed
    decreases |es|
  {
    if es != [] {
      assert s.handed <= Step(c, s, es[0]).handed by {
        hide ReadWith, Filled;
      }
      hide Step;
      HandedGrows(c, Step(c, s, es[0]), es[1..]);
    }
  }

  /** A packet was added. */
  predicate Grew(before: seq<seq<byte>>, after: seq<seq<byte>>) {
    before <= after && |before| < |after|
  }

  /** One step of either side: it hands over a packet, overruns a slot, or, if it is the
      thread's, comes nearer to that. */
  lemma Nearer(c: Config, rs: seq<Record>, s: State, ms: seq<nat>, m: nat, i: nat, e: Event) returns (ms': seq<nat>, m': nat)
    requires IsSavefile(c.file, rs) && Aligned(c, rs, s, ms, m) && Live(rs) != []
    requires Available(s, i) && Faultless([e])
    ensures var r := Step(c, s, e);
            || r.overrun
            || Grew(s.handed, r.handed)
            || (&& Aligned(c, rs, r, ms', m') && Available(r, i) && r.handed == s.handed
                && Wait(c, r, m' == |Live(rs)|, i) + (if e.User? then 1 else 0) <= Wait(c, s, m == |Live(rs)|, i))
  {
    assert e.User? ==> [e][0].fault.NoFault?;
    ms', m' := ms, m;
    if e.Kernel? {
      AlignedKernel(c, rs, s, ms, m, e.slot, e.status);
      StaysAvailable(c, s, e, i);
      KernelWaits(c, s, m == |Live(rs)|, i, e.slot, e.status);
      hide KernelStep, Aligned, Live, IsSavefile, Wait;
    } else if s.pc.Publish? {
      AlignedPublish(c, rs, s, ms, m);
      hide UserStep, Live, IsSavefile, Wait;
    } else if s.pc.Read? && !NextFits(c, rs, m) {
      AlignedRead(c, rs, s, ms, m, NoFault);
      hide UserStep, Live, IsSavefile, Wait;
    } else {
      ms', m' := AlignedUser(c, rs, s, ms, m, NoFault);
      StaysAvailable(c, s, e, i);
      if s.pc.Read? {
        Reads(c, rs, s, ms, m, i);
      } else {
        Walks(c, rs, s, ms, m, i);
      }
      hide UserStep, Live, IsSavefile, Wait;
    }
  }

  lemma KernelWaits(c: Config, s: State, atEnd: bool, i: nat, slot: nat, status: nat)
    requires Shaped(c, s) && i < c.frameNr
    ensures var r := KernelStep(c, s, slot, status);
            Wait(c, r, atEnd, i) == Wait(c, s, atEnd, i) && r.handed == s.handed
  {
  }

  lemma {:induction false} HandsOverFrom(c: Config, rs: seq<Record>, s: State, ms: seq<nat>, m: nat, i: nat, es: seq<Event>)
    requires IsSavefile(c.file, rs) && Aligned(c, rs, s, ms, m) && Live(rs) != []
    requires Available(s, i) && Faultless(es) && Wait(c, s, m == |Live(rs)|, i) <= ThreadSteps(es)
    ensures var r := RunFrom(c, s, es); r.overrun || Grew(s.handed, r.handed)
    decreases |es|
  {
    var e, rest := es[0], es[1..];
    var ms', m' := Nearer(c, rs, s, ms, m, i, e);
    var r := Step(c, s, e);
    assert Shaped(c, s) && m <= |Live(rs)|;
    hide Step, Aligned, Live, IsSavefile, Wait, Available;
    if r.overrun {
      Stuck(c, r, rest);
    } else if Grew(s.handed, r.handed) {
      HandedGrows(c, r, rest);
    } else {
      HandsOverFrom(c, rs, r, ms', m', i, rest);
    }
  }

  /** After any run that has not overrun a slot and leaves some slot available: whatever the
      kernel does meanwhile, 2 * frameNr + 9 steps of the thread without a failing read hand
      over another packet, or overrun a slot with one that does not fit. */
  lemma AnyScheduleHandsOver(c: Config, rs: seq<Record>, es: seq<Event>, i: nat, more: seq<Event>)
    requires IsSavefile(c.file, rs) && Live(rs) != []
    requires !Run(c, es).overrun && i < c.frameNr && Available(Run(c, es), i)
    requires Faultless(more) && 2 * c.frameNr + 9 <= ThreadSteps(more)
    ensures var s, r := Run(c, es), Run(c, es + more);
            r.overrun || (s.handed <= r.handed && |s.handed| < |r.handed|)
    ensures Fits(Live(rs), c.frameSize) ==> !Run(c, es + more).overrun
    ensures Restarts(Run(c, es + more).handed, Live(rs))
  {
    AlignedInit(c, rs);
    var ms, m := AlignedFrom(c, rs, Init(c), [], 0, es);
    RunConcat(c, Init(c), es, more);
    hide RunFrom, Live, IsSavefile, Aligned;
    HandsOverFrom(c, rs, Run(c, es), ms, m, i, more);
    ReplayOrder(c, rs, es + more);
  }
}
