/** The transmit ring. The replay thread walks the slots, fills each available one with
    the next packet of the pcap file, requests its transmission, and starts over at the
    end of the file. The kernel takes requested slots back at any time. A run is any
    interleaving of kernel steps with the single steps of the replay thread. */
module TxRing {
  import opened Words
  import opened Pcap
  import opened Arithmetic

  const TP_STATUS_AVAILABLE: nat := 0
  const TP_STATUS_SEND_REQUEST: nat := 1

  /** TPACKET_ALIGN(sizeof(struct tpacket_hdr)). */
  const TPLEN := 32

  /** A slot: the header fields the thread uses and the bytes behind the header. */
  datatype Slot = Slot(status: nat, len: nat, snaplen: nat, data: seq<byte>)

  /** What the kernel sends of a slot: as many bytes as tp_len says. */
  function Visible(slot: Slot): seq<byte> {
    slot.data[..Min(slot.len, |slot.data|)]
  }

  /** Memory after a read into it: what is behind the packet stays. */
  function Filled(data: seq<byte>, packet: seq<byte>): (r: seq<byte>)
    ensures |packet| <= |r| && r[..|packet|] == packet
  {
    packet + if |packet| < |data| then data[|packet|..] else []
  }

  /** Where the replay thread is: at the loop test and the status test (lines 52-56), in
      ldab_pcap_read (line 60), about to store tp_len (line 70), tp_snaplen (line 71) or
      tp_status (line 72), in send (line 77), about to rewind (line 80). */
  datatype Pc = Check | Read | SetLen | SetSnaplen | Publish | Send | Rewind {
    /** A packet is in the slot and not yet handed over. */
    predicate IsFilling() {
      SetLen? || SetSnaplen? || Publish?
    }
  }

  datatype RawConfig = Config(frameNr: nat, frameSize: u32, file: seq<byte>)
  type Config = c: RawConfig | 1 <= c.frameNr && 1 <= c.frameSize witness RawConfig.Config(8, 2048, [])

  /** obytes is the length the last read returned. handed is the history of what the kernel
      could see in the slots marked SEND_REQUEST when they were marked. overrun records that a packet
      was written past the end of its slot; what memory holds then is unknown, and the
      run goes no further. */
  datatype State = State(
    slots: seq<Slot>, a: nat, pc: Pc, eof: bool, obytes: nat, offset: nat,
    handed: seq<seq<byte>>, overrun: bool)

  datatype Event =
    | User(fault: Fault)
    | Kernel(slot: nat, status: nat)

  predicate Shaped(c: Config, s: State) {
    && |s.slots| == c.frameNr && s.a <= c.frameNr
    && (s.pc.Read? || s.pc.IsFilling() ==> s.a < c.frameNr)
  }

  /** The kernel changes the status of slots handed to it, and of no others. */
  function KernelStep(c: Config, s: State, i: nat, status: nat): (r: State)
    requires Shaped(c, s)
    ensures Shaped(c, r)
  {
    if i < c.frameNr && s.slots[i].status != TP_STATUS_AVAILABLE then
      s.(slots := s.slots[i := s.slots[i].(status := status)])
    else s
  }

  /** The thread writes to slot a. */
  function Put(s: State, slot: Slot, pc: Pc): State
    requires s.a < |s.slots|
  {
    s.(slots := s.slots[s.a := slot], pc := pc)
  }

  /** The thread has read a packet into slot a. */
  function Fill(c: Config, s: State, packet: seq<byte>, next: nat): (r: State)
    requires Shaped(c, s) && s.a < c.frameNr
    ensures Shaped(c, r)
  {
    Put(s, s.slots[s.a].(data := Filled(s.slots[s.a].data, packet)), SetLen)
    .(offset := next, obytes := |packet|, overrun := TPLEN + |packet| > c.frameSize)
  }

  /** The thread's next step; fault is what befalls the read if it is one. */
  function UserStep(c: Config, s: State, fault: Fault): (r: State)
    requires Shaped(c, s)
    ensures Shaped(c, r)
  {
    match s.pc
    case Check =>
      if s.a == c.frameNr then s.(pc := Send)
      else if s.slots[s.a].status == TP_STATUS_AVAILABLE then s.(pc := Read)
      else s.(a := s.a + 1)
    case Read =>
      var (packet, next) := ReadWith(c.file, s.offset, c.frameSize, fault);
      if packet == [] then s.(offset := next, eof := true, pc := Send) else Fill(c, s, packet, next)
    case SetLen => Put(s, s.slots[s.a].(len := s.obytes), SetSnaplen)
    case SetSnaplen => Put(s, s.slots[s.a].(snaplen := s.obytes), Publish)
    case Publish =>
      Put(s, s.slots[s.a].(status := TP_STATUS_SEND_REQUEST), Check)
      .(handed := s.handed + [Visible(s.slots[s.a])], a := s.a + 1)
    case Send => if s.eof then s.(pc := Rewind) else s.(a := 0, pc := Check)
    case Rewind => s.(offset := FILE_HEADER, eof := false, a := 0, pc := Check)
  }

  function Step(c: Config, s: State, e: Event): (r: State)
    requires Shaped(c, s)
    ensures Shaped(c, r)
  {
    if s.overrun then s else
    match e
    case User(fault) => UserStep(c, s, fault)
    case Kernel(slot, status) => KernelStep(c, s, slot, status)
  }

  /** The descriptor comes from ldab_pcap_open, so the offset is past the file header. */
  function Init(c: Config): (s: State)
    ensures Shaped(c, s)
  {
    State(seq(c.frameNr, _ => Slot(TP_STATUS_AVAILABLE, 0, 0, [])), 0, Check, false, 0, FILE_HEADER, [], false)
  }

  function RunFrom(c: Config, s: State, es: seq<Event>): (r: State)
    requires Shaped(c, s)
    ensures Shaped(c, r)
    decreases |es|
  {
    if es == [] then s else RunFrom(c, Step(c, s, es[0]), es[1..])
  }

  function Run(c: Config, es: seq<Event>): (s: State)
    ensures Shaped(c, s)
  {
    RunFrom(c, Init(c), es)
  }

  lemma {:induction false} RunConcat(c: Config, s: State, es: seq<Event>, fs: seq<Event>)
    requires Shaped(c, s)
    ensures RunFrom(c, s, es + fs) == RunFrom(c, RunFrom(c, s, es), fs)
    decreases |es|
  {
    hide Step;
    if es == [] {
      assert es + fs == fs;
    } else {
      RunConcat(c, Step(c, s, es[0]), es[1..], fs);
      assert (es + fs)[1..] == es[1..] + fs && (es + fs)[0] == es[0];
    }
  }

  // ---------------------------------------------------------------- slot ownership

  /** Slot i, if it is not available, shows a packet that was handed over, and both of its
      length fields are the length of that packet. */
  predicate Requested(s: State, i: nat)
    requires i < |s.slots|
  {
    var slot := s.slots[i];
    slot.status != TP_STATUS_AVAILABLE ==> slot.len == slot.snaplen == |Visible(slot)| && Visible(slot) in s.handed
  }

  /** What the thread has stored so far for the packet it is about to hand over. */
  predicate Stored(s: State, slot: Slot) {
    && s.obytes <= |slot.data|
    && (!s.pc.SetLen? ==> slot.len == s.obytes)
    && (s.pc.Publish? ==> slot.snaplen == s.obytes)
  }

  /** The thread writes to a slot only while the slot is available, and its length fields are
      written before its status. */
  ghost predicate Exclusive(c: Config, s: State) {
    && Shaped(c, s)
    && (s.pc.Read? || s.pc.IsFilling() ==> s.slots[s.a].status == TP_STATUS_AVAILABLE)
    && (s.pc.IsFilling() ==> Stored(s, s.slots[s.a]))
    && forall i :: 0 <= i < c.frameNr ==> Requested(s, i)
  }

  lemma ExclusiveKernel(c: Config, s: State, i: nat, status: nat)
    requires Exclusive(c, s)
    ensures Exclusive(c, KernelStep(c, s, i, status))
  {
    var r := KernelStep(c, s, i, status);
    forall j | 0 <= j < c.frameNr
      ensures Requested(r, j)
    {
      assert Requested(s, j);
    }
  }

  /** A step that leaves all slots but slot a alone and forgets nothing that was handed over. */
  lemma StayRequested(c: Config, s: State, r: State)
    requires Exclusive(c, s) && Shaped(c, r)
    requires forall i :: 0 <= i < c.frameNr && i != s.a ==> r.slots[i] == s.slots[i]
    requires s.a < c.frameNr ==> Requested(r, s.a)
    requires s.handed <= r.handed
    ensures forall i :: 0 <= i < c.frameNr ==> Requested(r, i)
  {
    forall i | 0 <= i < c.frameNr
      ensures Requested(r, i)
    {
      assert Requested(s, i);
    }
  }

  lemma ExclusivePublish(c: Config, s: State)
    requires Exclusive(c, s) && s.pc.Publish?
    ensures Exclusive(c, UserStep(c, s, NoFault))
  {
    var r := UserStep(c, s, NoFault);
    assert Visible(r.slots[s.a]) == Visible(s.slots[s.a]) == r.handed[|s.handed|];
    assert Requested(r, s.a);
    StayRequested(c, s, r);
  }

  lemma ExclusiveFill(c: Config, s: State, packet: seq<byte>, next: nat)
    requires Exclusive(c, s) && s.pc.Read?
    ensures Exclusive(c, Fill(c, s, packet, next))
  {
    hide Filled, Visible;
    var r := Fill(c, s, packet, next);
    assert Requested(r, s.a);
    StayRequested(c, s, r);
  }

  lemma ExclusiveLengths(c: Config, s: State, fault: Fault)
    requires Exclusive(c, s) && (s.pc.SetLen? || s.pc.SetSnaplen?)
    ensures Exclusive(c, UserStep(c, s, fault))
  {
    hide Visible;
    var r := UserStep(c, s, fault);
    assert Requested(r, s.a);
    StayRequested(c, s, r);
  }

  lemma ExclusiveUser(c: Config, s: State, fault: Fault)
    requires Exclusive(c, s)
    ensures Exclusive(c, UserStep(c, s, fault))
  {
    match s.pc
    case Publish => ExclusivePublish(c, s);
    case SetLen => ExclusiveLengths(c, s, fault);
    case SetSnaplen => ExclusiveLengths(c, s, fault);
    case _ =>
      hide ReadWith, Fill, Requested, Stored;
      if s.pc.Read? {
        var (packet, next) := ReadWith(c.file, s.offset, c.frameSize, fault);
        ExclusiveFill(c, s, packet, next);
      }
      var r := UserStep(c, s, fault);
      if r.slots == s.slots && r.handed == s.handed {
        SameRequested(c, s, r);
      }
  }

  lemma SameRequested(c: Config, s: State, r: State)
    requires Exclusive(c, s) && Shaped(c, r) && r.slots == s.slots && r.handed == s.handed
    ensures forall i :: 0 <= i < c.frameNr ==> Requested(r, i)
  {
    hide Visible;
    if s.a < c.frameNr {
      assert Requested(s, s.a);
    }
    StayRequested(c, s, r);
  }

  lemma ExclusiveStep(c: Config, s: State, e: Event)
    requires Exclusive(c, s)
    ensures Exclusive(c, Step(c, s, e))
  {
    hide UserStep, KernelStep, Exclusive;
    match e
    case User(fault) => ExclusiveUser(c, s, fault);
    case Kernel(i, status) => ExclusiveKernel(c, s, i, status);
  }

  lemma {:induction false} ExclusiveFrom(c: Config, s: State, es: seq<Event>)
    requires Exclusive(c, s)
    ensures Exclusive(c, RunFrom(c, s, es))
    decreases |es|
  {
    if es != [] {
      ExclusiveStep(c, s, es[0]);
      assert Shaped(c, s);
      hide Step, Exclusive;
      ExclusiveFrom(c, Step(c, s, es[0]), es[1..]);
    }
  }

  /** In every run, what the kernel sees in a slot that is not available is a packet that was
      handed over, with its right length. */
  lemma SlotsInFlightWereHanded(c: Config, es: seq<Event>, i: nat)
    requires i < c.frameNr && Run(c, es).slots[i].status != TP_STATUS_AVAILABLE
    ensures var slot := Run(c, es).slots[i];
            slot.len == slot.snaplen == |Visible(slot)| && Visible(slot) in Run(c, es).handed
  {
    ExclusiveFrom(c, Init(c), es);
    hide RunFrom;
    assert Requested(Run(c, es), i);
  }

  /** In every run, a step of the thread leaves the slots it does not own alone: any slot
      it changes is available before the step. A slot in flight keeps everything but its
      status whoever steps. */
  lemma SlotsInFlightAreStable(c: Config, es: seq<Event>, e: Event, i: nat)
    requires i < c.frameNr
    ensures var s := Run(c, es);
            var r := Step(c, s, e);
            && (e.User? && r.slots[i] != s.slots[i] ==> s.slots[i].status == TP_STATUS_AVAILABLE)
            && (s.slots[i].status != TP_STATUS_AVAILABLE ==>
                  r.slots[i] == s.slots[i].(status := r.slots[i].status))
  {
    hide ReadAt;
    ExclusiveFrom(c, Init(c), es);
  }

  /** The step makes slot i pass from status 0 to status 1, SEND_REQUEST. */
  predicate Marks(s: State, r: State, i: nat)
    requires i < |s.slots| && i < |r.slots|
  {
    s.slots[i].status == 0 && r.slots[i].status == 1
  }

  /** In every run, the history grows in a step exactly when the step marks a slot for
      sending; it marks one slot and touches no other, what is added are the first tp_len
      bytes behind that slot's header, and the thread then goes on to the next slot. No slot
      gets any other status than 1 from being available, and the thread leaves a slot alone
      that is not available: only the kernel makes it available again. */
  lemma HandedExactly(c: Config, es: seq<Event>, e: Event)
    ensures var s, r := Run(c, es), Step(c, Run(c, es), e);
            && (r.handed != s.handed <==> exists i :: 0 <= i < c.frameNr && Marks(s, r, i))
            && (forall i :: 0 <= i < c.frameNr && Marks(s, r, i) ==>
                  && e.User? && r.slots[i].len <= |r.slots[i].data|
                  && r.handed == s.handed + [r.slots[i].data[..r.slots[i].len]]
                  && r.a == i + 1
                  && forall j :: 0 <= j < c.frameNr && j != i ==> r.slots[j] == s.slots[j])
            && (forall i :: 0 <= i < c.frameNr && s.slots[i].status == 0 && r.slots[i].status != 0 ==> Marks(s, r, i))
            && (forall i :: 0 <= i < c.frameNr && e.User? && s.slots[i].status != 0 ==> r.slots[i] == s.slots[i])
  {
    ExclusiveFrom(c, Init(c), es);
    hide RunFrom;
    var s := Run(c, es);
    if e.User? && !s.overrun {
      HandsOverOne(c, s, e.fault);
    }
    hide UserStep;
  }

  lemma HandsOverOne(c: Config, s: State, fault: Fault)
    requires Exclusive(c, s)
    ensures var r := UserStep(c, s, fault);
            && (forall i :: 0 <= i < c.frameNr && s.slots[i].status != 0 ==> r.slots[i] == s.slots[i])
            && if s.pc.Publish? then
                 && s.a < c.frameNr && Marks(s, r, s.a) && r.a == s.a + 1
                 && r.slots[s.a].len <= |r.slots[s.a].data|
                 && r.handed == s.handed + [r.slots[s.a].data[..r.slots[s.a].len]]
                 && forall j :: 0 <= j < c.frameNr && j != s.a ==> r.slots[j] == s.slots[j]
               else
                 r.handed == s.handed && forall j :: 0 <= j < c.frameNr ==> r.slots[j].status == s.slots[j].status
  {
    hide ReadWith, Filled;
  }

  /** In every run, the thread takes the slots one after the other: it moves on by one slot,
      past one that is not available or that it has just marked, and starts over only after a
      send. It sends when it has seen every slot or has nothing to read, and only then. */
  lemma WalksInOrder(c: Config, es: seq<Event>, fault: Fault)
    ensures var s, r := Run(c, es), Step(c, Run(c, es), User(fault));
            && (r.a != s.a ==>
                  || (r.a == s.a + 1 && s.a < c.frameNr && r.slots[s.a].status != 0)
                  || (r.a == 0 && (s.pc.Send? || s.pc.Rewind?)))
            && (r.pc.Rewind? && r != s ==> s.pc.Send? && s.eof)
            && (r.pc.Send? && r != s ==> s.a == c.frameNr || (s.pc.Read? && r.eof))
  {
    hide ReadWith, Filled, RunFrom;
  }

  // ---------------------------------------------------------------- replay order

  /** The packets a replay sends: the records up to the first empty one, which reads as
      the end of the file. */
  function Live(rs: seq<Record>): (ps: seq<seq<byte>>)
    ensures |ps| <= |rs|
    ensures forall k :: 0 <= k < |ps| ==> ps[k] == rs[k].payload != []
    ensures |ps| < |rs| ==> rs[|ps|].payload == []
  {
    if rs == [] || rs[0].payload == [] then [] else [rs[0].payload] + Live(rs[1..])
  }

  /** Rounds of a replay: ms[0] packets from the start, then ms[1] from the start, ... */
  function Rounds(ps: seq<seq<byte>>, ms: seq<nat>): seq<seq<byte>> {
    if ms == [] then [] else Rounds(ps, ms[..|ms| - 1]) + ps[..Min(ms[|ms| - 1], |ps|)]
  }

  predicate Full(ps: seq<seq<byte>>, ms: seq<nat>) {
    forall k :: 0 <= k < |ms| ==> ms[k] == |ps|
  }

  /** Rounds that all start with the first packet and go on in order, however far. */
  ghost predicate Restarts(handed: seq<seq<byte>>, ps: seq<seq<byte>>) {
    exists ms: seq<nat> :: handed == Rounds(ps, ms)
  }

  /** A prefix of ps repeated endlessly: only the last round may be cut short. */
  ghost predicate Replays(handed: seq<seq<byte>>, ps: seq<seq<byte>>) {
    exists ms: seq<nat>, m: nat :: Full(ps, ms) && m <= |ps| && handed == Rounds(ps, ms) + ps[..m]
  }

  /** No read of the file fails. */
  predicate Faultless(es: seq<Event>) {
    forall k :: 0 <= k < |es| && es[k].User? ==> es[k].fault.NoFault?
  }

  predicate Fits(ps: seq<seq<byte>>, frameSize: u32) {
    forall k :: 0 <= k < |ps| ==> PacketFits(ps[k], frameSize)
  }

  /** The offset of record m. */
  function OffsetOf(rs: seq<Record>, m: nat): nat
    requires m <= |rs|
  {
    FILE_HEADER + |EncodeRecords(rs[..m])|
  }

  lemma FileSplit(file: seq<byte>, rs: seq<Record>, m: nat)
    requires IsSavefile(file, rs) && m <= |rs|
    ensures file == file[..FILE_HEADER] + EncodeRecords(rs[..m]) + EncodeRecords(rs[m..])
    ensures OffsetOf(rs, m) == |file[..FILE_HEADER] + EncodeRecords(rs[..m])|
  {
    hide HeaderAccepted, EncodeRecords;
    assert rs[..m] + rs[m..] == rs;
    EncodeRecordsConcat(rs[..m], rs[m..]);
    Associative(file[..FILE_HEADER], EncodeRecords(rs[..m]), EncodeRecords(rs[m..]));
  }

  lemma OffsetOfNext(rs: seq<Record>, m: nat)
    requires m < |rs|
    ensures OffsetOf(rs, m + 1) == OffsetOf(rs, m) + RECORD_HEADER + |rs[m].payload|
  {
    EncodeRecordsSnoc(rs[..m], rs[m]);
    assert rs[..m] + [rs[m]] == rs[..m + 1];
  }

  predicate PacketFits(p: seq<byte>, frameSize: u32) {
    TPLEN + |p| <= frameSize
  }

  /** Reading at the start of a live record yields a packet: the whole record, leaving the
      offset at the next one, if it fits a slot, and one that overruns the slot if not.
      Reading after the last live record yields nothing. */
  lemma ReadsLive(c: Config, rs: seq<Record>, m: nat)
    requires IsSavefile(c.file, rs) && m <= |Live(rs)|
    ensures var ps, (packet, next) := Live(rs), ReadAt(c.file, OffsetOf(rs, m), c.frameSize);
            && (m < |ps| && PacketFits(ps[m], c.frameSize) ==> packet == ps[m] && next == OffsetOf(rs, m + 1))
            && (m < |ps| && !PacketFits(ps[m], c.frameSize) ==> packet != [] && !PacketFits(packet, c.frameSize))
            && (m == |ps| ==> packet == [])
  {
    var pre := c.file[..FILE_HEADER] + EncodeRecords(rs[..m]);
    FileSplit(c.file, rs, m);
    hide IsSavefile, EncodeRecord, OffsetOf;
    if m < |rs| {
      assert EncodeRecords(rs[m..]) == EncodeRecord(rs[m]) + EncodeRecords(rs[m..][1..]);
      Associative(pre, EncodeRecord(rs[m]), EncodeRecords(rs[m..][1..]));
      ReadAtRecord(pre, rs[m], EncodeRecords(rs[m..][1..]), c.frameSize);
      OffsetOfNext(rs, m);
      hide ReadAt;
      assert rs[m].payload[..|rs[m].payload|] == rs[m].payload;
    } else {
      assert rs[m..] == [];
    }
  }

  /** The packet the thread is about to hand over is packet m, and the file offset is behind
      its record. */
  ghost predicate Holds(c: Config, rs: seq<Record>, s: State, m: nat)
    requires s.a < |s.slots|
  {
    var ps, slot := Live(rs), s.slots[s.a];
    && m < |ps| && PacketFits(ps[m], c.frameSize) && s.offset == OffsetOf(rs, m + 1)
    && Stored(s, slot) && slot.data[..s.obytes] == ps[m]
  }

  /** What was handed over are the rounds ms and m packets of the next one. */
  predicate Ordered(ps: seq<seq<byte>>, handed: seq<seq<byte>>, ms: seq<nat>, m: nat) {
    m <= |ps| && handed == Rounds(ps, ms) + ps[..m]
  }

  /** The thread has completed the rounds ms and handed over m packets of the next one, and
      the file offset agrees with that. */
  ghost predicate Aligned(c: Config, rs: seq<Record>, s: State, ms: seq<nat>, m: nat) {
    var ps := Live(rs);
    && Shaped(c, s) && !s.overrun && Ordered(ps, s.handed, ms, m)
    && (s.pc.Rewind? ==> s.eof)
    && (s.eof ==> s.pc.Send? || s.pc.Rewind?)
    && (!s.eof && !s.pc.IsFilling() ==> s.offset == OffsetOf(rs, m))
    && (s.pc.IsFilling() ==> Holds(c, rs, s, m))
  }

  /** No round was cut short. */
  predicate Whole(ps: seq<seq<byte>>, eof: bool, ms: seq<nat>, m: nat) {
    Full(ps, ms) && (eof ==> m == |ps|)
  }

  /** The packet the thread reads next fits its slot. */
  ghost predicate NextFits(c: Config, rs: seq<Record>, m: nat) {
    m < |Live(rs)| ==> PacketFits(Live(rs)[m], c.frameSize)
  }

  lemma AlignedRead(c: Config, rs: seq<Record>, s: State, ms: seq<nat>, m: nat, fault: Fault)
    requires IsSavefile(c.file, rs) && Aligned(c, rs, s, ms, m) && s.pc.Read?
    ensures var r := UserStep(c, s, fault);
            && (NextFits(c, rs, m) || !fault.NoFault? ==> Aligned(c, rs, r, ms, m))
            && (r.overrun <==> fault.NoFault? && !NextFits(c, rs, m))
            && r.pc == (if fault.NoFault? && m < |Live(rs)| then SetLen else Send)
            && (r.pc.Send? ==> r.eof) && r.handed == s.handed
  {
    ReadsLive(c, rs, m);
    assert m <= |Live(rs)|;
    hide IsSavefile, ReadAt, Rounds, OffsetOf, Live;
    if fault.NoFault? {
      AlignedWholeRead(c, rs, s, ms, m);
    }
  }

  lemma AlignedWholeRead(c: Config, rs: seq<Record>, s: State, ms: seq<nat>, m: nat)
    requires IsSavefile(c.file, rs) && Aligned(c, rs, s, ms, m) && s.pc.Read?
    ensures var r := UserStep(c, s, NoFault);
            && (NextFits(c, rs, m) ==> Aligned(c, rs, r, ms, m))
            && (r.overrun <==> !NextFits(c, rs, m))
            && r.pc == (if m < |Live(rs)| then SetLen else Send)
  {
    ReadsLive(c, rs, m);
    hide IsSavefile, ReadAt, Rounds, OffsetOf, Live, Filled;
    var (packet, next) := ReadAt(c.file, s.offset, c.frameSize);
    if packet != [] && NextFits(c, rs, m) {
      AlignedFill(c, rs, s, ms, m, packet, next);
    }
    hide ReadWith, Fill;
  }

  lemma AlignedFill(c: Config, rs: seq<Record>, s: State, ms: seq<nat>, m: nat, packet: seq<byte>, next: nat)
    requires Aligned(c, rs, s, ms, m) && s.pc.Read? && m < |Live(rs)| && PacketFits(packet, c.frameSize)
    requires packet == Live(rs)[m] && next == OffsetOf(rs, m + 1)
    ensures Aligned(c, rs, Fill(c, s, packet, next), ms, m)
  {
    hide Rounds, OffsetOf, Live, Filled;
    var r := Fill(c, s, packet, next);
    assert r.slots[r.a].data[..r.obytes] == packet;
  }

  lemma RoundDone(ps: seq<seq<byte>>, ms: seq<nat>, m: nat)
    requires m <= |ps|
    ensures Rounds(ps, ms + [m]) == Rounds(ps, ms) + ps[..m]
  {
    assert (ms + [m])[..|ms|] == ms;
  }

  lemma AlignedPublish(c: Config, rs: seq<Record>, s: State, ms: seq<nat>, m: nat)
    requires Aligned(c, rs, s, ms, m) && s.pc.Publish?
    ensures var r := UserStep(c, s, NoFault);
            m < |Live(rs)| && r.handed == s.handed + [Live(rs)[m]] && Aligned(c, rs, r, ms, m + 1)
  {
    hide OffsetOf, Rounds, Live;
    var ps := Live(rs);
    assert ps[..m] + [ps[m]] == ps[..m + 1];
    assert Rounds(ps, ms) + ps[..m] + [ps[m]] == Rounds(ps, ms) + ps[..m + 1];
  }

  lemma AlignedRewind(c: Config, rs: seq<Record>, s: State, ms: seq<nat>, m: nat)
    requires Aligned(c, rs, s, ms, m) && s.pc.Rewind?
    ensures Aligned(c, rs, UserStep(c, s, NoFault), ms + [m], 0)
  {
    RoundDone(Live(rs), ms, m);
    hide Rounds;
    assert rs[..0] == [];
    assert Rounds(Live(rs), ms + [m]) + Live(rs)[..0] == Rounds(Live(rs), ms + [m]);
  }

  lemma AlignedUser(c: Config, rs: seq<Record>, s: State, ms: seq<nat>, m: nat, fault: Fault) returns (ms': seq<nat>, m': nat)
    requires IsSavefile(c.file, rs) && Aligned(c, rs, s, ms, m)
    requires s.pc.Read? && fault.NoFault? ==> NextFits(c, rs, m)
    ensures Aligned(c, rs, UserStep(c, s, fault), ms', m')
    ensures m' == if s.pc.Publish? then m + 1 else if s.pc.Rewind? then 0 else m
    ensures fault.NoFault? && Whole(Live(rs), s.eof, ms, m) ==> Whole(Live(rs), UserStep(c, s, fault).eof, ms', m')
  {
    hide IsSavefile, ReadAt, OffsetOf, Rounds, Live;
    ms', m' := ms, m;
    match s.pc {
      case Read => AlignedRead(c, rs, s, ms, m, fault);
      case Publish =>
        AlignedPublish(c, rs, s, ms, m);
        m' := m + 1;
      case Rewind =>
        AlignedRewind(c, rs, s, ms, m);
        ms', m' := ms + [m], 0;
      case SetLen =>
      case SetSnaplen =>
      case Check =>
      case Send =>
    }
  }

  lemma AlignedKernel(c: Config, rs: seq<Record>, s: State, ms: seq<nat>, m: nat, i: nat, status: nat)
    requires Aligned(c, rs, s, ms, m)
    ensures Aligned(c, rs, KernelStep(c, s, i, status), ms, m)
  {
    hide Rounds, Live, OffsetOf;
  }

  /** A run stops at an overrun. */
  lemma {:induction false} Stuck(c: Config, s: State, es: seq<Event>)
    requires Shaped(c, s) && s.overrun
    ensures RunFrom(c, s, es) == s
    decreases |es|
  {
    if es != [] {
      Stuck(c, s, es[1..]);
    }
  }

  /** Steps that end in an overrun: the packet that was too large is not handed over. */
  predicate Overruns(c: Config, s: State, e: Event)
    requires Shaped(c, s)
  {
    !s.overrun && Step(c, s, e).overrun
  }

  lemma AlignedStep(c: Config, rs: seq<Record>, s: State, ms: seq<nat>, m: nat, e: Event) returns (ms': seq<nat>, m': nat)
    requires IsSavefile(c.file, rs) && Aligned(c, rs, s, ms, m)
    ensures Ordered(Live(rs), Step(c, s, e).handed, ms', m')
    ensures !Overruns(c, s, e) ==> Aligned(c, rs, Step(c, s, e), ms', m')
    ensures Fits(Live(rs), c.frameSize) ==> !Overruns(c, s, e)
    ensures Faultless([e]) && Whole(Live(rs), s.eof, ms, m) ==> Whole(Live(rs), Step(c, s, e).eof, ms', m')
  {
    assert m <= |Live(rs)| && (e.User? && Faultless([e]) ==> [e][0].fault.NoFault?);
    hide IsSavefile, OffsetOf, Rounds, Live, UserStep, KernelStep, Whole;
    if e.Kernel? {
      ms', m' := ms, m;
      AlignedKernel(c, rs, s, ms, m, e.slot, e.status);
    } else if s.pc.Read? && e.fault.NoFault? && !NextFits(c, rs, m) {
      ms', m' := ms, m;
      AlignedRead(c, rs, s, ms, m, e.fault);
    } else {
      ms', m' := AlignedUser(c, rs, s, ms, m, e.fault);
    }
  }

  lemma {:induction false} AlignedFrom(c: Config, rs: seq<Record>, s: State, ms: seq<nat>, m: nat, es: seq<Event>)
    returns (ms': seq<nat>, m': nat)
    requires IsSavefile(c.file, rs) && Aligned(c, rs, s, ms, m)
    ensures Ordered(Live(rs), RunFrom(c, s, es).handed, ms', m')
    ensures !RunFrom(c, s, es).overrun ==> Aligned(c, rs, RunFrom(c, s, es), ms', m')
    ensures Fits(Live(rs), c.frameSize) ==> !RunFrom(c, s, es).overrun
    ensures Faultless(es) && Whole(Live(rs), s.eof, ms, m) ==> Whole(Live(rs), RunFrom(c, s, es).eof, ms', m')
    decreases |es|
  {
    ms', m' := ms, m;
    if es != [] {
      ms', m' := AlignedStep(c, rs, s, ms, m, es[0]);
      assert Shaped(c, s) && !s.overrun;
      hide IsSavefile, Live, Step, Whole, Aligned, Ordered, Fits;
      if Overruns(c, s, es[0]) {
        Stuck(c, Step(c, s, es[0]), es[1..]);
      } else {
        ms', m' := AlignedFrom(c, rs, Step(c, s, es[0]), ms', m', es[1..]);
      }
    }
  }

  lemma AlignedInit(c: Config, rs: seq<Record>)
    ensures Aligned(c, rs, Init(c), [], 0)
  {
    assert rs[..0] == [];
  }

  /** For every savefile, every kernel schedule and every failing read: what is handed over
      are rounds that each start at the first packet and keep file order. As long as no read
      fails, each round is complete before the next one starts. If the packets fit a slot, no
      slot overruns. */
  lemma ReplayOrder(c: Config, rs: seq<Record>, es: seq<Event>)
    requires IsSavefile(c.file, rs)
    ensures Restarts(Run(c, es).handed, Live(rs))
    ensures Faultless(es) ==> Replays(Run(c, es).handed, Live(rs))
    ensures Fits(Live(rs), c.frameSize) ==> !Run(c, es).overrun
  {
    AlignedInit(c, rs);
    var ms, m := AlignedFrom(c, rs, Init(c), [], 0, es);
    hide RunFrom;
    RoundDone(Live(rs), ms, m);
  }

  // ---------------------------------------------------------------- which records are replayed

  /** A replay covers the whole file exactly when no record is empty. */
  lemma {:induction false} LiveExactly(rs: seq<Record>)
    ensures Live(rs) == Payloads(rs) <==> forall k :: 0 <= k < |rs| ==> rs[k].payload != []
  {
    var ps := Live(rs);
    if |ps| < |rs| {
      assert rs[|ps|].payload == [];
    } else {
      assert forall k :: 0 <= k < |rs| ==> ps[k] == Payloads(rs)[k];
    }
  }

  lemma {:induction false} NoPackets(ms: seq<nat>)
    ensures Rounds([], ms) == []
  {
    if ms != [] {
      NoPackets(ms[..|ms| - 1]);
    }
  }

  const EMPTY_FIRST: seq<Record> := [Record(0, 0, 0, []), Record(0, 0, 1, [0])]
  const EMPTY_FIRST_FILE := EncodeHeader(DefaultHeader(LINKTYPE_EN10MB)) + EncodeRecords(EMPTY_FIRST)

  /** A file of two records, the first of them empty: no run hands over anything. */
  lemma EmptyRecordHidesTheRest(c: Config, es: seq<Event>)
    requires c.file == EMPTY_FIRST_FILE
    ensures IsSavefile(c.file, EMPTY_FIRST) && Payloads(EMPTY_FIRST) == [[], [0]]
    ensures Run(c, es).handed == []
  {
    FreshSavefile();
    hide IsSavefile, RunFrom, EncodeRecords, EncodeHeader;
    SavefileAppend(EncodeHeader(DefaultHeader(LINKTYPE_EN10MB)), [], EMPTY_FIRST);
    assert [] + EMPTY_FIRST == EMPTY_FIRST;
    ReplayOrder(c, EMPTY_FIRST, es);
    var ms: seq<nat> :| Run(c, es).handed == Rounds(Live(EMPTY_FIRST), ms);
    NoPackets(ms);
  }

  // ---------------------------------------------------------------- progress, and exactly when

  /** The kernel completes the slot the thread waits for; otherwise the thread runs. */
  function Choice(c: Config, s: State): (e: Event)
    requires Shaped(c, s)
    ensures Faultless([e])
  {
    if s.pc.Check? && s.a < c.frameNr && s.slots[s.a].status != TP_STATUS_AVAILABLE
    then Kernel(s.a, TP_STATUS_AVAILABLE) else User(NoFault)
  }

  /** Steps left until a packet is handed over under that choice. */
  function Distance(c: Config, s: State, atEnd: bool): (d: nat)
    requires Shaped(c, s)
    ensures 0 < d <= 13
  {
    var reading := if atEnd then 9 else 4;
    match s.pc
    case Publish => 1
    case SetSnaplen => 2
    case SetLen => 3
    case Read => reading
    case Rewind => 7
    case Send => if s.eof then 8 else reading + 3
    case Check =>
      reading + if s.a == c.frameNr then 4 else if s.slots[s.a].status == TP_STATUS_AVAILABLE then 1 else 2
  }

  /** The packet in turn after m packets of a round, or after the end of the round. */
  function NextIndex(ps: seq<seq<byte>>, eof: bool, m: nat): (k: nat)
    requires m <= |ps| && ps != []
    ensures k < |ps|
  {
    if eof || m == |ps| then 0 else m
  }

  /** One chosen step hands over the next packet or comes nearer to it. */
  lemma Chosen(c: Config, rs: seq<Record>, s: State, ms: seq<nat>, m: nat) returns (ms': seq<nat>, m': nat)
    requires IsSavefile(c.file, rs) && Aligned(c, rs, s, ms, m) && Live(rs) != []
    requires s.pc.Read? ==> NextFits(c, rs, m)
    ensures var ps, r := Live(rs), Step(c, s, Choice(c, s));
            && Aligned(c, rs, r, ms', m')
            && (Whole(ps, s.eof, ms, m) ==> Whole(ps, r.eof, ms', m'))
            && if s.pc.Publish?
               then m' == m + 1 && !r.eof && NextIndex(ps, s.eof, m) == m && PacketFits(ps[m], c.frameSize) && r.handed == s.handed + [ps[m]]
               else && NextIndex(ps, r.eof, m') == NextIndex(ps, s.eof, m) && r.handed == s.handed
                    && Distance(c, r, m' == |ps|) < Distance(c, s, m == |ps|)
  {
    hide Rounds, Live, OffsetOf, IsSavefile, ReadAt, Whole;
    ms', m' := ms, m;
    var e := Choice(c, s);
    if e.Kernel? {
      AlignedKernel(c, rs, s, ms, m, e.slot, e.status);
    } else {
      if s.pc.Read? {
        AlignedRead(c, rs, s, ms, m, NoFault);
      } else if s.pc.Publish? {
        AlignedPublish(c, rs, s, ms, m);
      }
      ms', m' := AlignedUser(c, rs, s, ms, m, NoFault);
    }
  }

  /** State r continues s and has handed over the packet in turn, or overrun its slot if that
      packet does not fit. */
  ghost predicate HandsOver(c: Config, rs: seq<Record>, s: State, ms: seq<nat>, m: nat, r: State, ms': seq<nat>)
    requires m <= |Live(rs)| && Live(rs) != []
  {
    var ps := Live(rs);
    var next := NextIndex(ps, s.eof, m);
    if PacketFits(ps[next], c.frameSize)
    then && Aligned(c, rs, r, ms', next + 1) && !r.eof && r.handed == s.handed + [ps[next]]
         && (Whole(ps, s.eof, ms, m) ==> Whole(ps, r.eof, ms', next + 1))
    else r.overrun
  }

  /** From every reachable state the next packet in order is handed over after at most
      thirteen steps of thread and cooperating kernel, or overruns its slot if it does not
      fit. */
  lemma {:induction false} NextPacket(c: Config, rs: seq<Record>, s: State, ms: seq<nat>, m: nat)
    returns (es: seq<Event>, ms': seq<nat>)
    requires IsSavefile(c.file, rs) && Aligned(c, rs, s, ms, m) && Live(rs) != []
    ensures |es| <= Distance(c, s, m == |Live(rs)|) && Faultless(es)
    ensures HandsOver(c, rs, s, ms, m, RunFrom(c, s, es), ms')
    decreases Distance(c, s, m == |Live(rs)|)
  {
    hide Live, IsSavefile, Step, Choice, Distance, Whole, RunFrom, Rounds, OffsetOf, Holds;
    var e, ps := Choice(c, s), Live(rs);
    var r := Step(c, s, e);
    Unroll(c, s, e);
    if s.pc.Read? && !NextFits(c, rs, m) {
      Misfit(c, rs, s, ms, m);
      es, ms' := [e], ms;
    } else {
      var chosen, m' := Chosen(c, rs, s, ms, m);
      assert m' <= |ps|;
      hide Aligned;
      es, ms' := [e], chosen;
      if !s.pc.Publish? {
        hide HandsOver, NextIndex;
        var rest;
        rest, ms' := NextPacket(c, rs, r, chosen, m');
        RunConcat(c, s, [e], rest);
        es := [e] + rest;
        HandsOverLater(c, rs, s, ms, m, r, chosen, m', RunFrom(c, s, es), ms');
      }
    }
  }

  lemma HandsOverLater(c: Config, rs: seq<Record>, s: State, ms: seq<nat>, m: nat, r: State, chosen: seq<nat>, m': nat, t: State, ms': seq<nat>)
    requires m <= |Live(rs)| && Live(rs) != [] && m' <= |Live(rs)|
    requires r.handed == s.handed && NextIndex(Live(rs), r.eof, m') == NextIndex(Live(rs), s.eof, m)
    requires Whole(Live(rs), s.eof, ms, m) ==> Whole(Live(rs), r.eof, chosen, m')
    requires HandsOver(c, rs, r, chosen, m', t, ms')
    ensures HandsOver(c, rs, s, ms, m, t, ms')
  {
    hide Live, NextIndex, Aligned, Whole;
  }

  lemma Misfit(c: Config, rs: seq<Record>, s: State, ms: seq<nat>, m: nat)
    requires IsSavefile(c.file, rs) && Aligned(c, rs, s, ms, m) && Live(rs) != []
    requires s.pc.Read? && !NextFits(c, rs, m)
    ensures Step(c, s, Choice(c, s)).overrun
    ensures var next := NextIndex(Live(rs), s.eof, m); !PacketFits(Live(rs)[next], c.frameSize)
  {
    AlignedRead(c, rs, s, ms, m, NoFault);
    hide Live, IsSavefile, UserStep;
  }

  lemma Unroll(c: Config, s: State, e: Event)
    requires Shaped(c, s)
    ensures RunFrom(c, s, [e]) == Step(c, s, e)
  {
    hide Step;
    assert [e][1..] == [];
  }

  /** A replay never stalls for good: any run that has not overrun a slot, however disturbed,
      can go on to hand over another packet within thirteen steps, or to overrun. */
  lemma KeepsHandingOver(c: Config, rs: seq<Record>, es: seq<Event>) returns (more: seq<Event>)
    requires IsSavefile(c.file, rs) && Live(rs) != [] && !Run(c, es).overrun
    ensures |more| <= 13 && Faultless(more)
    ensures var s, r := Run(c, es), Run(c, es + more);
            r.overrun || (|r.handed| == |s.handed| + 1 && s.handed <= r.handed)
    ensures Fits(Live(rs), c.frameSize) ==> !Run(c, es + more).overrun
    ensures Restarts(Run(c, es + more).handed, Live(rs))
    ensures Faultless(es) ==> Replays(Run(c, es + more).handed, Live(rs))
  {
    AlignedInit(c, rs);
    var ms, m := AlignedFrom(c, rs, Init(c), [], 0, es);
    hide RunFrom, Live, IsSavefile;
    var ms';
    more, ms' := NextPacket(c, rs, Run(c, es), ms, m);
    RunConcat(c, Init(c), es, more);
    ReplayOrder(c, rs, es + more);
  }

  lemma {:induction false} ReachesPacket(c: Config, rs: seq<Record>, m: nat) returns (es: seq<Event>, ms: seq<nat>)
    requires IsSavefile(c.file, rs) && m < |Live(rs)|
    requires forall k :: 0 <= k < m ==> PacketFits(Live(rs)[k], c.frameSize)
    ensures Aligned(c, rs, Run(c, es), ms, m) && !Run(c, es).eof && Faultless(es)
  {
    assert Run(c, []) == Init(c) && |Live(rs)[..m]| == m;
    hide RunFrom, Live, IsSavefile, Aligned, Distance;
    if m == 0 {
      AlignedInit(c, rs);
      es, ms := [], [];
    } else {
      es, ms := ReachesPacket(c, rs, m - 1);
      var more;
      more, ms := NextPacket(c, rs, Run(c, es), ms, m - 1);
      RunConcat(c, Init(c), es, more);
      es := es + more;
    }
  }

  /** No run overruns a slot exactly when every packet up to the first empty record fits
      one behind its header: the length handed to ldab_pcap_read is the whole frame size.
      Failing reads make no difference. */
  lemma OverrunExactly(c: Config, rs: seq<Record>)
    requires IsSavefile(c.file, rs)
    ensures (forall es :: !Run(c, es).overrun) <==> Fits(Live(rs), c.frameSize)
    ensures (forall es :: Faultless(es) ==> !Run(c, es).overrun) <==> Fits(Live(rs), c.frameSize)
  {
    hide RunFrom, Live, IsSavefile, Fits;
    if Fits(Live(rs), c.frameSize) {
      forall es
        ensures !Run(c, es).overrun
      {
        ReplayOrder(c, rs, es);
      }
    } else {
      var es := MisfitOverruns(c, rs);
    }
  }

  lemma MisfitOverruns(c: Config, rs: seq<Record>) returns (es: seq<Event>)
    requires IsSavefile(c.file, rs) && !Fits(Live(rs), c.frameSize)
    ensures Faultless(es) && Run(c, es).overrun
  {
    var m := FirstMisfit(Live(rs), c.frameSize);
    var ms;
    es, ms := ReachesPacket(c, rs, m);
    assert m <= |Live(rs)| && Live(rs) != [];
    hide RunFrom, Live, IsSavefile, Fits, Aligned;
    var more;
    more, ms := NextPacket(c, rs, Run(c, es), ms, m);
    RunConcat(c, Init(c), es, more);
    es := es + more;
  }

  lemma {:induction false} FirstMisfit(ps: seq<seq<byte>>, frameSize: u32) returns (m: nat)
    requires !Fits(ps, frameSize)
    ensures m < |ps| && !PacketFits(ps[m], frameSize)
    ensures forall k :: 0 <= k < m ==> PacketFits(ps[k], frameSize)
  {
    m := 0;
    while PacketFits(ps[m], frameSize)
      invariant m < |ps|
      decreases |ps| - m
      invariant forall k :: 0 <= k < m ==> PacketFits(ps[k], frameSize)
    {
      m := m + 1;
    }
  }

  /** A file of one record with a payload of 2017 zero bytes. */
  const LARGE := Record(0, 0, 2017, seq(2017, _ => 0 as byte))
  const LARGE_FILE := EncodeHeader(DefaultHeader(LINKTYPE_EN10MB)) + EncodeRecords([LARGE])

  /** Such a record, well below the supported frame size of 2048 bytes, overruns a slot of
      that size; one byte less would fit. */
  lemma LargeRecordOverruns(frameNr: nat) returns (es: seq<Event>)
    requires 1 <= frameNr
    ensures IsSavefile(LARGE_FILE, [LARGE]) && Faultless(es)
    ensures Run(RawConfig.Config(frameNr, 2048, LARGE_FILE), es).overrun
    ensures PacketFits(LARGE.payload[1..], 2048)
  {
    LargeMisfit();
    hide LARGE;
    es := OneRecordOverruns(LARGE, frameNr, 2048);
  }

  lemma LargeMisfit()
    ensures LARGE.payload != [] && !PacketFits(LARGE.payload, 2048) && PacketFits(LARGE.payload[1..], 2048)
  {
  }

  lemma OneRecordOverruns(r: Record, frameNr: nat, frameSize: u32) returns (es: seq<Event>)
    requires 1 <= frameNr && 1 <= frameSize && r.payload != [] && !PacketFits(r.payload, frameSize)
    ensures var file := EncodeHeader(DefaultHeader(LINKTYPE_EN10MB)) + EncodeRecords([r]);
            IsSavefile(file, [r]) && Faultless(es) && Run(RawConfig.Config(frameNr, frameSize, file), es).overrun
  {
    var header := EncodeHeader(DefaultHeader(LINKTYPE_EN10MB));
    FreshSavefile();
    hide IsSavefile, RunFrom, EncodeRecords, EncodeHeader;
    SavefileAppend(header, [], [r]);
    assert [] + [r] == [r];
    var ps := Live([r]);
    assert ps != [] && ps[0] == r.payload;
    hide Live;
    var c: Config := RawConfig.Config(frameNr, frameSize, header + EncodeRecords([r]));
    OverrunExactly(c, [r]);
    es :| Faultless(es) && Run(c, es).overrun;
  }

  // ---------------------------------------------------------------- what repetition means

  lemma {:induction false} RoundsLength(ps: seq<seq<byte>>, ms: seq<nat>)
    requires Full(ps, ms)
    ensures |Rounds(ps, ms)| == |ms| * |ps|
  {
    if ms != [] {
      RoundsLength(ps, ms[..|ms| - 1]);
      Distribute(|ps|, |ms| - 1, 1);
    }
  }

  lemma {:induction false} RoundsAt(ps: seq<seq<byte>>, ms: seq<nat>, k: nat)
    requires Full(ps, ms) && k < |ms| * |ps|
    ensures |Rounds(ps, ms)| == |ms| * |ps| && ps != []
    ensures Rounds(ps, ms)[k] == ps[k % |ps|]
  {
    RoundsLength(ps, ms);
    var n, laps := |ps|, |ms| - 1;
    assert n != 0;
    assert ms != [];
    RoundsLength(ps, ms[..laps]);
    if k < laps * n {
      RoundsAt(ps, ms[..laps], k);
    } else {
      DivMod(laps, k - laps * n, n);
    }
  }

  /** The k-th packet handed over is the (k mod n)-th of the n packets of the file. */
  lemma ReplaysPointwise(handed: seq<seq<byte>>, ps: seq<seq<byte>>, k: nat)
    requires Replays(handed, ps) && k < |handed|
    ensures ps != [] && handed[k] == ps[k % |ps|]
  {
    var ms: seq<nat>, m: nat :| Full(ps, ms) && m <= |ps| && handed == Rounds(ps, ms) + ps[..m];
    RoundsLength(ps, ms);
    if k < |ms| * |ps| {
      RoundsAt(ps, ms, k);
    } else {
      assert m != 0;
      DivMod(|ms|, k - |ms| * |ps|, |ps|);
    }
  }

  /** Position k is the first packet or the successor of the one before. */
  predicate Follows(at: seq<nat>, k: nat)
    requires k < |at|
  {
    at[k] == 0 || (0 < k && at[k] == at[k - 1] + 1)
  }

  /** Whatever read fails, each packet handed over is followed by its successor in the file or
      by the first packet, and the first one handed over is the first of the file. */
  lemma RestartsPointwise(handed: seq<seq<byte>>, ps: seq<seq<byte>>) returns (at: seq<nat>)
    requires Restarts(handed, ps)
    ensures |at| == |handed|
    ensures forall k :: 0 <= k < |at| ==> at[k] < |ps| && handed[k] == ps[at[k]]
    ensures forall k :: 0 <= k < |at| ==> Follows(at, k)
  {
    var ms: seq<nat> :| handed == Rounds(ps, ms);
    at := RoundsPointwise(handed, ps, ms);
  }

  lemma {:induction false} RoundsPointwise(handed: seq<seq<byte>>, ps: seq<seq<byte>>, ms: seq<nat>) returns (at: seq<nat>)
    requires handed == Rounds(ps, ms)
    ensures |at| == |handed|
    ensures forall k :: 0 <= k < |at| ==> at[k] < |ps| && handed[k] == ps[at[k]]
    ensures forall k :: 0 <= k < |at| ==> Follows(at, k)
    decreases |ms|
  {
    at := [];
    if ms != [] {
      var n := |ms| - 1;
      var m := Min(ms[n], |ps|);
      var before := Rounds(ps, ms[..n]);
      var earlier := RoundsPointwise(before, ps, ms[..n]);
      at := earlier + seq(m, k => k);
      assert forall k :: |before| <= k < |handed| ==> handed[k] == ps[k - |before|] && at[k] == k - |before|;
      forall k | 0 <= k < |at|
        ensures Follows(at, k)
      {
        if k < |earlier| {
          assert Follows(earlier, k);
        }
      }
    }
  }
}
