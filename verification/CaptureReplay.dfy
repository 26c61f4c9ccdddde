/** From the wire to the file and back: what a replay sends of what a capture received. */
module CaptureReplay {
  import opened Words
  import opened Pcap
  import Rx = RxRing
  import RxFifo
  import Tx = TxRing

  /** The thread copies a frame in this step. */
  predicate Copies(s: Rx.State, e: Rx.Event) {
    e.User? && s.pc.Store?
  }

  /** The length of the record that a copy writes. */
  function RecordLength(c: Rx.Config, s: Rx.State): nat
    requires Rx.Shaped(c, s)
  {
    RECORD_HEADER + |Rx.CapturedBytes(s.slots[s.index].frame, c)|
  }

  /** The system takes each record in full or, when the disk is full, nothing of it. */
  predicate AllOrNothing(c: Rx.Config, s: Rx.State, es: seq<Rx.Event>)
    requires Rx.Shaped(c, s)
    decreases |es|
  {
    es != [] ==>
      && (Copies(s, es[0]) ==> es[0].taken == 0 || RecordLength(c, s) <= es[0].taken)
      && AllOrNothing(c, Rx.Step(c, s, es[0]), es[1..])
  }

  /** Whether the system took the copy, if this step is one. */
  function TakenBy(s: Rx.State, e: Rx.Event): seq<bool> {
    if Copies(s, e) then [e.taken != 0] else []
  }

  /** For each copy of a run, whether the system took it. */
  function Taken(c: Rx.Config, s: Rx.State, es: seq<Rx.Event>): seq<bool>
    requires Rx.Shaped(c, s)
    decreases |es|
  {
    if es == [] then []
    else TakenBy(s, es[0]) + Taken(c, Rx.Step(c, s, es[0]), es[1..])
  }

  /** The frames that were taken. */
  function Select(fs: seq<Rx.Frame>, kept: seq<bool>): seq<Rx.Frame>
    requires |fs| == |kept|
  {
    if fs == [] then []
    else Select(fs[..|fs| - 1], kept[..|fs| - 1]) + (if kept[|fs| - 1] then [fs[|fs| - 1]] else [])
  }

  lemma SelectSnoc(fs: seq<Rx.Frame>, kept: seq<bool>, f: Rx.Frame, k: bool)
    requires |fs| == |kept|
    ensures Select(fs + [f], kept + [k]) == Select(fs, kept) + (if k then [f] else [])
  {
    assert (fs + [f])[..|fs|] == fs && (kept + [k])[..|fs|] == kept;
  }

  /** If all were taken, these are all frames. */
  lemma {:induction false} SelectAll(fs: seq<Rx.Frame>, kept: seq<bool>)
    requires |fs| == |kept| && forall k :: 0 <= k < |kept| ==> kept[k]
    ensures Select(fs, kept) == fs
  {
    if fs != [] {
      SelectAll(fs[..|fs| - 1], kept[..|fs| - 1]);
    }
  }

  /** The file holds, behind base, the records of the frames that were kept. */
  predicate Recorded(c: Rx.Config, s: Rx.State, base: seq<byte>, kept: seq<bool>) {
    |kept| == |s.stored| && s.file == base + EncodeRecords(Rx.RecordsOf(Select(s.stored, kept), c))
  }

  lemma RecordsStep(c: Rx.Config, s: Rx.State, base: seq<byte>, kept: seq<bool>, e: Rx.Event)
    requires Rx.Shaped(c, s) && c.recording && Recorded(c, s, base, kept)
    requires Copies(s, e) ==> e.taken == 0 || RecordLength(c, s) <= e.taken
    ensures Recorded(c, Rx.Step(c, s, e), base, kept + TakenBy(s, e))
  {
    hide EncodeRecord, EncodeRecords, Select;
    if Copies(s, e) {
      var f, r := s.slots[s.index].frame, Rx.Step(c, s, e);
      var record := EncodeRecord(Rx.RecordOf(f, c));
      SelectSnoc(s.stored, kept, f, e.taken != 0);
      var before := Select(s.stored, kept);
      if e.taken == 0 {
        assert before + [] == before && s.file + record[..0] == s.file;
      } else {
        assert record[..|record|] == record;
        EncodeRecordsSnoc(Rx.RecordsOf(before, c), Rx.RecordOf(f, c));
        assert Rx.RecordsOf(before + [f], c) == Rx.RecordsOf(before, c) + [Rx.RecordOf(f, c)];
        Associative(base, EncodeRecords(Rx.RecordsOf(before, c)), record);
      }
    } else {
      assert kept + [] == kept;
    }
  }

  /** With every write taken in full or not at all, the file grows by exactly the records of
      the frames whose writes were taken. */
  lemma {:induction false} RecordsStored(c: Rx.Config, s: Rx.State, base: seq<byte>, kept: seq<bool>, es: seq<Rx.Event>)
    requires Rx.Shaped(c, s) && c.recording && AllOrNothing(c, s, es) && Recorded(c, s, base, kept)
    ensures Recorded(c, Rx.RunFrom(c, s, es), base, kept + Taken(c, s, es))
    decreases |es|
  {
    hide Rx.Step, Recorded, TakenBy;
    if es == [] {
      assert kept + [] == kept;
    } else {
      var next, rest, added := Rx.Step(c, s, es[0]), es[1..], TakenBy(s, es[0]);
      RecordsStep(c, s, base, kept, es[0]);
      RecordsStored(c, next, base, kept + added, rest);
      TakenRegroup(kept, added, Taken(c, next, rest));
      hide AllOrNothing;
    }
  }

  lemma TakenRegroup(x: seq<bool>, y: seq<bool>, z: seq<bool>)
    ensures (x + y) + z == x + (y + z)
  {
  }

  const FRESH_FILE: seq<byte> := EncodeHeader(DefaultHeader(LINKTYPE_EN10MB))

  /** The bytes captured of a list of frames. */
  function Captured(fs: seq<Rx.Frame>, c: Rx.Config): (ps: seq<seq<byte>>)
    ensures |ps| == |fs|
    ensures forall k :: 0 <= k < |fs| ==> ps[k] == fs[k].data[..Min(fs[k].snaplen, c.frameSize)]
  {
    seq(|fs|, k requires 0 <= k < |fs| => Rx.CapturedBytes(fs[k], c))
  }

  /** The frames of a run that reached the file. */
  function Kept(c: Rx.Config, file: seq<byte>, es: seq<Rx.Event>): seq<Rx.Frame>
    requires |Taken(c, Rx.Init(c, file), es)| == |Rx.Run(c, file, es).stored|
  {
    Select(Rx.Run(c, file, es).stored, Taken(c, Rx.Init(c, file), es))
  }

  /** A capture into a file that already holds records, whatever poll does: the file then
      holds these followed by the stored frames that were taken, which are all of them if no
      write was refused. */
  lemma CaptureAppends(c: Rx.Config, file: seq<byte>, rs: seq<Record>, es: seq<Rx.Event>)
    requires IsSavefile(file, rs) && c.recording && AllOrNothing(c, Rx.Init(c, file), es)
    ensures var s, taken := Rx.Run(c, file, es), Taken(c, Rx.Init(c, file), es);
            && |taken| == |s.stored|
            && file <= s.file && IsSavefile(s.file, rs + Rx.RecordsOf(Kept(c, file, es), c))
            && ((forall k :: 0 <= k < |taken| ==> taken[k]) ==> Kept(c, file, es) == s.stored)
  {
    hide IsSavefile, EncodeRecord, Rx.RunFrom, AllOrNothing, Taken;
    var s, taken := Rx.Run(c, file, es), Taken(c, Rx.Init(c, file), es);
    assert Rx.RecordsOf([], c) == [];
    assert file + EncodeRecords([]) == file;
    RecordsStored(c, Rx.Init(c, file), file, [], es);
    assert [] + taken == taken;
    SavefileAppend(file, rs, Rx.RecordsOf(Kept(c, file, es), c));
    if forall k :: 0 <= k < |taken| ==> taken[k] {
      SelectAll(s.stored, taken);
    }
  }

  /** The bytes that records of these frames take. */
  function SizeOf(fs: seq<Rx.Frame>, c: Rx.Config): nat {
    if fs == [] then 0 else SizeOf(fs[..|fs| - 1], c) + 16 + Min(fs[|fs| - 1].snaplen, c.frameSize)
  }

  lemma {:induction false} EncodedSize(fs: seq<Rx.Frame>, c: Rx.Config)
    ensures |EncodeRecords(Rx.RecordsOf(fs, c))| == SizeOf(fs, c)
  {
    assert EncodeRecords([]) == [];
    hide EncodeRecord, EncodeRecords;
    if fs != [] {
      var n := |fs| - 1;
      EncodedSize(fs[..n], c);
      assert Rx.RecordsOf(fs, c) == Rx.RecordsOf(fs[..n], c) + [Rx.RecordOf(fs[n], c)];
      EncodeRecordsSnoc(Rx.RecordsOf(fs[..n], c), Rx.RecordOf(fs[n], c));
    }
  }

  /** The file byte by byte: behind the bytes it held before, the records of the frames taken
      follow each other, each with the frame's time stamp, captured length and full length,
      four bytes each, and then the captured bytes. */
  lemma CapturedFields(c: Rx.Config, file: seq<byte>, rs: seq<Record>, es: seq<Rx.Event>, k: nat)
    requires IsSavefile(file, rs) && c.recording && AllOrNothing(c, Rx.Init(c, file), es)
    ensures |Taken(c, Rx.Init(c, file), es)| == |Rx.Run(c, file, es).stored|
    ensures var fs, b := Kept(c, file, es), Rx.Run(c, file, es).file;
            k < |fs| ==>
            var f, o, n := fs[k], |file| + SizeOf(fs[..k], c), Min(fs[k].snaplen, c.frameSize);
            && |b| == |file| + SizeOf(fs, c) && o + 16 + n <= |b|
            && Decode32(b[o..o + 4]) == f.sec && Decode32(b[o + 4..o + 8]) == f.usec
            && Decode32(b[o + 8..o + 12]) == n && Decode32(b[o + 12..o + 16]) == f.len
            && b[o + 16..o + 16 + n] == f.data[..n]
  {
    hide IsSavefile, Rx.RunFrom, AllOrNothing, Taken, Kept, EncodeRecord, EncodeRecords, Decode32, CaplenAt;
    CaptureAppends(c, file, rs, es);
    var fs := Kept(c, file, es);
    if k < |fs| {
      FileBytes(c, file, es);
      EncodedSize(fs, c);
      EncodedSize(fs[..k], c);
      FrameFields(c, file, fs, k);
    }
  }

  lemma FileBytes(c: Rx.Config, file: seq<byte>, es: seq<Rx.Event>)
    requires c.recording && AllOrNothing(c, Rx.Init(c, file), es)
    requires |Taken(c, Rx.Init(c, file), es)| == |Rx.Run(c, file, es).stored|
    ensures Rx.Run(c, file, es).file == file + EncodeRecords(Rx.RecordsOf(Kept(c, file, es), c))
  {
    hide Rx.RunFrom, AllOrNothing, Taken;
    assert Rx.RecordsOf([], c) == [];
    assert file + EncodeRecords([]) == file;
    RecordsStored(c, Rx.Init(c, file), file, [], es);
    assert [] + Taken(c, Rx.Init(c, file), es) == Taken(c, Rx.Init(c, file), es);
  }

  lemma FrameFields(c: Rx.Config, file: seq<byte>, fs: seq<Rx.Frame>, k: nat)
    requires k < |fs|
    ensures var b := file + EncodeRecords(Rx.RecordsOf(fs, c));
            var f, o, n := fs[k], |file| + |EncodeRecords(Rx.RecordsOf(fs[..k], c))|, Min(fs[k].snaplen, c.frameSize);
            && o + 16 + n <= |b|
            && Decode32(b[o..o + 4]) == f.sec && Decode32(b[o + 4..o + 8]) == f.usec
            && Decode32(b[o + 8..o + 12]) == n && Decode32(b[o + 12..o + 16]) == f.len
            && b[o + 16..o + 16 + n] == f.data[..n]
  {
    hide EncodeRecords, Decode32, EncodeRecord;
    var xs, r, ys := Rx.RecordsOf(fs[..k], c), Rx.RecordOf(fs[k], c), Rx.RecordsOf(fs[k + 1..], c);
    assert Rx.RecordsOf(fs, c) == (xs + [r]) + ys;
    EncodeRecordsConcat(xs + [r], ys);
    EncodeRecordsSnoc(xs, r);
    Associative(file, EncodeRecords(xs) + EncodeRecord(r), EncodeRecords(ys));
    Associative(file, EncodeRecords(xs), EncodeRecord(r));
    RecordFields(file + EncodeRecords(xs), r, EncodeRecords(ys));
  }

  /** A write cut off in between breaks the file: after it, the file is well-formed exactly
      if the record was taken in full or not at all. */
  lemma CutWriteBreaksFile(c: Rx.Config, file: seq<byte>, rs: seq<Record>, es: seq<Rx.Event>, poll: int, taken: nat)
    requires IsSavefile(file, rs) && c.recording && AllOrNothing(c, Rx.Init(c, file), es)
    requires Rx.Run(c, file, es).pc.Store?
    ensures WellFormed(Rx.Run(c, file, es + [Rx.User(poll, taken)]).file) <==>
            taken == 0 || RecordLength(c, Rx.Run(c, file, es)) <= taken
  {
    hide IsSavefile, Rx.RunFrom, AllOrNothing, Kept, Taken, Rx.Step, WellFormed, EncodeRecord, Rx.RecordsOf;
    var s, e := Rx.Run(c, file, es), Rx.User(poll, taken);
    CaptureAppends(c, file, rs, es);
    Rx.RunConcat(c, Rx.Init(c, file), es, [e]);
    CopyAppends(c, s, poll, taken);
    SavefileThenPart(s.file, rs + Rx.RecordsOf(Kept(c, file, es), c), Rx.RecordOf(s.slots[s.index].frame, c), Min(taken, RecordLength(c, s)));
  }

  lemma CopyAppends(c: Rx.Config, s: Rx.State, poll: int, taken: nat)
    requires Rx.Shaped(c, s) && c.recording && s.pc.Store?
    ensures var record := EncodeRecord(Rx.RecordOf(s.slots[s.index].frame, c));
            && |record| == RecordLength(c, s)
            && Rx.RunFrom(c, s, [Rx.User(poll, taken)]).file == s.file + record[..Min(taken, |record|)]
  {
    hide EncodeRecord;
    var e := Rx.User(poll, taken);
    assert [e][1..] == [];
  }

  /** A capture into a fresh file leaves a savefile of the captured packets, all of which
      a replay will reach: a stored frame has at least one byte. */
  lemma CapturedFile(c: Rx.Config, es: seq<Rx.Event>) returns (rs: seq<Record>)
    requires c.recording && AllOrNothing(c, Rx.Init(c, FRESH_FILE), es)
    ensures |Taken(c, Rx.Init(c, FRESH_FILE), es)| == |Rx.Run(c, FRESH_FILE, es).stored|
    ensures rs == Rx.RecordsOf(Kept(c, FRESH_FILE, es), c)
    ensures IsSavefile(Rx.Run(c, FRESH_FILE, es).file, rs) && Tx.Live(rs) == Captured(Kept(c, FRESH_FILE, es), c)
  {
    FreshSavefile();
    CaptureAppends(c, FRESH_FILE, [], es);
    hide IsSavefile, Rx.RunFrom, AllOrNothing, Kept, Taken;
    var fs := Kept(c, FRESH_FILE, es);
    rs := Rx.RecordsOf(fs, c);
    assert [] + rs == rs;
    Tx.LiveExactly(rs);
    assert Payloads(rs) == Captured(fs, c);
  }

  /** Capture, then replay. For any capture run into a fresh file whose writes are taken in
      full or not at all, a replay of that file, under any kernel schedule, hands over exactly
      the captured bytes of the frames taken, in order, over and over; a read that fails makes
      it start over early and does no other harm. It never overruns a slot exactly when each
      captured packet fits a transmit slot behind its header. When poll returned only for
      waiting frames, the stored frames are the delivered ones in delivery order, and when no
      write was refused, all of them are replayed. */
  lemma CaptureThenReplay(rc: Rx.Config, es: seq<Rx.Event>, tc: Tx.Config)
    requires rc.recording && AllOrNothing(rc, Rx.Init(rc, FRESH_FILE), es)
    requires tc.file == Rx.Run(rc, FRESH_FILE, es).file
    ensures var s, taken := Rx.Run(rc, FRESH_FILE, es), Taken(rc, Rx.Init(rc, FRESH_FILE), es);
            && |taken| == |s.stored|
            && var ps := Captured(Kept(rc, FRESH_FILE, es), rc);
            && (forall ts :: Tx.Restarts(Tx.Run(tc, ts).handed, ps))
            && (forall ts :: Tx.Faultless(ts) ==> Tx.Replays(Tx.Run(tc, ts).handed, ps))
            && ((forall ts :: !Tx.Run(tc, ts).overrun) <==> Tx.Fits(ps, tc.frameSize))
            && ((forall k :: 0 <= k < |taken| ==> taken[k]) ==> Kept(rc, FRESH_FILE, es) == s.stored)
            && (RxFifo.Obeys(RxFifo.STRICT, rc, Rx.Init(rc, FRESH_FILE), es) ==> s.stored <= s.delivered)
  {
    hide IsSavefile, Rx.RunFrom, Tx.RunFrom, AllOrNothing, Taken, Kept, Tx.Live, RxFifo.Obeys, Tx.Fits, Tx.Replays, Tx.Restarts, Tx.Faultless;
    var rs := CapturedFile(rc, es);
    FreshSavefile();
    CaptureAppends(rc, FRESH_FILE, [], es);
    Tx.OverrunExactly(tc, rs);
    forall ts
      ensures Tx.Restarts(Tx.Run(tc, ts).handed, Tx.Live(rs))
      ensures Tx.Faultless(ts) ==> Tx.Replays(Tx.Run(tc, ts).handed, Tx.Live(rs))
    {
      Tx.ReplayOrder(tc, rs, ts);
    }
    if RxFifo.Obeys(RxFifo.STRICT, rc, Rx.Init(rc, FRESH_FILE), es) {
      RxFifo.Fifo(rc, FRESH_FILE, es);
    }
  }
}
