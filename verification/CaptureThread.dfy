/** ldab_packet_rx as it works: on the slots of the shared mapping and on the open pcap
    file, both changed in place. Each method is one step of the loop or of the kernel and
    is proved to make the step of RxRing. */
module CaptureThread {
  import opened Words
  import opened Pcap
  import PcapFile
  import opened RxRing

  class Capture {
    const config: Config
    const slots: array<Slot>
    const file: PcapFile.Savefile
    var head: nat
    var index: nat
    var pc: Pc
    ghost var delivered: seq<Frame>
    ghost var stored: seq<Frame>
    ghost var order: seq<int>

    ghost predicate Valid()
      reads this, slots, file
    {
      && slots.Length == config.frameNr && head < config.frameNr && index < config.frameNr
      && file.offset == |file.bytes|
    }

    ghost function Model(): (s: State)
      reads this, slots, file
      requires Valid()
      ensures Shaped(config, s)
    {
      State(slots[..], head, index, pc, file.bytes, delivered, stored, order)
    }

    constructor (config: Config, file: PcapFile.Savefile)
      requires file.offset == |file.bytes|
      ensures this.config == config && this.file == file && fresh(slots)
      ensures Valid() && Model() == Init(config, file.bytes)
    {
      var blank := Slot(TP_STATUS_KERNEL, RawFrame.Frame(1, 1, 0, 0, [0]));
      this.config, this.file := config, file;
      slots := new Slot[config.frameNr](_ => blank);
      head, index, pc := 0, 0, Top;
      delivered, stored, order := [], [], [];
      new;
      assert slots[..] == seq(config.frameNr, _ => blank);
    }

    /** The kernel receives a frame. */
    method Deliver(frame: Frame, status: UserStatus)
      requires Valid()
      modifies this, slots
      ensures Valid() && Model() == KernelStep(config, old(Model()), frame, status)
    {
      if slots[head].status == TP_STATUS_KERNEL {
        slots[head] := Slot(status, frame);
        head := if head + 1 == config.frameNr then 0 else head + 1;
        delivered := delivered + [frame];
      }
    }

    /** The thread takes its next step; poll is what poll(2) returns if it gets to call
        it, taken how many bytes the file takes if it gets to write. */
    method Proceed(poll: int, taken: nat)
      requires Valid()
      modifies this, slots, file
      ensures Valid() && Model() == UserStep(config, old(Model()), poll, taken)
    {
      match pc {
        case Top =>
          pc := if slots[index].status == TP_STATUS_KERNEL then Poll else Check;
        case Poll =>
          if poll < 0 {
            Continue();
          } else {
            pc := Check;
          }
        case Check =>
          if IsUser(slots[index].status) {
            pc := Store;
          } else {
            Continue();
          }
        case Store =>
          Copy(taken);
        case Release =>
          slots[index] := slots[index].(status := TP_STATUS_KERNEL);
          Continue();
      }
    }

    method Continue()
      requires Valid()
      modifies this`index, this`pc
      ensures Valid() && Model() == Advance(old(Model()))
    {
      index := if index + 1 == config.frameNr then 0 else index + 1;
      pc := Top;
    }

    method Copy(taken: nat)
      requires Valid() && pc.Store?
      modifies this, file
      ensures Valid() && Model() == UserStep(config, old(Model()), 0, taken)
    {
      hide Encode32;
      var f := slots[index].frame;
      var caplen := Min(f.snaplen, config.frameSize);
      ghost var record := EncodeRecord(RecordOf(f, config));
      if config.recording {
        var n := Min(taken, RECORD_HEADER + caplen);
        var headerTaken := Min(n, RECORD_HEADER);
        assert PcapFile.RecordOf(f.data, f.len, caplen, f.sec, f.usec) == RecordOf(f, config);
        var written := file.Write(f.data, f.len, caplen, f.sec, f.usec, headerTaken, n - headerTaken);
        assert file.bytes == old(file.bytes) + record[..n];
      }
      stored, order := stored + [f], order + [Number(old(Model()), index)];
      pc := Release;
    }

    /** Any interleaving of the two, cut off anywhere: a run of RxRing. */
    method Interleave(es: seq<Event>)
      requires Valid()
      modifies this, slots, file
      ensures Valid() && Model() == RunFrom(config, old(Model()), es)
    {
      hide UserStep, KernelStep;
      ghost var start := Model();
      for k := 0 to |es|
        invariant Valid() && RunFrom(config, Model(), es[k..]) == RunFrom(config, start, es)
      {
        assert es[k..][0] == es[k] && es[k..][1..] == es[k + 1..];
        match es[k]
        case Deliver(frame, status) => Deliver(frame, status);
        case User(poll, taken) => Proceed(poll, taken);
      }
      assert es[|es|..] == [];
    }
  }
}
