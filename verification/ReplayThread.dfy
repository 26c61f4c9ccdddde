/** ldab_packet_tx as it works: on the slots of the shared mapping and on the open pcap
    file, both changed in place. Each method is one step of the loop or of the kernel and
    is proved to make the step of TxRing. */
module ReplayThread {
  import opened Words
  import opened Pcap
  import PcapFile
  import opened TxRing

  class Replay {
    const config: Config
    const slots: array<Slot>
    const file: PcapFile.Savefile
    const buffer: array<byte>
    var a: nat
    var pc: Pc
    var eof: bool
    var obytes: nat
    var overrun: bool
    ghost var handed: seq<seq<byte>>

    ghost predicate Valid()
      reads this, slots, file
    {
      && slots.Length == config.frameNr && a <= config.frameNr
      && (pc.Read? || pc.IsFilling() ==> a < config.frameNr)
      && file.bytes == config.file && buffer.Length == config.frameSize
    }

    ghost function Model(): (s: State)
      reads this, slots, file
      requires Valid()
      ensures Shaped(config, s)
    {
      State(slots[..], a, pc, eof, obytes, file.offset, handed, overrun)
    }

    constructor (config: Config, file: PcapFile.Savefile)
      requires file.bytes == config.file && file.offset == FILE_HEADER
      ensures this.config == config && this.file == file && fresh(slots) && fresh(buffer)
      ensures Valid() && Model() == Init(config)
    {
      this.config, this.file := config, file;
      slots := new Slot[config.frameNr](_ => Slot(TP_STATUS_AVAILABLE, 0, 0, []));
      buffer := new byte[config.frameSize];
      a, pc, eof, obytes, overrun := 0, Check, false, 0, false;
      handed := [];
      new;
      assert slots[..] == seq(config.frameNr, _ => Slot(TP_STATUS_AVAILABLE, 0, 0, []));
    }

    /** The kernel changes the status of a slot in its hands. */
    method Complete(i: nat, status: nat)
      requires Valid() && !overrun
      modifies slots
      ensures Valid() && Model() == Step(config, old(Model()), Kernel(i, status))
    {
      if i < config.frameNr && slots[i].status != TP_STATUS_AVAILABLE {
        slots[i] := slots[i].(status := status);
      }
    }

    /** The thread takes its next step; fault is what befalls the file if it reads. */
    method Proceed(fault: Fault)
      requires Valid() && !overrun
      modifies this, slots, file, buffer
      ensures Valid() && Model() == Step(config, old(Model()), User(fault))
    {
      hide Visible, Fill, ReadWith;
      match pc {
        case Check =>
          if a == config.frameNr {
            pc := Send;
          } else if slots[a].status == TP_STATUS_AVAILABLE {
            pc := Read;
          } else {
            a := a + 1;
          }
        case Read =>
          ReadNext(fault);
        case Send =>
          if eof {
            pc := Rewind;
          } else {
            a := 0;
            pc := Check;
          }
        case Rewind =>
          var rc := file.Rewind(true);
          eof := false;
          a := 0;
          pc := Check;
        case _ =>
          Announce(fault);
      }
    }

    /** Stores the lengths of the packet, then the status that hands it over. */
    method Announce(ghost fault: Fault)
      requires Valid() && !overrun && pc.IsFilling()
      modifies this, slots
      ensures Valid() && Model() == UserStep(config, old(Model()), fault)
    {
      hide Visible;
      match pc {
        case SetLen =>
          slots[a] := slots[a].(len := obytes);
          pc := SetSnaplen;
        case SetSnaplen =>
          slots[a] := slots[a].(snaplen := obytes);
          pc := Publish;
        case Publish =>
          handed := handed + [Visible(slots[a])];
          slots[a] := slots[a].(status := TP_STATUS_SEND_REQUEST);
          a := a + 1;
          pc := Check;
      }
    }

    /** Reads the next packet into the available slot, or notices that there is none. */
    method ReadNext(fault: Fault)
      requires Valid() && !overrun && pc.Read?
      modifies this, slots, file, buffer
      ensures Valid() && Model() == UserStep(config, old(Model()), fault)
    {
      hide ReadWith, Filled;
      var n := file.Read(buffer, config.frameSize, fault);
      if n <= 0 {
        assert buffer[..0] == [];
        eof := true;
        pc := Send;
      } else {
        obytes := n;
        slots[a] := slots[a].(data := Filled(slots[a].data, buffer[..n]));
        overrun := TPLEN + n > config.frameSize;
        pc := SetLen;
      }
    }

    /** Any interleaving of the two, cut off anywhere: a run of TxRing. */
    method Interleave(es: seq<Event>)
      requires Valid()
      modifies this, slots, file, buffer
      ensures Valid() && Model() == RunFrom(config, old(Model()), es)
    {
      hide UserStep, KernelStep;
      ghost var start := Model();
      for k := 0 to |es|
        invariant Valid() && RunFrom(config, Model(), es[k..]) == RunFrom(config, start, es)
      {
        assert es[k..][0] == es[k] && es[k..][1..] == es[k + 1..];
        if !overrun {
          match es[k]
          case Kernel(slot, status) => Complete(slot, status);
          case User(fault) => Proceed(fault);
        }
      }
      assert es[|es|..] == [];
    }
  }
}
