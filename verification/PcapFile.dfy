/** The pcap operations as the source performs them: on an open file, whose bytes and
    offset they change in place. What the system calls return is an argument. */
module PcapFile {
  import opened Errno
  import opened Options
  import opened Words
  import opened Pcap

  datatype OpenResult = Opened | Refused(errno: int)

  /** What goes wrong while a file is opened: the errno of open(2) or 0, whether the header
      can be read, the errno of lseek(2) or 0. */
  datatype OpenAnswers = OpenAnswers(open: int, readable: bool, seek: int)

  const NO_ERRORS := OpenAnswers(0, true, 0)

  /** The result of ldab_pcap_open. */
  function OpenCode(bytes: seq<byte>, append: bool, answers: OpenAnswers): (r: OpenResult)
    ensures r.Refused? ==> r.errno != 0
    ensures r.Opened? <==>
            && answers.open == 0 && answers.readable && 24 <= |bytes| && EthernetBytes(bytes)
            && (append ==> answers.seek == 0)
  {
    HeaderBytes(bytes);
    if answers.open != 0 then Refused(answers.open)
    else if !answers.readable || |bytes| < FILE_HEADER then Refused(EIO)
    else if !HeaderAccepted(DecodeHeader(bytes[..FILE_HEADER])) then Refused(EINVAL)
    else if append && answers.seek != 0 then Refused(answers.seek)
    else Opened
  }

  function Zeros(n: nat): seq<byte> {
    seq(n, _ => 0)
  }

  lemma HeaderBytes(bytes: seq<byte>)
    ensures FILE_HEADER <= |bytes| ==>
              (HeaderAccepted(DecodeHeader(bytes[..FILE_HEADER])) <==> EthernetBytes(bytes))
  {
    hide HeaderAccepted, DecodeHeader;
    if FILE_HEADER <= |bytes| {
      AcceptedBytes(bytes[..FILE_HEADER]);
      SlicePrefix(bytes, FILE_HEADER, 0, 8);
      SlicePrefix(bytes, FILE_HEADER, 20, 24);
    }
  }

  lemma SlicePrefix(bytes: seq<byte>, n: nat, i: nat, j: nat)
    requires i <= j <= n <= |bytes|
    ensures bytes[..n][i..j] == bytes[i..j]
  {
  }

  /** write(2) at an offset: overwrites, extends, and fills a gap past the end. */
  function Overwrite(bytes: seq<byte>, off: nat, data: seq<byte>): seq<byte> {
    if data == [] then bytes
    else if |bytes| < off then bytes + Zeros(off - |bytes|) + data
    else bytes[..off] + data + (if off + |data| < |bytes| then bytes[off + |data|..] else [])
  }

  lemma OverwriteTwice(bytes: seq<byte>, off: nat, x: seq<byte>, y: seq<byte>)
    ensures Overwrite(Overwrite(bytes, off, x), off + |x|, y) == Overwrite(bytes, off, x + y)
  {
    var once := Overwrite(bytes, off, x);
    if x == [] {
      assert x + y == y;
    } else if y == [] {
      assert x + y == x;
    } else if |bytes| < off {
      assert once == (bytes + Zeros(off - |bytes|)) + x;
      assert once[..off + |x|] == once;
    } else {
      assert once[..off + |x|] == bytes[..off] + x;
      if off + |x| + |y| < |bytes| {
        assert once[off + |x| + |y|..] == bytes[off + |x| + |y|..];
      }
    }
  }

  /** Byte k of the file after such a write. */
  lemma OverwriteAt(bytes: seq<byte>, off: nat, data: seq<byte>, k: nat)
    ensures var r := Overwrite(bytes, off, data);
            && |r| == (if data == [] || off + |data| < |bytes| then |bytes| else off + |data|)
            && (k < |r| ==> r[k] == if off <= k < off + |data| then data[k - off] else if k < |bytes| then bytes[k] else 0)
  {
  }

  /** The record ldab_pcap_write makes of its arguments: every header field, the captured
      length included, is cut to 32 bits. */
  function RecordOf(pkt: seq<byte>, pktLen: nat, pktSnaplen: nat, sec: nat, usec: nat): Record
    requires pktSnaplen % U32 <= |pkt|
  {
    Record(sec % U32, usec % U32, pktLen % U32, pkt[..pktSnaplen % U32])
  }

  /** Bytes that reach the file when the header write and the payload write take this
      many each (-1 for an error): the payload is not tried after a short header. */
  function Reached(headerTaken: int, bodyTaken: int): nat {
    if headerTaken != RECORD_HEADER then (if headerTaken < 0 then 0 else headerTaken)
    else RECORD_HEADER + (if bodyTaken < 0 then 0 else bodyTaken)
  }

  /** Where the fields of a record and the bytes of a packet end up. */
  lemma WrittenFields(bytes: seq<byte>, o: nat, pkt: seq<byte>, pktLen: nat, pktSnaplen: nat, sec: nat, usec: nat, m: nat)
    requires m <= pktSnaplen % U32 <= |pkt|
    ensures var b := Overwrite(bytes, o, EncodeRecord(RecordOf(pkt, pktLen, pktSnaplen, sec, usec))[..16 + m]);
            && o + 16 + m <= |b|
            && Decode32(b[o..o + 4]) == sec % U32 && Decode32(b[o + 4..o + 8]) == usec % U32
            && Decode32(b[o + 8..o + 12]) == pktSnaplen % U32 && Decode32(b[o + 12..o + 16]) == pktLen % U32
            && b[o + 16..o + 16 + m] == pkt[..m]
  {
    hide Overwrite, EncodeRecord, Decode32;
    var r := RecordOf(pkt, pktLen, pktSnaplen, sec, usec);
    var part := EncodeRecord(r)[..16 + m];
    OverwriteSlice(bytes, o, part);
    PartFields(r, Overwrite(bytes, o, part), o, m);
  }

  /** A copy of the first part of a record at o. */
  lemma PartFields(r: Record, b: seq<byte>, o: nat, m: nat)
    requires m <= |r.payload| && o + 16 + m <= |b| && b[o..o + 16 + m] == EncodeRecord(r)[..16 + m]
    ensures Decode32(b[o..o + 4]) == r.sec && Decode32(b[o + 4..o + 8]) == r.usec
    ensures Decode32(b[o + 8..o + 12]) == |r.payload| && Decode32(b[o + 12..o + 16]) == r.len
    ensures b[o + 16..o + 16 + m] == r.payload[..m]
  {
    RecordFields([], r, []);
    hide EncodeRecord, Decode32;
    var record := EncodeRecord(r);
    assert [] + record + [] == record;
    var part := b[o..o + 16 + m];
    Slice(b, o, part, 0, 4);
    Slice(b, o, part, 4, 8);
    Slice(b, o, part, 8, 12);
    Slice(b, o, part, 12, 16);
    Slice(b, o, part, 16, 16 + m);
    assert record[16..16 + m] == record[16..16 + |r.payload|][..m];
    Slice(record, 0, part, 0, 4);
    Slice(record, 0, part, 4, 8);
    Slice(record, 0, part, 8, 12);
    Slice(record, 0, part, 12, 16);
    Slice(record, 0, part, 16, 16 + m);
  }

  lemma Slice(b: seq<byte>, o: nat, part: seq<byte>, i: nat, j: nat)
    requires i <= j <= |part| && o + |part| <= |b| && b[o..o + |part|] == part
    ensures b[o + i..o + j] == part[i..j]
  {
    var x, y := b[o + i..o + j], part[i..j];
    forall k | 0 <= k < j - i
      ensures x[k] == y[k]
    {
      assert b[o..o + |part|][i + k] == b[o + i + k];
    }
  }

  lemma OverwriteSlice(bytes: seq<byte>, off: nat, data: seq<byte>)
    requires data != []
    ensures var r := Overwrite(bytes, off, data); off + |data| <= |r| && r[off..off + |data|] == data
  {
  }

  class Savefile {
    var bytes: seq<byte>
    var offset: nat

    /** ldab_pcap_create; a file that creat(2) refuses is not touched, one whose header
        cannot be written is deleted. */
    method Create(linktype: u32, creatable: bool, taken: int) returns (ok: bool)
      requires -1 <= taken <= FILE_HEADER
      modifies this
      ensures ok <==> creatable && taken == FILE_HEADER
      ensures ok ==> bytes == EncodeHeader(DefaultHeader(linktype)) && offset == FILE_HEADER
      ensures ok && linktype == LINKTYPE_EN10MB ==> IsSavefile(bytes, [])
      ensures !creatable ==> unchanged(this)
      ensures creatable && !ok ==> bytes == []
    {
      if !creatable {
        return false;
      }
      offset := if taken < 0 then 0 else taken;
      bytes := EncodeHeader(DefaultHeader(linktype))[..offset];
      ok := taken == FILE_HEADER;
      if !ok {
        bytes := [];
      }
      FreshSavefile();
    }

    /** ldab_pcap_open: validates the header, then for append moves to the end. */
    method Open(append: bool, answers: OpenAnswers) returns (r: OpenResult)
      modifies this`offset
      ensures r == OpenCode(bytes, append, answers)
      ensures r.Opened? <==>
              && answers.open == 0 && answers.readable && 24 <= |bytes| && EthernetBytes(bytes)
              && (append ==> answers.seek == 0)
      ensures r.Refused? ==>
                r.errno == if answers.open != 0 then answers.open
                           else if !answers.readable || |bytes| < 24 then EIO
                           else if !EthernetBytes(bytes) then EINVAL
                           else answers.seek
      ensures r.Opened? ==> offset == if append then |bytes| else FILE_HEADER
    {
      HeaderBytes(bytes);
      hide HeaderAccepted, DecodeHeader, EthernetBytes;
      if answers.open != 0 {
        return Refused(answers.open);
      }
      offset := 0;
      if !answers.readable {
        return Refused(EIO);
      }
      if |bytes| < FILE_HEADER {
        offset := |bytes|;
        return Refused(EIO);
      }
      offset := FILE_HEADER;
      if !HeaderAccepted(DecodeHeader(bytes[..FILE_HEADER])) {
        return Refused(EINVAL);
      }
      if append {
        if answers.seek != 0 {
          return Refused(answers.seek);
        }
        offset := |bytes|;
      }
      r := Opened;
    }

    /** ldab_pcap_write. The assertion on pkt_snaplen is the source's own. */
    method Write(pkt: seq<byte>, pktLen: nat, pktSnaplen: nat, sec: nat, usec: nat, headerTaken: int, bodyTaken: int)
      returns (written: int)
      requires pktSnaplen > 0
      requires pktSnaplen % U32 <= |pkt|
      requires -1 <= headerTaken <= RECORD_HEADER && -1 <= bodyTaken <= pktSnaplen % U32
      modifies this
      ensures var r := RecordOf(pkt, pktLen, pktSnaplen, sec, usec);
              var n := Reached(headerTaken, bodyTaken);
              && bytes == Overwrite(old(bytes), old(offset), EncodeRecord(r)[..n])
              && offset == old(offset) + n
              && written == if headerTaken == RECORD_HEADER && bodyTaken == |r.payload| then |r.payload| else -1
      ensures written == if headerTaken == 16 && bodyTaken == pktSnaplen % 0x1_0000_0000 then bodyTaken else -1
      ensures headerTaken < 16 ==> offset == old(offset) + if headerTaken < 0 then 0 else headerTaken
      ensures headerTaken == 16 ==> offset == old(offset) + 16 + if bodyTaken < 0 then 0 else bodyTaken
      ensures var o := old(offset);
              headerTaken == 16 ==>
                && o + 16 <= |bytes|
                && Decode32(bytes[o..o + 4]) == sec % 0x1_0000_0000
                && Decode32(bytes[o + 4..o + 8]) == usec % 0x1_0000_0000
                && Decode32(bytes[o + 8..o + 12]) == pktSnaplen % 0x1_0000_0000
                && Decode32(bytes[o + 12..o + 16]) == pktLen % 0x1_0000_0000
                && (0 <= bodyTaken ==> o + 16 + bodyTaken <= |bytes| && bytes[o + 16..o + 16 + bodyTaken] == pkt[..bodyTaken])
    {
      hide Encode32, Overwrite, Decode32;
      var caplen := pktSnaplen % U32;
      var header := Encode32(sec % U32) + Encode32(usec % U32) + Encode32(caplen) + Encode32(pktLen % U32);
      ghost var record := EncodeRecord(RecordOf(pkt, pktLen, pktSnaplen, sec, usec));
      assert record == header + pkt[..caplen];

      var n := if headerTaken < 0 then 0 else headerTaken;
      bytes, offset := Overwrite(bytes, offset, header[..n]), offset + n;
      assert header[..n] == record[..n];
      if headerTaken != RECORD_HEADER {
        return -1;
      }

      var m := if bodyTaken < 0 then 0 else bodyTaken;
      OverwriteTwice(old(bytes), old(offset), header[..n], pkt[..m]);
      assert header[..n] + pkt[..m] == record[..n + m];
      bytes, offset := Overwrite(bytes, offset, pkt[..m]), offset + m;
      WrittenFields(old(bytes), old(offset), pkt, pktLen, pktSnaplen, sec, usec, m);
      written := if bodyTaken != caplen then -1 else bodyTaken;
    }

    /** ldab_pcap_read, into the caller's buffer: 0 if the record header cannot be read in
        full, -1 if the read of the payload fails. */
    method Read(pkt: array<byte>, pktLen: u32, fault: Fault) returns (n: int)
      requires 0 < pktLen <= pkt.Length
      modifies this`offset, pkt
      ensures n == -1 <==> fault.BodyFault? && old(offset) + RECORD_HEADER <= |bytes|
      ensures -1 <= n <= pktLen
      ensures var got := if n < 0 then 0 else n;
              (pkt[..got], offset) == ReadWith(bytes, old(offset), pktLen, fault) && pkt[got..] == old(pkt[..])[got..]
      ensures var o := old(offset);
              if fault.HeaderFault? || |bytes| < o + 16 then
                n == 0 && offset == if fault.HeaderFault? || |bytes| < o then o else |bytes|
              else if fault.BodyFault? then
                offset == o + 16
              else
                && n == Min(Min(Decode32(bytes[o + 8..o + 12]), pktLen), |bytes| - (o + 16))
                && offset == o + 16 + n && pkt[..n] == bytes[o + 16..o + 16 + n]
    {
      hide Decode32;
      if fault.HeaderFault? {
        return 0;
      }
      if |bytes| < offset + RECORD_HEADER {
        offset := if offset < |bytes| then |bytes| else offset;
        return 0;
      }
      var caplen := CaplenAt(bytes, offset);
      var body := offset + RECORD_HEADER;
      offset := body;
      if fault.BodyFault? {
        return -1;
      }
      n := Min(Min(caplen, pktLen), |bytes| - body);
      forall k | 0 <= k < n {
        pkt[k] := bytes[body + k];
      }
      offset := body + n;
      assert pkt[..n] == bytes[body..body + n];
    }

    /** ldab_pcap_rewind: it compares the new offset with 0, so it reports 0 whether or
        not the seek succeeded. */
    method Rewind(seekable: bool) returns (rc: int)
      modifies this`offset
      ensures offset == if seekable then FILE_HEADER else old(offset)
      ensures rc == 0
    {
      var moved := if seekable then FILE_HEADER else -1;
      if seekable {
        offset := FILE_HEADER;
      }
      rc := if moved == 0 then 1 else 0;
    }

    /** Reads until the first one that returns 0. */
    method ReadPackets(pktLen: u32) returns (ps: seq<seq<byte>>)
      requires 0 < pktLen
      modifies this`offset
      ensures ps == ReadAll(bytes, old(offset), pktLen)
    {
      var pkt := new byte[pktLen];
      ps := [];
      ghost var all := ReadAll(bytes, offset, pktLen);
      while true
        invariant all == ps + ReadAll(bytes, offset, pktLen)
        decreases |bytes| - offset
      {
        var n := Read(pkt, pktLen, NoFault);
        if n == 0 {
          break;
        }
        ps := ps + [pkt[..n]];
      }
    }

    /** pktcnt: opens the file, then hops from record header to record header, until a
        header is cut off or, in round `fails`, a read or a seek fails. */
    method CountPackets(answers: OpenAnswers, fails: Option<nat>) returns (a: nat)
      modifies this`offset
      ensures a == if OpenCode(bytes, false, answers).Refused? then 0
                   else if fails.Some? then Min(fails.value, CountFrom(bytes, FILE_HEADER))
                   else CountFrom(bytes, FILE_HEADER)
    {
      hide HeaderAccepted, DecodeHeader, Decode32;
      var r := Open(false, answers);
      if r.Refused? {
        return 0;
      }
      a := 0;
      while fails != Some(a) && offset + RECORD_HEADER <= |bytes|
        invariant a + CountFrom(bytes, offset) == CountFrom(bytes, FILE_HEADER)
        invariant fails.Some? ==> a <= fails.value
        decreases |bytes| - offset
      {
        var caplen := CaplenAt(bytes, offset);
        offset := offset + RECORD_HEADER + caplen;
        a := a + 1;
      }
    }

    /** A write the system takes in full appends exactly one record. */
    method WritePacket(p: seq<byte>, sec: nat, usec: nat) returns (ghost r: Record)
      requires 0 < |p| < U32 && offset == |bytes|
      modifies this
      ensures bytes == old(bytes) + EncodeRecord(r) && offset == |bytes|
      ensures r.payload == p
    {
      hide Encode32;
      r := RecordOf(p, |p|, |p|, sec, usec);
      var written := Write(p, |p|, |p|, sec, usec, RECORD_HEADER, |p|);
      assert EncodeRecord(r)[..|EncodeRecord(r)|] == EncodeRecord(r);
    }

    /** Successful writes of whole packets at the end of a savefile extend its records. */
    method WritePackets(ps: seq<seq<byte>>, sec: nat, usec: nat, ghost rs: seq<Record>) returns (ghost added: seq<Record>)
      requires IsSavefile(bytes, rs) && offset == |bytes|
      requires forall k :: 0 <= k < |ps| ==> 0 < |ps[k]| < U32
      modifies this
      ensures IsSavefile(bytes, rs + added) && offset == |bytes|
      ensures Payloads(added) == ps
      ensures old(bytes) <= bytes
    {
      hide HeaderAccepted, EncodeRecord;
      added := [];
      for k := 0 to |ps|
        invariant |added| == k && offset == |bytes|
        invariant forall j :: 0 <= j < k ==> added[j].payload == ps[j]
        invariant bytes == old(bytes) + EncodeRecords(added)
      {
        ghost var r := WritePacket(ps[k], sec, usec);
        EncodeRecordsSnoc(added, r);
        added := added + [r];
      }
      SavefileAppend(old(bytes), rs, added);
    }
  }

  /** No packet is longer than this. */
  predicate Within(ps: seq<seq<byte>>, pktLen: u32) {
    forall k :: 0 <= k < |ps| ==> |ps[k]| <= pktLen
  }

  lemma ReadableConcat(rs: seq<Record>, added: seq<Record>, ps: seq<seq<byte>>, pktLen: u32)
    requires Payloads(added) == ps
    requires forall k :: 0 <= k < |ps| ==> 0 < |ps[k]|
    ensures Readable(rs + added, pktLen) <==> Readable(rs, pktLen) && Within(ps, pktLen)
    ensures Payloads(rs + added) == Payloads(rs) + ps
  {
    hide Payloads;
    var both := rs + added;
    assert forall k :: 0 <= k < |rs| ==> both[k] == rs[k];
    forall k | 0 <= k < |ps|
      ensures both[|rs| + k].payload == ps[k]
    {
      assert both[|rs| + k] == added[k] && Payloads(added)[k] == ps[k];
    }
    assert forall k :: |rs| <= k < |both| ==> both[k].payload == ps[k - |rs|];
  }

  /** Create, write, open, read to the end, rewind and read again: both readings agree, they
      are what was written exactly if the buffer can take every packet, and the counter agrees
      in any case. */
  method StoreAndLoad(ps: seq<seq<byte>>, sec: nat, usec: nat, pktLen: u32) returns (first: seq<seq<byte>>, second: seq<seq<byte>>, count: nat)
    requires forall k :: 0 <= k < |ps| ==> 0 < |ps[k]| < U32
    requires 0 < pktLen
    ensures first == second
    ensures first == ps <==> Within(ps, pktLen)
    ensures count == |ps|
  {
    hide HeaderAccepted, EncodeRecords, CountFrom, ReadAll, Payloads, Within;
    var f := new Savefile;
    var ok := f.Create(LINKTYPE_EN10MB, true, FILE_HEADER);
    ghost var rs := f.WritePackets(ps, sec, usec, []);
    ReadableConcat([], rs, ps, pktLen);
    assert [] + rs == rs;
    CountSavefile(f.bytes, rs);
    ReadAllSavefile(f.bytes, rs, pktLen);
    var r := f.Open(false, NO_ERRORS);
    first := f.ReadPackets(pktLen);
    var rc := f.Rewind(true);
    second := f.ReadPackets(pktLen);
    count := f.CountPackets(NO_ERRORS, None);
  }

  /** Opening any savefile for append and writing m packets keeps its bytes, and the counter
      then returns n + m. It reads as the old records followed by the new packets exactly if
      the buffer can take all of these and no old record is empty. */
  method AppendAndLoad(f: Savefile, ghost rs: seq<Record>, ps: seq<seq<byte>>, sec: nat, usec: nat, pktLen: u32)
    returns (all: seq<seq<byte>>, count: nat)
    requires IsSavefile(f.bytes, rs)
    requires forall k :: 0 <= k < |ps| ==> 0 < |ps[k]| < U32
    requires 0 < pktLen
    modifies f
    ensures old(f.bytes) <= f.bytes
    ensures all == Payloads(rs) + ps <==> Readable(rs, pktLen) && Within(ps, pktLen)
    ensures count == |rs| + |ps|
  {
    hide HeaderAccepted, EncodeRecords, CountFrom, ReadAll, Payloads, Readable, Within;
    var r := f.Open(true, NO_ERRORS);
    ghost var added := f.WritePackets(ps, sec, usec, rs);
    ghost var both := rs + added;
    ReadableConcat(rs, added, ps, pktLen);
    CountSavefile(f.bytes, both);
    ReadAllSavefile(f.bytes, both, pktLen);
    r := f.Open(false, NO_ERRORS);
    all := f.ReadPackets(pktLen);
    count := f.CountPackets(NO_ERRORS, None);
  }
}
