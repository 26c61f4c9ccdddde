/** The pcap savefile: its header, its packet records, and the operations that create,
    open, extend, read and rewind one through a file offset. The layout is that of
    sections 4 (File Header) and 5 (Packet Record) of draft-ietf-opsawg-pcap. */
module Pcap {
  import opened Options
  import opened Words

  const TCPDUMP_MAGIC: u32 := 0xa1b2c3d4
  const PCAP_VERSION_MAJOR: u16 := 2
  const PCAP_VERSION_MINOR: u16 := 4
  const PCAP_DEFAULT_SNAPSHOT_LEN: u32 := 65535
  const LINKTYPE_EN10MB: u32 := 1

  /** sizeof(struct pcap_file_header) and sizeof(struct pcap_sf_pkthdr). */
  const FILE_HEADER := 24
  const RECORD_HEADER := 16

  // ---------------------------------------------------------------- file header

  /** The time zone is signed in C; it is kept here as its 32-bit pattern. */
  datatype FileHeader = FileHeader(
    magic: u32, versionMajor: u16, versionMinor: u16,
    thiszone: u32, sigfigs: u32, snaplen: u32, linktype: u32)

  function DefaultHeader(linktype: u32): FileHeader {
    FileHeader(TCPDUMP_MAGIC, PCAP_VERSION_MAJOR, PCAP_VERSION_MINOR, 0, 0, PCAP_DEFAULT_SNAPSHOT_LEN, linktype)
  }

  function EncodeHeader(h: FileHeader): (s: seq<byte>)
    ensures |s| == FILE_HEADER
  {
    Encode32(h.magic) + Encode16(h.versionMajor) + Encode16(h.versionMinor)
    + Encode32(h.thiszone) + Encode32(h.sigfigs) + Encode32(h.snaplen) + Encode32(h.linktype)
  }

  function DecodeHeader(s: seq<byte>): FileHeader
    requires |s| == FILE_HEADER
  {
    FileHeader(Decode32(s[0..4]), Decode16(s[4..6]), Decode16(s[6..8]),
               Decode32(s[8..12]), Decode32(s[12..16]), Decode32(s[16..20]), Decode32(s[20..24]))
  }

  lemma HeaderRoundTrip(h: FileHeader)
    ensures DecodeHeader(EncodeHeader(h)) == h
  {
    hide Encode32, Encode16, Decode32, Decode16;
    var s := EncodeHeader(h);
    assert s[0..4] == Encode32(h.magic) && s[4..6] == Encode16(h.versionMajor) && s[6..8] == Encode16(h.versionMinor);
    assert s[8..12] == Encode32(h.thiszone) && s[12..16] == Encode32(h.sigfigs);
    assert s[16..20] == Encode32(h.snaplen) && s[20..24] == Encode32(h.linktype);
    RoundTrip32(h.magic); RoundTrip16(h.versionMajor); RoundTrip16(h.versionMinor);
    RoundTrip32(h.thiszone); RoundTrip32(h.sigfigs); RoundTrip32(h.snaplen); RoundTrip32(h.linktype);
  }

  /** The same header as a machine of the other byte order writes it. */
  function SwapHeader(h: FileHeader): FileHeader {
    FileHeader(Swap32(h.magic), Swap16(h.versionMajor), Swap16(h.versionMinor),
               Swap32(h.thiszone), Swap32(h.sigfigs), Swap32(h.snaplen), Swap32(h.linktype))
  }

  /** pcap_is_valid on a header that could be read in full: a foreign magic makes it
      swap the four fields it looks at, and only those. */
  predicate HeaderAccepted(h: FileHeader) {
    var g := if h.magic != TCPDUMP_MAGIC then
               h.(magic := Swap32(h.magic), linktype := Swap32(h.linktype),
                  versionMajor := Swap16(h.versionMajor), versionMinor := Swap16(h.versionMinor))
             else h;
    && g.magic == TCPDUMP_MAGIC
    && g.versionMajor == PCAP_VERSION_MAJOR
    && g.versionMinor == PCAP_VERSION_MINOR
    && g.linktype == LINKTYPE_EN10MB
  }

  lemma MagicIsNotItsOwnSwap()
    ensures Swap32(TCPDUMP_MAGIC) == 0xd4c3b2a1 != TCPDUMP_MAGIC
  {
    MagicBytes();
    hide Encode32;
    var r: seq<byte> := [0xa1, 0xb2, 0xc3, 0xd4];
    assert Reversed(Encode32(TCPDUMP_MAGIC)) == r;
    assert r[1..] == [0xb2, 0xc3, 0xd4] && r[1..][1..] == [0xc3, 0xd4] && r[1..][1..][1..] == [0xd4];
    assert Decode(r[1..][1..][1..]) == 0xd4;
    assert Decode(r[1..][1..]) == 0xd4c3;
    assert Decode(r[1..]) == 0xd4c3b2;
  }

  /** The bytes at the head of every file the daemon creates. */
  lemma FreshFileBytes()
    ensures EncodeHeader(DefaultHeader(LINKTYPE_EN10MB)) ==
            [0xd4, 0xc3, 0xb2, 0xa1, 2, 0, 4, 0, 0, 0, 0, 0, 0, 0, 0, 0, 0xff, 0xff, 0, 0, 1, 0, 0, 0]
  {
    SmallWords();
    MagicBytes();
    hide Encode32, Encode16;
  }

  lemma SmallWords()
    ensures Encode16(2) == [2, 0] && Encode16(4) == [4, 0]
    ensures Encode32(0) == [0, 0, 0, 0] && Encode32(1) == [1, 0, 0, 0] && Encode32(0xffff) == [0xff, 0xff, 0, 0]
  {
    BaseValues();
    assert Base(1) == 0x100 && Base(3) == 0x100_0000;
    assert Encode(0, 1) == [0];
    assert Encode(0, 2) == [0, 0];
    assert Encode(0, 3) == [0, 0, 0];
    assert Encode(0xff, 3) == [0xff, 0, 0];
  }

  lemma MagicBytes()
    ensures Encode32(TCPDUMP_MAGIC) == [0xd4, 0xc3, 0xb2, 0xa1]
  {
    BaseValues();
    assert Base(3) == 0x100_0000 && Base(1) == 0x100;
    assert Encode(0xa1, 1) == [0xa1];
    assert Encode(0xa1b2, 2) == [0xb2, 0xa1];
    assert Encode(0xa1b2c3, 3) == [0xc3, 0xb2, 0xa1];
  }

  lemma SwapHeaderInvolutive(h: FileHeader)
    ensures SwapHeader(SwapHeader(h)) == h
  {
    Swap32Involutive(h.magic); Swap16Involutive(h.versionMajor); Swap16Involutive(h.versionMinor);
    Swap32Involutive(h.thiszone); Swap32Involutive(h.sigfigs); Swap32Involutive(h.snaplen);
    Swap32Involutive(h.linktype);
  }

  /** Acceptance does not depend on the byte order of the machine that wrote the file. */
  lemma AcceptanceIgnoresByteOrder(h: FileHeader)
    ensures HeaderAccepted(SwapHeader(h)) <==> HeaderAccepted(h)
  {
    SwapHeaderInvolutive(h);
    MagicIsNotItsOwnSwap();
    Swap32Involutive(TCPDUMP_MAGIC);
  }

  /** A header is accepted in exactly two shapes, native and swapped; in particular the
      headers the daemon writes are accepted exactly for Ethernet. */
  lemma AcceptedHeaders(h: FileHeader, linktype: u32)
    ensures HeaderAccepted(h) <==>
            exists d: FileHeader ::
              && d.magic == TCPDUMP_MAGIC && d.versionMajor == PCAP_VERSION_MAJOR
              && d.versionMinor == PCAP_VERSION_MINOR && d.linktype == LINKTYPE_EN10MB
              && (h == d || h == SwapHeader(d))
    ensures HeaderAccepted(DecodeHeader(EncodeHeader(DefaultHeader(linktype)))) <==> linktype == LINKTYPE_EN10MB
  {
    AcceptanceIgnoresByteOrder(h);
    SwapHeaderInvolutive(h);
    MagicIsNotItsOwnSwap();
    HeaderRoundTrip(DefaultHeader(linktype));
    if HeaderAccepted(h) {
      var d := if h.magic == TCPDUMP_MAGIC then h else SwapHeader(h);
      assert h == d || h == SwapHeader(d);
    }
    forall d: FileHeader | d.magic == TCPDUMP_MAGIC && d.versionMajor == PCAP_VERSION_MAJOR
                           && d.versionMinor == PCAP_VERSION_MINOR && d.linktype == LINKTYPE_EN10MB
      ensures HeaderAccepted(SwapHeader(d))
    {
      AcceptanceIgnoresByteOrder(d);
    }
  }

  /** The bytes of a version 2.4 Ethernet header, in one byte order or the other; what is in
      bytes 8 to 19 does not matter. */
  predicate EthernetBytes(s: seq<byte>)
    requires 24 <= |s|
  {
    || (s[0..8] == [0xd4, 0xc3, 0xb2, 0xa1, 2, 0, 4, 0] && s[20..24] == [1, 0, 0, 0])
    || (s[0..8] == [0xa1, 0xb2, 0xc3, 0xd4, 0, 2, 0, 4] && s[20..24] == [0, 0, 0, 1])
  }

  /** A field holds the word w if its bytes are t, and w swapped if they are u. */
  lemma Word32Is(s: seq<byte>, w: u32, t: seq<byte>, u: seq<byte>)
    requires |s| == 4 && Encode32(w) == t && Reversed(u) == t
    ensures Decode32(s) == w <==> s == t
    ensures Swap32(Decode32(s)) == w <==> s == u
  {
    EncodeOfDecode32(s);
    RoundTrip32(w);
    EncodeOfDecode32(Reversed(s));
    ReversedBytes(s, u);
    hide Encode32, Decode32, Reversed;
  }

  lemma Word16Is(s: seq<byte>, w: u16, t: seq<byte>, u: seq<byte>)
    requires |s| == 2 && Encode16(w) == t && Reversed(u) == t
    ensures Decode16(s) == w <==> s == t
    ensures Swap16(Decode16(s)) == w <==> s == u
  {
    BaseValues();
    EncodeOfDecode(s);
    EncodeOfDecode(Reversed(s));
    RoundTrip16(w);
    ReversedBytes(s, u);
    hide Encode, Decode, Reversed;
  }

  lemma ReversedBytes(s: seq<byte>, t: seq<byte>)
    ensures Reversed(s) == Reversed(t) <==> s == t
  {
    hide Reversed;
    if Reversed(s) == Reversed(t) {
      assert forall k :: 0 <= k < |s| ==> s[k] == Reversed(s)[|s| - 1 - k];
      assert forall k :: 0 <= k < |t| ==> t[k] == Reversed(t)[|t| - 1 - k];
    }
  }

  lemma HeaderFields(magic: seq<byte>, major: seq<byte>, minor: seq<byte>, linktype: seq<byte>)
    requires |magic| == 4 && |major| == 2 && |minor| == 2 && |linktype| == 4
    ensures Decode32(magic) == TCPDUMP_MAGIC <==> magic == [0xd4, 0xc3, 0xb2, 0xa1]
    ensures Swap32(Decode32(magic)) == TCPDUMP_MAGIC <==> magic == [0xa1, 0xb2, 0xc3, 0xd4]
    ensures Decode16(major) == PCAP_VERSION_MAJOR <==> major == [2, 0]
    ensures Swap16(Decode16(major)) == PCAP_VERSION_MAJOR <==> major == [0, 2]
    ensures Decode16(minor) == PCAP_VERSION_MINOR <==> minor == [4, 0]
    ensures Swap16(Decode16(minor)) == PCAP_VERSION_MINOR <==> minor == [0, 4]
    ensures Decode32(linktype) == LINKTYPE_EN10MB <==> linktype == [1, 0, 0, 0]
    ensures Swap32(Decode32(linktype)) == LINKTYPE_EN10MB <==> linktype == [0, 0, 0, 1]
  {
    MagicBytes();
    SmallWords();
    hide Swap32, Swap16, Decode32, Decode16, Encode32, Encode16, Reversed;
    Word32Is(magic, TCPDUMP_MAGIC, [0xd4, 0xc3, 0xb2, 0xa1], [0xa1, 0xb2, 0xc3, 0xd4]);
    Word16Is(major, 2, [2, 0], [0, 2]);
    Word16Is(minor, 4, [4, 0], [0, 4]);
    Word32Is(linktype, 1, [1, 0, 0, 0], [0, 0, 0, 1]);
  }

  /** The accepted headers byte by byte. */
  lemma AcceptedBytes(s: seq<byte>)
    requires |s| == FILE_HEADER
    ensures HeaderAccepted(DecodeHeader(s)) <==> EthernetBytes(s)
  {
    hide Swap32, Swap16, Decode32, Decode16;
    HeaderFields(s[0..4], s[4..6], s[6..8], s[20..24]);
    FirstEight(s);
  }

  lemma FirstEight(s: seq<byte>)
    requires |s| == FILE_HEADER
    ensures s[0..8] == [0xd4, 0xc3, 0xb2, 0xa1, 2, 0, 4, 0] <==> s[0..4] == [0xd4, 0xc3, 0xb2, 0xa1] && s[4..6] == [2, 0] && s[6..8] == [4, 0]
    ensures s[0..8] == [0xa1, 0xb2, 0xc3, 0xd4, 0, 2, 0, 4] <==> s[0..4] == [0xa1, 0xb2, 0xc3, 0xd4] && s[4..6] == [0, 2] && s[6..8] == [0, 4]
  {
    var t := s[0..8];
    assert s[0..4] == t[..4] && s[4..6] == t[4..6] && s[6..8] == t[6..];
    assert t == t[..4] + t[4..6] + t[6..];
  }

  // ---------------------------------------------------------------- packet records

  /** Time stamps are kept as 32-bit patterns; the captured length is |payload|. */
  datatype RawRecord = Record(sec: u32, usec: u32, len: u32, payload: seq<byte>)
  type Record = r: RawRecord | |r.payload| < U32 witness RawRecord.Record(0, 0, 0, [])

  function EncodeRecord(r: Record): (s: seq<byte>)
    ensures |s| == RECORD_HEADER + |r.payload|
  {
    Encode32(r.sec) + Encode32(r.usec) + Encode32(|r.payload|) + Encode32(r.len) + r.payload
  }

  function EncodeRecords(rs: seq<Record>): seq<byte> {
    if rs == [] then [] else EncodeRecord(rs[0]) + EncodeRecords(rs[1..])
  }

  function Payloads(rs: seq<Record>): (ps: seq<seq<byte>>)
    ensures |ps| == |rs|
    ensures forall k :: 0 <= k < |rs| ==> ps[k] == rs[k].payload
  {
    if rs == [] then [] else [rs[0].payload] + Payloads(rs[1..])
  }

  /** caplen of the record header at an offset. */
  function CaplenAt(bytes: seq<byte>, off: nat): u32
    requires off + RECORD_HEADER <= |bytes|
  {
    Decode32(bytes[off + 8..off + 12])
  }

  /** The record list a byte string spells out, if it does. */
  function DecodeRecords(bytes: seq<byte>): Option<seq<Record>> {
    if bytes == [] then Some([])
    else if |bytes| < RECORD_HEADER then None
    else
      var end := RECORD_HEADER + CaplenAt(bytes, 0);
      if |bytes| < end then None
      else
        var r := Record(Decode32(bytes[0..4]), Decode32(bytes[4..8]), Decode32(bytes[12..16]), bytes[RECORD_HEADER..end]);
        match DecodeRecords(bytes[end..])
        case None => None
        case Some(rest) => Some([r] + rest)
  }

  lemma Associative(a: seq<byte>, b: seq<byte>, c: seq<byte>)
    ensures (a + b) + c == a + (b + c)
  {
  }

  lemma {:induction false} EncodeRecordsConcat(xs: seq<Record>, ys: seq<Record>)
    ensures EncodeRecords(xs + ys) == EncodeRecords(xs) + EncodeRecords(ys)
  {
    hide EncodeRecord;
    if xs == [] {
      assert xs + ys == ys;
    } else {
      assert (xs + ys)[1..] == xs[1..] + ys && (xs + ys)[0] == xs[0];
      EncodeRecordsConcat(xs[1..], ys);
      Associative(EncodeRecord(xs[0]), EncodeRecords(xs[1..]), EncodeRecords(ys));
    }
  }

  lemma EncodeRecordsSnoc(xs: seq<Record>, r: Record)
    ensures EncodeRecords(xs + [r]) == EncodeRecords(xs) + EncodeRecord(r)
  {
    hide EncodeRecord;
    EncodeRecordsConcat(xs, [r]);
    assert [r][1..] == [];
  }

  /** The fields of a record sit where a reader looks for them, whatever surrounds it. */
  lemma RecordFields(pre: seq<byte>, r: Record, rest: seq<byte>)
    ensures var b := pre + EncodeRecord(r) + rest;
            var o := |pre|;
            && Decode32(b[o..o + 4]) == r.sec && Decode32(b[o + 4..o + 8]) == r.usec
            && CaplenAt(b, o) == |r.payload| && Decode32(b[o + 12..o + 16]) == r.len
            && b[o + RECORD_HEADER..o + RECORD_HEADER + |r.payload|] == r.payload
            && b[o + RECORD_HEADER + |r.payload|..] == rest
  {
    hide Encode32, Decode32;
    var b, o := pre + EncodeRecord(r) + rest, |pre|;
    assert b[o..o + 4] == Encode32(r.sec);
    assert b[o + 4..o + 8] == Encode32(r.usec);
    assert b[o + 8..o + 12] == Encode32(|r.payload|);
    assert b[o + 12..o + 16] == Encode32(r.len);
    RoundTrip32(r.sec); RoundTrip32(r.usec); RoundTrip32(|r.payload|); RoundTrip32(r.len);
    assert b[o + RECORD_HEADER..o + RECORD_HEADER + |r.payload|] == r.payload;
    assert b[o + RECORD_HEADER + |r.payload|..] == rest;
  }

  /** One unfolding of the decoder. */
  lemma DecodeFirst(r: Record, rest: seq<byte>)
    ensures DecodeRecords(EncodeRecord(r) + rest) ==
            match DecodeRecords(rest) case None => None case Some(rs) => Some([r] + rs)
  {
    hide Encode32, Decode32, EncodeRecord;
    RecordFields([], r, rest);
    assert [] + EncodeRecord(r) + rest == EncodeRecord(r) + rest;
  }

  /** Decoding undoes encoding ... */
  lemma {:induction false} DecodeOfEncodeRecords(rs: seq<Record>)
    ensures DecodeRecords(EncodeRecords(rs)) == Some(rs)
  {
    if rs != [] {
      DecodeOfEncodeRecords(rs[1..]);
      assert EncodeRecords(rs) == EncodeRecord(rs[0]) + EncodeRecords(rs[1..]);
      hide EncodeRecord, EncodeRecords, DecodeRecords;
      DecodeFirst(rs[0], EncodeRecords(rs[1..]));
      assert [rs[0]] + rs[1..] == rs;
    }
  }

  lemma EncodeOfFields(b: seq<byte>)
    requires RECORD_HEADER <= |b| && |b| == RECORD_HEADER + CaplenAt(b, 0)
    ensures EncodeRecord(Record(Decode32(b[0..4]), Decode32(b[4..8]), Decode32(b[12..16]), b[RECORD_HEADER..])) == b
  {
    hide Encode32, Decode32;
    EncodeOfDecode32(b[0..4]);
    EncodeOfDecode32(b[4..8]);
    EncodeOfDecode32(b[8..12]);
    EncodeOfDecode32(b[12..16]);
  }

  lemma EncodeOfFirst(bytes: seq<byte>, end: nat)
    requires RECORD_HEADER <= |bytes| && end == RECORD_HEADER + CaplenAt(bytes, 0) <= |bytes|
    ensures EncodeRecord(Record(Decode32(bytes[0..4]), Decode32(bytes[4..8]), Decode32(bytes[12..16]), bytes[RECORD_HEADER..end])) == bytes[..end]
  {
    hide Encode32, Decode32, EncodeRecord;
    var b := bytes[..end];
    assert b[8..12] == bytes[8..12];
    EncodeOfFields(b);
    assert b[0..4] == bytes[0..4] && b[4..8] == bytes[4..8] && b[12..16] == bytes[12..16];
    assert b[RECORD_HEADER..] == bytes[RECORD_HEADER..end];
  }

  /** ... and nothing but an encoding decodes. */
  lemma {:induction false} EncodeOfDecodeRecords(bytes: seq<byte>)
    requires DecodeRecords(bytes).Some?
    ensures EncodeRecords(DecodeRecords(bytes).value) == bytes
    decreases |bytes|
  {
    if bytes != [] {
      var end := RECORD_HEADER + CaplenAt(bytes, 0);
      var rs, rest := DecodeRecords(bytes).value, DecodeRecords(bytes[end..]).value;
      EncodeOfDecodeRecords(bytes[end..]);
      EncodeOfFirst(bytes, end);
      assert rs == [rs[0]] + rest && rs[1..] == rest;
      hide EncodeRecord, DecodeRecords, CaplenAt;
      assert EncodeRecords(rs) == bytes[..end] + bytes[end..];
    }
  }

  /** A file with an acceptable header followed by exactly these records. */
  predicate IsSavefile(bytes: seq<byte>, rs: seq<Record>) {
    && FILE_HEADER <= |bytes|
    && HeaderAccepted(DecodeHeader(bytes[..FILE_HEADER]))
    && bytes[FILE_HEADER..] == EncodeRecords(rs)
  }

  lemma SavefileRecordsUnique(bytes: seq<byte>, xs: seq<Record>, ys: seq<Record>)
    requires IsSavefile(bytes, xs) && IsSavefile(bytes, ys)
    ensures xs == ys
  {
    DecodeOfEncodeRecords(xs);
    DecodeOfEncodeRecords(ys);
  }

  lemma FreshSavefile()
    ensures IsSavefile(EncodeHeader(DefaultHeader(LINKTYPE_EN10MB)), [])
  {
    var h := EncodeHeader(DefaultHeader(LINKTYPE_EN10MB));
    assert h[..FILE_HEADER] == h;
    AcceptedHeaders(DefaultHeader(LINKTYPE_EN10MB), LINKTYPE_EN10MB);
  }

  lemma SavefileAppend(bytes: seq<byte>, xs: seq<Record>, ys: seq<Record>)
    requires IsSavefile(bytes, xs)
    ensures IsSavefile(bytes + EncodeRecords(ys), xs + ys)
  {
    var tail := EncodeRecords(ys);
    EncodeRecordsConcat(xs, ys);
    SameHeader(bytes, tail);
  }

  /** A record cut off before its end does not decode. */
  lemma PartDecodes(r: Record, n: nat)
    requires 0 < n < |EncodeRecord(r)|
    ensures DecodeRecords(EncodeRecord(r)[..n]).None?
  {
    hide Decode32, Encode32;
    var record, part := EncodeRecord(r), EncodeRecord(r)[..n];
    if RECORD_HEADER <= n {
      RecordFields([], r, []);
      assert [] + record + [] == record;
      assert part[8..12] == record[8..12];
    }
  }

  /** Records in front do not change whether the rest decodes. */
  lemma {:induction false} DecodeAfter(rs: seq<Record>, tail: seq<byte>)
    requires DecodeRecords(tail).None?
    ensures DecodeRecords(EncodeRecords(rs) + tail).None?
  {
    if rs == [] {
      assert EncodeRecords(rs) + tail == tail;
    } else {
      var rest := EncodeRecords(rs[1..]) + tail;
      Associative(EncodeRecord(rs[0]), EncodeRecords(rs[1..]), tail);
      DecodeAfter(rs[1..], tail);
      hide EncodeRecord, EncodeRecords;
      DecodeFirst(rs[0], rest);
    }
  }

  ghost predicate WellFormed(bytes: seq<byte>) {
    exists rs :: IsSavefile(bytes, rs)
  }

  /** A well-formed file followed by the first n bytes of a record is well-formed exactly if
      these are none or all. */
  lemma SavefileThenPart(bytes: seq<byte>, xs: seq<Record>, r: Record, n: nat)
    requires IsSavefile(bytes, xs) && n <= |EncodeRecord(r)|
    ensures WellFormed(bytes + EncodeRecord(r)[..n]) <==> n == 0 || n == |EncodeRecord(r)|
  {
    var record := EncodeRecord(r);
    var part := record[..n];
    if n == 0 {
      assert bytes + part == bytes;
    } else if n == |record| {
      hide IsSavefile, EncodeRecord;
      assert [r][1..] == [] && EncodeRecords([r]) == record == part;
      SavefileAppend(bytes, xs, [r]);
    } else {
      PartDecodes(r, n);
      hide EncodeRecord;
      BrokenTail(bytes, xs, part);
    }
  }

  lemma BrokenTail(bytes: seq<byte>, xs: seq<Record>, tail: seq<byte>)
    requires IsSavefile(bytes, xs) && DecodeRecords(tail).None?
    ensures !WellFormed(bytes + tail)
  {
    hide HeaderAccepted, EncodeRecords, DecodeRecords;
    DecodeAfter(xs, tail);
    SameHeader(bytes, tail);
    forall ys
      ensures !IsSavefile(bytes + tail, ys)
    {
      DecodeOfEncodeRecords(ys);
    }
  }

  lemma SameHeader(bytes: seq<byte>, tail: seq<byte>)
    requires FILE_HEADER <= |bytes|
    ensures (bytes + tail)[..FILE_HEADER] == bytes[..FILE_HEADER]
    ensures (bytes + tail)[FILE_HEADER..] == bytes[FILE_HEADER..] + tail
  {
  }

  // ---------------------------------------------------------------- reading by offset

  /** What one ldab_pcap_read stores and where it leaves the offset. A short header
      read consumes what is left of the file; a buffer shorter than the record leaves
      the offset inside it. */
  function ReadAt(bytes: seq<byte>, off: nat, pktLen: u32): (r: (seq<byte>, nat))
    ensures off <= r.1
    ensures r.0 != [] ==> off + RECORD_HEADER < r.1 <= |bytes|
    ensures |r.0| <= pktLen
  {
    if |bytes| < off + RECORD_HEADER then ([], if off < |bytes| then |bytes| else off)
    else
      var body := off + RECORD_HEADER;
      var end := body + Min(Min(CaplenAt(bytes, off), pktLen), |bytes| - body);
      (bytes[body..end], end)
  }

  /** What the system makes of the two read(2) calls of one ldab_pcap_read. */
  datatype Fault = NoFault | HeaderFault | BodyFault

  /** What one ldab_pcap_read stores and where it leaves the offset if a read(2) may fail,
      which does not move the offset. */
  function ReadWith(bytes: seq<byte>, off: nat, pktLen: u32, fault: Fault): (r: (seq<byte>, nat))
    ensures off <= r.1 && |r.0| <= pktLen
    ensures !fault.NoFault? ==> r.0 == []
  {
    match fault
    case NoFault => ReadAt(bytes, off, pktLen)
    case HeaderFault => ([], off)
    case BodyFault => if |bytes| < off + RECORD_HEADER then ReadAt(bytes, off, pktLen) else ([], off + RECORD_HEADER)
  }

  /** The packets repeated reads deliver before the first one that returns 0. */
  function ReadAll(bytes: seq<byte>, off: nat, pktLen: u32): seq<seq<byte>>
    decreases |bytes| - off
  {
    var (pkt, next) := ReadAt(bytes, off, pktLen);
    if pkt == [] then [] else [pkt] + ReadAll(bytes, next, pktLen)
  }

  /** Reading where a record starts: all of it, if the buffer is long enough. */
  lemma ReadAtRecord(pre: seq<byte>, r: Record, rest: seq<byte>, pktLen: u32)
    ensures var n := Min(|r.payload|, pktLen);
            ReadAt(pre + EncodeRecord(r) + rest, |pre|, pktLen) == (r.payload[..n], |pre| + RECORD_HEADER + n)
  {
    hide Decode32, EncodeRecord;
    RecordFields(pre, r, rest);
    var b, o, n := pre + EncodeRecord(r) + rest, |pre| + RECORD_HEADER, Min(|r.payload|, pktLen);
    assert b[o..o + n] == b[o..o + |r.payload|][..n];
  }

  /** Reading where a record was cut off: the rest of a header is consumed and yields nothing,
      the rest of a payload comes as a shorter packet. */
  lemma ReadAtPart(pre: seq<byte>, r: Record, n: nat, pktLen: u32)
    requires n < |EncodeRecord(r)|
    ensures ReadAt(pre + EncodeRecord(r)[..n], |pre|, pktLen) ==
            if n < 16 then ([], |pre| + n)
            else var m := Min(n - 16, pktLen); (r.payload[..m], |pre| + 16 + m)
  {
    hide EncodeRecord, CaplenAt;
    if RECORD_HEADER <= n {
      PartCaplen(pre, r, n);
      PartPayload(pre, r, n, Min(n - 16, pktLen));
    }
  }

  lemma PartCaplen(pre: seq<byte>, r: Record, n: nat)
    requires RECORD_HEADER <= n < |EncodeRecord(r)|
    ensures CaplenAt(pre + EncodeRecord(r)[..n], |pre|) == |r.payload|
  {
    RecordFields(pre, r, []);
    hide EncodeRecord, Decode32;
    var b, whole, o := pre + EncodeRecord(r)[..n], pre + EncodeRecord(r), |pre|;
    assert whole + [] == whole;
    assert b[o + 8..o + 12] == whole[o + 8..o + 12];
  }

  lemma PartPayload(pre: seq<byte>, r: Record, n: nat, m: nat)
    requires RECORD_HEADER + m <= n < |EncodeRecord(r)|
    ensures (pre + EncodeRecord(r)[..n])[|pre| + RECORD_HEADER..|pre| + RECORD_HEADER + m] == r.payload[..m]
  {
    RecordFields(pre, r, []);
    hide EncodeRecord, Decode32, CaplenAt;
    var b, whole, o := pre + EncodeRecord(r)[..n], pre + EncodeRecord(r), |pre| + RECORD_HEADER;
    assert whole + [] == whole;
    assert b[o..o + m] == whole[o..o + |r.payload|][..m];
  }

  predicate Readable(rs: seq<Record>, pktLen: u32) {
    forall k :: 0 <= k < |rs| ==> 0 < |rs[k].payload| <= pktLen
  }

  lemma ReadableTail(rs: seq<Record>, pktLen: u32)
    requires rs != []
    ensures Readable(rs, pktLen) <==> 0 < |rs[0].payload| <= pktLen && Readable(rs[1..], pktLen)
  {
    assert forall k :: 0 < k < |rs| ==> rs[k] == rs[1..][k - 1];
    assert forall k :: 0 <= k < |rs| - 1 ==> rs[1..][k] == rs[k + 1];
  }

  /** One read at a record the buffer can take, and the reads after it. */
  lemma ReadAllStep(pre: seq<byte>, r: Record, rest: seq<byte>, pktLen: u32)
    ensures var b := pre + EncodeRecord(r) + rest;
            var n := Min(|r.payload|, pktLen);
            ReadAll(b, |pre|, pktLen) ==
            if n == 0 then [] else [r.payload[..n]] + ReadAll(b, |pre| + RECORD_HEADER + n, pktLen)
  {
    hide ReadAt, EncodeRecord;
    ReadAtRecord(pre, r, rest, pktLen);
  }

  lemma ReadAllCons(pre: seq<byte>, r: Record, rest: seq<byte>, ps: seq<seq<byte>>, pktLen: u32)
    ensures var b := pre + EncodeRecord(r) + rest;
            ReadAll(b, |pre|, pktLen) == [r.payload] + ps <==>
            0 < |r.payload| <= pktLen && ReadAll(b, |pre + EncodeRecord(r)|, pktLen) == ps
  {
    hide ReadAt, ReadAll, EncodeRecord;
    ReadAllStep(pre, r, rest, pktLen);
    var b := pre + EncodeRecord(r) + rest;
    if 0 < |r.payload| <= pktLen {
      assert r.payload[..|r.payload|] == r.payload;
      ConsEqual(r.payload, ReadAll(b, |pre + EncodeRecord(r)|, pktLen), ps);
    } else {
      var all := ReadAll(b, |pre|, pktLen);
      assert all != [] ==> |all[0]| == Min(|r.payload|, pktLen);
    }
  }

  /** Repeated reads give back the record list exactly when no record is empty (an empty
      one reads as end of file) and none exceeds the buffer (the rest of it would be taken
      for the next record). */
  lemma {:induction false} ReadAllRecords(pre: seq<byte>, rs: seq<Record>, pktLen: u32)
    ensures ReadAll(pre + EncodeRecords(rs), |pre|, pktLen) == Payloads(rs) <==> Readable(rs, pktLen)
    decreases |rs|
  {
    hide Encode32, Decode32, EncodeRecord;
    if rs == [] {
      assert pre + EncodeRecords(rs) == pre;
      assert ReadAt(pre, |pre|, pktLen).0 == [];
    } else {
      var r, rest := rs[0], EncodeRecords(rs[1..]);
      assert pre + EncodeRecords(rs) == pre + EncodeRecord(r) + rest;
      ReadAllCons(pre, r, rest, Payloads(rs[1..]), pktLen);
      ReadableTail(rs, pktLen);
      ReadAllRecords(pre + EncodeRecord(r), rs[1..], pktLen);
    }
  }

  lemma ConsEqual(p: seq<byte>, xs: seq<seq<byte>>, ys: seq<seq<byte>>)
    ensures [p] + xs == [p] + ys <==> xs == ys
  {
    assert ([p] + xs)[1..] == xs && ([p] + ys)[1..] == ys;
  }

  /** The same for a whole savefile, from the offset that opening and rewinding set. */
  lemma ReadAllSavefile(bytes: seq<byte>, rs: seq<Record>, pktLen: u32)
    requires IsSavefile(bytes, rs)
    ensures ReadAll(bytes, FILE_HEADER, pktLen) == Payloads(rs) <==> Readable(rs, pktLen)
  {
    ReadAllRecords(bytes[..FILE_HEADER], rs, pktLen);
    assert bytes[..FILE_HEADER] + EncodeRecords(rs) == bytes;
  }

  /** The records pktcnt counts: it steps over payloads instead of reading them. */
  function CountFrom(bytes: seq<byte>, off: nat): nat
    decreases |bytes| - off
  {
    if |bytes| < off + RECORD_HEADER then 0
    else 1 + CountFrom(bytes, off + RECORD_HEADER + CaplenAt(bytes, off))
  }

  lemma {:induction false} CountRecords(pre: seq<byte>, rs: seq<Record>)
    ensures CountFrom(pre + EncodeRecords(rs), |pre|) == |rs|
    decreases |rs|
  {
    hide EncodeRecord, Decode32;
    var b := pre + EncodeRecords(rs);
    if rs != [] {
      var rest := EncodeRecords(rs[1..]);
      assert b == pre + EncodeRecord(rs[0]) + rest;
      RecordFields(pre, rs[0], rest);
      CountRecords(pre + EncodeRecord(rs[0]), rs[1..]);
    }
  }

  lemma CountSavefile(bytes: seq<byte>, rs: seq<Record>)
    requires IsSavefile(bytes, rs)
    ensures CountFrom(bytes, FILE_HEADER) == |rs|
  {
    CountRecords(bytes[..FILE_HEADER], rs);
    assert bytes[..FILE_HEADER] + EncodeRecords(rs) == bytes;
  }

  /** A record cut off inside its header is not counted, one cut off later is: its payload
      is stepped over unseen. */
  lemma CountPart(pre: seq<byte>, r: Record, n: nat)
    requires n < |EncodeRecord(r)|
    ensures CountFrom(pre + EncodeRecord(r)[..n], |pre|) == if n < 16 then 0 else 1
  {
    hide CountFrom, EncodeRecord, CaplenAt;
    var b, o := pre + EncodeRecord(r)[..n], |pre|;
    if RECORD_HEADER <= n {
      PartCaplen(pre, r, n);
      CountHops(b, o);
      CountEnds(b, o + RECORD_HEADER + |r.payload|);
    } else {
      CountEnds(b, o);
    }
  }

  lemma CountEnds(bytes: seq<byte>, off: nat)
    requires |bytes| < off + RECORD_HEADER
    ensures CountFrom(bytes, off) == 0
  {
  }

  lemma CountHops(bytes: seq<byte>, off: nat)
    requires off + RECORD_HEADER <= |bytes|
    ensures CountFrom(bytes, off) == 1 + CountFrom(bytes, off + RECORD_HEADER + CaplenAt(bytes, off))
  {
  }

  /** Counting by skipping and counting by reading agree on every savefile whose records
      the reader can take, and on such a file they both count the records. */
  lemma CountAgreesWithReads(bytes: seq<byte>, rs: seq<Record>, pktLen: u32)
    requires IsSavefile(bytes, rs) && Readable(rs, pktLen)
    ensures CountFrom(bytes, FILE_HEADER) == |ReadAll(bytes, FILE_HEADER, pktLen)| == |rs|
  {
    CountSavefile(bytes, rs);
    ReadAllSavefile(bytes, rs, pktLen);
  }
}
