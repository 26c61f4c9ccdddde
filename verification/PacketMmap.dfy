/** Setting up and tearing down a packet mapping: register the ring with the kernel, map it,
    build the I/O vector, bind the socket; undo in reverse when a step fails. */
module PacketMmap {
  import opened Errno
  import opened Options
  import opened Words
  import opened RingLayout
  import opened Bits
  import opened Arithmetic

  const NULL: nat := 0
  /** (void *) -1. */
  const MAP_FAILED: nat := U64 - 1

  datatype IoVec = IoVec(base: nat, len: nat)
  datatype Kind = NoKind | Rx | Tx
  datatype Mapping = Mapping(sock: int, len: nat)

  // ---------------------------------------------------------------- the system

  /** What the system holds on behalf of the process: rings registered by socket and kind,
      mapped regions by address, blocks of heap memory by address. */
  datatype Resources = Resources(rings: map<(int, Kind), Layout>, mappings: map<nat, Mapping>, blocks: set<nat>)

  predicate Mapped(r: Resources, sock: int) {
    exists addr :: addr in r.mappings && r.mappings[addr].sock == sock
  }

  /** setsockopt with a ring request; an empty request removes the ring, but the kernel
      refuses it while a mapping of the ring remains. */
  function SetRing(r: Resources, sock: int, kind: Kind, layout: Layout): Resources {
    if layout != NO_LAYOUT then r.(rings := r.rings[(sock, kind) := layout])
    else if Mapped(r, sock) then r
    else r.(rings := r.rings - {(sock, kind)})
  }

  function MapAt(r: Resources, addr: nat, sock: int, len: nat): Resources {
    r.(mappings := r.mappings[addr := Mapping(sock, len)])
  }

  /** munmap frees a region only when given its start and its whole length. */
  function Unmap(r: Resources, addr: nat, len: nat): Resources {
    if addr in r.mappings && r.mappings[addr].len == len then r.(mappings := r.mappings - {addr}) else r
  }

  function Allocate(r: Resources, addr: nat): Resources {
    r.(blocks := r.blocks + {addr})
  }

  /** free; freeing NULL does nothing. */
  function Free(r: Resources, addr: nat): Resources {
    r.(blocks := r.blocks - {addr})
  }

  /** What the system answers: an error code or 0 for setsockopt and for bind, the new
      address or failure for mmap and for calloc. */
  datatype Answers = Answers(register: int, mmap: Option<nat>, calloc: Option<nat>, bind: int)

  /** New addresses are new. */
  predicate Possible(r: Resources, answers: Answers) {
    && NULL !in r.blocks && NULL !in r.mappings && MAP_FAILED !in r.mappings
    && (answers.mmap.Some? ==> answers.mmap.value !in r.mappings && answers.mmap.value != NULL && answers.mmap.value != MAP_FAILED)
    && (answers.calloc.Some? ==> answers.calloc.value !in r.blocks && answers.calloc.value != NULL)
  }

  /** A socket that has no ring yet. */
  predicate Unused(r: Resources, sock: int) {
    (sock, Rx) !in r.rings && (sock, Tx) !in r.rings && (sock, NoKind) !in r.rings && !Mapped(r, sock)
  }

  /** mmap gives an address only for a region that is not empty. */
  predicate MapSucceeds(layout: Layout, answers: Answers) {
    answers.mmap.Some? && MappedLength(layout) != 0
  }

  /** The first of the four steps that fails, or 4. */
  function FailingStep(layout: Layout, answers: Answers): (k: nat)
    ensures k <= 4
  {
    if answers.register != 0 then 0
    else if !MapSucceeds(layout, answers) then 1
    else if answers.calloc.None? then 2
    else if answers.bind != 0 then 3
    else 4
  }

  /** The code that step reports, 0 if none fails. */
  function SetupCode(layout: Layout, answers: Answers): int {
    match FailingStep(layout, answers)
    case 0 => answers.register
    case 1 => EINVAL
    case 2 => ENOMEM
    case 3 => answers.bind
    case _ => 0
  }

  /** What k completed steps add to the resources. */
  function Acquired(r: Resources, sock: int, kind: Kind, layout: Layout, answers: Answers, k: nat): Resources
    requires k <= FailingStep(layout, answers)
  {
    var r1 := if 1 <= k then SetRing(r, sock, kind, layout) else r;
    var r2 := if 2 <= k then MapAt(r1, answers.mmap.value, sock, MappedLength(layout)) else r1;
    if 3 <= k then Allocate(r2, answers.calloc.value) else r2
  }

  /** What ldab_packet_mmap_destroy gives back: the vector, then the mapping, whose length it
      takes from the layout, then the ring. */
  function Released(r: Resources, vec: nat, buf: nat, layout: Layout, sock: int, kind: Kind): Resources {
    var r1 := Free(r, vec);
    var r2 := if buf != NULL then Unmap(r1, buf, MappedLength(layout)) else r1;
    SetRing(r2, sock, kind, NO_LAYOUT)
  }

  /** The pointers the structure holds when k steps are done and step k has failed or has
      not begun: a failed mmap leaves MAP_FAILED behind. */
  predicate Pointers(layout: Layout, answers: Answers, k: nat, failed: bool, vec: nat, buf: nat)
    requires k <= FailingStep(layout, answers)
  {
    && buf == (if 2 <= k then answers.mmap.value else if k == 1 && failed then MAP_FAILED else NULL)
    && vec == (if 3 <= k then answers.calloc.value else NULL)
  }

  /** Whatever step fails, tearing down what the earlier ones built restores the resources
      exactly: the unmapped length is the mapped one, and no mapping is left to keep the
      ring registered. The same holds after a complete setup. */
  lemma RollbackRestores(r: Resources, sock: int, kind: Kind, layout: Layout, answers: Answers, k: nat, failed: bool, vec: nat, buf: nat)
    requires layout != NO_LAYOUT && Unused(r, sock) && Possible(r, answers)
    requires k <= FailingStep(layout, answers) && Pointers(layout, answers, k, failed, vec, buf)
    ensures Released(Acquired(r, sock, kind, layout, answers, k), vec, buf, layout, sock, kind) == r
  {
    hide MappedLength;
    var got := Acquired(r, sock, kind, layout, answers, k);
    var r1 := Free(got, vec);
    assert r1.blocks == r.blocks;
    var r2 := if buf != NULL then Unmap(r1, buf, MappedLength(layout)) else r1;
    assert r2.mappings == r.mappings;
    assert r2.rings - {(sock, kind)} == r.rings;
  }

  /** Clearing the layout first would lose the length: the mapping would stay, and with it
      the ring. */
  lemma OrderMatters(r: Resources, sock: int, kind: Kind, layout: Layout, answers: Answers)
    requires layout != NO_LAYOUT && Unused(r, sock) && Possible(r, answers) && FailingStep(layout, answers) == 4
    ensures var got := Acquired(r, sock, kind, layout, answers, 4);
            var early := Unmap(SetRing(Free(got, answers.calloc.value), sock, kind, NO_LAYOUT), answers.mmap.value, MappedLength(NO_LAYOUT));
            (sock, kind) in early.rings && answers.mmap.value in early.mappings
  {
    var got := Acquired(r, sock, kind, layout, answers, 4);
    var freed := Free(got, answers.calloc.value);
    assert answers.mmap.value in freed.mappings && freed.mappings[answers.mmap.value].sock == sock;
    assert Mapped(freed, sock);
  }

  /** The code in terms of the arguments. */
  lemma CodeByNumbers(frameSize: u32, frameNr: nat, answers: Answers)
    ensures Accepted(frameSize, frameNr) ==>
              SetupCode(LayoutFor(frameSize, frameNr), answers) ==
              if answers.register != 0 then answers.register
              else if answers.mmap.None? || frameSize == 0 || U32 <= frameSize * frameNr then EINVAL
              else if answers.calloc.None? then ENOMEM
              else answers.bind
  {
    MappableExactly(frameSize, frameNr);
    if Accepted(frameSize, frameNr) {
      var k := AcceptedCounts(frameSize, frameNr);
    }
    hide PowerOf2, MappedLength;
  }

  // ---------------------------------------------------------------- the vector

  predicate Covers(v: IoVec, address: nat) {
    v.base <= address < v.base + v.len
  }

  ghost predicate Covered(entries: seq<IoVec>, address: nat) {
    exists a :: 0 <= a < |entries| && Covers(entries[a], address)
  }

  /** The vector tiles the mapping at buf: its entries follow each other without overlap, an
      address is in the mapping exactly if some entry covers it, and each entry lies in one
      block, eight to a block. */
  ghost predicate Tiles(entries: seq<IoVec>, buf: nat, layout: Layout) {
    && 0 < layout.blockSize
    && (forall a, b :: 0 <= a < b < |entries| ==> entries[a].base + entries[a].len <= entries[b].base)
    && (forall p: nat :: Covered(entries, p) <==> buf <= p < buf + MappedLength(layout))
    && (forall a, p: nat :: 0 <= a < |entries| && Covers(entries[a], p) ==> buf <= p && (p - buf) / layout.blockSize == a / 8)
  }

  /** Entry a of the vector is frame a of the mapping. */
  ghost predicate PointsAtFrames(entries: seq<IoVec>, buf: nat, layout: Layout) {
    && |entries| == layout.frameNr
    && forall a :: 0 <= a < |entries| ==> entries[a] == IoVec(buf + a * layout.frameSize, layout.frameSize)
  }

  /** For every accepted size and count, the frames of a mapping that is not empty tile it. */
  lemma FramesTileMapping(entries: seq<IoVec>, buf: nat, frameSize: u32, frameNr: nat)
    requires Mappable(frameSize, frameNr) && PointsAtFrames(entries, buf, LayoutFor(frameSize, frameNr))
    ensures Tiles(entries, buf, LayoutFor(frameSize, frameNr))
  {
    var l := LayoutFor(frameSize, frameNr);
    MappedLengthExactly(frameSize, frameNr);
    var k := AcceptedCounts(frameSize, frameNr);
    assert frameSize != 0;
    hide Accepted, MappedLength, InFrame;
    forall a, b | 0 <= a < b < |entries|
      ensures entries[a].base + entries[a].len <= entries[b].base
    {
      FramesInOrder(frameSize, a, b);
    }
    forall p: nat
      ensures Covered(entries, p) <==> buf <= p < buf + MappedLength(l)
    {
      AddressInFrame(entries, buf, frameSize, frameNr, l, p);
    }
    forall a, p: nat | 0 <= a < |entries| && Covers(entries[a], p)
      ensures buf <= p && (p - buf) / l.blockSize == a / 8
    {
      CoveredIsInFrame(entries, buf, l, a, p);
      FrameInOneBlock(frameSize, a, p - buf);
    }
  }

  lemma FramesInOrder(frameSize: nat, a: nat, b: nat)
    requires 0 < frameSize && a < b
    ensures a * frameSize + frameSize <= b * frameSize
  {
    MulOrder(frameSize, a, b);
  }

  lemma CoveredIsInFrame(entries: seq<IoVec>, buf: nat, l: Layout, a: nat, p: nat)
    requires PointsAtFrames(entries, buf, l) && a < |entries|
    ensures Covers(entries[a], p) <==> buf <= p && InFrame(l.frameSize, a, p - buf)
  {
    MulNonNegative(a, l.frameSize);
  }

  lemma AddressInFrame(entries: seq<IoVec>, buf: nat, frameSize: u32, frameNr: nat, l: Layout, p: nat)
    requires 0 < frameSize && PointsAtFrames(entries, buf, l) && l.frameSize == frameSize && l.frameNr == frameNr
    requires MappedLength(l) == frameSize * frameNr
    ensures Covered(entries, p) <==> buf <= p < buf + MappedLength(l)
  {
    hide MappedLength, InFrame;
    assert |entries| == frameNr;
    if Covered(entries, p) {
      var a :| 0 <= a < |entries| && Covers(entries[a], p);
      CoveredIsInFrame(entries, buf, l, a, p);
      FramesTile(frameSize, frameNr, p - buf, a);
    } else if buf <= p < buf + MappedLength(l) {
      FramesTile(frameSize, frameNr, p - buf, 0);
      var b: nat :| b < frameNr && InFrame(frameSize, b, p - buf);
      CoveredIsInFrame(entries, buf, l, b, p);
    }
  }

  // ---------------------------------------------------------------- the structure

  class System {
    var held: Resources
    /** The interface each bound socket is bound to. */
    var bound: map<int, int>

    constructor (held: Resources)
      ensures this.held == held && bound == map[]
    {
      this.held, bound := held, map[];
    }
  }

  class PacketMmap {
    var kind: Kind
    var pfSock: int
    var ifindex: int
    var layout: Layout
    var vec: nat
    var entries: array?<IoVec>
    var buf: nat
    const system: System

    constructor (system: System)
      ensures this.system == system && Cleared()
    {
      this.system := system;
      kind, pfSock, ifindex, layout, vec, entries, buf := NoKind, 0, 0, NO_LAYOUT, NULL, null, NULL;
    }

    /** All bytes of the structure are zero. */
    ghost predicate Cleared()
      reads this
    {
      kind == NoKind && pfSock == 0 && ifindex == 0 && layout == NO_LAYOUT && vec == NULL && entries == null && buf == NULL
    }

    method Clear()
      modifies this
      ensures Cleared()
    {
      kind, pfSock, ifindex, layout, vec, entries, buf := NoKind, 0, 0, NO_LAYOUT, NULL, null, NULL;
    }

    /** The vector points at the frames of the mapping, one after the other. */
    ghost predicate Vectored()
      reads this, entries
    {
      entries != null && PointsAtFrames(entries[..], buf, layout)
    }

    /** packet_mmap_register. */
    method Register(answers: Answers) returns (rc: int)
      modifies system`held
      ensures rc == answers.register
      ensures system.held == if rc == 0 then SetRing(old(system.held), pfSock, kind, layout) else old(system.held)
    {
      if answers.register != 0 {
        return answers.register;
      }
      system.held := SetRing(system.held, pfSock, kind, layout);
      rc := 0;
    }

    /** packet_mmap_mmap. */
    method Map(answers: Answers) returns (rc: int)
      modifies this`buf, system`held
      ensures rc == if MapSucceeds(layout, answers) then 0 else EINVAL
      ensures buf == if MapSucceeds(layout, answers) then answers.mmap.value else MAP_FAILED
      ensures system.held == if rc == 0 then MapAt(old(system.held), buf, pfSock, MappedLength(layout)) else old(system.held)
    {
      if !MapSucceeds(layout, answers) {
        buf := MAP_FAILED;
        return EINVAL;
      }
      buf := answers.mmap.value;
      system.held := MapAt(system.held, buf, pfSock, MappedLength(layout));
      rc := 0;
    }

    /** packet_mmap_vector_create. */
    method CreateVector(answers: Answers) returns (rc: int)
      modifies this`vec, this`entries, system`held
      ensures rc == if answers.calloc.Some? then 0 else ENOMEM
      ensures rc == 0 ==> Vectored() && fresh(entries) && vec == answers.calloc.value && system.held == Allocate(old(system.held), vec)
      ensures rc != 0 ==> vec == NULL && system.held == old(system.held)
    {
      if answers.calloc.None? {
        vec, entries := NULL, null;
        return ENOMEM;
      }
      var v := new IoVec[layout.frameNr];
      for a := 0 to layout.frameNr
        modifies v
        invariant forall b :: 0 <= b < a ==> v[b] == IoVec(buf + b * layout.frameSize, layout.frameSize)
      {
        MulNonNegative(a, layout.frameSize);
        v[a] := IoVec(buf + a * layout.frameSize, layout.frameSize);
      }
      vec, entries := answers.calloc.value, v;
      system.held := Allocate(system.held, vec);
      rc := 0;
    }

    /** ldab_packet_mmap_destroy. */
    method Destroy()
      modifies this, system`held
      ensures Cleared()
      ensures system.held == Released(old(system.held), old(vec), old(buf), old(layout), old(pfSock), old(kind))
    {
      system.held := Free(system.held, vec);
      if buf != NULL {
        system.held := Unmap(system.held, buf, MappedLength(layout));
        buf := NULL;
      }
      layout := NO_LAYOUT;
      system.held := SetRing(system.held, pfSock, kind, layout);
      Clear();
    }

    /** packet_mmap_bind. */
    method Bind(answers: Answers) returns (rc: int)
      modifies system`bound
      ensures rc == answers.bind
      ensures system.bound == if rc == 0 then old(system.bound)[pfSock := ifindex] else old(system.bound)
    {
      if answers.bind != 0 {
        return answers.bind;
      }
      system.bound := system.bound[pfSock := ifindex];
      rc := 0;
    }

    /** One entry of the table of setup functions. */
    method SetupStep(a: nat, answers: Answers) returns (rc: int)
      requires a < 4 && a <= FailingStep(layout, answers)
      modifies this`vec, this`entries, this`buf, system
      ensures rc == if a == FailingStep(layout, answers) then SetupCode(layout, answers) else 0
      ensures system.bound == if a == 3 && rc == 0 then old(system.bound)[pfSock := ifindex] else old(system.bound)
      ensures a != 1 ==> buf == old(buf)
      ensures a < 2 ==> vec == old(vec)
      ensures a == 1 ==> buf == if MapSucceeds(layout, answers) then answers.mmap.value else MAP_FAILED
      ensures a == 2 ==> vec == if answers.calloc.Some? then answers.calloc.value else NULL
      ensures a == 3 ==> vec == old(vec) && entries == old(entries) && system.held == old(system.held)
      ensures a == 2 && rc == 0 ==> Vectored() && fresh(entries)
      ensures rc != 0 ==> system.held == old(system.held)
      ensures rc == 0 && a == 0 ==> system.held == SetRing(old(system.held), pfSock, kind, layout)
      ensures rc == 0 && a == 1 ==> system.held == MapAt(old(system.held), buf, pfSock, MappedLength(layout))
      ensures rc == 0 && a == 2 ==> system.held == Allocate(old(system.held), vec)
    {
      match a {
        case 0 => rc := Register(answers);
        case 1 => rc := Map(answers);
        case 2 => rc := CreateVector(answers);
        case _ => rc := Bind(answers);
      }
    }

    /** ldab_packet_mmap_create. Arguments that are not powers of two are refused before the
        structure is touched, an unknown device or an empty ring before anything is acquired.
        After that, any failing step leaves the structure all zero and the system as it was;
        success leaves exactly the ring, the mapping and the vector, and the vector tiles the
        mapping. */
    method Create(devError: int, devIndex: int, pfSock: int, kind: Kind, frameSize: u32, frameNr: nat, answers: Answers)
      returns (rc: int)
      requires frameNr < U64
      requires Unused(system.held, pfSock) && Possible(system.held, answers)
      modifies this, system
      ensures rc == if !PowerOf2(frameSize) || !PowerOf2(frameNr) then EINVAL
                    else if devError != 0 then devError
                    else if frameNr < 8 || 0x1_0000_0000 <= frameNr then EINVAL
                    else if answers.register != 0 then answers.register
                    else if answers.mmap.None? || frameSize == 0 || 0x1_0000_0000 <= frameSize * frameNr then EINVAL
                    else if answers.calloc.None? then ENOMEM
                    else answers.bind
      ensures system.bound == if rc == 0 then old(system.bound)[pfSock := devIndex] else old(system.bound)
      ensures rc != 0 ==> system.held == old(system.held)
      ensures !PowerOf2(frameSize) || !PowerOf2(frameNr) ==> unchanged(this)
      ensures PowerOf2(frameSize) && PowerOf2(frameNr) && devError != 0 ==> Cleared()
      ensures rc != 0 && devError == 0 && Accepted(frameSize, frameNr) ==> Cleared()
      ensures PowerOf2(frameSize) && PowerOf2(frameNr) && devError == 0 && !(8 <= frameNr < 0x1_0000_0000) ==>
                && this.kind == kind && this.pfSock == pfSock && ifindex == devIndex
                && layout == LayoutFor(frameSize, frameNr) && vec == NULL && buf == NULL
      ensures rc == 0 ==> Mappable(frameSize, frameNr)
      ensures rc == 0 ==>
                && answers.mmap == Some(buf) && answers.calloc == Some(vec)
                && system.held.rings == old(system.held.rings)[(pfSock, kind) := layout]
                && MappedLength(layout) == frameSize * frameNr
                && system.held.mappings == old(system.held.mappings)[buf := Mapping(pfSock, MappedLength(layout))]
                && system.held.blocks == old(system.held.blocks) + {vec}
      ensures rc == 0 ==>
                && layout.frameSize == frameSize && layout.frameNr == frameNr
                && layout.blockSize == 8 * frameSize && 8 * layout.blockNr == frameNr
                && layout == LayoutFor(frameSize, frameNr) && Vectored() && Tiles(entries[..], buf, layout) && this.pfSock == pfSock && this.kind == kind
                && this.ifindex == devIndex && layout != NO_LAYOUT
                && Pointers(layout, answers, 4, false, vec, buf)
                && system.held == Acquired(old(system.held), pfSock, kind, layout, answers, 4)
    {
      if !PowerOf2(frameSize) || !PowerOf2(frameNr) {
        return EINVAL;
      }
      AcceptedByNumbers(frameSize, frameNr);
      CodeByNumbers(frameSize, frameNr, answers);
      hide PowerOf2, MappedLength;
      Clear();
      if devError != 0 {
        return devError;
      }
      ifindex := devIndex;
      this.kind, this.pfSock := kind, pfSock;
      layout := LayoutFor(frameSize, frameNr);
      if layout.frameNr == 0 || layout.blockNr == 0 {
        return EINVAL;
      }
      ghost var before := system.held;
      rc := 0;
      for a := 0 to 4
        invariant a <= FailingStep(layout, answers) && rc == 0
        invariant layout == LayoutFor(frameSize, frameNr) && layout != NO_LAYOUT
        invariant this.pfSock == pfSock && this.kind == kind && ifindex == devIndex
        invariant Pointers(layout, answers, a, false, vec, buf)
        invariant 3 <= a ==> Vectored() && fresh(entries)
        invariant system.held == Acquired(before, pfSock, kind, layout, answers, a)
        invariant system.bound == if a == 4 then old(system.bound)[pfSock := devIndex] else old(system.bound)
      {
        rc := SetupStep(a, answers);
        if rc != 0 {
          RollbackRestores(before, pfSock, kind, layout, answers, a, true, vec, buf);
          Destroy();
          break;
        }
      }
      if rc == 0 {
        FramesTileMapping(entries[..], buf, frameSize, frameNr);
        MappedLengthExactly(frameSize, frameNr);
        ghost var k := AcceptedCounts(frameSize, frameNr);
      }
    }
  }

  /** Create, and destroy if it succeeded: either way the system is as it was before and the
      structure is all zero. */
  method CreateThenDestroy(m: PacketMmap, devIndex: int, pfSock: int, kind: Kind, frameSize: u32, frameNr: nat, answers: Answers)
    requires frameNr < U64 && Accepted(frameSize, frameNr)
    requires Unused(m.system.held, pfSock) && Possible(m.system.held, answers)
    modifies m, m.system
    ensures m.Cleared() && m.system.held == old(m.system.held)
  {
    hide PowerOf2;
    var rc := m.Create(0, devIndex, pfSock, kind, frameSize, frameNr, answers);
    if rc == 0 {
      RollbackRestores(old(m.system.held), pfSock, kind, m.layout, answers, 4, false, m.vec, m.buf);
      m.Destroy();
    }
  }
}
