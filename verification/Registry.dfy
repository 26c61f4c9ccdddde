/** The daemon's three queues: threads, captures and replays. Every capture and every replay
    owns one thread; starting and stopping them must keep the queues and their cached lengths
    in step. This module says on values what each RPC does and proves that it does; Daemon
    has the queues as the source keeps them. */
module Registry {
  import opened Errno
  import opened Words
  import Bits
  import RingLayout

  datatype Kind = Capture | Replay
  datatype Thread = Thread(id: nat, kind: Kind)
  datatype Job = Job(id: nat, frameNr: nat, frameSize: nat)

  datatype Queues = Queues(
    threads: seq<Thread>, threadLength: int,
    captures: seq<Job>, captureLength: int,
    replays: seq<Job>, replayLength: int)

  const EMPTY := Queues([], 0, [], 0, [], 0)

  // ---------------------------------------------------------------- queues

  predicate HasThread(ts: seq<Thread>, id: nat) {
    exists k :: 0 <= k < |ts| && ts[k].id == id
  }

  /** No two threads share an id. */
  predicate DistinctThreads(ts: seq<Thread>) {
    forall i, j :: 0 <= i < j < |ts| ==> ts[i].id != ts[j].id
  }

  /** The ids of the threads of one kind, in queue order. */
  function IdsOfKind(ts: seq<Thread>, kind: Kind): seq<nat> {
    if ts == [] then []
    else IdsOfKind(ts[..|ts| - 1], kind) + (if ts[|ts| - 1].kind == kind then [ts[|ts| - 1].id] else [])
  }

  function Ids(js: seq<Job>): (r: seq<nat>)
    ensures |r| == |js|
    ensures forall k :: 0 <= k < |js| ==> r[k] == js[k].id
  {
    seq(|js|, k requires 0 <= k < |js| => js[k].id)
  }

  predicate Distinct(ids: seq<nat>) {
    forall i, j :: 0 <= i < j < |ids| ==> ids[i] != ids[j]
  }

  /** The queue without the threads whose ids are listed. */
  function Without(ts: seq<Thread>, gone: set<nat>): seq<Thread> {
    if ts == [] then []
    else Without(ts[..|ts| - 1], gone) + (if ts[|ts| - 1].id in gone then [] else [ts[|ts| - 1]])
  }

  function WithoutJobs(js: seq<Job>, gone: set<nat>): seq<Job> {
    if js == [] then []
    else WithoutJobs(js[..|js| - 1], gone) + (if js[|js| - 1].id in gone then [] else [js[|js| - 1]])
  }

  function WithoutIds(ids: seq<nat>, gone: set<nat>): seq<nat> {
    if ids == [] then []
    else WithoutIds(ids[..|ids| - 1], gone) + (if ids[|ids| - 1] in gone then [] else [ids[|ids| - 1]])
  }

  /** The queues agree: the cached lengths are the lengths, no two threads share an id, and
      the threads of each kind are exactly the jobs of that kind, in the same order. */
  ghost predicate Agree(r: Queues) {
    && r.threadLength == |r.threads| && r.captureLength == |r.captures| && r.replayLength == |r.replays|
    && DistinctThreads(r.threads)
    && IdsOfKind(r.threads, Capture) == Ids(r.captures)
    && IdsOfKind(r.threads, Replay) == Ids(r.replays)
  }

  function Jobs(r: Queues, kind: Kind): seq<Job> {
    if kind == Capture then r.captures else r.replays
  }

  function Other(kind: Kind): Kind {
    if kind == Capture then Replay else Capture
  }

  /** New threads and new jobs of one kind; the cached lengths are counted up or down. */
  function WithJobs(r: Queues, threads: seq<Thread>, kind: Kind, js: seq<Job>, count: int): Queues {
    var s := r.(threads := threads, threadLength := r.threadLength + count);
    if kind == Capture then s.(captures := js, captureLength := r.captureLength + count)
    else s.(replays := js, replayLength := r.replayLength + count)
  }

  // ---------------------------------------------------------------- the RPCs

  /** The message that asks for a capture or a replay. */
  datatype Settings = Settings(interface: string, pcap: string, frameSize: nat, frameNr: nat, filtered: bool, append: bool)

  predicate SettingsAreValid(s: Settings) {
    s.interface != "" && s.pcap != "" && RingLayout.FrameSizeIsValid(s.frameSize) && s.frameNr != 0
  }

  /** How each call of a start turns out, 0 for success, and the id of the thread. Whether
      the pcap file could be opened and what errno is then are two things: a header that is
      written only in part makes ldab_pcap_create fail and leaves errno as it was. */
  datatype Outcome = Outcome(
    socket: int, calloc: bool, pcap: bool, errno: int, convert: int, attach: int, mmap: int, create: int, detach: int, id: nat)

  /** What the calls can do: ldab_pcap_open, which replays and appending captures use, sets
      errno whenever it fails, and ldab_packet_mmap_create succeeds only if there can be a
      mapping. */
  predicate PossibleOutcome(kind: Kind, s: Settings, o: Outcome) {
    && (!o.pcap && (kind == Replay || s.append) ==> o.errno != 0)
    && (SettingsAreValid(s) && o.mmap == 0 ==> RingLayout.Mappable(s.frameSize, s.frameNr))
  }

  /** The code a start reports: that of the first call that fails. Only captures filter. */
  function StartCode(kind: Kind, s: Settings, o: Outcome): int {
    if !SettingsAreValid(s) then EINVAL
    else if o.socket != 0 then o.socket
    else if !o.calloc then ENOMEM
    else if !o.pcap then o.errno
    else if kind == Capture && s.filtered && o.convert != 0 then o.convert
    else if kind == Capture && s.filtered && o.attach != 0 then o.attach
    else if o.mmap != 0 then o.mmap
    else if o.create != 0 then o.create
    else o.detach
  }

  /** One call of a start: whether it fails, and the code that is reported then. */
  datatype Call = Call(fails: bool, code: int)

  /** The calls of a start in order: the check of the message, socket, calloc, opening or
      creating the pcap file, for a capture with a filter its conversion and its attachment,
      the mapping, and the thread with its detachment. */
  function Calls(kind: Kind, s: Settings, o: Outcome): seq<Call> {
    [Call(s.interface == "" || s.pcap == "" || s.frameSize !in {2048, 16384, 65536} || s.frameNr == 0, EINVAL),
     Call(o.socket != 0, o.socket), Call(!o.calloc, ENOMEM), Call(!o.pcap, o.errno)]
    + (if kind == Capture && s.filtered then [Call(o.convert != 0, o.convert), Call(o.attach != 0, o.attach)] else [])
    + [Call(o.mmap != 0, o.mmap), Call(o.create != 0, o.create), Call(o.detach != 0, o.detach)]
  }

  /** A start reports the code of the first call that fails, 0 if none does, and it takes
      place exactly if none does. */
  lemma StartReports(kind: Kind, s: Settings, o: Outcome, i: nat)
    ensures var calls := Calls(kind, s, o);
            && (i < |calls| && calls[i].fails && (forall j :: 0 <= j < i ==> !calls[j].fails) ==> StartCode(kind, s, o) == calls[i].code)
            && ((forall j :: 0 <= j < |calls| ==> !calls[j].fails) ==> StartCode(kind, s, o) == 0)
            && (Started(kind, s, o) <==> forall j :: 0 <= j < |calls| ==> !calls[j].fails)
  {
    var calls := Calls(kind, s, o);
    SettingsByNumbers(s);
    assert calls[0].fails <==> !SettingsAreValid(s);
    assert calls[1] == Call(o.socket != 0, o.socket) && calls[2] == Call(!o.calloc, ENOMEM) && calls[3] == Call(!o.pcap, o.errno);
    hide SettingsAreValid;
    if kind == Capture && s.filtered {
      assert |calls| == 9;
      assert calls[4] == Call(o.convert != 0, o.convert) && calls[5] == Call(o.attach != 0, o.attach);
      assert calls[6] == Call(o.mmap != 0, o.mmap) && calls[7] == Call(o.create != 0, o.create) && calls[8] == Call(o.detach != 0, o.detach);
    } else {
      assert |calls| == 7;
      assert calls[4] == Call(o.mmap != 0, o.mmap) && calls[5] == Call(o.create != 0, o.create) && calls[6] == Call(o.detach != 0, o.detach);
    }
  }

  /** What settings must be. */
  lemma SettingsByNumbers(s: Settings)
    ensures SettingsAreValid(s) <==>
            s.interface != "" && s.pcap != "" && s.frameSize in {2048, 16384, 65536} && s.frameNr != 0
  {
  }

  /** Every call of a start succeeds. */
  predicate Started(kind: Kind, s: Settings, o: Outcome) {
    && SettingsAreValid(s) && o.socket == 0 && o.calloc && o.pcap
    && (kind == Capture && s.filtered ==> o.convert == 0 && o.attach == 0)
    && o.mmap == 0 && o.create == 0 && o.detach == 0
  }

  function Start(r: Queues, kind: Kind, s: Settings, o: Outcome): Queues {
    if !Started(kind, s, o) then r
    else WithJobs(r, r.threads + [Thread(o.id, kind)], kind, Jobs(r, kind) + [Job(o.id, s.frameNr, s.frameSize)], 1)
  }

  /** A start that reports 0 has queued its job, except when a capture could not create its
      pcap file and errno was 0: then nothing is queued. A start that reports an error never
      queues anything. */
  lemma ReportedExactly(r: Queues, kind: Kind, s: Settings, o: Outcome)
    requires PossibleOutcome(kind, s, o)
    ensures StartCode(kind, s, o) == 0 <==>
            || Started(kind, s, o)
            || (&& SettingsAreValid(s) && o.socket == 0 && o.calloc && !o.pcap && o.errno == 0
                && kind == Capture && !s.append)
    ensures Start(r, kind, s, o) == r <==> !Started(kind, s, o)
  {
    hide RingLayout.FrameSizeIsValid, RingLayout.Mappable;
    if Started(kind, s, o) {
      assert |Start(r, kind, s, o).threads| == |r.threads| + 1;
    }
  }

  /** A capture into a file whose header could be written only in part. */
  const SILENT := Outcome(0, true, false, 0, 0, 0, EINVAL, 0, 0, 1)

  lemma SilentFailure(r: Queues)
    ensures PossibleOutcome(Capture, Settings("eth0", "a.pcap", 2048, 8, false, false), SILENT)
    ensures var s := Settings("eth0", "a.pcap", 2048, 8, false, false);
            StartCode(Capture, s, SILENT) == 0 && Start(r, Capture, s, SILENT) == r
  {
    ReportedExactly(r, Capture, Settings("eth0", "a.pcap", 2048, 8, false, false), SILENT);
  }

  /** cancel(id) is what pthread_cancel returns for a thread. */
  function StopCode(r: Queues, kind: Kind, id: nat, cancel: nat -> int): int {
    if id in Ids(Jobs(r, kind)) then cancel(id) else EINVAL
  }

  function Stop(r: Queues, kind: Kind, id: nat, cancel: nat -> int): Queues {
    if id !in Ids(Jobs(r, kind)) || cancel(id) != 0 then r
    else WithJobs(r, Without(r.threads, {id}), kind, WithoutJobs(Jobs(r, kind), {id}), -1)
  }

  /** How many jobs a stop-all stops: it goes on until a cancellation fails. */
  function Stopped(js: seq<Job>, cancel: nat -> int): (n: nat)
    ensures n <= |js|
    ensures forall k :: 0 <= k < n ==> cancel(js[k].id) == 0
    ensures n < |js| ==> cancel(js[n].id) != 0
  {
    if js == [] || cancel(js[0].id) != 0 then 0 else 1 + Stopped(js[1..], cancel)
  }

  function StopAllCode(js: seq<Job>, cancel: nat -> int): int {
    var n := Stopped(js, cancel);
    if n == |js| then 0 else cancel(js[n].id)
  }

  function IdSet(js: seq<Job>): set<nat> {
    set id | id in Ids(js)
  }

  function StopAll(r: Queues, kind: Kind, cancel: nat -> int): Queues {
    var js := Jobs(r, kind);
    var n := Stopped(js, cancel);
    WithJobs(r, Without(r.threads, IdSet(js[..n])), kind, js[n..], -(n as int))
  }

  datatype Rpc =
    | StartRpc(kind: Kind, settings: Settings, outcome: Outcome)
    | StopRpc(kind: Kind, id: nat, cancel: nat -> int)
    | StopAllRpc(kind: Kind, cancel: nat -> int)

  /** pthread_create never hands out the id of a thread that is still running. */
  predicate Possible(r: Queues, rpc: Rpc) {
    rpc.StartRpc? ==>
      !HasThread(r.threads, rpc.outcome.id) && PossibleOutcome(rpc.kind, rpc.settings, rpc.outcome)
  }

  function Serve(r: Queues, rpc: Rpc): Queues {
    match rpc
    case StartRpc(kind, settings, outcome) => Start(r, kind, settings, outcome)
    case StopRpc(kind, id, cancel) => Stop(r, kind, id, cancel)
    case StopAllRpc(kind, cancel) => StopAll(r, kind, cancel)
  }

  function ServeAll(r: Queues, rpcs: seq<Rpc>): Queues
    decreases |rpcs|
  {
    if rpcs == [] then r else ServeAll(Serve(r, rpcs[0]), rpcs[1..])
  }

  predicate PossibleRun(r: Queues, rpcs: seq<Rpc>)
    decreases |rpcs|
  {
    rpcs != [] ==> Possible(r, rpcs[0]) && PossibleRun(Serve(r, rpcs[0]), rpcs[1..])
  }

  // ---------------------------------------------------------------- removal

  lemma {:induction false} KindOfWithout(ts: seq<Thread>, gone: set<nat>, kind: Kind)
    ensures IdsOfKind(Without(ts, gone), kind) == WithoutIds(IdsOfKind(ts, kind), gone)
  {
    if ts != [] {
      var init, t := ts[..|ts| - 1], ts[|ts| - 1];
      KindOfWithout(init, gone, kind);
      KindOfSnoc(Without(init, gone), t, kind);
      WithoutIdsSnoc(IdsOfKind(init, kind), t.id, gone);
      assert Without(init, gone) + [] == Without(init, gone);
      assert IdsOfKind(init, kind) + [] == IdsOfKind(init, kind);
    }
  }

  lemma KindOfSnoc(ts: seq<Thread>, t: Thread, kind: Kind)
    ensures IdsOfKind(ts + [t], kind) == IdsOfKind(ts, kind) + (if t.kind == kind then [t.id] else [])
  {
    assert (ts + [t])[..|ts|] == ts;
  }

  lemma WithoutIdsSnoc(ids: seq<nat>, id: nat, gone: set<nat>)
    ensures WithoutIds(ids + [id], gone) == WithoutIds(ids, gone) + (if id in gone then [] else [id])
  {
    assert (ids + [id])[..|ids|] == ids;
  }

  lemma IdsSnoc(js: seq<Job>, j: Job)
    ensures Ids(js + [j]) == Ids(js) + [j.id]
  {
  }

  lemma {:induction false} IdsOfWithout(js: seq<Job>, gone: set<nat>)
    ensures Ids(WithoutJobs(js, gone)) == WithoutIds(Ids(js), gone)
  {
    if js != [] {
      var init, j := js[..|js| - 1], js[|js| - 1];
      IdsOfWithout(init, gone);
      IdsSnoc(WithoutJobs(init, gone), j);
      IdsSnoc(init, j);
      assert init + [j] == js;
      WithoutIdsSnoc(Ids(init), j.id, gone);
    }
  }

  /** Removing ids that are not there changes nothing. */
  lemma {:induction false} WithoutNone(ids: seq<nat>, gone: set<nat>)
    requires forall k :: 0 <= k < |ids| ==> ids[k] !in gone
    ensures WithoutIds(ids, gone) == ids
  {
    if ids != [] {
      WithoutNone(ids[..|ids| - 1], gone);
      assert ids[..|ids| - 1] + [ids[|ids| - 1]] == ids;
    }
  }

  /** Removing exactly the ids at the head of a list leaves the rest. */
  lemma {:induction false} WithoutHead(ids: seq<nat>, n: nat, gone: set<nat>)
    requires n <= |ids|
    requires forall k :: 0 <= k < |ids| ==> (ids[k] in gone <==> k < n)
    ensures WithoutIds(ids, gone) == ids[n..]
    decreases |ids|
  {
    if n < |ids| {
      var last := |ids| - 1;
      assert ids[..last] + [ids[last]] == ids;
      WithoutHead(ids[..last], n, gone);
      WithoutIdsSnoc(ids[..last], ids[last], gone);
      assert ids[last] !in gone;
      assert ids[..last][n..] + [ids[last]] == ids[n..];
    } else {
      WithoutAll(ids, gone);
    }
  }

  lemma {:induction false} WithoutAll(ids: seq<nat>, gone: set<nat>)
    requires forall k :: 0 <= k < |ids| ==> ids[k] in gone
    ensures WithoutIds(ids, gone) == []
  {
    if ids != [] {
      WithoutAll(ids[..|ids| - 1], gone);
    }
  }

  lemma {:induction false} WithoutMembers(ts: seq<Thread>, gone: set<nat>, t: Thread)
    ensures t in Without(ts, gone) <==> t in ts && t.id !in gone
  {
    if ts != [] {
      WithoutMembers(ts[..|ts| - 1], gone, t);
      assert ts == ts[..|ts| - 1] + [ts[|ts| - 1]];
    }
  }

  lemma {:induction false} WithoutDistinct(ts: seq<Thread>, gone: set<nat>)
    requires DistinctThreads(ts)
    ensures DistinctThreads(Without(ts, gone))
  {
    if ts != [] {
      var init, t := ts[..|ts| - 1], ts[|ts| - 1];
      WithoutDistinct(init, gone);
      var rest := Without(init, gone);
      forall k | 0 <= k < |rest|
        ensures rest[k].id != t.id
      {
        WithoutMembers(init, gone, rest[k]);
        var j :| 0 <= j < |init| && init[j] == rest[k];
        assert ts[j].id != t.id;
      }
    }
  }

  // ---------------------------------------------------------------- kinds are disjoint

  lemma {:induction false} KindMembers(ts: seq<Thread>, kind: Kind, id: nat)
    ensures id in IdsOfKind(ts, kind) <==> exists k :: 0 <= k < |ts| && ts[k] == Thread(id, kind)
  {
    if ts != [] {
      var n := |ts| - 1;
      KindMembers(ts[..n], kind, id);
      assert forall k :: 0 <= k < n ==> ts[..n][k] == ts[k];
      if ts[n] == Thread(id, kind) {
        assert id in IdsOfKind(ts, kind);
      }
    }
  }

  lemma KindsDisjoint(ts: seq<Thread>, kind: Kind, id: nat)
    requires DistinctThreads(ts) && id in IdsOfKind(ts, kind)
    ensures id !in IdsOfKind(ts, Other(kind)) && HasThread(ts, id)
  {
    KindMembers(ts, kind, id);
    KindMembers(ts, Other(kind), id);
    var k :| 0 <= k < |ts| && ts[k] == Thread(id, kind);
    assert forall j :: 0 <= j < |ts| && ts[j].id == id ==> j == k;
  }

  lemma {:induction false} KindDistinct(ts: seq<Thread>, kind: Kind)
    requires DistinctThreads(ts)
    ensures Distinct(IdsOfKind(ts, kind))
  {
    if ts != [] {
      var n := |ts| - 1;
      KindDistinct(ts[..n], kind);
      KindMembers(ts[..n], kind, ts[n].id);
      assert forall k :: 0 <= k < n ==> ts[..n][k] == ts[k];
    }
  }

  /** Every thread is of one kind. */
  lemma {:induction false} KindsCount(ts: seq<Thread>)
    ensures |ts| == |IdsOfKind(ts, Capture)| + |IdsOfKind(ts, Replay)|
  {
    if ts != [] {
      KindsCount(ts[..|ts| - 1]);
    }
  }

  // ---------------------------------------------------------------- every RPC keeps agreement

  lemma StartAgrees(r: Queues, kind: Kind, s: Settings, o: Outcome)
    requires Agree(r) && !HasThread(r.threads, o.id)
    ensures Agree(Start(r, kind, s, o))
  {
    var t, j := Thread(o.id, kind), Job(o.id, s.frameNr, s.frameSize);
    KindOfSnoc(r.threads, t, Capture);
    KindOfSnoc(r.threads, t, Replay);
    IdsSnoc(Jobs(r, kind), j);
  }

  /** Removing a set of ids of one kind from both queues keeps them in step and leaves the
      jobs of the other kind alone. */
  lemma RemovalAgrees(r: Queues, kind: Kind, gone: set<nat>, js: seq<Job>)
    requires Agree(r)
    requires forall id :: id in gone ==> id in Ids(Jobs(r, kind))
    requires Ids(js) == WithoutIds(Ids(Jobs(r, kind)), gone)
    ensures Agree(WithJobs(r, Without(r.threads, gone), kind, js, |js| - |Jobs(r, kind)|))
  {
    var other := Other(kind);
    WithoutDistinct(r.threads, gone);
    KindOfWithout(r.threads, gone, kind);
    KindOfWithout(r.threads, gone, other);
    forall k | 0 <= k < |IdsOfKind(r.threads, other)|
      ensures IdsOfKind(r.threads, other)[k] !in gone
    {
      var id := IdsOfKind(r.threads, other)[k];
      if id in gone {
        KindsDisjoint(r.threads, kind, id);
      }
    }
    WithoutNone(IdsOfKind(r.threads, other), gone);
    KindsCount(r.threads);
    KindsCount(Without(r.threads, gone));
    hide IdsOfKind, Ids, Without, WithoutIds, DistinctThreads;
  }

  lemma StopAgrees(r: Queues, kind: Kind, id: nat, cancel: nat -> int)
    requires Agree(r)
    ensures Agree(Stop(r, kind, id, cancel))
  {
    if id in Ids(Jobs(r, kind)) && cancel(id) == 0 {
      IdsOfWithout(Jobs(r, kind), {id});
      KindDistinct(r.threads, kind);
      RemoveOne(Ids(Jobs(r, kind)), id);
      hide Agree, Ids, WithoutIds;
      RemovalAgrees(r, kind, {id}, WithoutJobs(Jobs(r, kind), {id}));
    }
  }

  lemma StoppedIds(js: seq<Job>, n: nat)
    requires n <= |js| && Distinct(Ids(js))
    ensures Ids(js[n..]) == WithoutIds(Ids(js), IdSet(js[..n]))
    ensures forall id :: id in IdSet(js[..n]) ==> id in Ids(js)
  {
    hide Ids, WithoutIds, Distinct;
    var ids := Ids(js);
    IdsSlices(js, n);
    HeadIds(ids, n);
    WithoutHead(ids, n, IdSet(js[..n]));
  }

  lemma IdsSlices(js: seq<Job>, n: nat)
    requires n <= |js|
    ensures Ids(js[..n]) == Ids(js)[..n] && Ids(js[n..]) == Ids(js)[n..]
  {
    hide Ids;
    assert forall k :: 0 <= k < n ==> js[..n][k] == js[k];
    assert forall k :: 0 <= k < |js| - n ==> js[n..][k] == js[n + k];
  }

  lemma HeadIds(ids: seq<nat>, n: nat)
    requires n <= |ids| && Distinct(ids)
    ensures forall k :: 0 <= k < |ids| ==> (ids[k] in ids[..n] <==> k < n)
  {
    forall k | 0 <= k < |ids|
      ensures ids[k] in ids[..n] <==> k < n
    {
      if k < n {
        assert ids[..n][k] == ids[k];
      }
    }
  }

  lemma StopAllAgrees(r: Queues, kind: Kind, cancel: nat -> int)
    requires Agree(r)
    ensures Agree(StopAll(r, kind, cancel))
  {
    var js := Jobs(r, kind);
    var n := Stopped(js, cancel);
    assert Ids(js) == IdsOfKind(r.threads, kind);
    KindDistinct(r.threads, kind);
    hide Agree, Stopped, IdsOfKind, WithoutIds, Without, Ids, IdSet;
    StoppedIds(js, n);
    RemovalAgrees(r, kind, IdSet(js[..n]), js[n..]);
  }

  lemma ServeAgrees(r: Queues, rpc: Rpc)
    requires Agree(r) && Possible(r, rpc)
    ensures Agree(Serve(r, rpc))
  {
    hide Agree;
    match rpc
    case StartRpc(kind, settings, outcome) => StartAgrees(r, kind, settings, outcome);
    case StopRpc(kind, id, cancel) => StopAgrees(r, kind, id, cancel);
    case StopAllRpc(kind, cancel) => StopAllAgrees(r, kind, cancel);
  }

  /** After every sequence of RPCs, whatever the system calls return, the queues agree. */
  lemma {:induction false} AlwaysAgree(r: Queues, rpcs: seq<Rpc>)
    requires Agree(r) && PossibleRun(r, rpcs)
    ensures Agree(ServeAll(r, rpcs))
    decreases |rpcs|
  {
    hide Agree, Serve, Possible;
    if rpcs != [] {
      ServeAgrees(r, rpcs[0]);
      AlwaysAgree(Serve(r, rpcs[0]), rpcs[1..]);
    }
  }

  /** ... so in every state the daemon reaches from its empty start, the thread queue is the
      disjoint union of the captures' and the replays' threads. */
  lemma ReachableQueues(rpcs: seq<Rpc>, id: nat)
    requires PossibleRun(EMPTY, rpcs)
    ensures var r := ServeAll(EMPTY, rpcs);
            && Agree(r)
            && (HasThread(r.threads, id) <==> id in Ids(r.captures) || id in Ids(r.replays))
            && !(id in Ids(r.captures) && id in Ids(r.replays))
  {
    AlwaysAgree(EMPTY, rpcs);
    hide Agree, ServeAll, PossibleRun;
    AgreeingThreads(ServeAll(EMPTY, rpcs), id);
  }

  lemma AgreeingThreads(r: Queues, id: nat)
    requires Agree(r)
    ensures HasThread(r.threads, id) <==> id in Ids(r.captures) || id in Ids(r.replays)
    ensures !(id in Ids(r.captures) && id in Ids(r.replays))
  {
    KindMembers(r.threads, Capture, id);
    KindMembers(r.threads, Replay, id);
    if id in IdsOfKind(r.threads, Capture) {
      KindsDisjoint(r.threads, Capture, id);
    }
    hide IdsOfKind, Ids, DistinctThreads;
    if HasThread(r.threads, id) {
      var k :| 0 <= k < |r.threads| && r.threads[k].id == id;
      assert r.threads[k] == Thread(id, Capture) || r.threads[k] == Thread(id, Replay);
    }
  }

  /** A job with a supported frame size whose frames, at least eight and a power of two of
      them, take less than 2^32 bytes. */
  ghost predicate SupportedJob(j: Job) {
    && RingLayout.FrameSizeIsValid(j.frameSize)
    && 8 <= j.frameNr && j.frameSize * j.frameNr < U32
    && exists k: nat :: j.frameNr == Bits.Pow2(k)
  }

  ghost predicate Supported(js: seq<Job>) {
    forall k :: 0 <= k < |js| ==> SupportedJob(js[k])
  }

  lemma {:induction false} SupportedWithout(js: seq<Job>, gone: set<nat>)
    requires Supported(js)
    ensures Supported(WithoutJobs(js, gone))
  {
    if js != [] {
      SupportedWithout(js[..|js| - 1], gone);
    }
  }

  /** Starting a job needs its mapping. */
  lemma StartedIsSupported(kind: Kind, s: Settings, o: Outcome)
    requires PossibleOutcome(kind, s, o) && Started(kind, s, o)
    ensures SupportedJob(Job(o.id, s.frameNr, s.frameSize))
  {
    RingLayout.MappableExactly(s.frameSize, s.frameNr);
    var k := RingLayout.AcceptedCounts(s.frameSize, s.frameNr);
    hide RingLayout.Mappable, Bits.Pow2;
  }

  /** In every run, every queued capture and replay has a supported frame size, and its frames
      are a power of two of at least eight that fits a mapping. */
  lemma {:induction false} JobsStaySupported(r: Queues, rpcs: seq<Rpc>)
    requires Supported(r.captures) && Supported(r.replays) && PossibleRun(r, rpcs)
    ensures var s := ServeAll(r, rpcs); Supported(s.captures) && Supported(s.replays)
    decreases |rpcs|
  {
    if rpcs != [] {
      var rpc := rpcs[0];
      hide PossibleOutcome, SupportedJob, Started;
      if rpc.StopRpc? {
        SupportedWithout(r.captures, {rpc.id});
        SupportedWithout(r.replays, {rpc.id});
      } else if rpc.StartRpc? && Started(rpc.kind, rpc.settings, rpc.outcome) {
        StartedIsSupported(rpc.kind, rpc.settings, rpc.outcome);
      }
      hide Without, WithoutJobs, Ids, Stopped, HasThread;
      JobsStaySupported(Serve(r, rpc), rpcs[1..]);
    }
  }

  // ---------------------------------------------------------------- what stopping does

  /** Stop-all leaves a suffix of the queue, empty exactly when it reports 0; it takes out of
      the thread queue exactly the threads of the jobs it stopped and touches no job of the
      other kind. What it reports is the code of the first cancellation that fails. */
  lemma StopAllEffect(r: Queues, kind: Kind, cancel: nat -> int)
    requires Agree(r)
    ensures var s := StopAll(r, kind, cancel);
            var js, n := Jobs(r, kind), Stopped(Jobs(r, kind), cancel);
            && Jobs(s, kind) == js[n..] && Jobs(s, Other(kind)) == Jobs(r, Other(kind))
            && (Jobs(s, kind) == [] <==> StopAllCode(js, cancel) == 0)
            && (forall k :: 0 <= k < |js| && cancel(js[k].id) != 0 && (forall j :: 0 <= j < k ==> cancel(js[j].id) == 0) ==>
                  n == k && StopAllCode(js, cancel) == cancel(js[k].id))
            && (forall t :: t in s.threads <==> t in r.threads && t.id !in Ids(js[..n]))
            && (forall t :: t in r.threads && t.kind != kind ==> t in s.threads)
  {
    var js := Jobs(r, kind);
    var n := Stopped(js, cancel);
    var gone := IdSet(js[..n]);
    hide Without;
    forall t
      ensures t in Without(r.threads, gone) <==> t in r.threads && t.id !in gone
    {
      WithoutMembers(r.threads, gone, t);
    }
    forall t | t in r.threads && t.kind != kind
      ensures t.id !in gone
    {
      OtherKindStays(r, kind, n, t);
    }
  }

  lemma OtherKindStays(r: Queues, kind: Kind, n: nat, t: Thread)
    requires Agree(r) && t in r.threads && t.kind != kind && n <= |Jobs(r, kind)|
    ensures t.id !in IdSet(Jobs(r, kind)[..n])
  {
    var js := Jobs(r, kind);
    var k :| 0 <= k < |r.threads| && r.threads[k] == t;
    assert t == Thread(t.id, Other(kind));
    KindMembers(r.threads, Other(kind), t.id);
    KindsDisjoint(r.threads, Other(kind), t.id);
    assert t.id !in Ids(js);
    assert Ids(js[..n]) == Ids(js)[..n];
  }

  /** A job found by its id always has its thread: stopping it reports what the
      cancellation reports, and on success exactly that thread and that job are gone. */
  lemma StopEffect(r: Queues, kind: Kind, id: nat, cancel: nat -> int)
    requires Agree(r) && id in Ids(Jobs(r, kind)) && cancel(id) == 0
    ensures Thread(id, kind) in r.threads
    ensures var s := Stop(r, kind, id, cancel);
            && !HasThread(s.threads, id) && id !in Ids(Jobs(s, kind))
            && |s.threads| == |r.threads| - 1 && |Jobs(s, kind)| == |Jobs(r, kind)| - 1
            && Jobs(s, Other(kind)) == Jobs(r, Other(kind))
            && (forall t :: t in s.threads <==> t in r.threads && t.id != id)
  {
    KindMembers(r.threads, kind, id);
    KindDistinct(r.threads, kind);
    IdsOfWithout(Jobs(r, kind), {id});
    RemoveOne(Ids(Jobs(r, kind)), id);
    var k :| 0 <= k < |r.threads| && r.threads[k] == Thread(id, kind);
    assert Thread(id, kind) in r.threads;
    RemoveOneThread(r.threads, k);
    hide IdsOfKind, WithoutIds, WithoutJobs, Without, Distinct, DistinctThreads;
  }

  lemma RemoveOneThread(ts: seq<Thread>, k: nat)
    requires DistinctThreads(ts) && k < |ts|
    ensures var left, id := Without(ts, {ts[k].id}), ts[k].id;
            && |left| == |ts| - 1 && !HasThread(left, id)
            && forall t :: t in left <==> t in ts && t.id != id
  {
    WithoutOneThread(ts, k);
    hide Without;
    var left, id := ts[..k] + ts[k + 1..], ts[k].id;
    assert forall i :: 0 <= i < |left| ==> left[i].id != id;
    forall t
      ensures t in left <==> t in ts && t.id != id
    {
      WithoutMembers(ts, {id}, t);
    }
  }

  lemma {:induction false} RemoveOne(ids: seq<nat>, id: nat)
    requires Distinct(ids) && id in ids
    ensures |WithoutIds(ids, {id})| == |ids| - 1 && id !in WithoutIds(ids, {id})
    decreases |ids|
  {
    var n := |ids| - 1;
    if ids[n] == id {
      WithoutNone(ids[..n], {id});
    } else {
      RemoveOne(ids[..n], id);
    }
  }

  /** Taking a node out of the queue is removing its id, since ids do not repeat. */
  lemma {:induction false} WithoutOneThread(ts: seq<Thread>, k: nat)
    requires DistinctThreads(ts) && k < |ts|
    ensures Without(ts, {ts[k].id}) == ts[..k] + ts[k + 1..]
    decreases |ts|
  {
    var n, id := |ts| - 1, ts[k].id;
    var init := ts[..n];
    if k == n {
      WithoutNoThread(init, id);
      assert init + [] == ts[..k] + ts[k + 1..];
    } else {
      WithoutOneThread(init, k);
      assert init[..k] + init[k + 1..] + [ts[n]] == ts[..k] + ts[k + 1..];
    }
  }

  lemma {:induction false} WithoutNoThread(ts: seq<Thread>, id: nat)
    requires forall k :: 0 <= k < |ts| ==> ts[k].id != id
    ensures Without(ts, {id}) == ts
  {
    if ts != [] {
      WithoutNoThread(ts[..|ts| - 1], id);
      assert ts[..|ts| - 1] + [ts[|ts| - 1]] == ts;
    }
  }
}
