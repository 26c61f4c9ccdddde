/** The queues as the daemon keeps them: objects with a list and a cached length, changed in
    place by the RPCs. Captures and replays run the same code on their own queue and share
    the thread queue. */
module Daemon {
  import opened Errno
  import opened Options
  import opened Registry

  class ThreadQueue {
    var list: seq<Thread>
    var length: nat

    ghost predicate Valid()
      reads this
    {
      length == |list| && DistinctThreads(list)
    }

    constructor ()
      ensures Valid() && list == []
    {
      list, length := [], 0;
    }

    /** dabbad_thread_find and the loop of dabbad_thread_stop: the position of a thread,
        or the length when there is none. */
    method Find(id: nat) returns (k: nat)
      requires Valid()
      ensures k <= |list|
      ensures k < |list| ==> list[k].id == id
      ensures k == |list| ==> !HasThread(list, id)
    {
      k := 0;
      while k < |list| && list[k].id != id
        invariant k <= |list|
        invariant forall j :: 0 <= j < k ==> list[j].id != id
      {
        k := k + 1;
      }
    }

    /** dabbad_thread_start: the thread is queued once it is created and detached. */
    method Start(thread: Thread, create: int, detach: int) returns (rc: int)
      requires Valid() && !HasThread(list, thread.id)
      modifies this
      ensures Valid()
      ensures rc == if create != 0 then create else detach
      ensures list == if rc == 0 then old(list) + [thread] else old(list)
    {
      rc := create;
      if rc == 0 {
        rc := detach;
      }
      if rc == 0 {
        list := list + [thread];
        length := length + 1;
      }
    }

    /** dabbad_thread_stop. */
    method Stop(id: nat, cancel: nat -> int) returns (rc: int)
      requires Valid()
      modifies this
      ensures Valid()
      ensures rc == if HasThread(old(list), id) then cancel(id) else EINVAL
      ensures list == if HasThread(old(list), id) && rc == 0 then Without(old(list), {id}) else old(list)
    {
      var k := Find(id);
      if k == |list| {
        return EINVAL;
      }
      assert HasThread(list, id);
      rc := cancel(id);
      if rc == 0 {
        WithoutOneThread(list, k);
        WithoutDistinct(list, {id});
        list := list[..k] + list[k + 1..];
        length := length - 1;
      }
    }

    /** The list dabbad_thread_get builds: as many entries as the cached length says, filled
        in queue order; none when the queue is empty or memory runs out. */
    method Get(calloc: bool) returns (r: Option<seq<Thread>>)
      requires Valid()
      ensures r == if list == [] || !calloc then None else Some(list)
    {
      if length == 0 || !calloc {
        return None;
      }
      var entries := new Thread[length](_ => Thread(0, Capture));
      var a := 0;
      for k := 0 to |list|
        invariant a == k && entries[..a] == list[..k]
      {
        entries[a] := list[k];
        a := a + 1;
      }
      assert entries[..] == list;
      r := Some(entries[..]);
    }
  }

  /** capture_settings_are_valid, replay_settings_are_valid. */
  method CheckSettings(s: Settings) returns (ok: bool)
    ensures ok <==> SettingsAreValid(s)
    ensures ok <==>
            && |s.interface| != 0 && |s.pcap| != 0 && s.frameNr != 0
            && (s.frameSize == 2048 || s.frameSize == 16384 || s.frameSize == 65536)
  {
    if |s.interface| == 0 {
      return false;
    }
    if |s.pcap| == 0 {
      return false;
    }
    if s.frameSize != 2048 && s.frameSize != 16384 && s.frameSize != 65536 {
      return false;
    }
    ok := s.frameNr != 0;
  }

  class JobQueue {
    const kind: Kind
    const threads: ThreadQueue
    var list: seq<Job>
    var length: nat

    /** The jobs are exactly the threads of this kind, in order. */
    ghost predicate Valid()
      reads this, threads
    {
      threads.Valid() && length == |list| && IdsOfKind(threads.list, kind) == Ids(list)
    }

    constructor (kind: Kind, threads: ThreadQueue)
      requires threads.Valid() && IdsOfKind(threads.list, kind) == []
      ensures this.kind == kind && this.threads == threads && list == [] && Valid()
    {
      this.kind, this.threads := kind, threads;
      list, length := [], 0;
    }

    /** dabbad_capture_find, dabbad_replay_find. */
    method Find(id: nat) returns (k: nat)
      ensures k <= |list|
      ensures k < |list| ==> list[k].id == id && id in Ids(list)
      ensures k == |list| ==> id !in Ids(list)
    {
      k := 0;
      while k < |list| && list[k].id != id
        invariant k <= |list|
        invariant forall j :: 0 <= j < k ==> list[j].id != id
      {
        k := k + 1;
      }
      if k < |list| {
        assert Ids(list)[k] == id;
      }
    }

    /** Every job has its thread. */
    lemma HasItsThread(k: nat)
      requires Valid() && k < |list|
      ensures HasThread(threads.list, list[k].id) && Distinct(Ids(list))
      ensures list[k].id in IdsOfKind(threads.list, kind)
    {
      assert Ids(list)[k] in Ids(list);
      KindsDisjoint(threads.list, kind, list[k].id);
      KindDistinct(threads.list, kind);
    }

    /** dabbad_capture_start, dabbad_replay_start: each failing call ends it before anything
        is queued. */
    method Start(s: Settings, o: Outcome) returns (rc: int)
      requires Valid() && !HasThread(threads.list, o.id)
      modifies this, threads
      ensures Valid() && rc == StartCode(kind, s, o)
      ensures threads.list == if Started(kind, s, o) then old(threads.list) + [Thread(o.id, kind)] else old(threads.list)
      ensures list == if Started(kind, s, o) then old(list) + [Job(o.id, s.frameNr, s.frameSize)] else old(list)
    {
      var ok := CheckSettings(s);
      if !ok {
        return EINVAL;
      }
      if o.socket != 0 {
        return o.socket;
      }
      if !o.calloc {
        return ENOMEM;
      }
      if !o.pcap {
        return o.errno;
      }
      if kind == Capture && s.filtered {
        if o.convert != 0 {
          return o.convert;
        }
        if o.attach != 0 {
          return o.attach;
        }
      }
      if o.mmap != 0 {
        return o.mmap;
      }
      ghost var was := threads.list;
      rc := threads.Start(Thread(o.id, kind), o.create, o.detach);
      if rc == 0 {
        KindOfSnoc(was, Thread(o.id, kind), kind);
        IdsSnoc(list, Job(o.id, s.frameNr, s.frameSize));
        list := list + [Job(o.id, s.frameNr, s.frameSize)];
        length := length + 1;
      }
    }

    /** dabbad_capture_stop, dabbad_replay_stop. */
    method Stop(id: nat, cancel: nat -> int) returns (rc: int)
      requires Valid()
      modifies this, threads
      ensures Valid()
      ensures rc == if id in Ids(old(list)) then cancel(id) else EINVAL
      ensures threads.list == if id in Ids(old(list)) && rc == 0 then Without(old(threads.list), {id}) else old(threads.list)
      ensures list == if id in Ids(old(list)) && rc == 0 then WithoutJobs(old(list), {id}) else old(list)
    {
      var k := Find(id);
      if k == |list| {
        return EINVAL;
      }
      HasItsThread(k);
      hide Ids, IdsOfKind, WithoutIds, WithoutJobs;
      ghost var was := threads.list;
      rc := threads.Stop(id, cancel);
      if rc == 0 {
        StopsJob(was, list, k, kind);
        list := list[..k] + list[k + 1..];
        length := length - 1;
      }
    }

    /** dabbad_capture_stop_all, dabbad_replay_stop_all: from the head on, until a
        cancellation fails. */
    method StopAll(cancel: nat -> int) returns (rc: int)
      requires Valid()
      modifies this, threads
      ensures Valid() && rc == StopAllCode(old(list), cancel)
      ensures list == old(list)[Stopped(old(list), cancel)..]
      ensures threads.list == Without(old(threads.list), IdSet(old(list)[..Stopped(old(list), cancel)]))
    {
      hide Ids, IdsOfKind, Without, Stopped;
      ghost var jobs, was := list, threads.list;
      ghost var n := 0;
      rc := 0;
      WithoutNobody(was);
      while list != []
        invariant Valid() && rc == 0
        invariant n <= |jobs| && list == jobs[n..]
        invariant n + Stopped(list, cancel) == Stopped(jobs, cancel)
        invariant threads.list == Without(was, IdSet(jobs[..n]))
        decreases |list|
      {
        HasItsThread(0);
        StopAllStep(was, jobs, n, threads.list, kind, cancel);
        rc := threads.Stop(list[0].id, cancel);
        if rc != 0 {
          break;
        }
        list := list[1..];
        length := length - 1;
        n := n + 1;
      }
      StoppedNone(list, cancel);
    }

    /** dabbad_capture_get, dabbad_replay_get. */
    method Get(calloc: bool) returns (r: Option<seq<Job>>)
      requires Valid()
      ensures r == if list == [] || !calloc then None else Some(list)
    {
      if length == 0 || !calloc {
        return None;
      }
      var entries := new Job[length](_ => Job(0, 0, 0));
      var a := 0;
      for k := 0 to |list|
        invariant a == k && entries[..a] == list[..k]
      {
        entries[a] := list[k];
        a := a + 1;
      }
      assert entries[..] == list;
      r := Some(entries[..]);
    }
  }

  // ---------------------------------------------------------------- removal from job lists

  lemma {:induction false} WithoutOneJob(js: seq<Job>, k: nat)
    requires k < |js| && forall i, j :: 0 <= i < j < |js| ==> js[i].id != js[j].id
    ensures WithoutJobs(js, {js[k].id}) == js[..k] + js[k + 1..]
    decreases |js|
  {
    var n := |js| - 1;
    if k == n {
      WithoutNoJob(js[..n], js[k].id);
      assert js[..n] + [] == js[..k] + js[k + 1..];
    } else {
      WithoutOneJob(js[..n], k);
      assert js[..n][..k] + js[..n][k + 1..] + [js[n]] == js[..k] + js[k + 1..];
    }
  }

  /** Taking a job and its thread out of both queues keeps them in step. */
  lemma StopsJob(ts: seq<Thread>, js: seq<Job>, k: nat, kind: Kind)
    requires k < |js| && IdsOfKind(ts, kind) == Ids(js) && Distinct(Ids(js))
    ensures var id, left := js[k].id, js[..k] + js[k + 1..];
            WithoutJobs(js, {id}) == left && IdsOfKind(Without(ts, {id}), kind) == Ids(left)
  {
    var id := js[k].id;
    KindOfWithout(ts, {id}, kind);
    IdsOfWithout(js, {id});
    hide Without, WithoutIds, IdsOfKind, WithoutJobs;
    assert forall i :: 0 <= i < |js| ==> Ids(js)[i] == js[i].id;
    WithoutOneJob(js, k);
  }

  lemma {:induction false} WithoutNoJob(js: seq<Job>, id: nat)
    requires forall k :: 0 <= k < |js| ==> js[k].id != id
    ensures WithoutJobs(js, {id}) == js
  {
    if js != [] {
      WithoutNoJob(js[..|js| - 1], id);
      assert js[..|js| - 1] + [js[|js| - 1]] == js;
    }
  }

  lemma {:induction false} WithoutNobody(ts: seq<Thread>)
    ensures Without(ts, IdSet([])) == ts
  {
    assert IdSet([]) == {};
    if ts != [] {
      WithoutNobody(ts[..|ts| - 1]);
    }
  }

  /** Removing one set of ids and then another removes their union. */
  lemma {:induction false} WithoutTwice(ts: seq<Thread>, xs: set<nat>, ys: set<nat>)
    ensures Without(Without(ts, xs), ys) == Without(ts, xs + ys)
  {
    if ts != [] {
      var init, t := ts[..|ts| - 1], ts[|ts| - 1];
      WithoutTwice(init, xs, ys);
      var once := Without(init, xs);
      assert (once + [t])[..|once|] == once;
      assert once + [] == once;
    }
  }

  lemma IdSetSnoc(js: seq<Job>, n: nat)
    requires n < |js|
    ensures IdSet(js[..n + 1]) == IdSet(js[..n]) + {js[n].id}
  {
    IdsSlices(js, n);
    IdsSlices(js, n + 1);
    hide Ids;
    assert Ids(js)[..n + 1] == Ids(js)[..n] + [js[n].id];
  }

  /** Stopping the first job of a kind keeps threads and jobs in step. */
  lemma StopHead(ts: seq<Thread>, js: seq<Job>, kind: Kind)
    requires DistinctThreads(ts) && js != [] && IdsOfKind(ts, kind) == Ids(js)
    ensures IdsOfKind(Without(ts, {js[0].id}), kind) == Ids(js[1..])
  {
    var id := js[0].id;
    KindDistinct(ts, kind);
    KindOfWithout(ts, {id}, kind);
    IdsSlices(js, 1);
    hide IdsOfKind, Ids;
    WithoutHead(Ids(js), 1, {id});
  }

  lemma StoppedNone(js: seq<Job>, cancel: nat -> int)
    requires js == [] || cancel(js[0].id) != 0
    ensures Stopped(js, cancel) == 0
  {
  }

  /** One round of stop-all, whether its cancellation succeeds or not. */
  lemma StopAllStep(was: seq<Thread>, jobs: seq<Job>, n: nat, ts: seq<Thread>, kind: Kind, cancel: nat -> int)
    requires n < |jobs| && DistinctThreads(ts) && ts == Without(was, IdSet(jobs[..n]))
    requires IdsOfKind(ts, kind) == Ids(jobs[n..])
    ensures var id := jobs[n].id;
            && jobs[n..][0].id == id && jobs[n..][1..] == jobs[n + 1..]
            && Stopped(jobs[n..], cancel) == (if cancel(id) != 0 then 0 else 1 + Stopped(jobs[n + 1..], cancel))
            && Without(ts, {id}) == Without(was, IdSet(jobs[..n + 1]))
            && IdsOfKind(Without(ts, {id}), kind) == Ids(jobs[n + 1..])
  {
    assert jobs[n..][1..] == jobs[n + 1..];
    StopHead(ts, jobs[n..], kind);
    WithoutTwice(was, IdSet(jobs[..n]), {jobs[n].id});
    IdSetSnoc(jobs, n);
    hide Without, IdsOfKind, Ids;
  }

  // ---------------------------------------------------------------- the daemon

  class Service {
    const threads: ThreadQueue
    const captures: JobQueue
    const replays: JobQueue

    ghost function Model(): Queues
      reads this, threads, captures, replays
    {
      Queues(threads.list, threads.length, captures.list, captures.length, replays.list, replays.length)
    }

    ghost predicate Valid()
      reads this, threads, captures, replays
    {
      && captures.kind == Capture && replays.kind == Replay
      && captures.threads == threads == replays.threads
      && captures != replays
      && Agree(Model())
    }

    constructor ()
      ensures Valid() && Model() == EMPTY
    {
      var ts := new ThreadQueue();
      threads := ts;
      captures := new JobQueue(Capture, ts);
      replays := new JobQueue(Replay, ts);
    }

    method Start(kind: Kind, s: Settings, o: Outcome) returns (rc: int)
      requires Valid() && !HasThread(threads.list, o.id)
      modifies threads, captures, replays
      ensures Valid() && rc == StartCode(kind, s, o)
      ensures Model() == Registry.Start(old(Model()), kind, s, o)
    {
      StartAgrees(Model(), kind, s, o);
      hide IdsOfKind, Ids;
      if kind == Capture {
        rc := captures.Start(s, o);
      } else {
        rc := replays.Start(s, o);
      }
    }

    method Stop(kind: Kind, id: nat, cancel: nat -> int) returns (rc: int)
      requires Valid()
      modifies threads, captures, replays
      ensures Valid() && rc == StopCode(old(Model()), kind, id, cancel)
      ensures Model() == Registry.Stop(old(Model()), kind, id, cancel)
    {
      StopAgrees(Model(), kind, id, cancel);
      hide IdsOfKind, Ids, Without, WithoutJobs;
      if kind == Capture {
        rc := captures.Stop(id, cancel);
      } else {
        rc := replays.Stop(id, cancel);
      }
    }

    method StopAll(kind: Kind, cancel: nat -> int) returns (rc: int)
      requires Valid()
      modifies threads, captures, replays
      ensures Valid() && rc == StopAllCode(Jobs(old(Model()), kind), cancel)
      ensures Model() == Registry.StopAll(old(Model()), kind, cancel)
    {
      StopAllAgrees(Model(), kind, cancel);
      hide IdsOfKind, Ids, Without, Stopped;
      if kind == Capture {
        rc := captures.StopAll(cancel);
      } else {
        rc := replays.StopAll(cancel);
      }
    }

    /** The daemon serving RPCs one after the other. */
    method Serve(rpcs: seq<Rpc>)
      requires Valid() && PossibleRun(Model(), rpcs)
      modifies threads, captures, replays
      ensures Valid() && Model() == ServeAll(old(Model()), rpcs)
    {
      hide Agree, Possible, Registry.Start, Registry.Stop, Registry.StopAll;
      ghost var start := Model();
      for k := 0 to |rpcs|
        invariant Valid() && PossibleRun(Model(), rpcs[k..])
        invariant ServeAll(Model(), rpcs[k..]) == ServeAll(start, rpcs)
      {
        assert rpcs[k..][0] == rpcs[k] && rpcs[k..][1..] == rpcs[k + 1..];
        PossibleIds(Model(), rpcs[k]);
        match rpcs[k] {
          case StartRpc(kind, settings, outcome) => var rc := Start(kind, settings, outcome);
          case StopRpc(kind, id, cancel) => var rc := Stop(kind, id, cancel);
          case StopAllRpc(kind, cancel) => var rc := StopAll(kind, cancel);
        }
      }
      assert rpcs[|rpcs|..] == [];
    }
  }

  lemma PossibleIds(r: Queues, rpc: Rpc)
    requires Possible(r, rpc)
    ensures rpc.StartRpc? ==> !HasThread(r.threads, rpc.outcome.id)
  {
  }
}
