/** How fast the capture thread empties the ring. The order of frames may suffer when poll
    fails or returns early; that every frame gets stored does not. */
module RxProgress {
  import opened Words
  import opened Pcap
  import opened RxRing
  import opened RxFifo

  /** How many slots slot i is ahead of the thread. */
  function Ahead(i: nat, index: nat, n: nat): (j: nat)
    requires i < n && index < n
    ensures j < n
  {
    if index <= i then i - index else i + n - index
  }

  /** No frame waits in the slots that are r or more ahead of the thread. */
  ghost predicate Clear(c: Config, s: State, r: nat)
    requires Shaped(c, s)
  {
    forall i :: 0 <= i < c.frameNr && r <= Ahead(i, s.index, c.frameNr) ==> !Waiting(s, i)
  }

  /** The thread polls although its slot has been filled meanwhile. */
  predicate Late(s: State)
    requires s.index < |s.slots|
  {
    s.pc.Poll? && s.slots[s.index].status != TP_STATUS_KERNEL
  }

  /** Steps the thread takes at most until it moves on. */
  function Stay(s: State): (k: nat)
    requires s.index < |s.slots|
    ensures 1 <= k <= 4
  {
    if s.slots[s.index].status != TP_STATUS_KERNEL then Rank(s.pc)
    else match s.pc case Top => 3 case Poll => 2 case _ => 1
  }

  function Left(s: State, r: nat): nat
    requires s.index < |s.slots|
  {
    if r == 0 then 0 else 4 * (r - 1) + Stay(s)
  }

  /** Passing a slot with no waiting frame in it: one slot less to look after. */
  lemma ClearAdvances(c: Config, s: State, t: State, r: nat)
    requires Shaped(c, s) && Shaped(c, t) && r <= c.frameNr && Clear(c, s, r)
    requires t.index == Next(s.index, c.frameNr) && t.pc.Top? && !IsUser(t.slots[s.index].status)
    requires forall i :: 0 <= i < c.frameNr && i != s.index ==> t.slots[i] == s.slots[i]
    ensures Clear(c, t, if r == 0 then 0 else r - 1)
  {
    var n := c.frameNr;
    forall i | 0 <= i < n && r <= Ahead(i, t.index, n) + 1
      ensures !Waiting(t, i)
    {
      if i != s.index {
        assert Ahead(i, s.index, n) == Ahead(i, t.index, n) + 1;
        assert !Waiting(s, i);
      }
    }
  }

  /** Steps at one slot uncover no waiting frame. */
  lemma ClearStays(c: Config, s: State, t: State, r: nat)
    requires Shaped(c, s) && Shaped(c, t) && Clear(c, s, r)
    requires t.index == s.index && t.slots == s.slots && !s.pc.Release?
    ensures Clear(c, t, r)
  {
    forall i | 0 <= i < c.frameNr && r <= Ahead(i, t.index, c.frameNr)
      ensures !Waiting(t, i)
    {
      assert !Waiting(s, i);
    }
  }

  /** What a step of a thread that is not late does: it stays at its slot and gets nearer
      to leaving it, or leaves it empty. */
  lemma Moves(c: Config, s: State, poll: int, taken: nat)
    requires Owned(c, s) && !Late(s)
    ensures var t := UserStep(c, s, poll, taken);
            && !Late(t) && t.delivered == s.delivered
            && if t.index == s.index && !t.pc.Top?
               then t.slots == s.slots && !s.pc.Release? && Stay(t) < Stay(s)
               else && t.index == Next(s.index, c.frameNr) && t.pc.Top? && !IsUser(t.slots[s.index].status)
                    && forall i :: 0 <= i < c.frameNr && i != s.index ==> t.slots[i] == s.slots[i]
  {
    hide EncodeRecord;
  }

  lemma Nearer(c: Config, s: State, poll: int, taken: nat, r: nat) returns (r': nat)
    requires Owned(c, s) && !Late(s) && r <= c.frameNr && Clear(c, s, r)
    ensures var t := UserStep(c, s, poll, taken);
            && !Late(t) && t.delivered == s.delivered && r' <= r && Clear(c, t, r')
            && (r != 0 ==> Left(t, r') < Left(s, r))
  {
    Moves(c, s, poll, taken);
    var t := UserStep(c, s, poll, taken);
    hide UserStep, Owned, Clear, Stay;
    if t.index == s.index && !t.pc.Top? {
      r' := r;
      ClearStays(c, s, t, r);
    } else {
      r' := if r == 0 then 0 else r - 1;
      ClearAdvances(c, s, t, r);
    }
  }

  /** With nothing waiting, everything delivered is stored. */
  lemma ClearMeansStored(c: Config, s: State)
    requires Owned(c, s) && Logged(c, s) && Clear(c, s, 0)
    ensures forall x :: 0 <= x < |s.delivered| ==> x in s.order
  {
    var n := c.frameNr;
    forall x | 0 <= x < |s.delivered|
      ensures !Waits(s, x)
    {
      var t := |s.delivered| - x;
      if 1 <= t <= n {
        assert !Waiting(s, Back(t, s.head, n));
      }
    }
  }

  predicate OnlyThread(es: seq<Event>) {
    forall i :: 0 <= i < |es| ==> es[i].User?
  }

  lemma {:induction false} DrainsFrom(c: Config, s: State, r: nat, es: seq<Event>)
    requires Owned(c, s) && Logged(c, s) && Windowed(c, s)
    requires !Late(s) && r <= c.frameNr && Clear(c, s, r)
    requires OnlyThread(es) && Left(s, r) <= |es|
    ensures var t := RunFrom(c, s, es);
            t.delivered == s.delivered && forall x :: 0 <= x < |t.delivered| ==> x in t.order
    decreases |es|
  {
    if es == [] {
      ClearMeansStored(c, s);
    } else {
      var r' := Nearer(c, s, es[0].poll, es[0].taken, r);
      ConservingStep(c, s, es[0]);
      hide Owned, Logged, Windowed, UserStep, Clear, Late, Stay;
      DrainsFrom(c, Step(c, s, es[0]), r', es[1..]);
    }
  }

  /** After any run, whatever poll did or does: four steps of the thread per slot, and none
      of the kernel, store every delivered frame; one more step is needed at most, when the
      poll the thread is in fails. */
  lemma DrainsAnyway(c: Config, file: seq<byte>, es: seq<Event>, more: seq<Event>)
    requires OnlyThread(more)
    requires 4 * c.frameNr <= |more|
    requires more[0].poll < 0 ==> 4 * c.frameNr < |more|
    ensures var t := Run(c, file, es + more);
            t.delivered == Run(c, file, es).delivered && forall x :: 0 <= x < |t.delivered| ==> x in t.order
  {
    ConservingRun(c, file, es);
    RunConcat(c, Init(c, file), es, more);
    var s := Run(c, file, es);
    if Late(s) {
      var t := Step(c, s, more[0]);
      assert !Late(t) && t.delivered == s.delivered && Left(t, c.frameNr) < |more| by {
        hide RunFrom;
      }
      ConservingStep(c, s, more[0]);
      hide Owned, Logged, Windowed, UserStep, Late;
      DrainsFrom(c, t, c.frameNr, more[1..]);
    } else {
      DrainsFrom(c, s, c.frameNr, more);
    }
  }
}
