/** Printing a CPU set and parsing the result. */
module CpuRoundTrip {
  import opened Errno
  import opened Options
  import opened CpuList
  import opened CpuLoop
  import opened CpuPrinter

  // ---------------------------------------------------------------- what is printed

  lemma NamedConcat(xs: seq<Item>, ys: seq<Item>, cpu: nat)
    ensures Named(xs + ys, cpu) <==> Named(xs, cpu) || Named(ys, cpu)
  {
    hide Covers;
    var zs := xs + ys;
    assert forall k :: 0 <= k < |xs| ==> zs[k] == xs[k];
    assert forall k :: 0 <= k < |ys| ==> zs[|xs| + k] == ys[k];
    if Named(zs, cpu) {
      var k :| 0 <= k < |zs| && Covers(zs[k], cpu);
      assert if k < |xs| then Covers(xs[k], cpu) else Covers(ys[k - |xs|], cpu);
    }
  }

  lemma NamedGroup(i: nat, run: nat, cpu: nat)
    ensures Named(Group(i, run), cpu) <==> i <= cpu <= i + run
  {
    var xs := Group(i, run);
    if i <= cpu <= i + run {
      assert if run == 1 && cpu == i + 1 then Covers(xs[1], cpu) else Covers(xs[0], cpu);
    }
  }

  /** A CPU is named by the first group or by what follows it. */
  lemma NamedItems(m: seq<bool>, i: nat, run: nat, reset: bool, cpu: nat)
    requires i < |m| && m[i]
    ensures var run' := Counted(m, i, run, reset);
            Named(Items(m, i, run, reset), cpu) <==> i <= cpu <= i + run' || Named(Items(m, i + run' + 1, run', reset), cpu)
  {
    hide Named, Group, Counted;
    var run' := Counted(m, i, run, reset);
    NamedConcat(Group(i, run'), Items(m, i + run' + 1, run', reset), cpu);
    NamedGroup(i, run', cpu);
  }

  /** Every set CPU is named: a group skips only what it names. */
  lemma {:induction false} SetIsNamed(m: seq<bool>, i: nat, run: nat, reset: bool, cpu: nat)
    requires i <= cpu < |m| && m[cpu]
    ensures Named(Items(m, i, run, reset), cpu)
    decreases |m| - i
  {
    hide Named, Following;
    if !m[i] {
      SetIsNamed(m, i + 1, run, reset, cpu);
    } else {
      var run' := Counted(m, i, run, reset);
      NamedItems(m, i, run, reset, cpu);
      if i + run' < cpu {
        SetIsNamed(m, i + run' + 1, run', reset, cpu);
      }
    }
  }

  /** With the counter restarted for each group, only set CPUs are named. */
  lemma {:induction false} NamedIsSet(m: seq<bool>, i: nat, run: nat, cpu: nat)
    requires Named(Items(m, i, run, true), cpu)
    ensures i <= cpu < |m| && m[cpu]
    decreases |m| - i
  {
    hide Named;
    if |m| <= i {
      NamedNothing(cpu);
    } else if !m[i] {
      NamedIsSet(m, i + 1, run, cpu);
    } else {
      var run' := Counted(m, i, run, true);
      NamedItems(m, i, run, true, cpu);
      if !(i <= cpu <= i + run') {
        NamedIsSet(m, i + run' + 1, run', cpu);
      }
    }
  }

  lemma NamedNothing(cpu: nat)
    ensures !Named([], cpu)
  {
  }

  // -------------------------------------------------- the counter carried over, exactly

  /** Among the CPUs from i on, the entries name only set ones. */
  ghost predicate Exact(m: seq<bool>, i: nat, run: nat) {
    forall cpu: nat :: cpu < |m| && Named(Items(m, i, run, false), cpu) ==> m[cpu]
  }

  /** From i on, once a CPU is set all further ones are. */
  ghost predicate UpClosed(m: seq<bool>, i: nat) {
    forall c: nat, d: nat :: i <= c < d < |m| && m[c] ==> m[d]
  }

  /** From i on: two neighbours set, later one clear, later one set, later one clear. */
  ghost predicate Gap(m: seq<bool>, i: nat) {
    exists p: nat :: i <= p && p + 1 < |m| && m[p] && m[p + 1] && GapAfter(m, p + 1)
  }

  ghost predicate GapAfter(m: seq<bool>, p: nat) {
    exists u: nat, c: nat, d: nat :: p < u < c < d < |m| && !m[u] && m[c] && !m[d]
  }

  /** Once a counter is carried over, the next group names CPUs past its end, which goes
      unnoticed only when that end is the end of the set. */
  lemma {:induction false} ExactWhenCarried(m: seq<bool>, i: nat, run: nat)
    requires 1 <= run
    ensures Exact(m, i, run) <==> UpClosed(m, i)
    decreases |m| - i
  {
    hide Named;
    if |m| <= i {
      forall cpu: nat ensures !Named(Items(m, i, run, false), cpu) {
        NamedNothing(cpu);
      }
    } else if !m[i] {
      ExactWhenCarried(m, i + 1, run);
      assert UpClosed(m, i) <==> UpClosed(m, i + 1);
    } else {
      CarriedGroup(m, i, run);
    }
  }

  lemma CarriedGroup(m: seq<bool>, i: nat, run: nat)
    requires 1 <= run && i < |m| && m[i]
    ensures Exact(m, i, run) <==> UpClosed(m, i)
  {
    hide Named;
    var f := Following(m, i + 1);
    var end, run' := i + 1 + f, Counted(m, i, run, false);
    if end < |m| {
      NamedItems(m, i, run, false, end);
      assert !UpClosed(m, i) by {
        assert m[i] && !m[end];
      }
    } else {
      forall cpu: nat | cpu < |m| && Named(Items(m, i, run, false), cpu)
        ensures m[cpu]
      {
        NamedItems(m, i, run, false, cpu);
        NamedNothing(cpu);
      }
      assert forall x :: i <= x < |m| ==> m[x];
    }
  }

  /** Before any group of two, exactness is the absence of the pattern. */
  lemma {:induction false} ExactWhenFresh(m: seq<bool>, i: nat)
    ensures Exact(m, i, 0) <==> !Gap(m, i)
    decreases |m| - i
  {
    hide Named, GapAfter;
    if |m| <= i {
      forall cpu: nat ensures !Named(Items(m, i, 0, false), cpu) {
        NamedNothing(cpu);
      }
    } else if !m[i] || Following(m, i + 1) == 0 {
      ExactWhenFresh(m, i + 1);
      assert Gap(m, i) <==> Gap(m, i + 1) by {
        assert !(m[i] && i + 1 < |m| && m[i + 1]);
      }
      if m[i] {
        forall cpu: nat | cpu < |m|
          ensures Named(Items(m, i, 0, false), cpu) <==> cpu == i || Named(Items(m, i + 1, 0, false), cpu)
        {
          NamedItems(m, i, 0, false, cpu);
        }
      }
    } else {
      var f := Following(m, i + 1);
      ExactWhenCarried(m, i + 1 + f, f);
      forall cpu: nat | cpu < |m|
        ensures Named(Items(m, i, 0, false), cpu) <==> i <= cpu <= i + f || Named(Items(m, i + f + 1, f, false), cpu)
      {
        NamedItems(m, i, 0, false, cpu);
      }
      FirstGroup(m, i);
    }
  }

  lemma FirstGroup(m: seq<bool>, i: nat)
    requires i < |m| && m[i] && 1 <= Following(m, i + 1)
    ensures Gap(m, i) <==> !UpClosed(m, i + 1 + Following(m, i + 1))
  {
    var end := i + 1 + Following(m, i + 1);
    if !UpClosed(m, end) {
      GapFound(m, i, end);
    }
    if Gap(m, i) {
      GapSeen(m, i, end);
    }
  }

  lemma GapFound(m: seq<bool>, i: nat, end: nat)
    requires i + 1 < end <= |m| && m[i] && m[i + 1] && (end < |m| ==> !m[end]) && !UpClosed(m, end)
    ensures Gap(m, i)
  {
    var c: nat, d: nat :| end <= c < d < |m| && m[c] && !m[d];
    assert i + 1 < end < c < d < |m| && !m[end] && m[c] && !m[d];
    assert GapAfter(m, i + 1);
  }

  lemma GapSeen(m: seq<bool>, i: nat, end: nat)
    requires end <= |m| && (forall x :: i <= x < end ==> m[x]) && Gap(m, i)
    ensures !UpClosed(m, end)
  {
    var p: nat :| i <= p && p + 1 < |m| && m[p] && m[p + 1] && GapAfter(m, p + 1);
    var u: nat, c: nat, d: nat :| p + 1 < u < c < d < |m| && !m[u] && m[c] && !m[d];
    assert end <= u;
    assert end <= c < d < |m| && m[c] && !m[d];
  }

  // ---------------------------------------------------------------- printed, then parsed

  /** Entries stay far below 2^32: the counter never exceeds the position. */
  lemma {:induction false} ItemsBounded(m: seq<bool>, i: nat, run: nat, reset: bool)
    requires |m| == CPU_SETSIZE && run <= i
    ensures Bounded(Items(m, i, run, reset))
    decreases |m| - i
  {
    hide Bounded, Group;
    if |m| <= i {
      NothingBounded();
    }
    if i < |m| {
      if !m[i] {
        ItemsBounded(m, i + 1, run, reset);
      } else {
        var run' := Counted(m, i, run, reset);
        ItemsBounded(m, i + run' + 1, run', reset);
        GroupBounded(i, run');
        BoundedConcat(Group(i, run'), Items(m, i + run' + 1, run', reset));
      }
    }
  }

  lemma NothingBounded()
    ensures Bounded([])
  {
  }

  lemma GroupBounded(i: nat, run: nat)
    requires i < CPU_SETSIZE && run <= 2 * CPU_SETSIZE
    ensures Bounded(Group(i, run))
  {
  }

  lemma BoundedConcat(xs: seq<Item>, ys: seq<Item>)
    requires Bounded(xs) && Bounded(ys)
    ensures Bounded(xs + ys)
  {
    hide Small, Unwrapped;
  }

  lemma ItemsEmpty(m: seq<bool>, reset: bool)
    ensures Items(m, 0, 0, reset) == [] <==> MaskSet(m) == {}
  {
    hide Items;
    if cpu :| cpu in MaskSet(m) {
      SetIsNamed(m, 0, 0, reset, cpu);
    } else {
      NoItems(m, 0, 0, reset);
    }
  }

  lemma {:induction false} NoItems(m: seq<bool>, i: nat, run: nat, reset: bool)
    requires MaskSet(m) == {}
    ensures Items(m, i, run, reset) == []
    decreases |m| - i
  {
    if i < |m| {
      assert m[i] ==> i in MaskSet(m);
      NoItems(m, i + 1, run, reset);
    }
  }

  /** The source's printer followed by the parser. The empty set prints as an empty string,
      which the parser refuses. Any other set is accepted and comes back with nothing lost;
      it comes back exactly unless some two neighbouring CPUs are followed by a clear one,
      then a set one, then a clear one. */
  lemma PrintThenParse(m: seq<bool>)
    requires |m| == CPU_SETSIZE
    ensures var ts := Tokens(TextPrinted(m));
            && Terminating(TextPrinted(m))
            && (GoodPrefix(ts) == |ts| <==> MaskSet(m) != {})
            && (MaskSet(m) != {} ==> MaskSet(m) <= Union(ts) && (Union(ts) == MaskSet(m) <==> !Gap(m, 0)))
  {
    var xs := Items(m, 0, 0, false);
    ItemsEmpty(m, false);
    if MaskSet(m) == {} {
      hide Items;
      EmptyListRefused();
    } else {
      ItemsBounded(m, 0, 0, false);
      ParsedItems(xs);
      ExactWhenFresh(m, 0);
      hide Items, Tokens, Text, Named, Gap, Terminating, GoodPrefix, Union, Bounded;
      var ts := Tokens(TextPrinted(m));
      forall cpu | cpu in MaskSet(m)
        ensures cpu in Union(ts)
      {
        SetIsNamed(m, 0, 0, false, cpu);
      }
      assert Union(ts) <= MaskSet(m) <==> Exact(m, 0, 0);
    }
  }

  lemma EmptyListRefused()
    ensures Tokens("") == [Malformed] && GoodPrefix(Tokens("")) == 0 && Terminating("")
  {
    assert ScanUnsigned("") == None;
    assert TokenOf("") == Malformed;
    assert Split("") == [""];
  }

  /** With the counter restarted for each group, every non-empty set comes back exactly. */
  lemma PrintWithResetThenParse(m: seq<bool>)
    requires |m| == CPU_SETSIZE && MaskSet(m) != {}
    ensures var s := Text(Items(m, 0, 0, true));
            && Terminating(s) && GoodPrefix(Tokens(s)) == |Tokens(s)| && Union(Tokens(s)) == MaskSet(m)
  {
    var xs := Items(m, 0, 0, true);
    ItemsEmpty(m, true);
    ItemsBounded(m, 0, 0, true);
    ParsedItems(xs);
    hide Items, Tokens, Text, Named, Terminating, GoodPrefix, Bounded, SetBy;
    forall cpu: nat
      ensures cpu < CPU_SETSIZE && Named(xs, cpu) <==> cpu in MaskSet(m)
    {
      if cpu in MaskSet(m) {
        SetIsNamed(m, 0, 0, true, cpu);
      }
      if Named(xs, cpu) {
        NamedIsSet(m, 0, 0, cpu);
      }
    }
  }

  /** Both loops in sequence, on masks in memory. */
  method PrintAndParse(mask: array<bool>, back: array<bool>) returns (rc: int)
    requires mask.Length == back.Length == CPU_SETSIZE && mask != back
    modifies back
    ensures rc == if MaskSet(mask[..]) == {} then -EINVAL else 0
    ensures MaskSet(mask[..]) <= MaskSet(back[..])
    ensures MaskSet(mask[..]) != {} ==> (back[..] == mask[..] <==> !Gap(mask[..], 0))
  {
    PrintThenParse(mask[..]);
    hide Gap, Union, Tokens, Terminating, Text, Items, GoodPrefix;
    ghost var m := mask[..];
    var str := PrintAffinity(mask);
    rc := ParseAffinity(str, back);
    assert mask[..] == m;
    ghost var ts := Tokens(TextPrinted(m));
    assert ts[..|ts|] == ts;
    SameMask(m, back[..]);
  }

  lemma SameMask(m: seq<bool>, n: seq<bool>)
    requires |m| == |n|
    ensures MaskSet(m) == MaskSet(n) <==> m == n
  {
    if MaskSet(m) == MaskSet(n) {
      forall x: nat | x < |m|
        ensures m[x] == n[x]
      {
        assert m[x] <==> x in MaskSet(m);
        assert n[x] <==> x in MaskSet(n);
      }
    }
  }

  /** CPUs 0 and 1, then 3: prints as "0,1,3,4" and comes back with CPU 4 added. */
  lemma CarriedCounterShows(m: seq<bool>)
    requires |m| == CPU_SETSIZE && MaskSet(m) == {0, 1, 3}
    ensures Gap(m, 0) && Items(m, 0, 0, false) == [One(0), One(1), One(3), One(4)]
    ensures TextPrinted(m) == "0,1,3,4"
  {
    FourEntries();
    hide Text;
    assert forall x: nat :: x < |m| ==> (m[x] <==> x in MaskSet(m));
    assert !m[2] && m[3] && !m[4] && m[0] && m[1];
    assert GapAfter(m, 1);
    assert m[0] && m[0 + 1] && GapAfter(m, 0 + 1);
    assert Following(m, 1) == 1 && Following(m, 4) == 0;
    assert Items(m, 0, 0, false) == Group(0, 1) + Items(m, 2, 1, false);
    assert Items(m, 2, 1, false) == Items(m, 3, 1, false) == Group(3, 1) + Items(m, 5, 1, false);
    NothingAfter(m, 5, 1);
  }

  lemma {:induction false} NothingAfter(m: seq<bool>, i: nat, run: nat)
    requires forall x :: i <= x < |m| ==> !m[x]
    ensures Items(m, i, run, false) == []
    decreases |m| - i
  {
    if i < |m| {
      NothingAfter(m, i + 1, run);
    }
  }

  lemma FourEntries()
    ensures Text([One(0), One(1), One(3), One(4)]) == "0,1,3,4"
  {
    DecimalDigits();
    hide Decimal;
    var xs := [One(0), One(1), One(3), One(4)];
    assert xs[1..] == [One(1), One(3), One(4)] && xs[1..][1..] == [One(3), One(4)] && xs[1..][1..][1..] == [One(4)];
    assert Text([One(3), One(4)]) == "3" + "," + "4" == "3,4";
    assert Text([One(1), One(3), One(4)]) == "1" + "," + "3,4" == "1,3,4";
  }

  lemma {:induction false} NothingBefore(m: seq<bool>, i: nat, j: nat)
    requires i <= j <= |m| && forall x :: i <= x < j ==> !m[x]
    ensures Items(m, i, 0, false) == Items(m, j, 0, false)
    decreases j - i
  {
    if i < j {
      NothingBefore(m, i + 1, j);
    }
  }

  lemma {:induction false} FollowingRun(m: seq<bool>, i: nat, j: nat)
    requires i <= j <= |m| && (forall x :: i <= x < j ==> m[x]) && (j < |m| ==> !m[j])
    ensures Following(m, i) == j - i
    decreases j - i
  {
    if i < j {
      FollowingRun(m, i + 1, j);
    }
  }

  /** The text for one run of CPUs, from i up to but not including j: a single number, two
      numbers, or a range with a dash. */
  lemma RunText(m: seq<bool>, i: nat, j: nat)
    requires i < j <= |m| == CPU_SETSIZE && forall x :: 0 <= x < |m| ==> (m[x] <==> i <= x < j)
    ensures TextPrinted(m) ==
            if j == i + 1 then Decimal(i)
            else if j == i + 2 then Decimal(i) + "," + Decimal(i + 1)
            else Decimal(i) + "-" + Decimal(j - 1)
  {
    NothingBefore(m, 0, i);
    FollowingRun(m, i + 1, j);
    var run := j - i - 1;
    NothingAfter(m, j, run);
    assert Items(m, i, 0, false) == Group(i, run) + Items(m, j, run, false);
    hide Decimal, Items, Following, Group, Text;
    assert Group(i, run) + [] == Group(i, run);
    GroupText(i, run);
  }

  lemma GroupText(i: nat, run: nat)
    ensures Text(Group(i, run)) ==
            if run == 0 then Decimal(i)
            else if run == 1 then Decimal(i) + "," + Decimal(i + 1)
            else Decimal(i) + "-" + Decimal(i + run)
  {
    hide Decimal;
    if run == 1 {
      assert Group(i, run)[1..] == [One(i + 1)];
    }
  }

  /** CPUs 0 to 2 print as 0-2, CPUs 9 and 10 as 9,10, and CPU 7 as 7. */
  lemma LiteralTexts(m: seq<bool>)
    requires |m| == CPU_SETSIZE
    ensures MaskSet(m) == {0, 1, 2} ==> TextPrinted(m) == "0-2"
    ensures MaskSet(m) == {9, 10} ==> TextPrinted(m) == "9,10"
    ensures MaskSet(m) == {7} ==> TextPrinted(m) == "7"
  {
    hide Decimal, TextPrinted;
    DecimalDigits();
    assert forall x: nat :: x < |m| ==> (m[x] <==> x in MaskSet(m));
    assert "0" + "-" + "2" == "0-2" && "9" + "," + "10" == "9,10";
    if MaskSet(m) == {0, 1, 2} {
      RunText(m, 0, 3);
    } else if MaskSet(m) == {9, 10} {
      RunText(m, 9, 11);
    } else if MaskSet(m) == {7} {
      RunText(m, 7, 8);
    }
  }
}
