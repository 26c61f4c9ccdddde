/** Socket filters travel as protobuf messages with 32-bit fields and run as native
    instructions with narrower ones. Conversion goes both ways, allocating as it goes. */
module FilterConversion {
  import opened Errno
  import opened Words
  import opened SockFilter

  datatype Message = Message(code: u32, jt: u32, jf: u32, k: u32)

  function ToNative(m: Message): Insn {
    Insn(m.code % U16, m.jt % 0x100, m.jf % 0x100, m.k)
  }

  function ToMessage(i: Insn): Message {
    Message(i.code, i.jt, i.jf, i.k)
  }

  function Natives(ms: seq<Message>): (r: seq<Insn>)
    ensures |r| == |ms| && forall a :: 0 <= a < |ms| ==> r[a] == ToNative(ms[a])
  {
    seq(|ms|, a requires 0 <= a < |ms| => ToNative(ms[a]))
  }

  function Messages(prog: seq<Insn>): (r: seq<Message>)
    ensures |r| == |prog| && forall a :: 0 <= a < |prog| ==> r[a] == ToMessage(prog[a])
  {
    seq(|prog|, a requires 0 <= a < |prog| => ToMessage(prog[a]))
  }

  /** The program the kernel sees after conversion: the length field has 16 bits. */
  function Converted(ms: seq<Message>): Program {
    Natives(ms)[..|ms| % U16]
  }

  predicate Fits(ms: seq<Message>) {
    |ms| < U16 && forall a :: 0 <= a < |ms| ==> ms[a].code < U16 && ms[a].jt < 0x100 && ms[a].jf < 0x100
  }

  /** Native to message and back is the identity. */
  lemma NativeRoundTrip(prog: Program)
    ensures Converted(Messages(prog)) == prog
  {
    var ms := Messages(prog);
    forall a | 0 <= a < |prog|
      ensures ToNative(ms[a]) == prog[a]
    {
    }
  }

  /** Message to native and back is the identity exactly when every field and the number of
      instructions fit their native widths. */
  lemma MessageRoundTrip(ms: seq<Message>)
    ensures Messages(Converted(ms)) == ms <==> Fits(ms)
  {
    var back := Messages(Converted(ms));
    if Fits(ms) {
      forall a | 0 <= a < |ms|
        ensures back[a] == ms[a]
      {
      }
    } else if |ms| < U16 {
      var a :| 0 <= a < |ms| && !(ms[a].code < U16 && ms[a].jt < 0x100 && ms[a].jf < 0x100);
      assert back[a] != ms[a];
    } else {
      assert |back| < |ms|;
    }
  }

  /** A message of 2^16 + 1 instructions that all return. */
  const LONG_MESSAGE: seq<Message> := seq(U16 + 1, _ => Message(BPF_RET + BPF_K, 0, 0, 0))

  /** It converts to a program of one instruction, which is accepted. */
  lemma LongMessageIsCut()
    ensures |LONG_MESSAGE| == U16 + 1 && Messages(Converted(LONG_MESSAGE)) != LONG_MESSAGE
    ensures Converted(LONG_MESSAGE) == [Insn(BPF_RET + BPF_K, 0, 0, 0)] && Accepts(Converted(LONG_MESSAGE))
  {
    MessageRoundTrip(LONG_MESSAGE);
    assert Class(BPF_RET + BPF_K) == BPF_RET;
  }

  // ---------------------------------------------------------------- memory

  class Heap {
    var live: set<nat>
    var next: nat

    /** Addresses given out so far are below next; 0 is NULL. */
    ghost predicate Valid()
      reads this
    {
      1 <= next && forall p :: p in live ==> 1 <= p < next
    }

    constructor ()
      ensures Valid() && live == {}
    {
      live, next := {}, 1;
    }

    /** malloc and calloc, succeeding or not as told. */
    method Allocate(ok: bool) returns (p: nat)
      requires Valid()
      modifies this
      ensures Valid() && next >= old(next)
      ensures ok ==> p == old(next) < next && live == old(live) + {p}
      ensures !ok ==> p == 0 && live == old(live)
    {
      if !ok {
        return 0;
      }
      p := next;
      live := live + {p};
      next := next + 1;
    }

    /** Freeing what is not allocated, twice for instance, is an error; freeing NULL is not. */
    method Free(p: nat)
      requires Valid() && (p == 0 || p in live)
      modifies this`live
      ensures Valid() && live == old(live) - {p}
    {
      live := live - {p};
    }
  }

  // ---------------------------------------------------------------- message to native

  class NativeFilter {
    var block: nat
    var filter: array?<Insn>
    var len: u16

    ghost predicate Holds(prog: Program)
      reads this, filter
    {
      len == |prog| && filter != null && len <= filter.Length && filter[..len] == prog
    }

    constructor ()
      ensures block == 0 && filter == null && len == 0
    {
      block, filter, len := 0, null, 0;
    }

    /** dabbad_sfp_destroy: the length is cleared, the stale pointer stays. */
    method Destroy(heap: Heap)
      requires heap.Valid() && (block == 0 || block in heap.live)
      modifies this, heap
      ensures heap.Valid() && heap.live == old(heap.live) - {block} && heap.next == old(heap.next)
      ensures len == 0 && block == old(block)
    {
      heap.Free(block);
      len := 0;
    }

    /** dabbad_pbuf_sfp_2_sfp. */
    method FromMessage(ms: seq<Message>, heap: Heap, calloc: bool) returns (rc: int)
      requires heap.Valid()
      modifies this, heap
      ensures heap.Valid()
      ensures rc == if !calloc then ENOMEM else if Accepts(Converted(ms)) then 0 else EINVAL
      ensures rc == 0 ==> Holds(Converted(ms)) && block !in old(heap.live) && heap.live == old(heap.live) + {block}
      ensures rc != 0 ==> heap.live == old(heap.live)
      ensures rc == EINVAL ==> len == 0
      ensures rc == 0 ==>
                && len == |ms| % 0x1_0000
                && forall a :: 0 <= a < len ==>
                     && filter[a].code == ms[a].code % 0x1_0000 && filter[a].jt == ms[a].jt % 0x100
                     && filter[a].jf == ms[a].jf % 0x100 && filter[a].k == ms[a].k
    {
      hide Accepts;
      block := heap.Allocate(calloc);
      if block == 0 {
        filter := null;
        return ENOMEM;
      }
      var v := new Insn[|ms|](_ => Insn(0, 0, 0, 0));
      for a := 0 to |ms|
        modifies v
        invariant forall b :: 0 <= b < a ==> v[b] == ToNative(ms[b])
      {
        v[a] := Insn(ms[a].code % U16, ms[a].jt % 0x100, ms[a].jf % 0x100, ms[a].k);
      }
      filter := v;
      len := |ms| % U16;
      assert filter[..len] == Converted(ms);
      var ok := IsValid(filter[..len]);
      if !ok {
        Destroy(heap);
        return EINVAL;
      }
      rc := 0;
    }
  }

  // ---------------------------------------------------------------- native to message

  datatype Entry = Entry(block: nat, message: Message)

  class MessageFilter {
    var block: nat
    var filter: seq<Entry>

    constructor ()
      ensures block == 0 && filter == []
    {
      block, filter := 0, [];
    }

    /** The blocks the message holds are allocated and all different. */
    ghost predicate Owns(live: set<nat>)
      reads this
    {
      && (block == 0 ==> filter == []) && (block == 0 || block in live)
      && (forall a :: 0 <= a < |filter| ==> filter[a].block in live && filter[a].block != block)
      && Distinct(filter)
    }

    /** dabbad_pbuf_sfp_destroy: every entry, then the table, each of them once. */
    method Destroy(heap: Heap)
      requires heap.Valid() && Owns(heap.live)
      modifies this, heap
      ensures heap.Valid() && heap.live == old(heap.live) - ({old(block)} + Blocks(old(filter)))
      ensures filter == [] && block == 0
    {
      for a := 0 to |filter|
        modifies heap
        invariant heap.Valid() && heap.live == old(heap.live) - Blocks(filter[..a])
      {
        assert filter[a].block !in Blocks(filter[..a]);
        heap.Free(filter[a].block);
        BlocksSnoc(filter[..a], filter[a]);
        assert filter[..a] + [filter[a]] == filter[..a + 1];
      }
      assert filter[..|filter|] == filter;
      assert block !in Blocks(filter);
      heap.Free(block);
      block, filter := 0, [];
    }

    /** dabbad_sfp_2_pbuf_sfp; the first `budget` allocations succeed. Either all of them do
        and the messages are those of the program, or whatever was allocated is freed again
        and the message is empty. */
    method FromNative(prog: Program, heap: Heap, budget: nat) returns (rc: int)
      requires heap.Valid() && filter == []
      modifies this, heap
      ensures heap.Valid()
      ensures rc == if |prog| < budget then 0 else ENOMEM
      ensures rc == 0 ==> MessagesOf(filter) == Messages(prog)
      ensures rc == 0 ==>
                && |filter| == |prog|
                && forall a :: 0 <= a < |prog| ==>
                     var m := filter[a].message;
                     m.code == prog[a].code && m.jt == prog[a].jt && m.jf == prog[a].jf && m.k == prog[a].k
      ensures rc == 0 ==> Owns(heap.live)
      ensures rc == 0 ==> heap.live == old(heap.live) + {block} + Blocks(filter) && old(heap.live) !! {block} + Blocks(filter)
      ensures rc != 0 ==> heap.live == old(heap.live) && filter == [] && block == 0
    {
      block := heap.Allocate(0 < budget);
      if block == 0 {
        return ENOMEM;
      }
      ghost var first := block;
      assert Blocks([]) == {};
      for n := 0 to |prog|
        invariant heap.Valid() && n < budget && |filter| == n && block == first
        invariant forall a :: 0 <= a < n ==> filter[a].message == ToMessage(prog[a])
        invariant heap.live == old(heap.live) + {block} + Blocks(filter)
        invariant old(heap.live) !! {block} + Blocks(filter)
        invariant Owns(heap.live)
      {
        var sf := heap.Allocate(n + 1 < budget);
        if sf == 0 {
          Destroy(heap);
          return ENOMEM;
        }
        BlocksSnoc(filter, Entry(sf, ToMessage(prog[n])));
        filter := filter + [Entry(sf, Message(prog[n].code, prog[n].jt, prog[n].jf, prog[n].k))];
      }
      rc := 0;
    }
  }

  predicate Distinct(es: seq<Entry>) {
    forall a, b :: 0 <= a < b < |es| ==> es[a].block != es[b].block
  }

  function MessagesOf(es: seq<Entry>): (r: seq<Message>)
    ensures |r| == |es| && forall a :: 0 <= a < |es| ==> r[a] == es[a].message
  {
    seq(|es|, a requires 0 <= a < |es| => es[a].message)
  }

  function Blocks(es: seq<Entry>): set<nat> {
    set a | 0 <= a < |es| :: es[a].block
  }

  lemma BlocksSnoc(es: seq<Entry>, e: Entry)
    ensures Blocks(es + [e]) == Blocks(es) + {e.block}
  {
    var fs := es + [e];
    assert forall a :: 0 <= a < |es| ==> fs[a] == es[a];
    assert fs[|es|] == e;
  }

  /** A program that was accepted once survives the trip through a message: converting it
      back is accepted again and gives the same program. When message and program are
      destroyed, the heap is as it was. */
  method ThereAndBack(prog: Program, heap: Heap) returns (rc: int, copy: Program)
    requires heap.Valid() && Accepts(prog)
    modifies heap
    ensures rc == 0 && copy == prog
    ensures heap.live == old(heap.live)
  {
    hide Accepts;
    var message := new MessageFilter();
    rc := message.FromNative(prog, heap, |prog| + 1);
    var back := new NativeFilter();
    NativeRoundTrip(prog);
    var list := MessagesOf(message.filter);
    message.Destroy(heap);
    rc := back.FromMessage(list, heap, true);
    copy := back.filter[..back.len];
    back.Destroy(heap);
  }
}
