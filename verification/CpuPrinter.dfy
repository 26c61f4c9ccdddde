/** cpu_affinity2str, and what the parser makes of the lists it prints. The count of CPUs that
    follow a set CPU is started once and carried over from group to group; `reset` says
    whether it is instead restarted for each group. The source does not restart it. */
module CpuPrinter {
  import opened Options
  import opened Words
  import opened CpuList
  import opened CpuLoop

  /** One comma-separated entry. */
  datatype Item = One(cpu: nat) | Span(lo: nat, hi: nat)

  /** How many CPUs from i on are set without a gap. */
  function Following(m: seq<bool>, i: nat): (n: nat)
    requires i <= |m|
    ensures i + n <= |m|
    ensures forall x :: i <= x < i + n ==> m[x]
    ensures i + n < |m| ==> !m[i + n]
    decreases |m| - i
  {
    if i < |m| && m[i] then 1 + Following(m, i + 1) else 0
  }

  /** The entries printed at CPU i when the counter holds run: they name i to i + run. */
  function Group(i: nat, run: nat): (xs: seq<Item>)
    ensures xs != []
  {
    if run == 0 then [One(i)] else if run == 1 then [One(i), One(i + 1)] else [Span(i, i + run)]
  }

  /** The counter at CPU i, which is set, when it held run before. */
  function Counted(m: seq<bool>, i: nat, run: nat, reset: bool): nat
    requires i < |m|
  {
    (if reset then 0 else run) + Following(m, i + 1)
  }

  /** The entries printed from CPU i on; a group skips the CPUs it names. */
  function Items(m: seq<bool>, i: nat, run: nat, reset: bool): seq<Item>
    decreases |m| - i
  {
    if |m| <= i then []
    else if !m[i] then Items(m, i + 1, run, reset)
    else
      var run' := Counted(m, i, run, reset);
      Group(i, run') + Items(m, i + run' + 1, run', reset)
  }

  // ---------------------------------------------------------------- text

  function Decimal(n: nat): (s: string)
    ensures s != []
    ensures forall k :: 0 <= k < |s| ==> IsDigit(s[k])
  {
    (if n < 10 then [] else Decimal(n / 10)) + [((n % 10) + '0' as int) as char]
  }

  function Render(x: Item): string {
    match x
    case One(cpu) => Decimal(cpu)
    case Span(lo, hi) => Decimal(lo) + "-" + Decimal(hi)
  }

  function Text(xs: seq<Item>): string {
    if xs == [] then ""
    else if |xs| == 1 then Render(xs[0])
    else Render(xs[0]) + "," + Text(xs[1..])
  }

  function TextPrinted(m: seq<bool>): string {
    Text(Items(m, 0, 0, false))
  }

  lemma {:induction false} TextConcat(xs: seq<Item>, ys: seq<Item>)
    requires ys != []
    ensures Text(xs + ys) == Text(xs) + (if xs == [] then "" else ",") + Text(ys)
    decreases |xs|
  {
    hide Render;
    if xs == [] {
      assert xs + ys == ys;
    } else {
      assert (xs + ys)[1..] == xs[1..] + ys && (xs + ys)[0] == xs[0];
      TextConcat(xs[1..], ys);
      var r, t := Render(xs[0]), Text(xs[1..]);
      if |xs| == 1 {
        assert xs[1..] == [];
        assert "" + "" + Text(ys) == Text(ys);
      } else {
        assert r + "," + (t + "," + Text(ys)) == (r + "," + t) + "," + Text(ys);
      }
    }
  }

  /** The three ways to print a group; next is i before the loop's own increment. */
  method PrintGroup(str: string, trailSep: bool, i: nat, run: nat) returns (str': string, next: nat)
    ensures str' == str + (if trailSep then "," else "") + Text(Group(i, run))
    ensures next == i + run
  {
    hide Render;
    str', next := str, i;
    if trailSep {
      str' := str' + ",";
    }
    if run == 0 {
      str' := str' + Render(One(i));
    } else if run == 1 {
      assert Text([One(i), One(i + 1)]) == Render(One(i)) + "," + Render(One(i + 1)) by {
        assert [One(i), One(i + 1)][1..] == [One(i + 1)];
      }
      str' := str' + (Render(One(i)) + "," + Render(One(i + 1)));
      next := next + 1;
    } else {
      str' := str' + Render(Span(i, i + run));
      next := next + run;
    }
  }

  /** The printing loops. i and run change as in the source, i inside the loop as well. */
  method PrintAffinity(mask: array<bool>) returns (str: string)
    requires mask.Length == CPU_SETSIZE
    ensures str == TextPrinted(mask[..])
  {
    hide Following, Text, Group;
    ghost var m := mask[..];
    ghost var done: seq<Item> := [];
    str := "";
    EmptyText();
    var trailSep := false;
    var i, run := 0, 0;
    assert [] + Items(m, 0, 0, false) == Items(m, 0, 0, false);
    while i < CPU_SETSIZE
      invariant done + Items(m, i, run, false) == Items(m, 0, 0, false)
      invariant str == Text(done) && (trailSep <==> done != [])
      decreases CPU_SETSIZE - i
    {
      if mask[i] {
        run := CountFollowing(mask, i, run);
        TextConcat(done, Group(i, run));
        assert done + (Group(i, run) + Items(m, i + run + 1, run, false)) == (done + Group(i, run)) + Items(m, i + run + 1, run, false);
        done := done + Group(i, run);
        str, i := PrintGroup(str, trailSep, i, run);
        trailSep := true;
      }
      i := i + 1;
    }
    assert Items(m, i, run, false) == [] && done + [] == done;
  }

  lemma EmptyText()
    ensures Text([]) == ""
  {
  }

  method CountFollowing(mask: array<bool>, i: nat, start: nat) returns (run: nat)
    requires i < mask.Length
    ensures run == start + Following(mask[..], i + 1)
  {
    run := start;
    var j := i + 1;
    while j < mask.Length
      invariant i < j <= mask.Length
      invariant run + Following(mask[..], j) == start + Following(mask[..], i + 1)
    {
      if !mask[j] {
        break;
      }
      run := run + 1;
      j := j + 1;
    }
  }

  // ---------------------------------------------------------------- the text read back

  lemma {:induction false} DigitsBefore(ds: string, rest: string)
    requires forall k :: 0 <= k < |ds| ==> IsDigit(ds[k])
    requires rest == [] || !IsDigit(rest[0])
    ensures LeadingDigits(ds + rest) == ds
    decreases |ds|
  {
    if ds == [] {
      assert ds + rest == rest;
    } else {
      DigitsBefore(ds[1..], rest);
      assert (ds + rest)[1..] == ds[1..] + rest;
    }
  }

  lemma {:induction false} DecimalValue(n: nat)
    ensures Value(Decimal(n)) == n
  {
    var s := Decimal(n);
    if n < 10 {
      assert s[..|s| - 1] == [];
    } else {
      DecimalValue(n / 10);
      assert s[..|s| - 1] == Decimal(n / 10);
    }
  }

  /** Numbers are printed without leading zeros. */
  lemma {:induction false} NoLeadingZero(n: nat)
    ensures |Decimal(n)| == 1 || Decimal(n)[0] != '0'
  {
    if 10 <= n {
      NoLeadingZero(n / 10);
      if n < 100 {
        assert Decimal(n / 10) == [((n / 10) + '0' as int) as char];
      } else {
        assert |Decimal(n / 10)| == |Decimal(n / 10 / 10)| + 1;
      }
    }
  }

  lemma PlainNumber(s: string, n: u32)
    requires s != [] && IsDigit(s[0]) && SkipSpace(s) == s && LeadingDigits(s) != [] && Value(LeadingDigits(s)) == n
    ensures ScanUnsigned(s) == Some(n)
  {
    hide SkipSpace, LeadingDigits, Value;
  }

  /** A printed number reads back, whatever non-digit follows it. */
  lemma ScanDecimal(n: u32, rest: string)
    requires rest == [] || !IsDigit(rest[0])
    ensures ScanUnsigned(Decimal(n) + rest) == Some(n)
  {
    hide Decimal, Value, LeadingDigits;
    var s := Decimal(n) + rest;
    assert IsDigit(s[0]) && SkipSpace(s) == s;
    DigitsBefore(Decimal(n), rest);
    DecimalValue(n);
    PlainNumber(s, n);
  }

  /** A sign negates modulo 2^32, and a number beyond 64 bits saturates before it is cut. */
  lemma ScanSigned(n: nat, rest: string)
    requires rest == [] || !IsDigit(rest[0])
    ensures n < U64 ==> ScanUnsigned("-" + Decimal(n) + rest) == Some((U64 - n) % U32)
    ensures n < U64 ==> ScanUnsigned("+" + Decimal(n) + rest) == Some(n % U32)
    ensures U64 <= n ==> ScanUnsigned("-" + Decimal(n) + rest) == ScanUnsigned("+" + Decimal(n) + rest) == Some(U32 - 1)
  {
    hide Decimal, Value, LeadingDigits;
    var minus, plus := "-" + Decimal(n) + rest, "+" + Decimal(n) + rest;
    assert minus[1..] == Decimal(n) + rest == plus[1..];
    assert SkipSpace(minus) == minus && SkipSpace(plus) == plus;
    DigitsBefore(Decimal(n), rest);
    DecimalValue(n);
  }

  /** Leading white space does not matter. */
  lemma SpaceIsSkipped(c: char, s: string)
    requires c in {' ', '\t', '\n', '\r', '\U{0b}', '\U{0c}'}
    ensures ScanUnsigned([c] + s) == ScanUnsigned(s)
  {
    assert ([c] + s)[1..] == s;
    assert SkipSpace([c] + s) == SkipSpace(s);
  }

  /** There is no number where neither a digit nor a sign or space before one stands. */
  lemma NoNumber(s: string)
    requires s == "" || !(s[0] in {' ', '\t', '\n', '\r', '\U{0b}', '\U{0c}', '+', '-'} || '0' <= s[0] <= '9')
    ensures ScanUnsigned(s) == None
  {
    assert SkipSpace(s) == s;
  }

  /** A negative CPU number reads as its complement and, since the sign is also a dash, as
      the start of a range; it is refused exactly for 1 to 2^31 - 1. */
  lemma NegativeToken(n: u32)
    ensures TokenOf("-" + Decimal(n)) == Range((U32 - n) % U32, n, 1)
    ensures Good(TokenOf("-" + Decimal(n))) <==> n == 0 || 0x8000_0000 <= n
  {
    hide ScanUnsigned, Decimal, IndexOf;
    var s := "-" + Decimal(n);
    assert s + [] == s && Decimal(n) + [] == Decimal(n);
    ScanSigned(n, []);
    ScanDecimal(n, []);
    FirstAt([], '-', Decimal(n));
    assert [] + "-" + Decimal(n) == s;
    assert s[1..] == Decimal(n);
    NotIn(Decimal(n), ':');
  }

  predicate Small(x: Item) {
    match x
    case One(cpu) => cpu < U32
    case Span(lo, hi) => lo <= hi < U32
  }

  function TokenFor(x: Item): Token
    requires Small(x)
  {
    match x
    case One(cpu) => Range(cpu, cpu, 1)
    case Span(lo, hi) => Range(lo, hi, 1)
  }

  lemma {:induction false} NotIn(s: string, c: char)
    requires forall k :: 0 <= k < |s| ==> s[k] != c
    ensures IndexOf(s, c) == |s|
  {
  }

  lemma {:induction false} FirstAt(s: string, c: char, rest: string)
    requires forall k :: 0 <= k < |s| ==> s[k] != c
    ensures IndexOf(s + [c] + rest, c) == |s|
  {
    var t := s + [c] + rest;
    assert t[|s|] == c;
    assert forall k :: 0 <= k < |s| ==> t[k] == s[k];
  }

  lemma ReadItem(x: Item)
    requires Small(x)
    ensures TokenOf(Render(x)) == TokenFor(x)
    ensures forall k :: 0 <= k < |Render(x)| ==> Render(x)[k] != ','
  {
    hide ScanUnsigned, IndexOf, Decimal;
    match x
    case One(cpu) =>
      var s := Decimal(cpu);
      assert s + [] == s;
      ScanDecimal(cpu, []);
      NotIn(s, '-');
    case Span(lo, hi) =>
      var s, t := Decimal(lo), Decimal(hi);
      assert s + "-" + t == s + ("-" + t);
      ScanDecimal(lo, "-" + t);
      FirstAt(s, '-', t);
      assert (s + "-" + t)[|s| + 1..] == t;
      assert t + [] == t;
      ScanDecimal(hi, []);
      NotIn(t, ':');
  }

  lemma SplitOff(s: string, t: string)
    requires IndexOf(s + "," + t, ',') == |s|
    ensures Split(s + "," + t) == [s] + Split(t)
  {
    assert (s + "," + t)[|s| + 1..] == t && (s + "," + t)[..|s|] == s;
  }

  lemma {:induction false} SplitText(xs: seq<Item>)
    requires xs != [] && forall k :: 0 <= k < |xs| ==> Small(xs[k])
    ensures |Split(Text(xs))| == |xs|
    ensures forall k :: 0 <= k < |xs| ==> Split(Text(xs))[k] == Render(xs[k])
    decreases |xs|
  {
    var s := Render(xs[0]);
    ReadItem(xs[0]);
    hide Render, TokenOf, IndexOf;
    if |xs| == 1 {
      NotIn(s, ',');
    } else {
      var t := Text(xs[1..]);
      SplitText(xs[1..]);
      FirstAt(s, ',', t);
      SplitOff(s, t);
      hide Text, Split, Small;
    }
  }

  // ---------------------------------------------------------------- sets of CPUs

  predicate Covers(x: Item, cpu: nat) {
    match x
    case One(c) => cpu == c
    case Span(lo, hi) => lo <= cpu <= hi
  }

  /** Some entry names the CPU. */
  ghost predicate Named(xs: seq<Item>, cpu: nat) {
    exists k :: 0 <= k < |xs| && Covers(xs[k], cpu)
  }

  lemma ListedByItem(x: Item, cpu: nat)
    requires Small(x)
    ensures Lists(TokenFor(x), cpu) <==> Covers(x, cpu)
  {
  }

  predicate Bounded(xs: seq<Item>) {
    forall k :: 0 <= k < |xs| ==> Small(xs[k]) && Unwrapped(TokenFor(xs[k]))
  }

  lemma ReadItems(xs: seq<Item>)
    requires xs != [] && forall k :: 0 <= k < |xs| ==> Small(xs[k])
    ensures var ts := Tokens(Text(xs));
            |ts| == |xs| && forall k :: 0 <= k < |xs| ==> ts[k] == TokenFor(xs[k])
  {
    hide TokenOf, Split, Text, Render;
    SplitText(xs);
    forall k | 0 <= k < |xs|
      ensures TokenOf(Render(xs[k])) == TokenFor(xs[k])
    {
      ReadItem(xs[k]);
    }
  }

  /** The parser takes any non-empty list of printed entries, and reads the CPUs they name. */
  lemma ParsedItems(xs: seq<Item>)
    requires xs != [] && Bounded(xs)
    ensures var ts := Tokens(Text(xs));
            && GoodPrefix(ts) == |ts| && Terminating(Text(xs))
            && forall cpu: nat :: cpu in Union(ts) <==> cpu < CPU_SETSIZE && Named(xs, cpu)
  {
    hide TokenOf, Split, Text, Unwrapped, Covers, Lists, Hangs, Union, Tokens;
    var ts := Tokens(Text(xs));
    ReadItems(xs);
    forall cpu: nat
      ensures cpu in Union(ts) <==> cpu < CPU_SETSIZE && Named(xs, cpu)
    {
      UnwrappedLists(ts, cpu);
      forall k | 0 <= k < |xs|
        ensures Lists(ts[k], cpu) <==> Covers(xs[k], cpu)
      {
        ListedByItem(xs[k], cpu);
      }
    }
    UnwrappedLists(ts, 0);
  }

  // ---------------------------------------------------------------- single ranges

  /** A range with a stride, as a list would spell it. */
  function Strided(a: u32, b: u32, stride: u32): string {
    Decimal(a) + "-" + (Decimal(b) + ":" + Decimal(stride))
  }

  /** A number in front of a separator reads as itself, and what follows is found. */
  lemma NumberBefore(n: u32, sep: char, rest: string)
    requires !IsDigit(sep)
    ensures var s := Decimal(n) + [sep] + rest;
            FieldOf(Some(s)) == Number(n) && After(s, sep) == Some(rest)
  {
    hide ScanUnsigned, IndexOf, Decimal;
    var d := Decimal(n);
    assert d + [sep] + rest == d + ([sep] + rest);
    ScanDecimal(n, [sep] + rest);
    FirstAt(d, sep, rest);
    assert (d + [sep] + rest)[|d| + 1..] == rest;
  }

  /** A token is refused whichever of its three parts is not a number. */
  lemma UnreadablePart(a: u32, b: u32, rest: string)
    requires ScanUnsigned(rest) == None
    ensures TokenOf(rest) == Malformed
    ensures TokenOf(Decimal(a) + "-" + rest) == Malformed
    ensures TokenOf(Strung(a, b, rest)) == Malformed
  {
    hide ScanUnsigned, IndexOf, Decimal, After;
    NumberBefore(a, '-', rest);
    NumberBefore(a, '-', Decimal(b) + ":" + rest);
    NumberBefore(b, ':', rest);
  }

  /** A range and whatever follows its colon. */
  function Strung(a: u32, b: u32, rest: string): string {
    Decimal(a) + "-" + (Decimal(b) + ":" + rest)
  }

  /** A colon counts only behind a dash. */
  lemma StrideNeedsRange(a: u32, rest: string)
    requires forall k :: 0 <= k < |rest| ==> rest[k] != '-'
    ensures TokenOf(Decimal(a) + ":" + rest) == Range(a, a, 1)
  {
    hide ScanUnsigned, IndexOf, Decimal;
    NumberBefore(a, ':', rest);
    NotIn(Decimal(a) + ":" + rest, '-');
  }

  lemma DecimalDigits()
    ensures Decimal(0) == "0" && Decimal(1) == "1" && Decimal(2) == "2" && Decimal(3) == "3" && Decimal(4) == "4"
    ensures Decimal(7) == "7" && Decimal(9) == "9" && Decimal(10) == "10"
  {
    assert Decimal(1) == "1";
  }

  lemma TokenAlone(s: string)
    requires forall k :: 0 <= k < |s| ==> s[k] != ','
    ensures Tokens(s) == [TokenOf(s)]
  {
    hide TokenOf, IndexOf;
    NotIn(s, ',');
    assert Split(s) == [s];
  }

  /** The parser on some strings: a space after the comma is no obstacle, an end or a stride
      that is no number is one, and so are a range that runs backwards and nothing at all. */
  lemma LiteralLists()
    ensures Tokens("0, 2") == [Range(0, 0, 1), Range(2, 2, 1)]
    ensures Tokens("3-x") == [Malformed] && Tokens("0-4:x") == [Malformed] && Tokens("") == [Malformed]
    ensures Tokens("7-4") == [Range(7, 4, 1)] && GoodPrefix(Tokens("7-4")) == 0
    ensures Tokens("3:2") == [Range(3, 3, 1)]
  {
    hide TokenOf, Decimal, ScanUnsigned, Split;
    DecimalDigits();
    NoNumber("x");
    NoNumber("");
    UnreadablePart(3, 0, "x");
    UnreadablePart(0, 4, "x");
    UnreadablePart(0, 0, "");
    assert "3" + "-" + "x" == "3-x" && "0" + "-" + ("4" + ":" + "x") == "0-4:x" && "3" + ":" + "2" == "3:2";
    StrideNeedsRange(3, "2");
    TokenAlone("3-x");
    TokenAlone("0-4:x");
    TokenAlone("");
    TokenAlone("3:2");
    TokenAlone("7-4");
    ReadItem(One(0));
    BackwardsToken();
    SpacedTokens();
  }

  lemma BackwardsToken()
    ensures TokenOf("7-4") == Range(7, 4, 1)
  {
    hide ScanUnsigned, Decimal, IndexOf;
    DecimalDigits();
    NumberBefore(7, '-', "4");
    assert "7" + "-" + "4" == "7-4" && Decimal(4) + [] == "4";
    ScanDecimal(4, []);
    NotIn("4", ':');
  }

  lemma SpacedTokens()
    ensures Tokens("0, 2") == [Range(0, 0, 1), Range(2, 2, 1)]
  {
    hide ScanUnsigned, Decimal, IndexOf;
    DecimalDigits();
    ScanDecimal(0, []);
    ScanDecimal(2, []);
    assert "0" + [] == "0" && "2" + [] == "2" && [' '] + "2" == " 2";
    SpaceIsSkipped(' ', "2");
    NotIn("0", '-');
    NotIn(" 2", '-');
    NotIn(" 2", ',');
    FirstAt("0", ',', " 2");
    SplitOff("0", " 2");
    assert "0" + "," + " 2" == "0, 2";
    assert Split(" 2") == [" 2"];
  }

  lemma StridedToken(a: u32, b: u32, stride: u32)
    ensures TokenOf(Strided(a, b, stride)) == Range(a, b, stride)
  {
    NumberBefore(a, '-', Decimal(b) + ":" + Decimal(stride));
    NumberBefore(b, ':', Decimal(stride));
    assert Decimal(stride) + [] == Decimal(stride);
    ScanDecimal(stride, []);
    hide ScanUnsigned, IndexOf, Decimal, After;
  }

  lemma ReadStrided(a: u32, b: u32, stride: u32)
    ensures Tokens(Strided(a, b, stride)) == [Range(a, b, stride)]
  {
    hide IndexOf, Decimal, TokenOf;
    StridedToken(a, b, stride);
    NotIn(Strided(a, b, stride), ',');
    hide Strided;
    assert Split(Strided(a, b, stride)) == [Strided(a, b, stride)];
  }

  lemma {:induction false} OneToken(s: string, t: Token)
    requires Tokens(s) == [t] && Good(t)
    ensures GoodPrefix(Tokens(s)) == 1 && Union(Tokens(s)) == Sets(t)
    ensures Terminating(s) <==> !Hangs(t)
  {
    hide Tokens, Reached, Hangs;
    assert [] + [t] == [t];
    UnionSnoc([], t);
    assert Union([]) == {};
  }

  /** A list that hangs the parser: any range with a stride of 0. */
  lemma StrideZeroList(a: u32, b: u32)
    requires a <= b
    ensures !Terminating(Strided(a, b, 0))
  {
    ReadStrided(a, b, 0);
    StrideZeroHangs(Range(a, b, 0));
    OneToken(Strided(a, b, 0), Range(a, b, 0));
  }

  /** Another one: the single number 2^32 - 1. */
  lemma TopNumberList()
    ensures !Terminating(Decimal(U32 - 1))
  {
    var x, t := One(U32 - 1), Range(U32 - 1, U32 - 1, 1);
    SplitText([x]);
    ReadItem(x);
    hide TokenOf, Split, Decimal;
    assert Tokens(Decimal(U32 - 1)) == [t];
    HangsExactly(t);
    OneToken(Decimal(U32 - 1), t);
  }

  /** A list that is accepted and sets a CPU it does not name: the counter of
      1-4294967294:3 wraps around to 0 before it passes the end. */
  lemma WrappedList()
    ensures var s := Strided(1, U32 - 2, 3);
            && Tokens(s) == [WRAPPED] && GoodPrefix(Tokens(s)) == 1 && Terminating(s)
            && 0 in Union(Tokens(s)) && !Lists(WRAPPED, 0) && Members(WRAPPED) < Union(Tokens(s))
  {
    var s := Strided(1, U32 - 2, 3);
    ReadStrided(1, U32 - 2, 3);
    WrappedRange();
    hide Tokens, Reached, Lists, Hangs, Terminating, Union, Strided;
    OneToken(s, WRAPPED);
  }
}
