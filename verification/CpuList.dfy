/** CPU lists such as "0,2-6:2,9": what str2cpu_affinity makes of any string. Positions in
    the string stand for the pointers of the source. */
module CpuList {
  import opened Errno
  import opened Options
  import opened Words
  import opened Arithmetic

  const CPU_SETSIZE := 1024

  // ---------------------------------------------------------------- sscanf "%u"

  predicate IsDigit(c: char) { '0' <= c <= '9' }
  predicate IsSpace(c: char) { c in {' ', '\t', '\n', '\r', '\U{0b}', '\U{0c}'} }

  function DigitValue(c: char): nat
    requires IsDigit(c)
  {
    c as int - '0' as int
  }

  function SkipSpace(s: string): string {
    if s != [] && IsSpace(s[0]) then SkipSpace(s[1..]) else s
  }

  function LeadingDigits(s: string): (ds: string)
    ensures forall k :: 0 <= k < |ds| ==> IsDigit(ds[k])
  {
    if s != [] && IsDigit(s[0]) then [s[0]] + LeadingDigits(s[1..]) else []
  }

  function Value(ds: string): nat
    requires forall k :: 0 <= k < |ds| ==> IsDigit(ds[k])
  {
    if ds == [] then 0 else 10 * Value(ds[..|ds| - 1]) + DigitValue(ds[|ds| - 1])
  }

  /** Conversion goes through a saturating 64-bit number; a minus sign negates it, and the
      result is cut to 32 bits. */
  function Convert(negative: bool, v: nat): u32 {
    (if U64 <= v then U64 - 1 else if negative then (U64 - v) % U64 else v) % U32
  }

  function ScanUnsigned(s: string): Option<u32> {
    var t := SkipSpace(s);
    var signed := t != [] && (t[0] == '-' || t[0] == '+');
    var ds := LeadingDigits(if signed then t[1..] else t);
    if ds == [] then None else Some(Convert(signed && t[0] == '-', Value(ds)))
  }

  // ---------------------------------------------------------------- tokens

  /** The position of the first c, or the length when there is none. */
  function IndexOf(s: string, c: char): (i: nat)
    ensures i <= |s|
    ensures i < |s| ==> s[i] == c
    ensures forall k :: 0 <= k < i ==> s[k] != c
  {
    if s == [] || s[0] == c then 0 else 1 + IndexOf(s[1..], c)
  }

  /** The part of s before its first comma. */
  function First(s: string): string {
    s[..IndexOf(s, ',')]
  }

  function Split(s: string): (ts: seq<string>)
    ensures ts != []
  {
    var i := IndexOf(s, ',');
    if i == |s| then [s] else [s[..i]] + Split(s[i + 1..])
  }

  datatype Token = Malformed | Range(a: u32, b: u32, stride: u32)

  /** A number that may be missing, and may be unreadable when it is not. */
  datatype Field = Absent | Unreadable | Number(value: u32)

  function FieldOf(s: Option<string>): Field {
    if s.None? then Absent
    else match ScanUnsigned(s.value) case None => Unreadable case Some(v) => Number(v)
  }

  function Assemble(first: Field, end: Field, stride: Field): Token {
    if !first.Number? || end.Unreadable? then Malformed
    else if end.Absent? then Range(first.value, first.value, 1)
    else if stride.Unreadable? then Malformed
    else Range(first.value, end.value, if stride.Absent? then 1 else stride.value)
  }

  /** What follows the first c. */
  function After(s: string, c: char): Option<string> {
    var i := IndexOf(s, c);
    if i == |s| then None else Some(s[i + 1..])
  }

  /** What a comma-free token says: a, or a-b, or a-b:s. */
  function TokenOf(t: string): Token {
    var r := After(t, '-');
    Assemble(FieldOf(Some(t)), FieldOf(r), FieldOf(if r.None? then None else After(r.value, ':')))
  }

  /** What follows the first c in the whole rest of the string, if that c comes before the
      next comma. */
  function AfterAhead(s: string, c: char): Option<string> {
    var i := IndexOf(s, c);
    if i < IndexOf(s, ',') then Some(s[i + 1..]) else None
  }

  /** What the loop body reads from the rest of the string: its searches and its scans run
      on past the comma. */
  function ReadToken(s: string): Token {
    var r := AfterAhead(s, '-');
    Assemble(FieldOf(Some(s)), FieldOf(r), FieldOf(if r.None? then None else AfterAhead(r.value, ':')))
  }

  lemma {:induction false} IndexOfCut(s: string, c: char, n: nat)
    requires n <= |s|
    ensures IndexOf(s[..n], c) == Min(IndexOf(s, c), n)
    decreases |s|
  {
    if s != [] && n != 0 && s[0] != c {
      IndexOfCut(s[1..], c, n - 1);
      assert s[..n][1..] == s[1..][..n - 1];
    }
  }

  lemma {:induction false} IndexOfRest(s: string, c: char, n: nat)
    requires n <= IndexOf(s, c)
    ensures IndexOf(s[n..], c) == IndexOf(s, c) - n
    decreases n
  {
    if n != 0 {
      IndexOfRest(s[1..], c, n - 1);
      assert s[1..][n - 1..] == s[n..];
    }
  }

  lemma {:induction false} SkipSpaceCut(s: string)
    ensures SkipSpace(First(s)) == First(SkipSpace(s))
    decreases |s|
  {
    if s != [] && IsSpace(s[0]) {
      SkipSpaceCut(s[1..]);
      assert First(s)[1..] == First(s[1..]);
    }
  }

  lemma {:induction false} LeadingDigitsCut(s: string)
    ensures LeadingDigits(First(s)) == LeadingDigits(s)
    decreases |s|
  {
    if s != [] && IsDigit(s[0]) {
      LeadingDigitsCut(s[1..]);
      assert First(s)[1..] == First(s[1..]);
    }
  }

  /** A number ends before the next comma. */
  lemma ScanCut(s: string)
    ensures ScanUnsigned(First(s)) == ScanUnsigned(s)
  {
    var t := SkipSpace(s);
    SkipSpaceCut(s);
    LeadingDigitsCut(t);
    if t != [] && (t[0] == '-' || t[0] == '+') {
      LeadingDigitsCut(t[1..]);
      assert First(t)[1..] == First(t[1..]);
    }
  }

  lemma AfterCut(s: string, c: char)
    requires c != ','
    ensures var r := AfterAhead(s, c);
            After(First(s), c) == if r.None? then None else Some(First(r.value))
  {
    var i, n := IndexOf(s, c), IndexOf(s, ',');
    IndexOfCut(s, c, n);
    if i < n {
      IndexOfRest(s, ',', i + 1);
      assert First(s)[i + 1..] == First(s[i + 1..]);
    }
  }

  /** Looking ahead for '-' and ':' never takes anything from beyond the token's comma. */
  lemma LookaheadStaysInToken(s: string)
    ensures ReadToken(s) == TokenOf(First(s))
  {
    hide ScanUnsigned, IndexOf, First, After, AfterAhead;
    var r := AfterAhead(s, '-');
    ScanCut(s);
    AfterCut(s, '-');
    if r.Some? {
      ScanCut(r.value);
      AfterCut(r.value, ':');
      var e := AfterAhead(r.value, ':');
      if e.Some? {
        ScanCut(e.value);
      }
    }
  }

  // ---------------------------------------------------------------- meaning

  predicate Good(t: Token) {
    t.Range? && t.a <= t.b
  }

  /** The loop counter after k rounds; it is 32 bits wide. */
  function Counter(t: Token, k: nat): u32
    requires t.Range?
  {
    (t.a + k * t.stride) % U32
  }

  /** The loop that sets the CPUs of a range never ends: its only exit is a counter above
      the end of the range. */
  ghost predicate Hangs(t: Token)
    requires Good(t)
  {
    forall k: nat :: Counter(t, k) <= t.b
  }

  /** The loop gets to round k. */
  ghost predicate Visits(t: Token, k: nat)
    requires t.Range?
  {
    forall j: nat :: j <= k ==> Counter(t, j) <= t.b
  }

  /** The loop sets CPU x, or would if the set were large enough. */
  ghost predicate Reached(t: Token, x: nat)
    requires t.Range?
  {
    exists k: nat :: Visits(t, k) && Counter(t, k) == x
  }

  /** The CPUs the loop adds to the set. */
  ghost function Sets(t: Token): set<nat>
    requires t.Range?
  {
    set x: nat | 0 <= x < CPU_SETSIZE && Reached(t, x)
  }

  /** The tokens of a list. */
  function Tokens(s: string): (ts: seq<Token>)
    ensures |ts| == |Split(s)|
    ensures forall k :: 0 <= k < |ts| ==> ts[k] == TokenOf(Split(s)[k])
  {
    seq(|Split(s)|, k requires 0 <= k < |Split(s)| => TokenOf(Split(s)[k]))
  }

  /** How many tokens are read before the first one that is refused. */
  function GoodPrefix(ts: seq<Token>): (n: nat)
    ensures n <= |ts|
    ensures forall k :: 0 <= k < n ==> Good(ts[k])
    ensures n < |ts| ==> !Good(ts[n])
  {
    if ts == [] || !Good(ts[0]) then 0 else 1 + GoodPrefix(ts[1..])
  }

  /** No token the parser reaches hangs it. */
  ghost predicate Terminating(s: string) {
    var ts := Tokens(s);
    forall k :: 0 <= k < GoodPrefix(ts) ==> !Hangs(ts[k])
  }

  /** Some token's loop sets x. */
  ghost predicate SetBy(ts: seq<Token>, x: nat) {
    exists k :: 0 <= k < |ts| && Good(ts[k]) && Reached(ts[k], x)
  }

  /** The CPUs the loops of a list of tokens set. */
  ghost function Union(ts: seq<Token>): set<nat> {
    set x: nat | 0 <= x < CPU_SETSIZE && SetBy(ts, x)
  }

  function MaskSet(m: seq<bool>): set<nat> {
    set x: nat | 0 <= x < |m| && m[x]
  }

  // ---------------------------------------------------------------- the parser

  /** The position after the first sep at or after q. */
  function PositionAfter(s: string, q: nat, sep: char): (r: Option<nat>)
    requires q <= |s|
    ensures r.Some? ==> q < r.value <= |s|
  {
    var i := IndexOf(s[q..], sep);
    if i == |s| - q then None else Some(q + i + 1)
  }

  function NextToken(s: string, q: Option<nat>, sep: char): Option<nat>
    requires q.Some? ==> q.value <= |s|
  {
    if q.None? then None else PositionAfter(s, q.value, sep)
  }

  predicate Precedes(c1: Option<nat>, c2: Option<nat>) {
    c1.Some? && (c2.None? || c1.value < c2.value)
  }

  /** A position found counts when it precedes the one after the comma. */
  lemma PrecedesMeansAhead(s: string, q: nat, c: char)
    requires q <= |s| && c != ','
    ensures var c1, c2 := PositionAfter(s, q, c), PositionAfter(s, q, ',');
            && AfterAhead(s[q..], c) == (if Precedes(c1, c2) then Some(s[c1.value..]) else None)
            && (Precedes(c1, c2) ==> PositionAfter(s, c1.value, ',') == c2)
  {
    var c1, i := PositionAfter(s, q, c), IndexOf(s[q..], c);
    if Precedes(c1, PositionAfter(s, q, ',')) {
      assert s[q..][i + 1..] == s[c1.value..];
      IndexOfRest(s[q..], ',', i + 1);
    }
  }

  /** The loop body up to the range check. */
  method TakeToken(s: string, p: nat) returns (t: Token)
    requires p <= |s|
    ensures t == TokenOf(First(s[p..]))
  {
    LookaheadStaysInToken(s[p..]);
    hide ScanUnsigned, IndexOf, TokenOf, AfterAhead, First, PositionAfter;
    var a := ScanUnsigned(s[p..]);
    if a.None? {
      return Malformed;
    }
    var c1 := NextToken(s, Some(p), '-');
    var c2 := NextToken(s, Some(p), ',');
    PrecedesMeansAhead(s, p, '-');
    if !Precedes(c1, c2) {
      return Range(a.value, a.value, 1);
    }
    var dash := c1.value;
    var b := ScanUnsigned(s[dash..]);
    if b.None? {
      return Malformed;
    }
    c1 := NextToken(s, Some(dash), ':');
    PrecedesMeansAhead(s, dash, ':');
    if !Precedes(c1, c2) {
      return Range(a.value, b.value, 1);
    }
    var stride := ScanUnsigned(s[c1.value..]);
    if stride.None? {
      return Malformed;
    }
    t := Range(a.value, b.value, stride.value);
  }

  lemma CounterNext(t: Token, k: nat)
    requires t.Range?
    ensures Counter(t, k + 1) == (Counter(t, k) + t.stride) % U32
  {
    Distribute(t.stride, k, 1);
    AddInWord(t.a + k * t.stride, t.stride);
  }

  lemma AddInWord(x: nat, y: nat)
    ensures (x + y) % U32 == (x % U32 + y) % U32
  {
  }

  /** A round before k has counter x. */
  ghost predicate ReachedBefore(t: Token, k: nat, x: nat)
    requires t.Range?
  {
    exists j: nat :: j < k && Counter(t, j) == x
  }

  /** Rounds before the first one above the end are exactly the rounds the loop visits. */
  lemma VisitedRounds(t: Token, k: nat, x: nat)
    requires t.Range? && t.b < Counter(t, k) && forall j: nat :: j < k ==> Counter(t, j) <= t.b
    ensures Reached(t, x) <==> ReachedBefore(t, k, x)
  {
    hide Counter;
    if Reached(t, x) {
      var j: nat :| Visits(t, j) && Counter(t, j) == x;
      assert j < k;
    }
    if ReachedBefore(t, k, x) {
      var j: nat :| j < k && Counter(t, j) == x;
      assert Visits(t, j);
    }
  }

  /** Sets one CPU after the other while the counter has not passed the end of the range.
      Setting a CPU beyond the size of the set does nothing; the counter wraps around. */
  method SetRange(t: Token, mask: array<bool>)
    requires mask.Length == CPU_SETSIZE && Good(t) && !Hangs(t)
    modifies mask
    ensures MaskSet(mask[..]) == old(MaskSet(mask[..])) + Sets(t)
  {
    var a := t.a;
    assert Counter(t, 0) == t.a;
    ghost var k: nat := 0;
    ghost var last: nat :| t.b < Counter(t, last);
    ghost var was := mask[..];
    assert Marked(was, was, t, 0);
    hide Counter, Hangs, Good, MaskSet, Sets, Marked;
    while a <= t.b
      invariant a == Counter(t, k)
      invariant forall j: nat :: j < k ==> Counter(t, j) <= t.b
      invariant Marked(mask[..], was, t, k)
      decreases last - k
    {
      MarksNext(mask[..], was, t, k);
      if a < CPU_SETSIZE {
        mask[a] := true;
      }
      CounterNext(t, k);
      a := (a + t.stride) % U32;
      k := k + 1;
    }
    MaskGains(t, k, was, mask[..]);
  }

  /** The mask after k rounds. */
  ghost predicate Marked(now: seq<bool>, was: seq<bool>, t: Token, k: nat)
    requires t.Range?
  {
    && |was| == |now| == CPU_SETSIZE
    && forall x: nat :: x < CPU_SETSIZE ==> (now[x] <==> was[x] || ReachedBefore(t, k, x))
  }

  lemma MarksNext(now: seq<bool>, was: seq<bool>, t: Token, k: nat)
    requires t.Range? && Marked(now, was, t, k)
    ensures var a := Counter(t, k);
            |now| == CPU_SETSIZE && Marked(if a < CPU_SETSIZE then now[a := true] else now, was, t, k + 1)
  {
    BeforeNext(t, k);
    hide Counter, ReachedBefore;
  }

  lemma MaskGains(t: Token, k: nat, was: seq<bool>, now: seq<bool>)
    requires t.Range? && t.b < Counter(t, k) && forall j: nat :: j < k ==> Counter(t, j) <= t.b
    requires Marked(now, was, t, k)
    ensures MaskSet(now) == MaskSet(was) + Sets(t)
  {
    hide Counter, ReachedBefore, Reached;
    forall x: nat
      ensures Reached(t, x) <==> ReachedBefore(t, k, x)
    {
      VisitedRounds(t, k, x);
    }
  }

  lemma BeforeNext(t: Token, k: nat)
    requires t.Range?
    ensures forall x: nat :: ReachedBefore(t, k + 1, x) <==> ReachedBefore(t, k, x) || Counter(t, k) == x
  {
    hide Counter;
    forall x: nat
      ensures ReachedBefore(t, k + 1, x) <==> ReachedBefore(t, k, x) || Counter(t, k) == x
    {
      if ReachedBefore(t, k, x) {
        var j: nat :| j < k && Counter(t, j) == x;
        assert j < k + 1;
      }
    }
  }

  lemma UnionSnoc(ts: seq<Token>, t: Token)
    requires Good(t)
    ensures Union(ts + [t]) == Union(ts) + Sets(t)
  {
    hide Reached;
    var us := ts + [t];
    assert us[|ts|] == t && forall k :: 0 <= k < |ts| ==> us[k] == ts[k];
    forall x: nat
      ensures SetBy(us, x) <==> SetBy(ts, x) || Reached(t, x)
    {
      if SetBy(us, x) {
        var k :| 0 <= k < |us| && Good(us[k]) && Reached(us[k], x);
        assert k < |ts| ==> Good(ts[k]) && Reached(ts[k], x);
      }
      if SetBy(ts, x) {
        var k :| 0 <= k < |ts| && Good(ts[k]) && Reached(ts[k], x);
        assert Good(us[k]) && Reached(us[k], x);
      }
      if Reached(t, x) {
        assert Reached(us[|ts|], x);
      }
    }
  }

  lemma {:induction false} GoodPrefixConcat(xs: seq<Token>, ys: seq<Token>)
    requires forall k :: 0 <= k < |xs| ==> Good(xs[k])
    ensures GoodPrefix(xs + ys) == |xs| + GoodPrefix(ys)
    decreases |xs|
  {
    if xs == [] {
      assert xs + ys == ys;
    } else {
      assert (xs + ys)[1..] == xs[1..] + ys && (xs + ys)[0] == xs[0];
      GoodPrefixConcat(xs[1..], ys);
    }
  }

  /** The tokens from position q on. */
  function TokensFrom(s: string, q: Option<nat>): seq<Token>
    requires q.Some? ==> q.value <= |s|
  {
    if q.None? then [] else Tokens(s[q.value..])
  }

  lemma SplitStep(s: string, p: nat)
    requires p <= |s|
    ensures var q := NextToken(s, Some(p), ',');
            Split(s[p..]) == [First(s[p..])] + if q.None? then [] else Split(s[q.value..])
  {
    hide Split, First, NextToken, IndexOf;
    SplitFirst(s[p..]);
    AfterComma(s, p);
  }

  lemma AfterComma(s: string, p: nat)
    requires p <= |s|
    ensures var r, q, i := s[p..], NextToken(s, Some(p), ','), IndexOf(s[p..], ',');
            q.Some? <==> i < |r|
    ensures var r, q, i := s[p..], NextToken(s, Some(p), ','), IndexOf(s[p..], ',');
            i < |r| ==> r[i + 1..] == s[q.value..]
  {
    hide IndexOf;
  }

  lemma SplitFirst(r: string)
    ensures var i := IndexOf(r, ',');
            Split(r) == [First(r)] + if i < |r| then Split(r[i + 1..]) else []
  {
    hide IndexOf;
    var i := IndexOf(r, ',');
    if i == |r| {
      assert r[..i] == r;
    }
  }

  lemma TokensStep(s: string, p: nat)
    requires p <= |s|
    ensures TokensFrom(s, Some(p)) == [TokenOf(First(s[p..]))] + TokensFrom(s, NextToken(s, Some(p), ','))
  {
    hide TokenOf, Split, First, NextToken;
    SplitStep(s, p);
  }

  /** The tokens done so far are good and precede those from position q on. */
  ghost predicate Parsed(s: string, done: seq<Token>, q: Option<nat>) {
    && (q.Some? ==> q.value <= |s|)
    && Tokens(s) == done + TokensFrom(s, q)
    && forall k :: 0 <= k < |done| ==> Good(done[k])
  }

  lemma ParseRefuses(s: string, done: seq<Token>, p: nat)
    requires Parsed(s, done, Some(p)) && !Good(TokenOf(First(s[p..])))
    ensures GoodPrefix(Tokens(s)) == |done| < |Tokens(s)| && Tokens(s)[..|done|] == done
  {
    hide TokenOf, Tokens, First;
    TokensStep(s, p);
    GoodPrefixConcat(done, TokensFrom(s, Some(p)));
    hide TokensFrom, NextToken;
  }

  lemma ParseTakes(s: string, done: seq<Token>, p: nat)
    requires Parsed(s, done, Some(p)) && Terminating(s) && Good(TokenOf(First(s[p..])))
    ensures var t := TokenOf(First(s[p..]));
            !Hangs(t) && Parsed(s, done + [t], NextToken(s, Some(p), ','))
  {
    hide TokenOf, Tokens, First, Hangs;
    var ts, t := Tokens(s), TokenOf(First(s[p..]));
    var rest := TokensFrom(s, NextToken(s, Some(p), ','));
    TokensStep(s, p);
    hide TokensFrom;
    assert done + ([t] + rest) == (done + [t]) + rest;
    GoodPrefixConcat(done + [t], rest);
    assert ts[|done|] == t;
  }

  lemma ParseEnd(s: string, done: seq<Token>)
    requires Parsed(s, done, None)
    ensures GoodPrefix(Tokens(s)) == |Tokens(s)| == |done| && Tokens(s)[..|done|] == done
  {
    hide Tokens;
    GoodPrefixConcat(done, []);
    assert done + [] == done;
  }

  /** str2cpu_affinity. It returns 0 exactly when every token is a number or a range that
      does not run backwards, and then the mask is exactly what the tokens' loops set; when
      it returns an error the mask holds what those before the bad one set. */
  method ParseAffinity(str: string, mask: array<bool>) returns (rc: int)
    requires mask.Length == CPU_SETSIZE
    requires Terminating(str)
    modifies mask
    ensures var ts := Tokens(str);
            var n := GoodPrefix(ts);
            && rc == (if n == |ts| then 0 else -EINVAL)
            && MaskSet(mask[..]) == Union(ts[..n])
  {
    hide TokenOf, Tokens, First, Reached, PositionAfter;
    for i := 0 to CPU_SETSIZE
      invariant forall x :: 0 <= x < i ==> !mask[x]
    {
      mask[i] := false;
    }
    ghost var done: seq<Token> := [];
    var q := Some(0);
    assert str[0..] == str && [] + Tokens(str) == Tokens(str);
    while true
      invariant Parsed(str, done, q) && MaskSet(mask[..]) == Union(done)
      decreases if q.None? then 0 else 1 + |str| - q.value
    {
      var p := q;
      q := NextToken(str, q, ',');
      if p.None? {
        break;
      }
      var t := TakeToken(str, p.value);
      if !Good(t) {
        ParseRefuses(str, done, p.value);
        return -EINVAL;
      }
      ParseTakes(str, done, p.value);
      SetRange(t, mask);
      UnionSnoc(done, t);
      done := done + [t];
    }
    ParseEnd(str, done);
    rc := 0;
  }
}
