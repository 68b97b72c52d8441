/** Command lines (lib/cmd.c, lib/cnx.c): tokens are cut in the line buffer
    itself, and surplus ones glued back there. */
module Commands {
  import opened Headers

  const CMD_MAX_ARGS: nat := 64

  predicate Delimiter(c: char) { c == ' ' || c == '\t' || c == '\n' || c == '\r' || c == NUL }

  // ----- tokens of a line -----

  predicate AllDelimiters(b: string, from: int, to: int) {
    forall x :: 0 <= from <= x < to <= |b| ==> Delimiter(b[x])
  }

  predicate NoDelimiter(b: string, from: int, to: int) {
    forall x :: 0 <= from <= x < to <= |b| ==> !Delimiter(b[x])
  }

  /** Start and end of a token. */
  datatype Span = Span(start: nat, end: nat)

  /** Where the token before the `i`th ends. */
  function Before(ts: seq<Span>, i: int): nat
    requires 0 <= i <= |ts|
  { if i == 0 then 0 else ts[i - 1].end }

  /** The first tokens of a line, each ended by a delimiter. */
  predicate Split(b: string, ts: seq<Span>) {
    forall i :: 0 <= i < |ts| ==> TokenAt(b, Before(ts, i), ts[i])
  }

  predicate TokenAt(b: string, from: nat, t: Span) {
    from <= t.start < t.end < |b| && AllDelimiters(b, from, t.start) && NoDelimiter(b, t.start, t.end) && Delimiter(b[t.end])
  }

  /** Nothing is left but delimiters, and maybe a token that nothing ends. */
  ghost predicate Exhausted(b: string, from: nat) {
    exists k :: from <= k <= |b| && AllDelimiters(b, from, k) && NoDelimiter(b, k, |b|)
  }

  predicate Ends(ts: seq<Span>, x: nat) { exists i :: 0 <= i < |ts| && ts[i].end == x }

  /** The line with the delimiter that ends each token replaced. */
  function Cut(b: string, ts: seq<Span>): (r: string)
    ensures |r| == |b|
  { seq(|b|, x requires 0 <= x < |b| => if Ends(ts, x) then NUL else b[x]) }

  lemma CutAt(b: string, ts: seq<Span>, x: nat)
    requires x < |b|
    ensures Cut(b, ts)[x] == if Ends(ts, x) then NUL else b[x]
  {
  }

  /** The same characters delimit. */
  lemma CutSame(b: string, ts: seq<Span>, x: nat)
    requires Split(b, ts) && x < |b|
    ensures Delimiter(Cut(b, ts)[x]) <==> Delimiter(b[x])
  {
    CutAt(b, ts, x);
    hide Cut;
    if i :| 0 <= i < |ts| && ts[i].end == x { assert TokenAt(b, Before(ts, i), ts[i]); }
  }

  lemma CutMore(b: string, ts: seq<Span>, t: Span)
    requires t.end < |b|
    ensures Cut(b, ts + [t]) == Cut(b, ts)[t.end := NUL]
  {
    forall x | 0 <= x < |b| ensures Ends(ts + [t], x) <==> Ends(ts, x) || x == t.end {
      if i :| 0 <= i < |ts| && ts[i].end == x { assert (ts + [t])[i] == ts[i]; }
      assert (ts + [t])[|ts|] == t;
    }
  }

  lemma SplitMore(b: string, ts: seq<Span>, t: Span)
    requires Split(b, ts) && TokenAt(b, Before(ts, |ts|), t)
    ensures Split(b, ts + [t]) && Before(ts + [t], |ts| + 1) == t.end
  {
    var us := ts + [t];
    hide TokenAt;
    forall i | 0 <= i < |us| ensures TokenAt(b, Before(us, i), us[i]) {
      assert Before(us, i) == Before(ts, i);
      if i < |ts| { assert us[i] == ts[i]; }
    }
  }

  method Skip(buf: array<char>, ghost b: string, from: nat, token: bool) returns (c: nat)
    requires buf.Length == |b| && from <= |b| && forall x :: 0 <= x < |b| ==> (Delimiter(buf[x]) <==> Delimiter(b[x]))
    ensures from <= c <= |b| && (if token then NoDelimiter(b, from, c) else AllDelimiters(b, from, c))
    ensures c < |b| ==> Delimiter(b[c]) == token
  {
    c := from;
    while c < buf.Length && Delimiter(buf[c]) != token
      invariant from <= c <= |b| && if token then NoDelimiter(b, from, c) else AllDelimiters(b, from, c)
    {
      c := c + 1;
    }
  }

  ghost predicate Numbered(starts: seq<nat>, ts: seq<Span>) { |starts| == |ts| && forall i :: 0 <= i < |ts| ==> starts[i] == ts[i].start }

  method Tokenize(buf: array<char>) returns (starts: seq<nat>, over: bool, ghost ts: seq<Span>)
    modifies buf
    ensures Split(old(buf[..]), ts) && Numbered(starts, ts) && buf[..] == Cut(old(buf[..]), ts)
    ensures over == (|ts| >= CMD_MAX_ARGS) && |ts| <= CMD_MAX_ARGS
    ensures !over ==> Exhausted(old(buf[..]), Before(ts, |ts|))
  {
    ghost var b := buf[..];
    var c := 0;
    starts, ts, over := [], [], false;
    assert Cut(b, ts) == b;
    hide Cut, Split, TokenAt, AllDelimiters, NoDelimiter, Delimiter;
    assert Split(b, ts) by { EmptySplit(b); }
    while |starts| < CMD_MAX_ARGS
      invariant Split(b, ts) && Numbered(starts, ts) && |ts| <= CMD_MAX_ARGS
      invariant buf[..] == Cut(b, ts) && c == Before(ts, |ts|) <= buf.Length
    {
      forall x | 0 <= x < |b| ensures Delimiter(buf[x]) <==> Delimiter(b[x]) {
        CutSame(b, ts, x);
        assert buf[x] == buf[..][x];
      }
      var start := Skip(buf, b, c, false);
      var end := Skip(buf, b, start, true);
      if end >= buf.Length {
        assert end == |b| && Exhausted(b, c);
        return starts, false, ts;
      }
      ghost var t := Span(start, end);
      assert TokenAt(b, c, t) by { TokenFound(b, c, t); }
      SplitMore(b, ts, t);
      CutMore(b, ts, t);
      buf[end] := NUL;
      starts, ts, c := starts + [start], ts + [t], end;
    }
    over := true;
  }

  lemma EmptySplit(b: string)
    ensures Split(b, [])
  {
  }

  lemma TokenFound(b: string, from: nat, t: Span)
    requires from <= t.start <= t.end < |b| && AllDelimiters(b, from, t.start) && NoDelimiter(b, t.start, t.end)
    requires !Delimiter(b[t.start]) && Delimiter(b[t.end])
    ensures TokenAt(b, from, t)
  {
  }

  // ----- uniqueness -----

  lemma TokenUnique(b: string, from: nat, t: Span, u: Span)
    requires TokenAt(b, from, t) && TokenAt(b, from, u)
    ensures t == u
  {
    assert !Delimiter(b[t.start]) && !Delimiter(b[u.start]);
    hide Delimiter;
    assert t.start == u.start;
  }

  /** A line splits in one way. */
  lemma {:induction false} SplitUnique(b: string, ts: seq<Span>, us: seq<Span>, i: nat)
    requires Split(b, ts) && Split(b, us) && i < |ts| && i < |us|
    ensures ts[i] == us[i]
    decreases i
  {
    hide TokenAt;
    if i > 0 { SplitUnique(b, ts, us, i - 1); }
    TokenUnique(b, Before(ts, i), ts[i], us[i]);
  }

  // ----- strings in the buffer -----

  /** The C string at `p`. */
  function CStr(b: string, p: nat): string
    decreases |b| - p
  {
    if p >= |b| || b[p] == NUL then "" else [b[p]] + CStr(b, p + 1)
  }

  lemma {:induction false} CStrRun(b: string, p: nat, q: nat)
    requires p <= q <= |b| && forall x :: p <= x < q ==> b[x] != NUL
    ensures CStr(b, p) == b[p..q] + CStr(b, q)
    decreases q - p
  {
    if p < q {
      CStrRun(b, p + 1, q);
      CStrHead(b, p);
      hide CStr;
      assert b[p..q] == [b[p]] + b[p + 1..q];
      assert [b[p]] + b[p + 1..q] + CStr(b, q) == [b[p]] + (b[p + 1..q] + CStr(b, q));
    } else {
      assert b[p..q] + CStr(b, q) == CStr(b, p);
    }
  }

  lemma CStrHead(b: string, p: nat)
    requires p < |b| && b[p] != NUL
    ensures CStr(b, p) == [b[p]] + CStr(b, p + 1)
  {
  }

  method ReadString(buf: array<char>, p: nat) returns (s: string)
    ensures s == CStr(buf[..], p)
  {
    s := "";
    var i := p;
    while i < buf.Length && buf[i] != NUL
      invariant CStr(buf[..], p) == s + CStr(buf[..], i)
      decreases buf.Length - i
    {
      s := s + [buf[i]];
      i := i + 1;
    }
  }

  predicate Starts(ts: seq<Span>, from: nat, x: nat) { exists j :: from <= j < |ts| && ts[j].start == x + 1 }

  /** Space before every token from `from` on. */
  function Glued(b: string, ts: seq<Span>, from: nat): (r: string)
    ensures |r| == |b|
  { seq(|b|, x requires 0 <= x < |b| => if Starts(ts, from, x) then ' ' else b[x]) }

  lemma GlueOne(b: string, ts: seq<Span>, from: nat)
    requires from < |ts| && 0 < ts[from].start <= |b|
    ensures Glued(b, ts, from + 1)[ts[from].start - 1 := ' '] == Glued(b, ts, from)
  {
    forall x | 0 <= x < |b| ensures Starts(ts, from, x) <==> Starts(ts, from + 1, x) || x == ts[from].start - 1 {
      if j :| from <= j < |ts| && ts[j].start == x + 1 { assert j == from || from + 1 <= j; }
    }
  }

  lemma GlueNone(b: string, ts: seq<Span>, from: nat)
    requires from >= |ts|
    ensures Glued(b, ts, from) == b
  {
  }

  /** Tokens swallowed from the last one down. */
  method Glue(buf: array<char>, starts: seq<nat>, from: nat, ghost b: string, ghost ts: seq<Span>)
    requires Split(b, ts) && Numbered(starts, ts) && 0 < from <= |ts| && buf.Length == |b|
    modifies buf
    ensures buf[..] == Glued(old(buf[..]), ts, from)
  {
    var n := |starts|;
    GlueNone(buf[..], ts, n);
    hide Glued, Split;
    while n > from
      invariant from <= n <= |ts| && buf[..] == Glued(old(buf[..]), ts, n)
    {
      n := n - 1;
      InOrder(b, ts, n - 1, n);
      GlueOne(old(buf[..]), ts, n);
      buf[starts[n] - 1] := ' ';
    }
  }

  lemma TokenBounds(b: string, ts: seq<Span>, i: nat)
    requires Split(b, ts) && i < |ts|
    ensures Before(ts, i) <= ts[i].start < ts[i].end < |b| && !Delimiter(b[ts[i].start]) && Delimiter(b[ts[i].end])
    ensures i > 0 ==> ts[i - 1].end < ts[i].start
  {
    assert TokenAt(b, Before(ts, i), ts[i]);
    if i > 0 { assert TokenAt(b, Before(ts, i - 1), ts[i - 1]); }
    hide Delimiter;
  }

  lemma {:induction false} InOrder(b: string, ts: seq<Span>, i: nat, j: nat)
    requires Split(b, ts) && i < j < |ts|
    ensures ts[i].start < ts[i].end < ts[j].start < ts[j].end < |b|
    decreases j
  {
    hide Split;
    TokenBounds(b, ts, i);
    TokenBounds(b, ts, j);
    if i + 1 < j { InOrder(b, ts, i, j - 1); }
  }

  function TextOf(b: string, t: Span): string
    requires t.start <= t.end <= |b|
  { b[t.start..t.end] }

  /** Tokens from `k` on, as far as one delimiter is between them, each taken for a space. */
  function Trailing(b: string, ts: seq<Span>, k: nat): string
    requires k < |ts| && Split(b, ts)
    decreases |ts| - k
  {
    assert TokenAt(b, Before(ts, k), ts[k]);
    if k + 1 < |ts| && ts[k + 1].start == ts[k].end + 1 then TextOf(b, ts[k]) + " " + Trailing(b, ts, k + 1)
    else TextOf(b, ts[k])
  }

  /** Only its own end is an end there. */
  lemma EndsAt(b: string, ts: seq<Span>, k: nat, x: nat)
    requires Split(b, ts) && k < |ts| && ts[k].start <= x <= ts[k].end
    ensures Ends(ts, x) <==> x == ts[k].end
  {
    hide Split;
    forall i | 0 <= i < |ts| && ts[i].end == x ensures i == k {
      if i < k { InOrder(b, ts, i, k); }
      if k < i { InOrder(b, ts, k, i); }
    }
  }

  lemma StartsAt(b: string, ts: seq<Span>, from: nat, k: nat, x: nat)
    requires Split(b, ts) && k < |ts| && ts[k].start <= x <= ts[k].end
    ensures Starts(ts, from, x) <==> from <= k + 1 < |ts| && x == ts[k].end && ts[k + 1].start == x + 1
  {
    hide Split;
    if k + 1 < |ts| { InOrder(b, ts, k, k + 1); }
    forall j | from <= j < |ts| && ts[j].start == x + 1 ensures j == k + 1 && x == ts[k].end {
      if j < k { InOrder(b, ts, j, k); }
      if k + 1 < j { InOrder(b, ts, k + 1, j); }
    }
  }

  lemma GluedAt(b: string, ts: seq<Span>, from: nat, x: nat)
    requires x < |b|
    ensures Glued(b, ts, from)[x] == if Starts(ts, from, x) then ' ' else b[x]
  {
  }

  lemma TokenChars(b: string, ts: seq<Span>, k: nat, x: nat)
    requires Split(b, ts) && k < |ts| && ts[k].start <= x < ts[k].end
    ensures x < |b| && b[x] != NUL
  {
    assert TokenAt(b, Before(ts, k), ts[k]);
  }

  /** What the buffer holds in and after a token, once cut and glued. */
  lemma TokenInBuffer(b: string, ts: seq<Span>, from: nat, k: nat)
    requires Split(b, ts) && k < |ts|
    ensures var f := Glued(Cut(b, ts), ts, from); var t := ts[k];
      && t.start < t.end < |b| && f[t.start..t.end] == TextOf(b, t)
      && (forall x :: t.start <= x < t.end ==> f[x] != NUL)
      && f[t.end] == if from <= k + 1 < |ts| && ts[k + 1].start == t.end + 1 then ' ' else NUL
  {
    var f, t := Glued(Cut(b, ts), ts, from), ts[k];
    TokenBounds(b, ts, k);
    hide Split, Glued, Cut, Starts, Ends, Delimiter;
    forall x | t.start <= x <= t.end
      ensures f[x] == if x < t.end then b[x] else if from <= k + 1 < |ts| && ts[k + 1].start == t.end + 1 then ' ' else NUL
      ensures x < t.end ==> b[x] != NUL
    {
      EndsAt(b, ts, k, x);
      StartsAt(b, ts, from, k, x);
      CutAt(b, ts, x);
      GluedAt(Cut(b, ts), ts, from, x);
      if x < t.end { TokenChars(b, ts, k, x); }
    }
  }

  /** A token before the glued ones is read as it was. */
  lemma ReadsToken(b: string, ts: seq<Span>, from: nat, k: nat)
    requires Split(b, ts) && k < |ts| && k + 1 < from
    ensures ts[k].end <= |b| && ts[k].start <= ts[k].end && CStr(Glued(Cut(b, ts), ts, from), ts[k].start) == TextOf(b, ts[k])
  {
    hide Split, Glued, Cut;
    TokenInBuffer(b, ts, from, k);
    CStrRun(Glued(Cut(b, ts), ts, from), ts[k].start, ts[k].end);
  }

  lemma TrailingStep(b: string, ts: seq<Span>, k: nat)
    requires Split(b, ts) && k < |ts|
    ensures ts[k].start < ts[k].end < |b|
    ensures Trailing(b, ts, k) ==
      if k + 1 < |ts| && ts[k + 1].start == ts[k].end + 1 then TextOf(b, ts[k]) + " " + Trailing(b, ts, k + 1) else TextOf(b, ts[k])
  {
    TokenBounds(b, ts, k);
    hide Split;
  }

  lemma CStrStep(f: string, p: nat)
    requires p < |f|
    ensures f[p] == NUL ==> CStr(f, p) == ""
    ensures f[p] == ' ' ==> CStr(f, p) == " " + CStr(f, p + 1)
  {
  }

  /** The last token read takes the glued ones with it. */
  lemma {:induction false} ReadsTrailing(b: string, ts: seq<Span>, from: nat, k: nat)
    requires Split(b, ts) && k < |ts| && from <= k + 1
    ensures CStr(Glued(Cut(b, ts), ts, from), ts[k].start) == Trailing(b, ts, k)
    decreases |ts| - k
  {
    hide Split, Glued, Cut, CStr, Trailing;
    var f, t := Glued(Cut(b, ts), ts, from), ts[k];
    TokenInBuffer(b, ts, from, k);
    CStrRun(f, t.start, t.end);
    CStrStep(f, t.end);
    TrailingStep(b, ts, k);
    if k + 1 < |ts| && ts[k + 1].start == t.end + 1 {
      ReadsTrailing(b, ts, from, k + 1);
      assert TextOf(b, t) + (" " + Trailing(b, ts, k + 1)) == TextOf(b, t) + " " + Trailing(b, ts, k + 1);
    }
  }

  lemma SinglyStep(b: string, ts: seq<Span>, k: nat)
    requires k + 1 < |ts|
    ensures Singly(b, ts, k) <==> SingleSpace(b, ts, k + 1) && Singly(b, ts, k + 1)
  {
    hide SingleSpace;
  }

  lemma SlicesEqual(b: string, p: nat, e: nat, q: nat, tail: string)
    requires p <= e < q <= |b|
    ensures b[p..e] + " " + tail == b[p..q] <==> b[e] == ' ' && tail == b[e + 1..q]
  {
    var l := b[p..e] + " " + tail;
    assert b[p..q] == b[p..e] + [b[e]] + b[e + 1..q];
    if l == b[p..q] {
      assert l[e - p] == ' ' && b[p..q][e - p] == b[e];
      assert l[e - p + 1..] == tail && b[p..q][e - p + 1..] == b[e + 1..q];
    }
  }

  /** Surplus tokens come back as they were exactly when single spaces were between them. */
  lemma {:induction false} TrailingExact(b: string, ts: seq<Span>, k: nat)
    requires Split(b, ts) && k < |ts|
    ensures ts[k].start <= ts[|ts| - 1].end <= |b|
    ensures Trailing(b, ts, k) == b[ts[k].start..ts[|ts| - 1].end]
      <==> Singly(b, ts, k)
    decreases |ts| - k
  {
    hide Split, Trailing, Singly, Delimiter, SingleSpace;
    var n := |ts| - 1;
    TokenBounds(b, ts, k);
    if k < n {
      TrailingExact(b, ts, k + 1);
      InOrder(b, ts, k, n);
      SinglyStep(b, ts, k);
      OneTrailing(b, ts, k);
    } else {
      TrailingStep(b, ts, k);
      SinglyLast(b, ts);
    }
  }

  lemma OneTrailing(b: string, ts: seq<Span>, k: nat)
    requires Split(b, ts) && k + 1 < |ts|
    ensures ts[k].start <= ts[|ts| - 1].end <= |b| && ts[k + 1].start <= ts[|ts| - 1].end
    ensures var e := ts[|ts| - 1].end;
      Trailing(b, ts, k) == b[ts[k].start..e] <==> SingleSpace(b, ts, k + 1) && Trailing(b, ts, k + 1) == b[ts[k + 1].start..e]
  {
    hide Split, Trailing, Delimiter;
    TokenBounds(b, ts, k);
    TokenBounds(b, ts, k + 1);
    InOrder(b, ts, k, |ts| - 1);
    if k + 1 < |ts| - 1 { InOrder(b, ts, k + 1, |ts| - 1); }
    TrailingStep(b, ts, k);
    if ts[k + 1].start == ts[k].end + 1 {
      SlicesEqual(b, ts[k].start, ts[k].end, ts[|ts| - 1].end, Trailing(b, ts, k + 1));
    }
  }

  lemma SinglyLast(b: string, ts: seq<Span>)
    requires ts != []
    ensures Singly(b, ts, |ts| - 1)
  {
  }

  predicate SingleSpace(b: string, ts: seq<Span>, j: nat)
    requires 0 < j < |ts|
  { ts[j].start == ts[j - 1].end + 1 && ts[j - 1].end < |b| && b[ts[j - 1].end] == ' ' }

  // ----- numbers: strtoll with base 0 -----

  function DigitValue(c: char): nat {
    if '0' <= c <= '9' then c as nat - '0' as nat
    else if 'a' <= c <= 'f' then c as nat - 'a' as nat + 10
    else if 'A' <= c <= 'F' then c as nat - 'A' as nat + 10
    else 16
  }

  function Digits(s: string, base: nat): Option<nat> {
    if s == "" then None
    else
      var d := DigitValue(s[|s| - 1]);
      if d >= base then None
      else if |s| == 1 then Some(d)
      else match Digits(s[..|s| - 1], base) case None => None case Some(n) => Some(base * n + d)
  }

  const LLONG_MAX: int := 0x7FFF_FFFF_FFFF_FFFF
  const LLONG_MIN: int := -0x8000_0000_0000_0000

  function Saturated(v: int): int { if v > LLONG_MAX then LLONG_MAX else if v < LLONG_MIN then LLONG_MIN else v }

  predicate LongLong(v: int) { LLONG_MIN <= v <= LLONG_MAX }

  /** Hexadecimal, octal or decimal. */
  function Magnitude(body: string): Option<nat> {
    if |body| > 2 && body[0] == '0' && (body[1] == 'x' || body[1] == 'X') then Digits(body[2..], 16)
    else if body != "" && body[0] == '0' then Digits(body, 8)
    else Digits(body, 10)
  }

  /** The number a whole token stands for, cut to 64 bits. */
  function Number(s: string): Option<int> {
    var body := if s != "" && (s[0] == '-' || s[0] == '+') then s[1..] else s;
    match Magnitude(body)
    case None => None
    case Some(v) => var k: int := v; Some(Saturated(if s != "" && s[0] == '-' then -k else k))
  }

  lemma {:induction false} DecimalDigits(n: nat)
    ensures var s := Decimal(n); Digits(s, 10) == Some(n) && s != "" && (n > 0 ==> s[0] != '0') && IsDigit(s[0])
  {
    var s := Decimal(n);
    if n >= 10 {
      DecimalDigits(n / 10);
      assert s[..|s| - 1] == Decimal(n / 10);
    }
  }

  lemma NumberReadsBack(v: int)
    ensures Number(VersionToString(v)) == Some(Saturated(v))
    ensures Number(VersionToString(v)) == Some(v) <==> LongLong(v)
  {
    var n := if v < 0 then -v else v;
    DecimalDigits(n);
    if v < 0 { assert VersionToString(v)[1..] == Decimal(n); }
    if n == 0 { assert Decimal(0) == ['0']; }
  }

  function DigitChar(d: nat, upper: bool): char
    requires d < 16
  { if upper then "0123456789ABCDEF"[d] else "0123456789abcdef"[d] }

  /** A number printed in a base up to 16, with letters of either case. */
  function InBase(n: nat, base: nat, upper: bool): string
    requires 2 <= base <= 16
  { if n < base then [DigitChar(n, upper)] else InBase(n / base, base, upper) + [DigitChar(n % base, upper)] }

  lemma DigitCharReads(d: nat, upper: bool)
    requires d < 16
    ensures DigitValue(DigitChar(d, upper)) == d && DigitChar(d, upper) !in "xX+-"
  {
  }

  lemma {:induction false} InBaseReads(n: nat, base: nat, upper: bool)
    requires 2 <= base <= 16
    ensures var s := InBase(n, base, upper); s != "" && Digits(s, base) == Some(n)
    ensures (n > 0 ==> InBase(n, base, upper)[0] != '0') && InBase(n, base, upper)[0] !in "xX+-"
  {
    hide DigitChar, DigitValue, Digits;
    if n < base {
      DigitCharReads(n, upper);
      ZeroDigit(n, upper);
      OneDigit(DigitChar(n, upper), base);
    } else {
      Quotient(n, base);
      var q, c := n / base, DigitChar(n % base, upper);
      InBaseReads(q, base, upper);
      DigitCharReads(n % base, upper);
      DigitsMore(InBase(q, base, upper), c, base);
    }
  }

  lemma Quotient(n: nat, base: nat)
    requires 2 <= base <= n
    ensures 0 < n / base < n && 0 <= n % base < base && base * (n / base) + n % base == n
  {
  }

  lemma OneDigit(c: char, base: nat)
    requires DigitValue(c) < base
    ensures Digits([c], base) == Some(DigitValue(c))
  {
  }

  lemma DigitsMore(s: string, c: char, base: nat)
    requires s != "" && Digits(s, base).Some? && DigitValue(c) < base
    ensures Digits(s + [c], base) == Some(base * Digits(s, base).value + DigitValue(c))
  {
    assert (s + [c])[..|s|] == s;
  }

  lemma ZeroDigit(d: nat, upper: bool)
    requires d < 16
    ensures DigitChar(d, upper) == '0' ==> d == 0
  {
  }

  lemma {:induction false} LeadingZero(s: string, base: nat)
    requires s != "" && base >= 1
    ensures Digits("0" + s, base) == Digits(s, base)
  {
    var t := "0" + s;
    assert t[|t| - 1] == s[|s| - 1] && t[..|t| - 1] == "0" + s[..|s| - 1];
    if |s| > 1 {
      LeadingZero(s[..|s| - 1], base);
    } else {
      assert t[..1] == "0" && Digits("0", base) == Some(0);
    }
  }

  /** A number is read in the base its prefix tells, and cut to 64 bits. */
  lemma ReadsBases(n: nat, upper: bool)
    ensures forall s :: s in {"0x" + InBase(n, 16, upper), "0X" + InBase(n, 16, upper), "0" + InBase(n, 8, upper), InBase(n, 10, upper)} ==> ReadsAs(s, n)
  {
    hide InBase, Digits, ReadsAs;
    var x, o, d := InBase(n, 16, upper), InBase(n, 8, upper), InBase(n, 10, upper);
    InBaseReads(n, 16, upper);
    InBaseReads(n, 8, upper);
    InBaseReads(n, 10, upper);
    LeadingZero(o, 8);
    assert ("0x" + x)[2..] == x && ("0X" + x)[2..] == x;
    NumberOf("0x" + x, n);
    NumberOf("0X" + x, n);
    assert ("0" + o)[1] == o[0];
    NumberOf("0" + o, n);
    if n == 0 { ZeroIn(upper); }
    NumberOf(d, n);
  }

  lemma ZeroIn(upper: bool)
    ensures InBase(0, 10, upper) == "0" && Magnitude("0") == Some(0)
  {
  }

  /** Alone and behind a sign, the text is this number as far as 64 bits hold it. */
  predicate ReadsAs(s: string, n: int) {
    && Number(s) == Number("+" + s) == Some(if n > 0x7FFF_FFFF_FFFF_FFFF then 0x7FFF_FFFF_FFFF_FFFF else n)
    && Number("-" + s) == Some(if n > 0x8000_0000_0000_0000 then -0x8000_0000_0000_0000 else -n)
  }

  lemma NumberOf(s: string, n: nat)
    requires s != "" && s[0] != '-' && s[0] != '+' && Magnitude(s) == Some(n)
    ensures ReadsAs(s, n)
  {
    hide Magnitude;
    assert ("+" + s)[1..] == s && ("-" + s)[1..] == s && ("+" + s)[0] == '+' && ("-" + s)[0] == '-';
  }

  /** A character that is no digit of its base is not passed over. */
  lemma {:induction false} BadDigit(s: string, base: nat, i: nat)
    requires i < |s| && DigitValue(s[i]) >= base
    ensures Digits(s, base).None?
  {
    if i < |s| - 1 { BadDigit(s[..|s| - 1], base, i); }
  }

  lemma NoDigits(c: char)
    ensures c !in "01234567" ==> DigitValue(c) >= 8
    ensures c !in "0123456789" ==> DigitValue(c) >= 10
    ensures c !in "0123456789abcdefABCDEF" ==> DigitValue(c) >= 16
  {
    if '0' <= c <= '9' { assert c == "0123456789"[c as int - '0' as int]; }
    if '0' <= c <= '7' { assert c == "01234567"[c as int - '0' as int]; }
    if 'a' <= c <= 'f' { assert c == "0123456789abcdefABCDEF"[c as int - 'a' as int + 10]; }
    if 'A' <= c <= 'F' { assert c == "0123456789abcdefABCDEF"[c as int - 'A' as int + 16]; }
  }

  /** What is no number: a character that is no digit of the base the prefix tells. */
  lemma NotNumbers(s: string, i: nat)
    requires i < |s|
    ensures s[0] in "123456789" && s[i] !in "0123456789" ==> Magnitude(s).None?
    ensures s[0] == '0' && |s| > 1 && s[1] !in "xX" && s[i] !in "01234567" ==> Magnitude(s).None?
    ensures s[0] !in "0123456789" ==> Magnitude(s).None?
    ensures s == "0x" || s == "0X" ==> Magnitude(s).None?
  {
    hide DigitValue, Digits;
    BadChar(s, i);
    BadChar(s, 0);
    if |s| > 1 { BadChar(s, 1); }
  }

  lemma BadChar(s: string, i: nat)
    requires i < |s|
    ensures s[i] !in "0123456789" ==> Digits(s, 10).None?
    ensures s[i] !in "01234567" ==> Digits(s, 8).None?
    ensures s[i] !in "0123456789abcdefABCDEF" ==> Digits(s, 16).None?
  {
    hide DigitValue, Digits;
    NoDigits(s[i]);
    if DigitValue(s[i]) >= 8 { BadDigit(s, 8, i); }
    if DigitValue(s[i]) >= 10 { BadDigit(s, 10, i); }
    if DigitValue(s[i]) >= 16 { BadDigit(s, 16, i); }
  }

  lemma NotHexadecimal(s: string, i: nat)
    requires i < |s| && s[i] !in "0123456789abcdefABCDEF"
    ensures Magnitude("0x" + s).None? && Magnitude("0X" + s).None?
  {
    hide Digits;
    BadChar(s, i);
    assert ("0x" + s)[2..] == s && ("0X" + s)[2..] == s;
  }

  // ----- what a line asks for -----

  datatype Kind = Text | Integer

  datatype Def = Def(keyword: string, min: nat, max: nat, kinds: seq<Kind>, negseq: bool)

  datatype Arg = Str(s: string) | Int(n: int)

  datatype Outcome = Command(def: nat, seqnum: int, args: seq<Arg>) | NoToken | TooMany | TooFew | BadNumber | UnknownKeyword

  predicate IsSeq(s: string) { (s != "" && IsDigit(s[0])) || (|s| > 1 && s[0] == '-' && IsDigit(s[1])) }

  /** A number comes first if it starts with a digit, or a minus sign and a digit; a plus sign is not looked at. */
  lemma WhatIsSeq(v: int, s: string)
    ensures IsSeq(VersionToString(v))
    ensures s == "" || s[0] !in "-0123456789" ==> !IsSeq(s)
    ensures s == "-" || (|s| > 1 && s[0] == '-' && s[1] !in "0123456789") ==> !IsSeq(s)
    ensures s != "" && s[0] in "0123456789" ==> IsSeq(s)
  {
    hide Decimal;
    DecimalDigits(if v < 0 then -v else v);
    if s != "" { IsADigit(s[0]); }
    if |s| > 1 { IsADigit(s[1]); }
  }

  lemma IsADigit(c: char)
    ensures IsDigit(c) <==> c in "0123456789"
  {
    if IsDigit(c) { assert c == "0123456789"[c as int - '0' as int]; }
  }

  /** The definition looked for from the `i`th on: negative numbers are for answers, positive ones for queries. */
  function Chosen(syntax: seq<Def>, seqnum: int, keyword: string, i: nat): (r: Option<nat>)
    requires i <= |syntax|
    ensures r.Some? ==> r.value < |syntax| && (seqnum < 0 ==> syntax[r.value].negseq) && (seqnum > 0 ==> !syntax[r.value].negseq)
    decreases |syntax| - i
  {
    if i == |syntax| then None
    else if seqnum < 0 && !syntax[i].negseq then Chosen(syntax, seqnum, keyword, i + 1)
    else if seqnum > 0 && syntax[i].negseq then Chosen(syntax, seqnum, keyword, i + 1)
    else if SameName(syntax[i].keyword, keyword) then Some(i)
    else Chosen(syntax, seqnum, keyword, i + 1)
  }

  /** This definition is for such a number and keyword. */
  predicate Suits(d: Def, seqnum: int, keyword: string) {
    SameName(d.keyword, keyword) && (d.negseq ==> seqnum <= 0) && (!d.negseq ==> seqnum >= 0)
  }

  /** The first definition that suits, none exactly if none does. */
  lemma {:induction false} ChosenFirst(syntax: seq<Def>, seqnum: int, keyword: string, i: nat)
    requires i <= |syntax|
    ensures var r := Chosen(syntax, seqnum, keyword, i);
      if r.Some? then i <= r.value < |syntax| && Suits(syntax[r.value], seqnum, keyword) && forall k :: i <= k < r.value ==> !Suits(syntax[k], seqnum, keyword)
      else forall k :: i <= k < |syntax| ==> !Suits(syntax[k], seqnum, keyword)
    decreases |syntax| - i
  {
    if i < |syntax| { ChosenFirst(syntax, seqnum, keyword, i + 1); }
  }

  /** The last argument can take what is left of the line. */
  predicate Swallows(d: Def) { d.max > 0 && (|d.kinds| < d.max || d.kinds[d.max - 1] == Text) }

  /** Strings of the arguments, which start at token `first`. */
  function ArgTexts(d: Def, texts: seq<string>, trails: seq<string>, first: nat): seq<string>
    requires first <= |texts| == |trails|
  {
    if |texts| - first > d.max && Swallows(d) then texts[first..first + d.max - 1] + [trails[first + d.max - 1]]
    else texts[first..]
  }

  function Converted(d: Def, texts: seq<string>, i: nat): Option<seq<Arg>>
    requires i <= |texts|
    decreases |texts| - i
  {
    if i == |texts| then Some([])
    else
      var a := if i < |d.kinds| && d.kinds[i] == Integer
        then (match Number(texts[i]) case None => None case Some(n) => Some(Int(n)))
        else Some(Str(texts[i]));
      if a.None? then None
      else Prepended([a.value], Converted(d, texts, i + 1))
  }

  function Built(d: Def, at: nat, seqnum: int, texts: seq<string>, trails: seq<string>, first: nat): Outcome
    requires first <= |texts| == |trails|
  {
    if |texts| - first < d.min then TooFew
    else match Converted(d, ArgTexts(d, texts, trails, first), 0)
      case None => BadNumber
      case Some(args) => Command(at, if seqnum < 0 then -seqnum else seqnum, args)
  }

  lemma {:induction false} ConvertedAll(d: Def, texts: seq<string>, i: nat)
    requires i <= |texts|
    ensures var r := Converted(d, texts, i);
      && (r.Some? ==> |r.value| == |texts| - i)
      && (r.Some? ==> forall k :: i <= k < |texts| ==>
            r.value[k - i] == if k < |d.kinds| && d.kinds[k] == Integer && Number(texts[k]).Some? then Int(Number(texts[k]).value) else Str(texts[k]))
      && (r.None? <==> exists k :: i <= k < |texts| && k < |d.kinds| && d.kinds[k] == Integer && Number(texts[k]).None?)
    decreases |texts| - i
  {
    hide Number;
    if i < |texts| { ConvertedAll(d, texts, i + 1); }
  }

  /** Surplus words go into the last argument if that is a text, declared or not; if
      it is a number they stay, and the command has more arguments than it should. */
  lemma SurplusWords(d: Def, at: nat, seqnum: int, texts: seq<string>, trails: seq<string>, first: nat)
    requires first <= |texts| == |trails| && |texts| - first > d.max
    ensures var r := Built(d, at, seqnum, texts, trails, first);
      r.Command? ==>
        if d.max > 0 && (|d.kinds| < d.max || d.kinds[d.max - 1] == Text) then |r.args| == d.max && r.args[d.max - 1] == Str(trails[first + d.max - 1])
        else |r.args| == |texts| - first
  {
    hide Number, Converted;
    ConvertedAll(d, ArgTexts(d, texts, trails, first), 0);
  }

  /** `trails[k]` is what token `k` becomes if it takes the ones after it. */
  function Interpreted(syntax: seq<Def>, texts: seq<string>, trails: seq<string>): Outcome
    requires |texts| == |trails|
  {
    if |texts| >= CMD_MAX_ARGS then TooMany
    else if texts == [] then NoToken
    else if !IsSeq(texts[0]) then
      (match Chosen(syntax, 0, texts[0], 0)
       case None => UnknownKeyword
       case Some(at) => Built(syntax[at], at, 0, texts, trails, 1))
    else if |texts| < 2 then TooFew
    else
      match Number(texts[0])
      case None => BadNumber
      case Some(n) =>
        match Chosen(syntax, n, texts[1], 0)
        case None => UnknownKeyword
        case Some(at) => Built(syntax[at], at, n, texts, trails, 2)
  }

  function Texts(b: string, ts: seq<Span>): (r: seq<string>)
    requires Split(b, ts)
    ensures |r| == |ts|
  { seq(|ts|, i requires 0 <= i < |ts| => (TokenBounds(b, ts, i); TextOf(b, ts[i]))) }

  function Trails(b: string, ts: seq<Span>): (r: seq<string>)
    requires Split(b, ts)
    ensures |r| == |ts|
  { seq(|ts|, i requires 0 <= i < |ts| => Trailing(b, ts, i)) }

  predicate Fits(d: Def, n: int) { (n < 0 ==> d.negseq) && (n > 0 ==> !d.negseq) }

  /** Numbers below zero reach answer definitions only, those above zero the others only. */
  lemma AnswersOnly(syntax: seq<Def>, texts: seq<string>, trails: seq<string>)
    requires |texts| == |trails|
    ensures var r := Interpreted(syntax, texts, trails);
      r.Command? ==> r.def < |syntax| && r.seqnum >= 0 && (IsSeq(texts[0]) ==> Number(texts[0]).Some? && Fits(syntax[r.def], Number(texts[0]).value))
  {
  }

  // ----- parsing, in the buffer -----

  method Choose(syntax: seq<Def>, seqnum: int, keyword: string) returns (r: Option<nat>)
    ensures r == Chosen(syntax, seqnum, keyword, 0)
  {
    for i := 0 to |syntax|
      invariant Chosen(syntax, seqnum, keyword, 0) == Chosen(syntax, seqnum, keyword, i)
    {
      if seqnum < 0 && !syntax[i].negseq { continue; }
      if seqnum > 0 && syntax[i].negseq { continue; }
      if SameName(syntax[i].keyword, keyword) { return Some(i); }
    }
    return None;
  }

  predicate Surplus(d: Def, n: nat, first: nat) { n - first > d.max && Swallows(d) }

  /** The line once cut, and glued where the last argument takes the rest. */
  function BufferFor(b: string, ts: seq<Span>, d: Def, first: nat): string {
    if Surplus(d, |ts|, first) then Glued(Cut(b, ts), ts, first + d.max) else Cut(b, ts)
  }

  lemma ReadsCut(b: string, ts: seq<Span>, k: nat)
    requires Split(b, ts) && k < |ts|
    ensures CStr(Cut(b, ts), ts[k].start) == Texts(b, ts)[k]
  {
    ReadsToken(b, ts, |ts| + 1, k);
    GlueNone(Cut(b, ts), ts, |ts| + 1);
  }

  lemma ReadsArg(b: string, ts: seq<Span>, d: Def, first: nat, i: nat)
    requires Split(b, ts) && first <= |ts| && i < |ArgTexts(d, Texts(b, ts), Trails(b, ts), first)|
    ensures first + i < |ts|
    ensures CStr(BufferFor(b, ts, d, first), ts[first + i].start) == ArgTexts(d, Texts(b, ts), Trails(b, ts), first)[i]
  {
    hide Split, CStr, Glued, Cut;
    ReadsCut(b, ts, first + i);
    if Surplus(d, |ts|, first) {
      var from := first + d.max;
      if i < d.max - 1 { ReadsToken(b, ts, from, first + i); }
      else { ReadsTrailing(b, ts, from, first + i); }
    }
  }

  function Prepended(done: seq<Arg>, rest: Option<seq<Arg>>): Option<seq<Arg>> {
    match rest case None => None case Some(args) => Some(done + args)
  }

  lemma PrependMore(done: seq<Arg>, a: Arg, rest: Option<seq<Arg>>)
    ensures Prepended(done, Prepended([a], rest)) == Prepended(done + [a], rest)
    ensures Prepended([], rest) == rest
  {
    if rest.Some? {
      assert done + ([a] + rest.value) == (done + [a]) + rest.value;
      assert [] + rest.value == rest.value;
    }
  }

  /** Copies and transcodes the arguments. */
  method Transcode(buf: array<char>, starts: seq<nat>, d: Def, first: nat, n: nat, ghost texts: seq<string>) returns (args: Option<seq<Arg>>)
    requires n == |texts| && first + n <= |starts|
    requires forall i :: 0 <= i < n ==> CStr(buf[..], starts[first + i]) == texts[i]
    ensures args == Converted(d, texts, 0)
  {
    var done: seq<Arg> := [];
    hide CStr, Number;
    PrependMore([], Int(0), Converted(d, texts, 0));
    for i := 0 to n
      invariant Converted(d, texts, 0) == Prepended(done, Converted(d, texts, i))
    {
      var s := ReadString(buf, starts[first + i]);
      if i < |d.kinds| && d.kinds[i] == Integer {
        var v := Number(s);
        if v.None? { return None; }
        PrependMore(done, Int(v.value), Converted(d, texts, i + 1));
        done := done + [Int(v.value)];
      } else {
        PrependMore(done, Str(s), Converted(d, texts, i + 1));
        done := done + [Str(s)];
      }
    }
    assert done + [] == done;
    args := Some(done);
  }

  method BuildCmd(buf: array<char>, starts: seq<nat>, d: Def, at: nat, seqnum: int, first: nat, ghost b: string, ghost ts: seq<Span>) returns (r: Outcome)
    requires Split(b, ts) && Numbered(starts, ts) && 0 < first <= |ts| && buf[..] == Cut(b, ts)
    modifies buf
    ensures r == Built(d, at, seqnum, Texts(b, ts), Trails(b, ts), first)
  {
    hide Texts, Trails, Split, CStr, Cut, Glued, Converted;
    var n := |starts| - first;
    if n < d.min { return TooFew; }
    if n > d.max && Swallows(d) {
      Glue(buf, starts, first + d.max, b, ts);
      n := d.max;
    }
    ghost var texts := ArgTexts(d, Texts(b, ts), Trails(b, ts), first);
    forall i | 0 <= i < n ensures CStr(buf[..], starts[first + i]) == texts[i] { ReadsArg(b, ts, d, first, i); }
    var args := Transcode(buf, starts, d, first, n, texts);
    if args.None? { return BadNumber; }
    r := Command(at, if seqnum < 0 then -seqnum else seqnum, args.value);
  }

  method ParseLine(syntax: seq<Def>, buf: array<char>) returns (r: Outcome, ghost ts: seq<Span>)
    modifies buf
    ensures Split(old(buf[..]), ts) && (|ts| < CMD_MAX_ARGS ==> Exhausted(old(buf[..]), Before(ts, |ts|)))
    ensures r == Interpreted(syntax, Texts(old(buf[..]), ts), Trails(old(buf[..]), ts))
  {
    ghost var b := buf[..];
    var starts, over;
    starts, over, ts := Tokenize(buf);
    hide Split, Texts, Trails, Cut, CStr, Number, Built;
    if over { return TooMany, ts; }
    if starts == [] { return NoToken, ts; }
    ReadsCut(b, ts, 0);
    var t := ReadString(buf, starts[0]);
    if IsSeq(t) {
      if |starts| < 2 { return TooFew, ts; }
      var n := Number(t);
      if n.None? { return BadNumber, ts; }
      ReadsCut(b, ts, 1);
      var keyword := ReadString(buf, starts[1]);
      var at := Choose(syntax, n.value, keyword);
      if at.None? { return UnknownKeyword, ts; }
      r := BuildCmd(buf, starts, syntax[at.value], at.value, n.value, 2, b, ts);
    } else {
      var at := Choose(syntax, 0, t);
      if at.None? { return UnknownKeyword, ts; }
      r := BuildCmd(buf, starts, syntax[at.value], at.value, 0, 1, b, ts);
    }
  }

  // ----- round trip -----

  predicate Word(s: string) { s != "" && NoDelimiter(s, 0, |s|) }

  predicate Words(ws: seq<string>) { forall i :: 0 <= i < |ws| ==> Word(ws[i]) }

  function Join(ws: seq<string>): string {
    if ws == [] then "" else if |ws| == 1 then ws[0] else Join(ws[..|ws| - 1]) + " " + ws[|ws| - 1]
  }

  /** Where the words are in their join. */
  function Spans(ws: seq<string>): (r: seq<Span>)
    ensures |r| == |ws|
  {
    if ws == [] then []
    else
      var e := |Join(ws)|;
      Spans(ws[..|ws| - 1]) + [Span(if |ws| == 1 then 0 else |Join(ws[..|ws| - 1])| + 1, e)]
  }

  lemma JoinStep(ws: seq<string>)
    requires |ws| > 1
    ensures Join(ws) == Join(ws[..|ws| - 1]) + " " + ws[|ws| - 1]
    ensures Spans(ws) == Spans(ws[..|ws| - 1]) + [Span(|Join(ws[..|ws| - 1])| + 1, |Join(ws)|)]
  {
  }

  /** The words of a line are its tokens, single spaces between them. */
  lemma {:induction false} SpansSplit(b: string, ws: seq<string>)
    requires ws != [] && Words(ws) && |Join(ws)| < |b| && b[..|Join(ws)|] == Join(ws) && Delimiter(b[|Join(ws)|])
    ensures SplitInto(b, Spans(ws), ws) && Before(Spans(ws), |ws|) == |Join(ws)|
    decreases |ws|
  {
    hide Join, Spans, SplitInto, Word, Delimiter, Before;
    var n := |ws| - 1;
    var w := ws[n];
    if n == 0 {
      assert ws == [w];
      JoinOne(w);
      OneWord(b, w);
    } else {
      var us := ws[..n];
      JoinStep(ws);
      var t := Span(|Join(us)| + 1, |Join(ws)|);
      PrefixOf(b, Join(us), w);
      SpaceDelimits();
      SpansSplit(b, us);
      assert ws == us + [w] && Spans(ws) == Spans(us) + [t];
      OneMore(b, Spans(us), us, |Join(us)|, w);
      LastBefore(Spans(us), t);
    }
  }

  lemma JoinOne(w: string)
    ensures Join([w]) == w
  {
  }

  lemma LastBefore(ts: seq<Span>, t: Span)
    ensures Before(ts + [t], |ts| + 1) == t.end
  {
  }

  lemma PrefixOf(b: string, s: string, w: string)
    requires |s| + 1 + |w| <= |b| && b[..|s| + 1 + |w|] == s + " " + w
    ensures b[..|s|] == s && b[|s|] == ' ' && b[|s| + 1..|s| + 1 + |w|] == w
  {
    var all := b[..|s| + 1 + |w|];
    assert all[..|s|] == b[..|s|] && all[|s|] == b[|s|] && all[|s| + 1..] == b[|s| + 1..|s| + 1 + |w|];
  }

  lemma OneWord(b: string, w: string)
    requires Word(w) && |w| < |b| && b[..|w|] == w && Delimiter(b[|w|])
    ensures SplitInto(b, Spans([w]), [w]) && Before(Spans([w]), 1) == |Join([w])| == |w|
  {
    assert Spans([w]) == [Span(0, |w|)];
    WordToken(b, 0, 0, w);
    assert Texts(b, Spans([w])) == [w];
  }

  lemma SpaceDelimits()
    ensures Delimiter(' ')
  {
  }

  /** The tokens are these words, single spaces between them. */
  ghost predicate SplitInto(b: string, ts: seq<Span>, ws: seq<string>) {
    |ts| == |ws| && Split(b, ts) && Texts(b, ts) == ws && Singly(b, ts, 0)
  }

  /** Single spaces between the tokens from `k` on. */
  predicate Singly(b: string, ts: seq<Span>, k: nat) { forall j :: k < j < |ts| ==> SingleSpace(b, ts, j) }

  lemma OneMore(b: string, ts: seq<Span>, ws: seq<string>, e: nat, w: string)
    requires SplitInto(b, ts, ws) && ts != [] && Before(ts, |ts|) == e && Word(w)
    requires e + 1 + |w| < |b| && b[e] == ' ' && b[e + 1..e + 1 + |w|] == w && Delimiter(b[e + 1 + |w|])
    ensures SplitInto(b, ts + [Span(e + 1, e + 1 + |w|)], ws + [w])
  {
    hide Texts, TokenAt, NoDelimiter, AllDelimiters, Delimiter, Word, Split, Singly, Before, TextOf;
    var t := Span(e + 1, e + 1 + |w|);
    OneMoreSplit(b, ts, e, w);
    TextsMore(b, ts, t);
    SingleMore(b, ts, t);
    TextIs(b, e + 1, w);
  }

  lemma OneMoreSplit(b: string, ts: seq<Span>, e: nat, w: string)
    requires Split(b, ts) && Before(ts, |ts|) == e && Word(w)
    requires e + 1 + |w| < |b| && b[e] == ' ' && b[e + 1..e + 1 + |w|] == w && Delimiter(b[e + 1 + |w|])
    ensures Split(b, ts + [Span(e + 1, e + 1 + |w|)])
  {
    hide TokenAt, NoDelimiter, AllDelimiters, Delimiter, Word, Split, Before;
    OneSpace(b, e);
    WordToken(b, e, e + 1, w);
    SplitMore(b, ts, Span(e + 1, e + 1 + |w|));
  }

  lemma TextIs(b: string, start: nat, w: string)
    requires start + |w| <= |b| && b[start..start + |w|] == w
    ensures TextOf(b, Span(start, start + |w|)) == w
  {
  }

  lemma OneSpace(b: string, e: nat)
    requires e < |b| && b[e] == ' '
    ensures AllDelimiters(b, e, e + 1)
  {
  }

  lemma SingleMore(b: string, ts: seq<Span>, t: Span)
    requires ts != [] && t.start == Before(ts, |ts|) + 1 <= |b| && b[t.start - 1] == ' ' && Singly(b, ts, 0)
    ensures Singly(b, ts + [t], 0)
  {
    forall j | 0 < j < |ts| + 1 ensures SingleSpace(b, ts + [t], j) {
      if j < |ts| { assert SingleSpace(b, ts, j) && (ts + [t])[j] == ts[j] && (ts + [t])[j - 1] == ts[j - 1]; }
    }
  }

  lemma TextsMore(b: string, ts: seq<Span>, t: Span)
    requires Split(b, ts) && Split(b, ts + [t])
    ensures t.start <= t.end <= |b| && Texts(b, ts + [t]) == Texts(b, ts) + [TextOf(b, t)]
  {
    TokenBounds(b, ts + [t], |ts|);
    assert (ts + [t])[|ts|] == t;
    hide Split;
  }

  lemma WordToken(b: string, from: nat, start: nat, w: string)
    requires Word(w) && from <= start && start + |w| < |b| && b[start..start + |w|] == w && Delimiter(b[start + |w|]) && AllDelimiters(b, from, start)
    ensures TokenAt(b, from, Span(start, start + |w|))
  {
    forall x | start <= x < start + |w| ensures !Delimiter(b[x]) { assert b[x] == w[x - start]; }
  }

  lemma {:induction false} JoinFront(ws: seq<string>)
    requires |ws| > 1
    ensures Join(ws) == ws[0] + " " + Join(ws[1..])
  {
    var n := |ws| - 1;
    JoinStep(ws);
    if n == 1 {
      JoinOne(ws[0]);
      JoinOne(ws[1]);
      assert ws[..1] == [ws[0]] && ws[1..] == [ws[1]];
    } else {
      JoinFront(ws[..n]);
      JoinStep(ws[1..]);
      assert ws[..n][1..] == ws[1..][..n - 1];
      hide Join;
      assert ws[0] + " " + Join(ws[..n][1..]) + " " + ws[n] == ws[0] + " " + (Join(ws[..n][1..]) + " " + ws[n]);
    }
  }

  /** The end of the line from each word on. */
  function Joins(ws: seq<string>): (r: seq<string>)
    ensures |r| == |ws|
  { seq(|ws|, k requires 0 <= k < |ws| => Join(ws[k..])) }

  lemma {:induction false} TrailJoins(b: string, ts: seq<Span>, ws: seq<string>, k: nat)
    requires SplitInto(b, ts, ws) && k < |ws|
    ensures Split(b, ts) && Trailing(b, ts, k) == Join(ws[k..])
    decreases |ws| - k
  {
    hide Split, Texts, Join, Trailing, Singly;
    TrailingStep(b, ts, k);
    TextAt(b, ts, k);
    if k + 1 < |ws| {
      TrailJoins(b, ts, ws, k + 1);
      SinglyAt(b, ts, k + 1);
      JoinFront(ws[k..]);
      assert ws[k..][1..] == ws[k + 1..];
    } else {
      assert ws[k..] == [ws[k]];
      JoinOne(ws[k]);
    }
  }

  lemma TextAt(b: string, ts: seq<Span>, k: nat)
    requires Split(b, ts) && k < |ts|
    ensures ts[k].start <= ts[k].end <= |b| && TextOf(b, ts[k]) == Texts(b, ts)[k]
  {
    TokenBounds(b, ts, k);
  }

  lemma SinglyAt(b: string, ts: seq<Span>, j: nat)
    requires Singly(b, ts, 0) && 0 < j < |ts|
    ensures SingleSpace(b, ts, j)
  {
  }

  /** Tokens found are tokens there are: no more and no fewer. */
  lemma Determined(b: string, us: seq<Span>, ts: seq<Span>)
    requires Split(b, us) && AllDelimiters(b, Before(us, |us|), |b|) && |us| < CMD_MAX_ARGS
    requires Split(b, ts) && (|ts| < CMD_MAX_ARGS ==> Exhausted(b, Before(ts, |ts|)))
    ensures ts == us
  {
    forall i | 0 <= i < |ts| && i < |us| ensures ts[i] == us[i] { SplitUnique(b, ts, us, i); }
    if |us| < |ts| {
      assert Before(ts, |us|) == Before(us, |us|);
      TokenBounds(b, ts, |us|);
    } else if |ts| < |us| {
      assert Before(ts, |ts|) == Before(us, |ts|);
      Unfinished(b, Before(ts, |ts|), us[|ts|]);
    }
  }

  lemma Unfinished(b: string, from: nat, t: Span)
    requires Exhausted(b, from)
    ensures !TokenAt(b, from, t)
  {
    var k :| from <= k <= |b| && AllDelimiters(b, from, k) && NoDelimiter(b, k, |b|);
    assert from <= t.start < k ==> Delimiter(b[t.start]);
    assert k <= t.end < |b| ==> !Delimiter(b[t.end]);
    assert TokenAt(b, from, t) ==> NoDelimiter(b, t.start, t.end);
    hide Delimiter;
  }

  // ----- any spacing -----

  /** Words with white space before, between and behind them. */
  function Spread(ws: seq<string>, seps: seq<string>): string
    requires |seps| == |ws| + 1
  {
    if ws == [] then seps[0] else Spread(ws[..|ws| - 1], seps[..|ws|]) + ws[|ws| - 1] + seps[|ws|]
  }

  predicate IsWhite(s: string) { forall i :: 0 <= i < |s| ==> s[i] == ' ' || s[i] == '\t' || s[i] == '\n' || s[i] == '\r' }

  predicate Spaces(seps: seq<string>) { forall i :: 0 <= i < |seps| ==> IsWhite(seps[i]) && (i > 0 ==> seps[i] != "") }

  /** No white space, and no NUL. */
  predicate Plain(w: string) {
    w != "" && forall i :: 0 <= i < |w| ==> w[i] != ' ' && w[i] != '\t' && w[i] != '\n' && w[i] != '\r' && w[i] != '\0'
  }

  lemma WhiteAt(b: string, from: nat, s: string)
    requires IsWhite(s) && from + |s| <= |b| && b[from..from + |s|] == s
    ensures AllDelimiters(b, from, from + |s|) && (s != "" ==> Delimiter(b[from]))
  {
    forall x | from <= x < from + |s| ensures Delimiter(b[x]) { assert b[x] == s[x - from]; }
  }

  lemma Delimited(b: string, x: nat, y: nat, z: nat)
    requires x <= y <= z && AllDelimiters(b, x, y) && AllDelimiters(b, y, z)
    ensures AllDelimiters(b, x, z)
  {
    hide Delimiter;
  }

  lemma ThreeParts(b: string, p: string, w: string, s: string)
    requires |p| + |w| + |s| <= |b| && b[..|p| + |w| + |s|] == p + w + s
    ensures b[..|p|] == p && b[|p|..|p| + |w|] == w && b[|p| + |w|..|p| + |w| + |s|] == s
  {
    var all := b[..|p| + |w| + |s|];
    assert b[..|p|] == all[..|p|] && b[|p|..|p| + |w|] == all[|p|..|p| + |w|] && b[|p| + |w|..|p| + |w| + |s|] == all[|p| + |w|..];
  }

  lemma {:induction false} SpreadSplits(b: string, ws: seq<string>, seps: seq<string>) returns (ts: seq<Span>)
    requires |seps| == |ws| + 1 && Spaces(seps) && forall i :: 0 <= i < |ws| ==> Plain(ws[i])
    requires |Spread(ws, seps)| <= |b| && b[..|Spread(ws, seps)|] == Spread(ws, seps)
    ensures |ts| == |ws| && Split(b, ts) && Texts(b, ts) == ws && Before(ts, |ts|) <= |Spread(ws, seps)|
    ensures AllDelimiters(b, Before(ts, |ts|), |Spread(ws, seps)|)
    decreases |ws|
  {
    hide Split, Texts, Plain, IsWhite, AllDelimiters, Before, TokenAt;
    var n := |ws|;
    if n == 0 {
      ts := [];
      EmptySplit(b);
      NoTexts(b);
      assert b[0..|seps[0]|] == seps[0];
      WhiteAt(b, 0, seps[0]);
    } else {
      var p, w, s := Spread(ws[..n - 1], seps[..n]), ws[n - 1], seps[n];
      ThreeParts(b, p, w, s);
      var us := SpreadSplits(b, ws[..n - 1], seps[..n]);
      var t := Span(|p|, |p| + |w|);
      WhiteAt(b, |p| + |w|, s);
      assert b[|p| + |w|] == s[0];
      PlainWord(w);
      WordToken(b, Before(us, |us|), |p|, w);
      SplitMore(b, us, t);
      TextsMore(b, us, t);
      TextIs(b, |p|, w);
      ts := us + [t];
      assert ws == ws[..n - 1] + [w];
    }
  }

  lemma PlainWord(w: string)
    requires Plain(w)
    ensures Word(w)
  {
  }

  lemma NoTexts(b: string)
    ensures Split(b, []) && Texts(b, []) == [] && Before([], 0) == 0
  {
  }

  /** However the words of a line are spaced, by any mix of blanks, tabs and line
      ends, its tokens are those words. */
  lemma AnySpacing(ws: seq<string>, seps: seq<string>, ts: seq<Span>)
    requires |seps| == |ws| + 1 && Spaces(seps) && |ws| < CMD_MAX_ARGS && forall i :: 0 <= i < |ws| ==> Plain(ws[i])
    requires var b := Spread(ws, seps); Split(b, ts) && (|ts| < CMD_MAX_ARGS ==> Exhausted(b, Before(ts, |ts|)))
    ensures Texts(Spread(ws, seps), ts) == ws
  {
    var b := Spread(ws, seps);
    hide Split, Texts, Spread, AllDelimiters, Exhausted, Before;
    assert b[..|b|] == b;
    var us := SpreadSplits(b, ws, seps);
    Determined(b, us, ts);
  }

  /** A line of single-spaced words means what the words say, the last argument being the rest as it was. */
  lemma LineReadsBack(syntax: seq<Def>, ws: seq<string>, tail: string, ts: seq<Span>)
    requires ws != [] && Words(ws) && |ws| < CMD_MAX_ARGS && tail != "" && AllDelimiters(tail, 0, |tail|)
    requires var b := Join(ws) + tail; Split(b, ts) && (|ts| < CMD_MAX_ARGS ==> Exhausted(b, Before(ts, |ts|)))
    ensures var b := Join(ws) + tail; Interpreted(syntax, Texts(b, ts), Trails(b, ts)) == Interpreted(syntax, ws, Joins(ws))
  {
    var b := Join(ws) + tail;
    hide Join, Spans, Interpreted, Delimiter, NoDelimiter, Words, Split, Trailing, Texts, Exhausted;
    TailDelimits(Join(ws), tail);
    SpansSplit(b, ws);
    Determined(b, Spans(ws), ts);
    forall k | 0 <= k < |ws| ensures Trails(b, ts)[k] == Joins(ws)[k] { TrailJoins(b, ts, ws, k); }
    assert Trails(b, ts) == Joins(ws);
  }

  lemma TailDelimits(s: string, tail: string)
    requires tail != "" && AllDelimiters(tail, 0, |tail|)
    ensures var b := s + tail; b[..|s|] == s && Delimiter(b[|s|]) && AllDelimiters(b, |s|, |b|)
  {
    var b := s + tail;
    assert b[|s|] == tail[0];
    forall x | |s| <= x < |b| ensures Delimiter(b[x]) { assert b[x] == tail[x - |s|]; }
  }

  // ----- answers and queries -----

  /** `mdir_cnx_answer`: the number is the query's, negated. */
  function Answer(seqnum: int, keyword: string, status: int, compl: string): string {
    (if seqnum != 0 then VersionToString(-seqnum) + " " else "") + keyword + " " + VersionToString(status) + " " + compl + "\n"
  }

  /** An answer to a query without number is the same, without the number. */
  lemma AnswerPrefix(seqnum: nat, keyword: string, status: int, compl: string)
    ensures Answer(0, keyword, status, compl) == keyword + " " + VersionToString(status) + " " + compl + "\n"
    ensures seqnum > 0 ==> Answer(seqnum, keyword, status, compl) == "-" + Decimal(seqnum) + " " + Answer(0, keyword, status, compl)
  {
    hide Decimal;
    var rest := keyword + " " + VersionToString(status) + " " + compl + "\n";
    assert "" + keyword == keyword;
    if seqnum > 0 {
      var n := "-" + Decimal(seqnum) + " ";
      hide VersionToString;
      assert n + keyword + " " + VersionToString(status) + " " + compl + "\n" == n + rest;
    }
  }

  /** What `mdir_cmd_seq2str` prints: its buffer is a parameter, so that the size
      it gives to `snprintf` is the one of a pointer, the final NUL included. */
  const SEQ_CHARS: nat := 7

  function SeqText(seqnum: nat): string {
    var s := Decimal(seqnum);
    if |s| > SEQ_CHARS then s[..SEQ_CHARS] else s
  }

  /** `mdir_cnx_query`: numbered if an answer is waited for. */
  function Query(seqnum: Option<nat>, keyword: string, params: seq<string>): string {
    (if seqnum.Some? then SeqText(seqnum.value) + " " else "") + keyword + Spaced(params) + "\n"
  }

  /** The number those characters stand for. */
  function SentNumber(seqnum: nat): (r: nat)
    ensures r <= seqnum && (r == seqnum <==> seqnum < 10000000) && r < 10000000 && (seqnum > 0 ==> r > 0)
  { if seqnum < 10000000 then seqnum else SentNumber(seqnum / 10) }

  function Power(k: nat): nat { if k == 0 then 1 else 10 * Power(k - 1) }

  lemma {:induction false} PowerGrows(k: nat)
    requires k > 0
    ensures Power(k) >= 10
  {
    if k > 1 { PowerGrows(k - 1); } else { assert Power(1) == 10 * Power(0); }
  }

  lemma {:induction false} DecimalLength(n: nat, k: nat)
    requires k > 0
    ensures |Decimal(n)| <= k <==> n < Power(k)
    decreases k
  {
    PowerGrows(k);
    if k == 1 {
      assert Power(1) == 10 * Power(0);
    } else if n >= 10 {
      DecimalLength(n / 10, k - 1);
    }
  }

  lemma {:induction false} SeqTextIs(seqnum: nat)
    ensures SeqText(seqnum) == Decimal(SentNumber(seqnum))
  {
    assert Power(7) == 10000000;
    DecimalLength(seqnum, 7);
    if seqnum >= 10000000 {
      SeqTextIs(seqnum / 10);
      DecimalLength(seqnum / 10, 7);
      assert Decimal(seqnum)[..|Decimal(seqnum)| - 1] == Decimal(seqnum / 10);
      assert Decimal(seqnum)[..7] == Decimal(seqnum / 10)[..7];
    }
  }

  /** The number of a query is read back if and only if it has 7 digits at most. */
  lemma SeqReadsBack(seqnum: nat)
    ensures Number(SeqText(seqnum)) == Some(SentNumber(seqnum))
    ensures Number(SeqText(seqnum)) == Some(seqnum) <==> seqnum < 10000000
  {
    SeqTextIs(seqnum);
    NumberReadsBack(SentNumber(seqnum));
  }

  /** The first number that is cut. */
  lemma TenMillionCut()
    ensures SeqText(10000000) == "1000000"
  {
    SeqTextIs(10000000);
    assert SentNumber(10000000) == 1000000;
    MillionText();
  }

  lemma MillionText()
    ensures Decimal(1000000) == "1000000"
  {
    assert Decimal(1) == "1" && Decimal(10) == "1" + "0" && Decimal(100) == Decimal(10) + "0";
    assert Decimal(1000) == Decimal(100) + "0" && Decimal(10000) == Decimal(1000) + "0";
    assert Decimal(100000) == Decimal(10000) + "0" && Decimal(1000000) == Decimal(100000) + "0";
  }

  function Spaced(params: seq<string>): string {
    if params == [] then "" else Spaced(params[..|params| - 1]) + " " + params[|params| - 1]
  }

  /** Expects a status and maybe a text (`MDIR_CNX_ANSW_REGISTER`). */
  predicate IsAnswerDef(d: Def) { d.min == 1 && d.max == 2 && d.kinds == [Integer, Text] && d.negseq }

  lemma {:induction false} JoinSpaced(ws: seq<string>, ps: seq<string>)
    requires ws != []
    ensures Join(ws + ps) == Join(ws) + Spaced(ps)
    decreases |ps|
  {
    hide Join, Spans, Spaced;
    SpacedStep(ps);
    if ps == [] {
      assert ws + ps == ws;
      assert Join(ws) + "" == Join(ws);
    } else {
      var n := |ps| - 1;
      JoinSpaced(ws, ps[..n]);
      JoinStep(ws + ps);
      assert (ws + ps)[..|ws + ps| - 1] == ws + ps[..n];
      Regroup(Join(ws), Spaced(ps[..n]), " ", ps[n]);
    }
  }

  lemma SpacedStep(ps: seq<string>)
    ensures Spaced(ps) == if ps == [] then "" else Spaced(ps[..|ps| - 1]) + " " + ps[|ps| - 1]
  {
  }

  lemma Regroup(a: string, b: string, c: string, d: string)
    ensures a + b + c + d == a + (b + c + d)
  {
  }

  lemma {:induction false} DecimalWord(n: nat)
    ensures forall i :: 0 <= i < |Decimal(n)| ==> !Delimiter(Decimal(n)[i])
  {
    DecimalValue(n);
  }

  lemma NumberWord(v: int)
    ensures Word(VersionToString(v)) && IsSeq(VersionToString(v)) && (LongLong(v) ==> Number(VersionToString(v)) == Some(v))
  {
    var n := if v < 0 then -v else v;
    NumberReadsBack(v);
    DecimalWord(n);
    DecimalDigits(n);
    hide Number;
    var s := VersionToString(v);
    if v < 0 { assert forall i :: 0 < i < |s| ==> s[i] == Decimal(n)[i - 1]; }
  }

  lemma JoinThree(a: string, b: string, c: string)
    ensures Join([a, b]) == a + " " + b
    ensures Join([a, b, c]) == a + " " + b + " " + c
  {
    JoinOne(a);
    JoinStep([a, b]);
    JoinStep([a, b, c]);
    assert [a, b][..1] == [a] && [a, b, c][..2] == [a, b];
  }

  /** The line of an answer, as words. */
  lemma AnswerWords(seqnum: int, keyword: string, status: int, cs: seq<string>) returns (tail: string)
    requires seqnum > 0
    ensures Answer(seqnum, keyword, status, Join(cs)) == Join([VersionToString(-seqnum), keyword, VersionToString(status)] + cs) + tail
    ensures tail != "" && AllDelimiters(tail, 0, |tail|)
  {
    var ws := [VersionToString(-seqnum), keyword, VersionToString(status)];
    JoinThree(VersionToString(-seqnum), keyword, VersionToString(status));
    JoinSpaced(ws, cs);
    if cs == [] {
      tail := " \n";
      assert Join(cs) == "" && Spaced(cs) == "";
    } else {
      tail := "\n";
      JoinSpaced([cs[0]], cs[1..]);
      assert [cs[0]] + cs[1..] == cs;
      JoinOne(cs[0]);
      SpacedFront(cs);
    }
  }

  lemma {:induction false} SpacedFront(ps: seq<string>)
    requires ps != []
    ensures Spaced(ps) == " " + ps[0] + Spaced(ps[1..])
  {
    var n := |ps| - 1;
    if n == 0 {
      assert Spaced(ps[..0]) == "" && Spaced(ps[1..]) == "";
      assert Spaced(ps) == "" + " " + ps[0];
    } else {
      SpacedFront(ps[..n]);
      assert ps[..n][1..] == ps[1..][..n - 1];
      hide Join;
      assert " " + ps[0] + Spaced(ps[1..][..n - 1]) + " " + ps[n] == " " + ps[0] + (Spaced(ps[1..][..n - 1]) + " " + ps[n]);
    }
  }

  /** A numbered line, once its number and its definition are known. */
  lemma NumberedLine(syntax: seq<Def>, n: int, keyword: string, rest: seq<string>)
    requires 2 + |rest| < CMD_MAX_ARGS && Chosen(syntax, n, keyword, 0).Some? && LongLong(n)
    ensures var ws := [VersionToString(n), keyword] + rest; var at := Chosen(syntax, n, keyword, 0).value;
      Interpreted(syntax, ws, Joins(ws)) == Built(syntax[at], at, n, ws, Joins(ws), 2)
  {
    NumberWord(n);
    hide Chosen, Number, Built, Joins;
  }

  /** The arguments of a line of words. */
  lemma WordArgs(d: Def, ws: seq<string>, first: nat)
    requires first <= |ws|
    ensures var ps := ws[first..];
      ArgTexts(d, ws, Joins(ws), first) == if |ps| > d.max && Swallows(d) then ps[..d.max - 1] + [Join(ps[d.max - 1..])] else ps
  {
    var ps := ws[first..];
    if |ps| > d.max && Swallows(d) {
      assert ws[first + d.max - 1..] == ps[d.max - 1..] && ws[first..first + d.max - 1] == ps[..d.max - 1];
    }
  }

  lemma StatusAndText(d: Def, status: int, text: seq<string>)
    requires IsAnswerDef(d) && |text| <= 1 && LongLong(status)
    ensures Converted(d, [VersionToString(status)] + text, 0) == Some([Int(status)] + if text == [] then [] else [Str(text[0])])
  {
    NumberWord(status);
    hide Number;
    var all := [VersionToString(status)] + text;
    assert Converted(d, all, |all|) == Some([]);
    if text != [] {
      assert all[1] == text[0] && |all| == 2;
      assert d.kinds[1] == Text && Converted(d, all, 2) == Some([]);
      assert [Str(text[0])] + [] == [Str(text[0])];
      assert Prepended([Str(text[0])], Some([])) == Some([Str(text[0])]);
      assert Converted(d, all, 1) == Some([Str(text[0])]);
    }
    assert Converted(d, all, 0) == Prepended([Int(status)], Converted(d, all, 1));
  }

  /** An answer is read back whole, and by an answer definition. */
  lemma AnswerReadsBack(syntax: seq<Def>, seqnum: int, keyword: string, status: int, cs: seq<string>, ts: seq<Span>)
    requires 0 < seqnum <= LLONG_MAX && LongLong(status) && Word(keyword) && Words(cs) && 3 + |cs| < CMD_MAX_ARGS
    requires var b := Answer(seqnum, keyword, status, Join(cs)); Split(b, ts) && (|ts| < CMD_MAX_ARGS ==> Exhausted(b, Before(ts, |ts|)))
    requires var at := Chosen(syntax, -seqnum, keyword, 0); at.Some? && IsAnswerDef(syntax[at.value])
    ensures var b := Answer(seqnum, keyword, status, Join(cs));
      Interpreted(syntax, Texts(b, ts), Trails(b, ts))
        == Command(Chosen(syntax, -seqnum, keyword, 0).value, seqnum, [Int(status)] + if cs == [] then [] else [Str(Join(cs))])
  {
    var ws := [VersionToString(-seqnum), keyword, VersionToString(status)] + cs;
    var tail := AnswerWords(seqnum, keyword, status, cs);
    assert Words(ws) by { NumberWord(-seqnum); NumberWord(status); }
    hide Words, Word, Answer, Split, Exhausted, Texts, Trails, Interpreted, Join, Joins, Chosen, VersionToString, AllDelimiters;
    LineReadsBack(syntax, ws, tail, ts);
    AnswerMeans(syntax, seqnum, keyword, status, cs);
  }

  lemma AnswerMeans(syntax: seq<Def>, seqnum: int, keyword: string, status: int, cs: seq<string>)
    requires 0 < seqnum <= LLONG_MAX && LongLong(status) && 3 + |cs| < CMD_MAX_ARGS
    requires var at := Chosen(syntax, -seqnum, keyword, 0); at.Some? && IsAnswerDef(syntax[at.value])
    ensures var ws := [VersionToString(-seqnum), keyword, VersionToString(status)] + cs;
      Interpreted(syntax, ws, Joins(ws))
        == Command(Chosen(syntax, -seqnum, keyword, 0).value, seqnum, [Int(status)] + if cs == [] then [] else [Str(Join(cs))])
  {
    hide Chosen, Interpreted, Join, Joins, VersionToString, Converted;
    var rest := [VersionToString(status)] + cs;
    var ws := [VersionToString(-seqnum), keyword] + rest;
    assert ws == [VersionToString(-seqnum), keyword, VersionToString(status)] + cs;
    var d := syntax[Chosen(syntax, -seqnum, keyword, 0).value];
    NumberedLine(syntax, -seqnum, keyword, rest);
    WordArgs(d, ws, 2);
    assert ws[2..] == rest && rest[1..] == cs && rest[..1] == [VersionToString(status)];
    if |cs| == 1 { JoinOne(cs[0]); assert cs == [cs[0]]; }
    StatusAndText(d, status, if cs == [] then [] else [Join(cs)]);
  }

  /** A line without number, once its definition is known. */
  lemma PlainLine(syntax: seq<Def>, keyword: string, rest: seq<string>)
    requires 1 + |rest| < CMD_MAX_ARGS && !IsSeq(keyword) && Chosen(syntax, 0, keyword, 0).Some?
    ensures var ws := [keyword] + rest; var at := Chosen(syntax, 0, keyword, 0).value;
      Interpreted(syntax, ws, Joins(ws)) == Built(syntax[at], at, 0, ws, Joins(ws), 1)
  {
    hide Chosen, Built, Joins, IsSeq;
  }

  /** What a definition makes of the words after the keyword. */
  function Understood(d: Def, at: nat, seqnum: int, ps: seq<string>): Outcome {
    var texts := if |ps| > d.max && Swallows(d) then ps[..d.max - 1] + [Join(ps[d.max - 1..])] else ps;
    if |ps| < d.min then TooFew
    else match Converted(d, texts, 0) case None => BadNumber case Some(args) => Command(at, seqnum, args)
  }

  /** A numbered query is understood as the number sent and what the definition
      makes of its words; the number sent is its own if and only if it is below 10^7. */
  lemma QueryReadsBack(syntax: seq<Def>, seqnum: nat, keyword: string, ps: seq<string>, ts: seq<Span>)
    requires seqnum > 0 && Word(keyword) && Words(ps) && 2 + |ps| < CMD_MAX_ARGS
    requires var b := Query(Some(seqnum), keyword, ps); Split(b, ts) && (|ts| < CMD_MAX_ARGS ==> Exhausted(b, Before(ts, |ts|)))
    requires Chosen(syntax, SentNumber(seqnum), keyword, 0).Some?
    ensures var b := Query(Some(seqnum), keyword, ps); var at := Chosen(syntax, SentNumber(seqnum), keyword, 0).value;
      && !syntax[at].negseq && (SentNumber(seqnum) == seqnum <==> seqnum < 10000000)
      && Interpreted(syntax, Texts(b, ts), Trails(b, ts)) == Understood(syntax[at], at, SentNumber(seqnum), ps)
  {
    hide Understood, Words, Word, Query, Split, Exhausted, Texts, Trails, Interpreted, Join, Joins, Chosen, Converted, Number, VersionToString, AllDelimiters, IsSeq, Trailing, SentNumber;
    var n := SentNumber(seqnum);
    NewLine();
    NumberedWords(n, keyword, ps);
    NumberedText(seqnum, keyword, ps);
    LineReadsBack(syntax, [VersionToString(n), keyword] + ps, "\n", ts);
    QueryMeans(syntax, n, keyword, ps);
  }

  lemma NumberedWords(n: nat, keyword: string, ps: seq<string>)
    requires Word(keyword) && Words(ps)
    ensures Words([VersionToString(n), keyword] + ps)
  {
    NumberWord(n);
    hide Word, Number, VersionToString, IsSeq;
  }

  lemma NewLine()
    ensures AllDelimiters("\n", 0, |"\n"|)
  {
  }

  lemma NumberedText(seqnum: nat, keyword: string, ps: seq<string>)
    ensures Query(Some(seqnum), keyword, ps) == Join([VersionToString(SentNumber(seqnum)), keyword] + ps) + "\n"
  {
    var two := [VersionToString(SentNumber(seqnum)), keyword];
    SeqTextIs(seqnum);
    hide Join, Decimal;
    JoinSpaced(two, ps);
    JoinThree(VersionToString(SentNumber(seqnum)), keyword, "");
  }

  lemma QueryMeans(syntax: seq<Def>, n: nat, keyword: string, ps: seq<string>)
    requires 0 < n < 10000000 && 2 + |ps| < CMD_MAX_ARGS && Chosen(syntax, n, keyword, 0).Some?
    ensures var ws, at := [VersionToString(n), keyword] + ps, Chosen(syntax, n, keyword, 0).value;
      !syntax[at].negseq && Interpreted(syntax, ws, Joins(ws)) == Understood(syntax[at], at, n, ps)
  {
    hide Interpreted, Join, Joins, Chosen, Converted, VersionToString;
    var ws := [VersionToString(n), keyword] + ps;
    NumberedLine(syntax, n, keyword, ps);
    WordArgs(syntax[Chosen(syntax, n, keyword, 0).value], ws, 2);
    assert ws[2..] == ps;
  }

  /** So is a query without number, whose keyword is then not to be taken for one. */
  lemma PlainQueryReadsBack(syntax: seq<Def>, keyword: string, ps: seq<string>, ts: seq<Span>)
    requires Word(keyword) && !IsSeq(keyword) && Words(ps) && 1 + |ps| < CMD_MAX_ARGS
    requires var b := Query(None, keyword, ps); Split(b, ts) && (|ts| < CMD_MAX_ARGS ==> Exhausted(b, Before(ts, |ts|)))
    requires Chosen(syntax, 0, keyword, 0).Some?
    ensures var b := Query(None, keyword, ps); var at := Chosen(syntax, 0, keyword, 0).value;
      Interpreted(syntax, Texts(b, ts), Trails(b, ts)) == Understood(syntax[at], at, 0, ps)
  {
    var ws := [keyword] + ps;
    assert Query(None, keyword, ps) == Join(ws) + "\n" by {
      JoinSpaced([keyword], ps);
      JoinOne(keyword);
      assert "" + keyword == keyword;
    }
    var d := syntax[Chosen(syntax, 0, keyword, 0).value];
    assert AllDelimiters("\n", 0, 1);
    hide Word, Query, Split, Exhausted, Texts, Trails, Interpreted, Join, Joins, Chosen, Converted, Number, AllDelimiters, IsSeq, Trailing;
    LineReadsBack(syntax, ws, "\n", ts);
    PlainLine(syntax, keyword, ps);
    WordArgs(d, ws, 1);
    assert ws[1..] == ps;
  }

  /** Words given as one parameter are words all the same (`send_chunk`). */
  lemma ParameterOfWords(ws: seq<string>)
    requires ws != []
    ensures Spaced([Join(ws)]) == Spaced(ws)
  {
    SpacedFront(ws);
    JoinSpaced([ws[0]], ws[1..]);
    JoinOne(ws[0]);
    assert [ws[0]] + ws[1..] == ws;
    assert [Join(ws)][..0] == [];
    assert Spaced([]) == "";
    hide Join;
  }
}
