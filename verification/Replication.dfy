/** The replicated journal: a server appends patches, a subscription sends
    them, a client applies what it receives (mdsyncd/sub.c, mdsyncd/queries.c,
    mdsyncc/reader.c).  Messages may be delayed, reordered and duplicated. */
module Replication {
  import opened Headers
  import opened Journals
  import opened Mdirs

  /** `PATCH prev version action`, with the header that follows it. */
  datatype Msg = Msg(prev: int, version: int, action: Action, header: Header)

  /** Central version of an acknowledged local patch (mdsyncc/c2l.c). */
  datatype C2L = C2L(central: int, local: int)

  datatype Client = Client(journal: Journal, patches: seq<Msg>, pending: nat, c2l: seq<C2L>)

  // ----- client -----

  /** `c2l_search`: the first map of that central version. */
  function Search(l: seq<C2L>, central: int): (r: Option<nat>)
    ensures r.Some? ==> r.value < |l| && l[r.value].central == central
    ensures r.None? ==> forall i :: 0 <= i < |l| ==> l[i].central != central
  {
    if l == [] then None
    else if l[0].central == central then Some(0)
    else match Search(l[1..], central)
      case None => None
      case Some(i) => Some(i + 1)
  }

  function Without(l: seq<C2L>, i: nat): seq<C2L>
    requires i < |l|
  {
    l[..i] + l[i + 1..]
  }

  /** The header gets the local version when the ack of this patch came first. */
  function Tagged(m: Msg, l: seq<C2L>): Msg {
    match Search(l, m.version)
    case None => m
    case Some(i) => m.(header := m.header + [LocalTag(l[i].local)])
  }

  function C2LAfter(m: Msg, l: seq<C2L>): seq<C2L> {
    match Search(l, m.version)
    case None => l
    case Some(i) => Without(l, i)
  }

  /** Insertion of `patch_ctor`: after the patches whose old version is not greater. */
  function Inserted(ps: seq<Msg>, m: Msg): seq<Msg> {
    if ps == [] || ps[0].prev > m.prev then [m] + ps
    else [ps[0]] + Inserted(ps[1..], m)
  }

  function Gap(m: Msg): nat
    requires m.version > m.prev
  {
    m.version - m.prev - 1
  }

  /** The journal after `mdir_patch` of this message. */
  function Applied(j: Journal, m: Msg): Journal
    requires m.version > m.prev
  {
    Patched(j, m.action, m.header, m.header, Gap(m))
  }

  /** `mdir_patch` reports no error. */
  predicate AppliesCleanly(j: Journal, m: Msg)
    requires m.version > m.prev
  {
    Appends(j, m.action, m.header, Gap(m)) && !Dangling(|Applied(j, m)|, m.header)
  }

  /** The loop of `try_apply`.  After an error the patch stays first in the list. */
  function Drained(j: Journal, ps: seq<Msg>): (Journal, seq<Msg>)
    decreases |ps|
  {
    if ps == [] || ps[0].prev != |j| || ps[0].version <= ps[0].prev then (j, ps)
    else if AppliesCleanly(j, ps[0]) then Drained(Applied(j, ps[0]), ps[1..])
    else (Applied(j, ps[0]), ps)
  }

  function TryApply(c: Client): Client {
    if c.pending > 0 then c
    else
      var (j, ps) := Drained(c.journal, c.patches);
      c.(journal := j, patches := ps)
  }

  /** `patch_service`. */
  function Receive(c: Client, m: Msg): Client {
    TryApply(c.(patches := Inserted(c.patches, Tagged(m, c.c2l)), c2l := C2LAfter(m, c.c2l)))
  }

  /** `finalize_put` and `finalize_rem` with status 200. */
  function Acked(c: Client, central: int, local: int): Client {
    c.(pending := if c.pending > 0 then c.pending - 1 else 0, c2l := [C2L(central, local)] + c.c2l)
  }

  lemma {:induction false} InsertedAll(ps: seq<Msg>, m: Msg)
    ensures |Inserted(ps, m)| == |ps| + 1 && multiset(Inserted(ps, m)) == multiset(ps) + multiset{m}
  {
    if ps != [] && ps[0].prev <= m.prev {
      InsertedAll(ps[1..], m);
      assert ps == [ps[0]] + ps[1..];
    }
  }

  /** The patch at the head cannot be applied now: it starts elsewhere, or a `mdir_patch` fails on it. */
  ghost predicate Stuck(j: Journal, m: Msg) {
    || m.prev != |j|
    || m.version <= m.prev
    || exists i: Journal :: |i| == m.prev && !AppliesCleanly(i, m) && j == Applied(i, m)
  }

  lemma {:induction false} DrainStops(j: Journal, ps: seq<Msg>)
    ensures var (j', ps') := Drained(j, ps);
            |ps'| <= |ps| && ps' == ps[|ps| - |ps'|..] && (ps' == [] || Stuck(j', ps'[0]))
    decreases |ps|
  {
    hide AppliesCleanly, Applied;
    if ps != [] && ps[0].prev == |j| && ps[0].version > ps[0].prev && AppliesCleanly(j, ps[0]) {
      DrainStops(Applied(j, ps[0]), ps[1..]);
    }
  }

  /** While an ack is pending a received patch only joins the list; else the list
      is worked through from its head until nothing more can be applied. */
  lemma HeldBack(c: Client, m: Msg)
    ensures var d := Receive(c, m);
            && d.pending == c.pending && d.c2l == C2LAfter(m, c.c2l)
            && (c.pending > 0 ==> d.journal == c.journal && |d.patches| == |c.patches| + 1 && multiset(d.patches) == multiset(c.patches) + multiset{Tagged(m, c.c2l)})
            && (c.pending == 0 ==> d.patches == [] || Stuck(d.journal, d.patches[0]))
            && (c.pending == 0 ==> multiset(d.patches) <= multiset(c.patches) + multiset{Tagged(m, c.c2l)})
  {
    hide Drained, Stuck, Inserted, Tagged, C2LAfter;
    var ps := Inserted(c.patches, Tagged(m, c.c2l));
    InsertedAll(c.patches, Tagged(m, c.c2l));
    DrainStops(c.journal, ps);
    var left := Drained(c.journal, ps).1;
    assert ps == ps[..|ps| - |left|] + left;
  }

  // ----- the whole system -----

  datatype Origin = Origin(action: Action, header: Header)

  /** `history[v - 1]` is what the server appended as version `v`; `sent` is every message ever sent. */
  datatype World = World(server: Journal, history: seq<Origin>, sub: Option<int>, sent: set<Msg>, client: Client)

  datatype Event =
    | Submit(action: Action, header: Header)
    | Subscribe(version: int)
    | Unsubscribe
    | Send
    | Deliver(msg: Msg)
    | Request
    | Ack(central: int, local: int)
    | Refuse

  const START: World := World([], [], None, {}, Client([], [], 0, []))

  /** `subscription_reset_version`: an existing subscription only moves back. */
  function Reset(sub: Option<int>, v: int): Option<int> {
    if sub.Some? && v > sub.value then sub else Some(v)
  }

  /** `client_needs_patch`. */
  predicate NeedsPatch(w: World) { w.sub.Some? && w.sub.value < |w.server| }

  function NextMsg(j: Journal, from: int): (r: Option<Msg>) {
    match NextLive(j, from)
    case None => None
    case Some(n) => Some(Msg(from, n, j[n - 1].action, j[n - 1].header))
  }

  function Next(w: World, e: Event): World {
    match e
    case Submit(a, h) =>
      if Appends(w.server, a, h, 0)
      then w.(server := Patched(w.server, a, h, h, 0), history := w.history + [Origin(a, h)])
      else w
    case Subscribe(v) => w.(sub := Reset(w.sub, v))
    case Unsubscribe => w.(sub := None)
    case Send =>
      if NeedsPatch(w) && NextMsg(w.server, w.sub.value).Some? then
        var m := NextMsg(w.server, w.sub.value).value;
        w.(sub := Some(m.version), sent := w.sent + {m})
      else w
    case Deliver(m) => if m in w.sent then w.(client := Receive(w.client, m)) else w
    case Request => w.(client := w.client.(pending := w.client.pending + 1))
    case Ack(c, l) => w.(client := Acked(w.client, c, l))
    case Refuse => w.(client := w.client.(pending := if w.client.pending > 0 then w.client.pending - 1 else 0))
  }

  function Run(es: seq<Event>): World {
    if es == [] then START else Next(Run(es[..|es| - 1]), es[|es| - 1])
  }

  // ----- invariants -----

  /** Equal up to a local version added at the end. */
  ghost predicate Tags(h: Header, t: Header) {
    t == h || exists local: int :: t == h + [LocalTag(local)]
  }

  lemma TagsKeep(h: Header, t: Header)
    requires Tags(h, t)
    ensures Target(t) == Target(h) && MarkTarget(t) == MarkTarget(h)
  {
    if t != h {
      var local :| t == h + [LocalTag(local)];
      TagKeeps(h, local);
    }
  }

  /** The patch at index `r` removes version `v`. */
  predicate Removes(o: Origin, v: int) { o.action == Rem && Target(o.header) == Some(v) }

  ghost predicate RemovedLater(hist: seq<Origin>, i: nat) { exists r :: i < r < |hist| && Removes(hist[r], i + 1) }

  predicate RemovalDone(s: Journal, hist: seq<Origin>, r: nat)
    requires r < |s| == |hist|
  {
    var t := Target(hist[r].header);
    t.Some? && Exists(r, t.value) && s[t.value - 1].Blank?
  }

  ghost predicate ServerInv(s: Journal, hist: seq<Origin>) {
    && |s| == |hist|
    && (forall i :: 0 <= i < |s| && s[i].Live? ==> s[i] == Live(hist[i].action, hist[i].header))
    && (forall i :: 0 <= i < |s| && s[i].Blank? ==> hist[i].action == Add && RemovedLater(hist, i))
    && (forall r :: 0 <= r < |s| && hist[r].action == Rem ==> RemovalDone(s, hist, r))
    && (s != [] ==> s[|s| - 1].Live?)
  }

  /** The message carries what the server appended, and skips only removed versions. */
  ghost predicate MsgInv(s: Journal, hist: seq<Origin>, m: Msg) {
    && |s| == |hist| && m.prev < m.version && Exists(|s|, m.version)
    && m.action == hist[m.version - 1].action && Tags(hist[m.version - 1].header, m.header)
    && forall i :: m.prev <= i < m.version - 1 && 0 <= i ==> s[i].Blank?
  }

  ghost predicate Matches(e: Entry, o: Origin, s: Entry) {
    if e.Blank? then s.Blank? else e.action == o.action && Tags(o.header, e.header)
  }

  ghost predicate ClientInv(j: Journal, s: Journal, hist: seq<Origin>) {
    && |j| <= |s| == |hist|
    && (forall i :: 0 <= i < |j| ==> Matches(j[i], hist[i], s[i]))
    && (forall r :: 0 <= r < |j| ==> TargetGone(j, hist, r))
  }

  /** What the patch at index `r` removes is blank here. */
  predicate TargetGone(j: Journal, hist: seq<Origin>, r: nat)
    requires r < |j| <= |hist|
  {
    var t := Target(hist[r].header);
    hist[r].action == Rem && t.Some? && Exists(r, t.value) ==> j[t.value - 1].Blank?
  }

  ghost predicate Inv(w: World) {
    && ServerInv(w.server, w.history)
    && (forall m :: m in w.sent ==> MsgInv(w.server, w.history, m))
    && (forall i :: 0 <= i < |w.client.patches| ==> MsgInv(w.server, w.history, w.client.patches[i]))
    && ClientInv(w.client.journal, w.server, w.history)
  }

  // ----- each step keeps them -----

  lemma SubmitKeeps(s: Journal, hist: seq<Origin>, a: Action, h: Header)
    requires ServerInv(s, hist) && Appends(s, a, h, 0)
    ensures ServerInv(Patched(s, a, h, h, 0), hist + [Origin(a, h)])
    ensures |s| == |hist| && |Patched(s, a, h, h, 0)| == |s| + 1
    ensures forall i :: 0 <= i < |s| && s[i].Blank? ==> Patched(s, a, h, h, 0)[i].Blank?
  {
    hide Patched, Appends, RemovedLater, RemovalDone, Target, Removable;
    var s', hist' := Patched(s, a, h, h, 0), hist + [Origin(a, h)];
    SubmitGives(s, a, h);
    assert forall i :: 0 <= i < |s| ==> hist'[i] == hist[i];
    forall i | 0 <= i < |s'| && s'[i].Blank? ensures hist'[i].action == Add && RemovedLater(hist', i) {
      if s[i].Blank? { LaterStays(hist, Origin(a, h), i); }
      else { LaterNow(hist, Origin(a, h), i); }
    }
    forall r | 0 <= r < |s'| && hist'[r].action == Rem ensures RemovalDone(s', hist', r) {
      if r < |s| { DoneStays(s, s', hist, hist', r); } else { DoneNow(s', hist', r); }
    }
  }

  lemma LaterStays(hist: seq<Origin>, o: Origin, i: nat)
    requires RemovedLater(hist, i)
    ensures RemovedLater(hist + [o], i)
  {
    var r :| i < r < |hist| && Removes(hist[r], i + 1);
    assert (hist + [o])[r] == hist[r];
  }

  lemma LaterNow(hist: seq<Origin>, o: Origin, i: nat)
    requires i < |hist| && Removes(o, i + 1)
    ensures RemovedLater(hist + [o], i)
  {
    assert (hist + [o])[|hist|] == o;
  }

  lemma DoneStays(s: Journal, s': Journal, hist: seq<Origin>, hist': seq<Origin>, r: nat)
    requires r < |s| == |hist| && |s'| == |hist'| && |s| <= |s'| && hist[r] == hist'[r] && RemovalDone(s, hist, r)
    requires forall i :: 0 <= i < |s| && s[i].Blank? ==> s'[i].Blank?
    ensures RemovalDone(s', hist', r)
  {
  }

  lemma DoneNow(s': Journal, hist': seq<Origin>, r: nat)
    requires r < |s'| == |hist'|
    requires var t := Target(hist'[r].header); t.Some? && Exists(r, t.value) && s'[t.value - 1].Blank?
    ensures RemovalDone(s', hist', r)
  {
  }

  lemma SubmitGives(s: Journal, a: Action, h: Header)
    requires Appends(s, a, h, 0)
    ensures var s' := Patched(s, a, h, h, 0);
      && |s'| == |s| + 1 && s'[|s|] == Live(a, h)
      && (a == Rem ==> Target(h).Some? && Exists(|s|, Target(h).value) && (s[Target(h).value - 1].Live? ==> s[Target(h).value - 1].action == Add))
      && (a == Rem ==> forall i :: 0 <= i < |s| ==> s'[i] == if i == Target(h).value - 1 then Blank else s[i])
      && (a == Add ==> forall i :: 0 <= i < |s| ==> s'[i] == s[i])
  {
    hide Target;
    assert Padded(s, 0) == s;
  }

  lemma MsgStays(s: Journal, hist: seq<Origin>, s': Journal, hist': seq<Origin>, m: Msg)
    requires MsgInv(s, hist, m) && |s'| == |hist'| && |s| <= |s'| && hist <= hist'
    requires forall i :: 0 <= i < |s| && s[i].Blank? ==> s'[i].Blank?
    ensures MsgInv(s', hist', m)
  {
  }

  lemma ClientStays(j: Journal, s: Journal, hist: seq<Origin>, s': Journal, hist': seq<Origin>)
    requires ClientInv(j, s, hist) && |s'| == |hist'| && |s| <= |s'| && hist <= hist'
    requires forall i :: 0 <= i < |s| && s[i].Blank? ==> s'[i].Blank?
    ensures ClientInv(j, s', hist')
  {
    hide Target, Tags;
    assert forall i :: 0 <= i < |hist| ==> hist'[i] == hist[i];
    forall r | 0 <= r < |j| ensures TargetGone(j, hist', r) { assert TargetGone(j, hist, r); }
  }

  lemma SendKeeps(s: Journal, hist: seq<Origin>, from: int)
    requires ServerInv(s, hist) && NextMsg(s, from).Some?
    ensures MsgInv(s, hist, NextMsg(s, from).value)
    ensures NextMsg(s, from).value.header == hist[NextMsg(s, from).value.version - 1].header
  {
    hide RemovedLater, RemovalDone, Tags, LocalTag;
    TagsSame(NextMsg(s, from).value.header);
  }

  lemma TagsSame(h: Header)
    ensures Tags(h, h)
  {
    hide LocalTag;
  }

  lemma PadKeeps(j: Journal, s: Journal, hist: seq<Origin>, m: Msg)
    requires ServerInv(s, hist) && ClientInv(j, s, hist) && MsgInv(s, hist, m) && m.prev == |j|
    ensures ClientInv(Padded(j, Gap(m)), s, hist)
  {
    var p := Padded(j, Gap(m));
    PaddedAt(j, Gap(m));
    hide Target, Tags, Padded, RemovedLater, RemovalDone, TargetGone;
    assert |p| == m.version - 1;
    forall r | 0 <= r < |p| ensures TargetGone(p, hist, r) {
      if r < |j| { GoneStays(j, p, hist, r); }
      else { assert s[r].Blank?; AddGone(p, hist, r); }
    }
  }

  lemma PaddedAt(j: Journal, nb: nat)
    ensures var p := Padded(j, nb);
      |p| == |j| + nb && (forall i :: 0 <= i < |j| ==> p[i] == j[i]) && forall i :: |j| <= i < |p| ==> p[i].Blank?
  {
  }

  lemma AddGone(p: Journal, hist: seq<Origin>, r: nat)
    requires r < |p| <= |hist| && hist[r].action == Add
    ensures TargetGone(p, hist, r)
  {
  }

  lemma GoneStays(j: Journal, p: Journal, hist: seq<Origin>, r: nat)
    requires r < |j| <= |hist| && |j| <= |p| <= |hist| && TargetGone(j, hist, r)
    requires forall i :: 0 <= i < |j| && j[i].Blank? ==> p[i].Blank?
    ensures TargetGone(p, hist, r)
  {
  }

  lemma RemovalHits(p: Journal, s: Journal, hist: seq<Origin>, h: Header)
    requires ServerInv(s, hist) && ClientInv(p, s, hist) && |p| < |s|
    requires hist[|p|].action == Rem && Target(h) == Target(hist[|p|].header)
    ensures Removable(p, h)
    ensures ClientInv(p[Target(h).value - 1 := Blank], s, hist)
  {
    hide Target, Tags, RemovedLater, TargetGone;
    assert RemovalDone(s, hist, |p|);
    var t := Target(h).value;
    assert s[t - 1].Blank? && Matches(p[t - 1], hist[t - 1], s[t - 1]);
    var q := p[t - 1 := Blank];
    forall r | 0 <= r < |q| ensures TargetGone(q, hist, r) { GoneStays(p, q, hist, r); }
  }

  lemma AppendKeeps(p: Journal, s: Journal, hist: seq<Origin>, h: Header)
    requires |p| < |s| && ClientInv(p, s, hist) && Tags(hist[|p|].header, h)
    requires hist[|p|].action == Rem ==> Target(hist[|p|].header).Some? && Exists(|p|, Target(hist[|p|].header).value)
                                         && p[Target(hist[|p|].header).value - 1].Blank?
    ensures ClientInv(p + [Live(hist[|p|].action, h)], s, hist)
  {
    hide Target, Tags;
    var q := p + [Live(hist[|p|].action, h)];
    assert TargetGone(q, hist, |p|);
    hide TargetGone;
    forall r | 0 <= r < |q| ensures TargetGone(q, hist, r) { if r < |p| { GoneStays(p, q, hist, r); } }
  }

  /** Applying a message extends the replica, returns exactly the message's
      version, and never misses the target of a removal. */
  lemma ApplyKeeps(j: Journal, s: Journal, hist: seq<Origin>, m: Msg)
    requires ServerInv(s, hist) && ClientInv(j, s, hist) && MsgInv(s, hist, m) && m.prev == |j|
    ensures Appends(j, m.action, m.header, Gap(m))
    ensures |Applied(j, m)| == m.version && ClientInv(Applied(j, m), s, hist)
  {
    hide Target, MarkTarget, Tags, ClientInv, RemovedLater, RemovalDone, TargetGone;
    TagsKeep(hist[m.version - 1].header, m.header);
    var p := Padded(j, Gap(m));
    PadKeeps(j, s, hist, m);
    if m.action == Rem {
      RemovalHits(p, s, hist, m.header);
      AppendKeeps(p[Target(m.header).value - 1 := Blank], s, hist, m.header);
    } else {
      AppendKeeps(p, s, hist, m.header);
    }
  }

  lemma {:induction false} DrainKeeps(j: Journal, ps: seq<Msg>, s: Journal, hist: seq<Origin>)
    requires ServerInv(s, hist) && ClientInv(j, s, hist)
    requires forall i :: 0 <= i < |ps| ==> MsgInv(s, hist, ps[i])
    ensures ClientInv(Drained(j, ps).0, s, hist)
    ensures forall i :: 0 <= i < |Drained(j, ps).1| ==> MsgInv(s, hist, Drained(j, ps).1[i])
    decreases |ps|
  {
    hide ServerInv, MsgInv, ClientInv, Applied, AppliesCleanly;
    if ps != [] && ps[0].prev == |j| && ps[0].version > ps[0].prev {
      assert MsgInv(s, hist, ps[0]);
      ApplyKeeps(j, s, hist, ps[0]);
      if AppliesCleanly(j, ps[0]) { DrainKeeps(Applied(j, ps[0]), ps[1..], s, hist); }
    }
  }

  lemma {:induction false} InsertedHas(ps: seq<Msg>, m: Msg)
    ensures |Inserted(ps, m)| == |ps| + 1
    ensures forall i :: 0 <= i < |Inserted(ps, m)| ==> Inserted(ps, m)[i] == m || Inserted(ps, m)[i] in ps
  {
    if ps != [] { InsertedHas(ps[1..], m); }
  }

  lemma ReceiveKeeps(c: Client, m: Msg, s: Journal, hist: seq<Origin>)
    requires ServerInv(s, hist) && ClientInv(c.journal, s, hist)
    requires forall i :: 0 <= i < |c.patches| ==> MsgInv(s, hist, c.patches[i])
    requires MsgInv(s, hist, m) && m.header == hist[m.version - 1].header
    ensures var d := Receive(c, m);
            ClientInv(d.journal, s, hist) && forall i :: 0 <= i < |d.patches| ==> MsgInv(s, hist, d.patches[i])
  {
    hide ServerInv, ClientInv, Drained;
    var t := Tagged(m, c.c2l);
    assert MsgInv(s, hist, t);
    InsertedHas(c.patches, t);
    DrainKeeps(c.journal, Inserted(c.patches, t), s, hist);
  }

  /** Sent messages carry the server's own header, without any local version. */
  ghost predicate SentExact(w: World) {
    forall m :: m in w.sent ==> Exists(|w.history|, m.version) && m.header == w.history[m.version - 1].header
  }

  lemma SubmitStep(w: World, a: Action, h: Header)
    requires Inv(w) && SentExact(w) && Appends(w.server, a, h, 0)
    ensures Inv(Next(w, Submit(a, h))) && SentExact(Next(w, Submit(a, h)))
  {
    hide ServerInv, MsgInv, ClientInv, Patched, Appends;
    SubmitKeeps(w.server, w.history, a, h);
    var w' := Next(w, Submit(a, h));
    ClientStays(w.client.journal, w.server, w.history, w'.server, w'.history);
    forall m | MsgInv(w.server, w.history, m) ensures MsgInv(w'.server, w'.history, m) {
      MsgStays(w.server, w.history, w'.server, w'.history, m);
    }
  }

  lemma SendStep(w: World)
    requires Inv(w) && SentExact(w)
    ensures Inv(Next(w, Send)) && SentExact(Next(w, Send))
  {
    hide ServerInv, ClientInv, NextMsg;
    if NeedsPatch(w) && NextMsg(w.server, w.sub.value).Some? {
      SendKeeps(w.server, w.history, w.sub.value);
    }
  }

  lemma DeliverStep(w: World, m: Msg)
    requires Inv(w) && SentExact(w)
    ensures Inv(Next(w, Deliver(m))) && SentExact(Next(w, Deliver(m)))
  {
    hide ServerInv, MsgInv, ClientInv, Receive;
    if m in w.sent { ReceiveKeeps(w.client, m, w.server, w.history); }
  }

  lemma StepKeeps(w: World, e: Event)
    requires Inv(w) && SentExact(w)
    ensures Inv(Next(w, e)) && SentExact(Next(w, e))
  {
    hide ServerInv, MsgInv, ClientInv, Patched, Appends, NextMsg;
    match e {
      case Submit(a, h) =>
        if Appends(w.server, a, h, 0) { SubmitStep(w, a, h); }
      case Send =>
        SendStep(w);
      case Deliver(m) => DeliverStep(w, m);
      case _ =>
    }
  }

  lemma {:induction false} RunKeeps(es: seq<Event>)
    ensures Inv(Run(es)) && SentExact(Run(es))
  {
    hide Inv, SentExact, Next;
    if es == [] {
      StartHolds();
    } else {
      RunKeeps(es[..|es| - 1]);
      StepKeeps(Run(es[..|es| - 1]), es[|es| - 1]);
    }
  }

  lemma StartHolds()
    ensures Inv(START) && SentExact(START)
  {
  }

  // ----- theorems -----

  /** Replica safety, in every run.  Each version the client holds is the entry
      the server appended under that number, up to a local version added to its
      header, or is blank because the server's is; and an entry the server
      removed survives on the client only while the removal is still to come. */
  lemma ReplicaSafety(es: seq<Event>)
    ensures var w := Run(es);
            var c := w.client.journal;
            && |c| <= |w.server| == |w.history|
            && forall v :: Exists(|c|, v) ==>
                 && (c[v - 1].Live? ==> c[v - 1].action == w.history[v - 1].action
                                        && Tags(w.history[v - 1].header, c[v - 1].header))
                 && (c[v - 1].Blank? ==> w.server[v - 1].Blank?)
                 && (c[v - 1].Live? && w.server[v - 1].Blank? ==>
                       exists r :: |c| <= r < |w.server| && Removes(w.history[r], v))
                 && (w.server[v - 1].Live? ==> w.server[v - 1] == Live(w.history[v - 1].action, w.history[v - 1].header))
  {
    RunKeeps(es);
    var w := Run(es);
    var c := w.client.journal;
    hide Removes, Tags, Run, MsgInv, SentExact, TargetGone, RemovalDone, RemovedLater;
    forall v | Exists(|c|, v) && c[v - 1].Live? && w.server[v - 1].Blank?
      ensures exists r :: |c| <= r < |w.server| && Removes(w.history[r], v)
    {
      RemovalToCome(c, w.server, w.history, v);
    }
  }

  lemma RemovalToCome(c: Journal, s: Journal, hist: seq<Origin>, v: int)
    requires ServerInv(s, hist) && ClientInv(c, s, hist) && Exists(|c|, v) && c[v - 1].Live? && s[v - 1].Blank?
    ensures exists r :: |c| <= r < |s| && Removes(hist[r], v)
  {
    hide Target, Tags, Removes, RemovalDone, TargetGone, RemovedLater;
    var r := LaterAt(hist, v - 1);
    if r < |c| { GoneBlank(c, hist, r, v); }
  }

  lemma LaterAt(hist: seq<Origin>, i: nat) returns (r: nat)
    requires RemovedLater(hist, i)
    ensures i < r < |hist| && Removes(hist[r], i + 1)
  {
    hide Removes;
    r :| i < r < |hist| && Removes(hist[r], i + 1);
  }

  lemma GoneBlank(c: Journal, hist: seq<Origin>, r: nat, v: int)
    requires r < |c| <= |hist| && TargetGone(c, hist, r) && Removes(hist[r], v) && Exists(r, v)
    ensures c[v - 1].Blank?
  {
    hide Target;
  }

  /** The two journals agree entry for entry, up to local versions. */
  ghost predicate SameJournal(c: Journal, s: Journal) {
    |c| == |s| && forall i :: 0 <= i < |s| ==>
      (c[i].Blank? <==> s[i].Blank?) && (s[i].Live? ==> c[i].action == s[i].action && Tags(s[i].header, c[i].header))
  }

  /** Once the last versions are equal, so are the journals. */
  lemma CaughtUp(es: seq<Event>)
    ensures |Run(es).client.journal| == |Run(es).server| ==> SameJournal(Run(es).client.journal, Run(es).server)
  {
    hide Run, Inv, SentExact, SameJournal;
    RunKeeps(es);
    if |Run(es).client.journal| == |Run(es).server| { CaughtUpInv(Run(es)); }
  }

  lemma CaughtUpInv(w: World)
    requires Inv(w) && |w.client.journal| == |w.server|
    ensures SameJournal(w.client.journal, w.server)
  {
    var c, s := w.client.journal, w.server;
    hide Removes, Tags, RemovedLater, RemovalDone, TargetGone;
    forall i | 0 <= i < |s| && s[i].Blank? ensures c[i].Blank? {
      if c[i].Live? {
        RemovalToCome(c, s, w.history, i + 1);
        assert false;
      }
    }
  }

  /** Subscription progress.  In every reachable state a subscription that is
      behind gets a patch exactly when the journal is not empty; the patch
      raises its version, never past the last, and skips removed versions only.
      (Behind an empty journal means a negative version; nothing is read then.) */
  lemma SubscriptionProgress(es: seq<Event>)
    ensures var w := Run(es);
            NeedsPatch(w) ==>
              && (NextMsg(w.server, w.sub.value).Some? <==> w.server != [])
              && (w.server != [] ==>
                    var m := NextMsg(w.server, w.sub.value).value;
                    && Next(w, Send).sub == Some(m.version) && m in Next(w, Send).sent
                    && w.sub.value == m.prev < m.version <= |w.server|
                    && w.server[m.version - 1] == Live(m.action, m.header)
                    && forall i :: m.prev <= i < m.version - 1 && 0 <= i ==> w.server[i].Blank?)
  {
    hide Run, NextMsg, Inv, SentExact;
    RunKeeps(es);
    var w := Run(es);
    if NeedsPatch(w) { ProgressAt(w.server, w.history, w.sub.value) by { ServerHolds(w); } }
  }

  lemma ServerHolds(w: World)
    requires Inv(w)
    ensures ServerInv(w.server, w.history)
  {
    hide ServerInv, MsgInv, ClientInv;
  }

  lemma ProgressAt(s: Journal, hist: seq<Origin>, from: int)
    requires ServerInv(s, hist) && from < |s|
    ensures NextMsg(s, from).Some? <==> s != []
    ensures s != [] ==> var m := NextMsg(s, from).value;
      && from == m.prev < m.version <= |s| && s[m.version - 1] == Live(m.action, m.header)
      && forall i :: m.prev <= i < m.version - 1 && 0 <= i ==> s[i].Blank?
  {
    hide RemovedLater, RemovalDone, Tags;
  }

  // ----- what a subscription sends -----

  lemma RunMore(es: seq<Event>, e: Event)
    ensures Run(es + [e]) == Next(Run(es), e)
  {
    assert (es + [e])[..|es|] == es;
  }

  /** In every run, subscribing again never moves a subscription forward. */
  lemma SubscribeGoesBack(es: seq<Event>, v: int)
    ensures var before, after := Run(es).sub, Run(es + [Subscribe(v)]).sub;
            && after.Some? && after.value <= v
            && (before.Some? ==> after.value <= before.value && (after == before || after == Some(v)))
            && (before.None? ==> after == Some(v))
  {
    hide Run;
    RunMore(es, Subscribe(v));
  }

  /** A send in this state gives out this message. */
  ghost predicate Emits(w: World, m: Msg) {
    w.sub == Some(m.prev) && m in Next(w, Send).sent && Next(w, Send).sub == Some(m.version) && m.prev < m.version
  }

  /** Version `u` was sent in the continuation `fs` of the run. */
  ghost predicate SentSince(es: seq<Event>, fs: seq<Event>, u: int) {
    exists k: nat, m :: k < |fs| && fs[k].Send? && Emits(Run(es + fs[..k]), m) && m.version == u && m in Run(es + fs).sent
  }

  lemma SentBefore(es: seq<Event>, fs: seq<Event>, e: Event, u: int)
    requires SentSince(es, fs, u)
    ensures SentSince(es, fs + [e], u)
  {
    hide Run, Emits, Next;
    var k: nat, m :| k < |fs| && fs[k].Send? && Emits(Run(es + fs[..k]), m) && m.version == u && m in Run(es + fs).sent;
    var gs := fs + [e];
    assert gs[..k] == fs[..k] && gs[k] == fs[k] && es + gs == es + fs + [e];
    RunMore(es + fs, e);
    SentGrows(Run(es + fs), e);
    assert k < |gs| && gs[k].Send? && Emits(Run(es + gs[..k]), m);
  }

  lemma SentGrows(w: World, e: Event)
    ensures w.sent <= Next(w, e).sent
  {
    hide Receive, Patched, Appends, NextMsg;
  }

  lemma SentNow(es: seq<Event>, fs: seq<Event>, m: Msg)
    requires Emits(Run(es + fs), m)
    ensures SentSince(es, fs + [Send], m.version)
  {
    hide Run, Next;
    var gs := fs + [Send];
    assert gs[..|fs|] == fs && es + gs == es + fs + [Send];
    RunMore(es + fs, Send);
    assert |fs| < |gs| && gs[|fs|].Send? && Emits(Run(es + gs[..|fs|]), m);
  }

  /** One step: what the subscription passes and is alive was passed before, or is sent now. */
  lemma StepSends(w: World, e: Event, v: int, u: int) returns (m: Msg)
    requires Inv(w) && e != Unsubscribe && w.sub.Some? && (w.sub.value <= v || w.sub.value <= |w.server|)
    ensures var w' := Next(w, e);
            && w'.sub.Some? && (w'.sub.value <= v || w'.sub.value <= |w'.server|)
            && (v < u <= w'.sub.value && Exists(|w'.server|, u) && w'.server[u - 1].Live? ==>
                  || (u <= w.sub.value && Exists(|w.server|, u) && w.server[u - 1].Live?)
                  || (e == Send && Emits(w, m) && m.version == u))
  {
    hide MsgInv, ClientInv, Receive, Patched, Appends, NextMsg, ServerInv;
    m := Msg(0, 0, Add, []);
    match e {
      case Submit(a, h) => if Appends(w.server, a, h, 0) { SubmitKeepsOld(w.server, a, h); }
      case Send =>
        if NeedsPatch(w) {
          ProgressAt(w.server, w.history, w.sub.value);
          if w.server != [] { m := NextMsg(w.server, w.sub.value).value; }
        }
      case _ =>
    }
  }

  lemma SubmitKeepsOld(s: Journal, a: Action, h: Header)
    requires Appends(s, a, h, 0)
    ensures |Patched(s, a, h, h, 0)| == |s| + 1 && forall i :: 0 <= i < |s| && s[i].Blank? ==> Patched(s, a, h, h, 0)[i].Blank?
  {
    SubmitGives(s, a, h);
    hide Patched, Target;
  }

  /** After a subscription to `v`, as long as it is not given up: every version above
      `v` that it has passed and that is alive was sent since; so, once it is caught
      up, was every live version above `v`. */
  lemma {:induction false} LiveSent(es: seq<Event>, fs: seq<Event>, v: int)
    requires forall k :: 0 <= k < |fs| ==> fs[k] != Unsubscribe
    ensures var w := Run(es + [Subscribe(v)] + fs);
            && w.sub.Some? && (w.sub.value <= v || w.sub.value <= |w.server|)
            && (forall u :: v < u <= w.sub.value && Exists(|w.server|, u) && w.server[u - 1].Live? ==> SentSince(es + [Subscribe(v)], fs, u))
            && (!NeedsPatch(w) ==> forall u :: v < u && Exists(|w.server|, u) && w.server[u - 1].Live? ==> SentSince(es + [Subscribe(v)], fs, u))
  {
    hide Run, Next, Inv, SentExact, SentSince, Emits;
    var start := es + [Subscribe(v)];
    if fs == [] {
      assert start + fs == start;
      SubscribeGoesBack(es, v);
    } else {
      var p, e := fs[..|fs| - 1], fs[|fs| - 1];
      assert p + [e] == fs && start + p + [e] == start + fs;
      LiveSent(es, p, v);
      RunKeeps(start + p);
      RunMore(start + p, e);
      var w, w' := Run(start + p), Run(start + fs);
      var none := StepSends(w, e, v, v);
      forall u | v < u <= w'.sub.value && Exists(|w'.server|, u) && w'.server[u - 1].Live? ensures SentSince(start, fs, u) {
        var m := StepSends(w, e, v, u);
        if u <= w.sub.value && Exists(|w.server|, u) && w.server[u - 1].Live? { SentBefore(start, p, e, u); }
        else { SentNow(start, p, m); }
      }
    }
  }

  /** A message sent carries what the server still has, if it has it. */
  lemma SentIsServed(es: seq<Event>, m: Msg)
    requires m in Run(es).sent
    ensures Exists(|Run(es).server|, m.version)
    ensures Run(es).server[m.version - 1].Live? ==> Run(es).server[m.version - 1] == Live(m.action, m.header)
  {
    hide Run, ClientInv, RemovedLater, RemovalDone, Tags;
    RunKeeps(es);
  }
}
