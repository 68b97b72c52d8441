/** Whatever the order in which a duplicate-free chain of patches arrives,
    the client ends with the journal of in-order application, and the
    replication protocol converges. */
module Confluence {
  import opened Headers
  import opened Journals
  import opened Mdirs
  import opened Replication

  /** Consecutive patches, the first one starting at `from`. */
  ghost predicate IsChain(from: int, ms: seq<Msg>) {
    && (ms != [] ==> ms[0].prev == from)
    && (forall i :: 0 <= i < |ms| ==> ms[i].prev < ms[i].version)
    && (forall i :: 0 < i < |ms| ==> ms[i].prev == ms[i - 1].version)
  }

  function ChainEnd(from: int, ms: seq<Msg>): int { if ms == [] then from else ms[|ms| - 1].version }

  /** In-order application. */
  ghost function ApplyAll(j: Journal, ms: seq<Msg>): Journal
    requires forall i :: 0 <= i < |ms| ==> ms[i].prev < ms[i].version
  {
    if ms == [] then j else Applied(ApplyAll(j, ms[..|ms| - 1]), ms[|ms| - 1])
  }

  /** No `mdir_patch` of the in-order application fails. */
  ghost predicate Clean(j: Journal, ms: seq<Msg>)
    requires forall i :: 0 <= i < |ms| ==> ms[i].prev < ms[i].version
  {
    forall k {:trigger ms[..k]} :: 0 <= k < |ms| ==> AppliesCleanly(ApplyAll(j, ms[..k]), ms[k])
  }

  /** One event on the client alone. */
  function ClientNext(c: Client, e: Event): Client {
    match e
    case Deliver(m) => Receive(c, m)
    case Request => c.(pending := c.pending + 1)
    case Ack(central, local) => Acked(c, central, local)
    case Refuse => c.(pending := if c.pending > 0 then c.pending - 1 else 0)
    case _ => c
  }

  function ClientRun(c: Client, es: seq<Event>): Client {
    if es == [] then c else ClientNext(ClientRun(c, es[..|es| - 1]), es[|es| - 1])
  }

  lemma ClientMore(c: Client, es: seq<Event>, e: Event)
    ensures ClientRun(c, es + [e]) == ClientNext(ClientRun(c, es), e)
  {
    hide ClientNext;
    assert (es + [e])[..|es|] == es;
  }

  /** An ack is pending whenever a patch comes. */
  ghost predicate HeldThroughout(c: Client, es: seq<Event>) {
    forall k {:trigger es[k]} :: 0 <= k < |es| && es[k].Deliver? ==> ClientRun(c, es[..k]).pending > 0
  }

  function Deliveries(es: seq<Event>): nat {
    if es == [] then 0 else Deliveries(es[..|es| - 1]) + if es[|es| - 1].Deliver? then 1 else 0
  }

  /** Then nothing is applied, and every patch waits. */
  lemma {:induction false} NothingApplied(c: Client, es: seq<Event>)
    requires HeldThroughout(c, es)
    ensures var d := ClientRun(c, es); d.journal == c.journal && |d.patches| == |c.patches| + Deliveries(es)
  {
    hide HeldThroughout, Receive;
    if es != [] {
      HeldBefore(c, es);
      NothingApplied(c, es[..|es| - 1]);
      hide ClientRun;
      HeldStep(ClientRun(c, es[..|es| - 1]), es[|es| - 1]);
    }
  }

  lemma HeldBefore(c: Client, es: seq<Event>)
    requires HeldThroughout(c, es) && es != []
    ensures HeldThroughout(c, es[..|es| - 1])
    ensures es[|es| - 1].Deliver? ==> ClientRun(c, es[..|es| - 1]).pending > 0
  {
    hide ClientRun;
    var p := es[..|es| - 1];
    assert forall k {:trigger es[k]} :: 0 <= k < |p| ==> p[k] == es[k] && p[..k] == es[..k];
  }

  lemma HeldStep(c: Client, e: Event)
    requires e.Deliver? ==> c.pending > 0
    ensures var d := ClientNext(c, e); d.journal == c.journal && |d.patches| == |c.patches| + if e.Deliver? then 1 else 0
  {
    hide Receive;
    if e.Deliver? { HeldBack(c, e.msg); }
  }

  // ----- position of a client in the middle of a chain -----

  /** The same patch, perhaps tagged with a local version. */
  ghost predicate Copy(m: Msg, t: Msg) {
    t.prev == m.prev && t.version == m.version && t.action == m.action && Tags(m.header, t.header)
  }

  /** The first `k` patches are applied; `waiting` are the indexes of those in the list, in order. */
  ghost predicate At(c: Client, j0: Journal, chain: seq<Msg>, k: nat, waiting: seq<nat>) {
    && IsChain(|j0|, chain) && k <= |chain|
    && SameJournal(c.journal, ApplyAll(j0, chain[..k]))
    && |c.patches| == |waiting|
    && (forall q :: 0 <= q < |waiting| ==> k <= waiting[q] < |chain| && Copy(chain[waiting[q]], c.patches[q]))
    && (forall p, q :: 0 <= p < q < |waiting| ==> waiting[p] < waiting[q])
  }

  lemma {:induction false} ChainGrows(from: int, ms: seq<Msg>, i: nat, j: nat)
    requires IsChain(from, ms) && i <= j < |ms|
    ensures ms[i].prev <= ms[j].prev && (i < j ==> ms[i].version <= ms[j].prev)
    decreases j
  {
    if i < j { ChainGrows(from, ms, i, j - 1); }
  }

  /** Each clean application reaches exactly the version of its patch. */
  lemma {:induction false} ApplyAllLength(j: Journal, ms: seq<Msg>)
    requires IsChain(|j|, ms) && Clean(j, ms)
    ensures |ApplyAll(j, ms)| == ChainEnd(|j|, ms)
  {
    hide AppliesCleanly, Applied;
    if ms != [] {
      var n := |ms| - 1;
      assert forall k :: 0 <= k < n ==> ms[..n][..k] == ms[..k];
      ApplyAllLength(j, ms[..n]);
      AppliedLength(ApplyAll(j, ms[..n]), ms[n]);
    }
  }

  lemma AppliedLength(j: Journal, m: Msg)
    requires m.prev < m.version && |j| == m.prev && AppliesCleanly(j, m)
    ensures |Applied(j, m)| == m.version
  {
  }

  lemma PaddedSame(j: Journal, j': Journal, nb: nat)
    requires SameJournal(j', j)
    ensures SameJournal(Padded(j', nb), Padded(j, nb))
  {
    var p, p' := Padded(j, nb), Padded(j', nb);
    assert forall i :: 0 <= i < |j| ==> p[i] == p[..|j|][i] && p'[i] == p'[..|j|][i];
  }

  /** Local versions do not change what applying a patch does. */
  lemma SameApplied(j: Journal, j': Journal, m: Msg, t: Msg)
    requires SameJournal(j', j) && Copy(m, t) && m.prev < m.version
    ensures AppliesCleanly(j', t) == AppliesCleanly(j, m)
    ensures SameJournal(Applied(j', t), Applied(j, m))
  {
    hide Target, MarkTarget, Tags;
    TagsKeep(m.header, t.header);
    PaddedSame(j, j', Gap(m));
  }

  lemma AtLength(c: Client, j0: Journal, chain: seq<Msg>, k: nat, waiting: seq<nat>)
    requires At(c, j0, chain, k, waiting) && Clean(j0, chain)
    ensures |c.journal| == ChainEnd(|j0|, chain[..k])
    ensures k < |chain| ==> |c.journal| == chain[k].prev
  {
    hide AppliesCleanly, Copy;
    var part := chain[..k];
    forall q {:trigger part[..q]} | 0 <= q < k ensures AppliesCleanly(ApplyAll(j0, part[..q]), part[q]) {
      assert part[..q] == chain[..q];
    }
    ApplyAllLength(j0, part);
  }

  /** The head of the list is applied exactly when it is the next of the chain. */
  lemma DrainStep(c: Client, j0: Journal, chain: seq<Msg>, k: nat, waiting: seq<nat>)
    requires At(c, j0, chain, k, waiting) && Clean(j0, chain) && waiting != []
    ensures c.patches[0].prev < c.patches[0].version
    ensures waiting[0] != k ==> c.patches[0].prev != |c.journal|
    ensures waiting[0] == k ==>
      && c.patches[0].prev == |c.journal| && AppliesCleanly(c.journal, c.patches[0])
      && At(c.(journal := Applied(c.journal, c.patches[0]), patches := c.patches[1..]), j0, chain, k + 1, waiting[1..])
  {
    hide AppliesCleanly, Applied, Tags, SameJournal;
    AtLength(c, j0, chain, k, waiting);
    var m, t := chain[waiting[0]], c.patches[0];
    ChainGrows(|j0|, chain, k, waiting[0]);
    if waiting[0] == k {
      var ref := ApplyAll(j0, chain[..k]);
      assert AppliesCleanly(ref, chain[k]);
      SameApplied(ref, c.journal, m, t);
      assert chain[..k + 1][..k] == chain[..k];
    }
  }

  lemma {:induction false} DrainAdvances(c: Client, j0: Journal, chain: seq<Msg>, k: nat, waiting: seq<nat>)
    returns (k': nat, waiting': seq<nat>)
    requires At(c, j0, chain, k, waiting) && Clean(j0, chain)
    ensures var (j, ps) := Drained(c.journal, c.patches);
            At(c.(journal := j, patches := ps), j0, chain, k', waiting')
    ensures k <= k'
    ensures forall i :: k <= i < k' ==> i in waiting
    ensures forall i :: i in waiting ==> i < k' || i in waiting'
    ensures forall i :: i in waiting' ==> i in waiting
    ensures waiting' != [] ==> waiting'[0] != k'
    decreases |waiting|
  {
    hide AppliesCleanly, Applied, Clean;
    k', waiting' := k, waiting;
    if waiting != [] {
      DrainStep(c, j0, chain, k, waiting);
      if waiting[0] == k {
        var d := c.(journal := Applied(c.journal, c.patches[0]), patches := c.patches[1..]);
        hide At;
        k', waiting' := DrainAdvances(d, j0, chain, k + 1, waiting[1..]);
        assert waiting == [waiting[0]] + waiting[1..];
      }
    }
  }

  lemma {:induction false} InsertPlaces(ps: seq<Msg>, chain: seq<Msg>, from: int, waiting: seq<nat>, i: nat, t: Msg)
    returns (waiting': seq<nat>)
    requires IsChain(from, chain) && |ps| == |waiting| && i < |chain| && Copy(chain[i], t) && i !in waiting
    requires forall q :: 0 <= q < |waiting| ==> waiting[q] < |chain| && Copy(chain[waiting[q]], ps[q])
    requires forall p, q :: 0 <= p < q < |waiting| ==> waiting[p] < waiting[q]
    ensures var ps' := Inserted(ps, t);
            && |ps'| == |waiting'| == |waiting| + 1
            && (forall q :: 0 <= q < |waiting'| ==> waiting'[q] < |chain| && Copy(chain[waiting'[q]], ps'[q]))
    ensures forall p, q :: 0 <= p < q < |waiting'| ==> waiting'[p] < waiting'[q]
    ensures forall x :: x in waiting' <==> x in waiting || x == i
    decreases |ps|
  {
    hide Tags;
    if ps == [] {
      waiting' := [i];
    } else {
      assert waiting[0] in waiting;
      if i < waiting[0] {
        ChainGrows(from, chain, i, waiting[0]);
        waiting' := [i] + waiting;
      } else {
        ChainGrows(from, chain, waiting[0], i);
        var rest := InsertPlaces(ps[1..], chain, from, waiting[1..], i, t);
        waiting' := [waiting[0]] + rest;
        assert waiting == [waiting[0]] + waiting[1..];
        forall q | 0 <= q < |rest| ensures waiting[0] < rest[q] {
          assert rest[q] in rest;
        }
      }
    }
  }

  // ----- the theorem -----

  /** Indexes of the chain's patches delivered by `es`, in order of arrival. */
  ghost predicate Schedules(es: seq<Event>, chain: seq<Msg>, arrivals: seq<nat>) {
    if es == [] then arrivals == []
    else
      var e := es[|es| - 1];
      if e.Deliver? then
        && arrivals != [] && arrivals[|arrivals| - 1] < |chain|
        && chain[arrivals[|arrivals| - 1]] == e.msg
        && Schedules(es[..|es| - 1], chain, arrivals[..|arrivals| - 1])
      else Schedules(es[..|es| - 1], chain, arrivals)
  }

  /** No ack is pending when the last message arrives. */
  predicate LastFree(c: Client, es: seq<Event>) {
    if es == [] then true
    else if es[|es| - 1].Deliver? then ClientRun(c, es[..|es| - 1]).pending == 0
    else LastFree(c, es[..|es| - 1])
  }

  ghost predicate Distinct(s: seq<nat>) { forall p, q :: 0 <= p < q < |s| ==> s[p] != s[q] }

  lemma TaggedCopy(m: Msg, l: seq<C2L>)
    ensures Copy(m, Tagged(m, l))
  {
  }

  lemma SameItself(j: Journal)
    ensures SameJournal(j, j)
  {
  }

  /** One patch arrives: it takes its place, and what can be applied is. */
  lemma ArrivalStep(b: Client, j0: Journal, chain: seq<Msg>, k0: nat, waiting0: seq<nat>, i: nat)
    returns (k: nat, waiting: seq<nat>)
    requires At(b, j0, chain, k0, waiting0) && Clean(j0, chain) && k0 <= i < |chain| && i !in waiting0
    ensures At(Receive(b, chain[i]), j0, chain, k, waiting) && k0 <= k
    ensures forall x :: k0 <= x < k ==> x in waiting0 || x == i
    ensures forall x :: x in waiting0 || x == i ==> x < k || x in waiting
    ensures forall x :: x in waiting ==> x in waiting0 || x == i
    ensures b.pending == 0 && waiting != [] ==> waiting[0] != k
  {
    hide Clean, Tags, SameJournal, Copy;
    var t := Tagged(chain[i], b.c2l);
    TaggedCopy(chain[i], b.c2l);
    k := k0;
    waiting := InsertPlaces(b.patches, chain, |j0|, waiting0, i, t);
    var d := b.(patches := Inserted(b.patches, t), c2l := C2LAfter(chain[i], b.c2l));
    forall q | 0 <= q < |waiting| ensures k <= waiting[q] { assert waiting[q] in waiting; }
    assert At(d, j0, chain, k, waiting);
    if b.pending == 0 {
      hide At;
      var k', waiting' := DrainAdvances(d, j0, chain, k, waiting);
      k, waiting := k', waiting';
    }
  }

  lemma {:induction false} ClientStaysAt(c: Client, chain: seq<Msg>, es: seq<Event>, arrivals: seq<nat>)
    returns (k: nat, waiting: seq<nat>)
    requires IsChain(|c.journal|, chain) && Clean(c.journal, chain) && c.patches == []
    requires Schedules(es, chain, arrivals) && Distinct(arrivals)
    ensures At(ClientRun(c, es), c.journal, chain, k, waiting)
    ensures forall i :: i in waiting ==> i in arrivals
    ensures forall i :: 0 <= i < k ==> i in arrivals
    ensures forall i :: i in arrivals ==> i < k || i in waiting
    ensures LastFree(c, es) && waiting != [] ==> waiting[0] != k
    decreases |es|
  {
    hide Clean, Tags, Receive;
    if es == [] {
      k, waiting := 0, [];
      assert chain[..0] == [];
      SameItself(c.journal);
    } else {
      var n := |es| - 1;
      var e, b := es[n], ClientRun(c, es[..n]);
      if e.Deliver? {
        var i := arrivals[|arrivals| - 1];
        var before := arrivals[..|arrivals| - 1];
        assert arrivals == before + [i];
        k, waiting := ClientStaysAt(c, chain, es[..n], before);
        assert i !in before;
        hide At;
        k, waiting := ArrivalStep(b, c.journal, chain, k, waiting, i);
      } else {
        k, waiting := ClientStaysAt(c, chain, es[..n], arrivals);
      }
    }
  }

  lemma NotWaiting(waiting: seq<nat>, k: nat)
    requires forall q :: 0 <= q < |waiting| ==> k <= waiting[q]
    requires forall p, q :: 0 <= p < q < |waiting| ==> waiting[p] < waiting[q]
    requires waiting != [] ==> waiting[0] != k
    ensures k !in waiting
  {
  }

  /** Confluence.  The patches of a chain arrive in any order, each once, with
      acks in between; if no ack is pending when the last one arrives, the list
      is empty and the journal is that of in-order application. */
  lemma AnyOrder(c: Client, chain: seq<Msg>, es: seq<Event>, arrivals: seq<nat>)
    requires IsChain(|c.journal|, chain) && Clean(c.journal, chain) && c.patches == []
    requires Schedules(es, chain, arrivals) && Distinct(arrivals)
    requires forall i :: 0 <= i < |chain| ==> i in arrivals
    requires LastFree(c, es)
    ensures ClientRun(c, es).patches == []
    ensures SameJournal(ClientRun(c, es).journal, ApplyAll(c.journal, chain))
    ensures |ClientRun(c, es).journal| == ChainEnd(|c.journal|, chain)
  {
    hide Clean, Schedules, ClientRun, SameJournal, ApplyAll;
    var k, waiting := ClientStaysAt(c, chain, es, arrivals);
    NotWaiting(waiting, k);
    assert k < |chain| ==> k in arrivals;
    assert chain[..k] == chain;
    assert waiting == [];
    AtLength(ClientRun(c, es), c.journal, chain, k, waiting);
  }

  // ----- what is sent applies -----

  /** From a consistent replica, in-order application is clean unless a mark dangles. */
  lemma {:induction false} ChainApplies(j: Journal, s: Journal, hist: seq<Origin>, ms: seq<Msg>)
    requires ServerInv(s, hist) && ClientInv(j, s, hist) && IsChain(|j|, ms)
    requires forall i :: 0 <= i < |ms| ==> MsgInv(s, hist, ms[i]) && !Dangling(ms[i].version, ms[i].header)
    ensures Clean(j, ms) && ClientInv(ApplyAll(j, ms), s, hist)
  {
    hide ServerInv, ClientInv, MsgInv, Applied, Dangling, Appends;
    if ms != [] {
      var n := |ms| - 1;
      var part := ms[..n];
      assert IsChain(|j|, part);
      ChainApplies(j, s, hist, part);
      ApplyAllLength(j, part);
      ApplyKeeps(ApplyAll(j, part), s, hist, ms[n]);
      forall k {:trigger ms[..k]} | 0 <= k < |ms| ensures AppliesCleanly(ApplyAll(j, ms[..k]), ms[k]) {
        if k < n { assert part[..k] == ms[..k]; }
      }
    }
  }

  // ----- what a subscription sends -----

  function RunFrom(w: World, fs: seq<Event>): World {
    if fs == [] then w else Next(RunFrom(w, fs[..|fs| - 1]), fs[|fs| - 1])
  }

  /** The messages the `Send` steps of `fs` emit, in order. */
  function Emitted(w: World, fs: seq<Event>): seq<Msg> {
    if fs == [] then [] else
      var ms, b := Emitted(w, fs[..|fs| - 1]), RunFrom(w, fs[..|fs| - 1]);
      if fs[|fs| - 1].Send? && NeedsPatch(b) && NextMsg(b.server, b.sub.value).Some?
      then ms + [NextMsg(b.server, b.sub.value).value]
      else ms
  }

  lemma {:induction false} RunSplits(es: seq<Event>, fs: seq<Event>)
    ensures Run(es + fs) == RunFrom(Run(es), fs)
  {
    if fs == [] {
      assert es + fs == es;
    } else {
      RunSplits(es, fs[..|fs| - 1]);
      assert (es + fs)[..|es + fs| - 1] == es + fs[..|fs| - 1];
    }
  }

  lemma EmitStep(b: World, e: Event)
    requires b.sub.Some? && Inv(b) && !e.Subscribe? && !e.Unsubscribe?
    ensures var sends := e.Send? && NeedsPatch(b) && NextMsg(b.server, b.sub.value).Some?;
            && b.sent <= Next(b, e).sent && Next(b, e).sub.Some?
            && (!sends ==> Next(b, e).sub == b.sub)
            && (sends ==> var m := NextMsg(b.server, b.sub.value).value;
                          m.prev == b.sub.value < m.version && Next(b, e).sub == Some(m.version) && m in Next(b, e).sent)
  {
    hide ServerInv, MsgInv, ClientInv, Receive, Patched;
  }

  /** Between resets the patches a subscription sends form a chain, whatever the
      server appends meanwhile, and every version the chain skips is removed. */
  lemma {:induction false} SendsFormChain(es: seq<Event>, fs: seq<Event>)
    requires Run(es).sub.Some?
    requires forall i :: 0 <= i < |fs| ==> !fs[i].Subscribe? && !fs[i].Unsubscribe?
    ensures var w := Run(es + fs);
            var ms := Emitted(Run(es), fs);
            && IsChain(Run(es).sub.value, ms)
            && w.sub == Some(ChainEnd(Run(es).sub.value, ms))
            && forall i :: 0 <= i < |ms| ==> ms[i] in w.sent && MsgInv(w.server, w.history, ms[i])
    decreases |fs|
  {
    hide ServerInv, MsgInv, ClientInv, Next, NextMsg, SentExact;
    RunSplits(es, fs);
    RunKeeps(es + fs);
    if fs != [] {
      var n := |fs| - 1;
      SendsFormChain(es, fs[..n]);
      RunSplits(es, fs[..n]);
      RunKeeps(es + fs[..n]);
      EmitStep(Run(es + fs[..n]), fs[n]);
    }
  }

  // ----- what stops a client -----

  /** The first patch of the list starts before the end of the journal. */
  predicate Stuck(c: Client) { c.patches != [] && c.patches[0].prev < |c.journal| }

  /** A client in that state never applies anything again, whatever happens. */
  lemma {:induction false} StuckForever(c: Client, es: seq<Event>)
    requires Stuck(c)
    ensures Stuck(ClientRun(c, es)) && ClientRun(c, es).journal == c.journal
  {
    if es != [] { StuckForever(c, es[..|es| - 1]); }
  }

  /** A duplicate of a patch already applied brings every client there. */
  lemma StaleBlocks(c: Client, m: Msg)
    requires m.prev < |c.journal| && c.pending == 0
    ensures Stuck(Receive(c, m)) && Receive(c, m).journal == c.journal
  {
  }

  /** A patch whose mark is on a version that does not exist: `mdir_patch` fails on it after the append. */
  predicate Dangles(m: Msg) { Dangling(m.version, m.header) }

  predicate HasDangling(ps: seq<Msg>) { exists i :: 0 <= i < |ps| && Dangles(ps[i]) }

  lemma {:induction false} DrainedKeepsDangling(j: Journal, ps: seq<Msg>)
    requires HasDangling(ps)
    ensures HasDangling(Drained(j, ps).1)
    decreases |ps|
  {
    hide Dangling;
    var i :| 0 <= i < |ps| && Dangles(ps[i]);
    if ps[0].prev == |j| && ps[0].version > ps[0].prev && AppliesCleanly(j, ps[0]) {
      CleanIsNoDangling(j, ps[0]);
      assert ps[1..][i - 1] == ps[i];
      DrainedKeepsDangling(Applied(j, ps[0]), ps[1..]);
    }
  }

  lemma CleanIsNoDangling(j: Journal, m: Msg)
    requires m.prev == |j| && m.prev < m.version && AppliesCleanly(j, m)
    ensures !Dangles(m)
  {
    AppliedLength(j, m);
  }

  lemma {:induction false} InsertedDangling(ps: seq<Msg>, m: Msg)
    ensures HasDangling(Inserted(ps, m)) <==> HasDangling(ps) || Dangles(m)
  {
    hide Dangles;
    if ps == [] || ps[0].prev > m.prev {
      Prepended(m, ps);
    } else {
      InsertedDangling(ps[1..], m);
      Prepended(ps[0], ps[1..]);
      Prepended(ps[0], Inserted(ps[1..], m));
      assert [ps[0]] + ps[1..] == ps;
    }
  }

  lemma Prepended(m: Msg, ps: seq<Msg>)
    ensures HasDangling([m] + ps) <==> Dangles(m) || HasDangling(ps)
  {
    hide Dangles;
    var all := [m] + ps;
    if Dangles(m) { assert Dangles(all[0]); }
    if i :| 0 <= i < |ps| && Dangles(ps[i]) { assert Dangles(all[i + 1]); }
  }

  /** Whatever was received before or comes after, a dangling mark is never taken from the list. */
  lemma {:induction false} DanglingMarkBlocks(c: Client, es: seq<Event>)
    requires HasDangling(c.patches) || exists i :: 0 <= i < |es| && es[i].Deliver? && Dangles(es[i].msg)
    ensures HasDangling(ClientRun(c, es).patches)
  {
    hide Dangles, HasDangling, Drained;
    if es != [] {
      var n := |es| - 1;
      var b, e := ClientRun(c, es[..n]), es[n];
      if HasDangling(c.patches) || exists i :: 0 <= i < n && es[i].Deliver? && Dangles(es[i].msg) {
        if i :| 0 <= i < n && es[i].Deliver? && Dangles(es[i].msg) { assert es[..n][i] == es[i]; }
        DanglingMarkBlocks(c, es[..n]);
      }
      if e.Deliver? {
        TaggedDangles(e.msg, b.c2l);
        InsertedDangling(b.patches, Tagged(e.msg, b.c2l));
        DrainedKeepsDangling(b.journal, Inserted(b.patches, Tagged(e.msg, b.c2l)));
      }
    }
  }

  lemma TaggedDangles(m: Msg, l: seq<C2L>)
    ensures Dangles(Tagged(m, l)) == Dangles(m)
  {
    TagsKeep(m.header, Tagged(m, l).header);
  }

  /** Its turn come, it is appended all the same, and then nothing more is. */
  lemma DanglingMarkStops(c: Client, m: Msg)
    requires c.pending == 0 && (c.patches == [] || c.patches[0].prev > m.prev)
    requires m.prev == |c.journal| && m.prev < m.version && m.action == Add && Dangles(m)
    ensures Stuck(Receive(c, m)) && |Receive(c, m).journal| == m.version
  {
    var t := Tagged(m, c.c2l);
    TagsKeep(m.header, t.header);
  }

  // ----- convergence of the whole protocol -----

  /** The versions these patches cover, overlaps counted twice. */
  function Weight(ps: seq<Msg>): int {
    if ps == [] then 0 else ps[0].version - ps[0].prev + Weight(ps[1..])
  }

  lemma {:induction false} InsertedWeight(ps: seq<Msg>, m: Msg)
    ensures Weight(Inserted(ps, m)) == Weight(ps) + m.version - m.prev
  {
    if ps == [] || ps[0].prev > m.prev {
      assert ([m] + ps)[1..] == ps;
    } else {
      InsertedWeight(ps[1..], m);
      assert ([ps[0]] + Inserted(ps[1..], m))[1..] == Inserted(ps[1..], m);
    }
  }

  /** What leaves the list goes into the journal. */
  lemma {:induction false} DrainedWeight(j: Journal, ps: seq<Msg>)
    ensures var (j', ps') := Drained(j, ps); |j'| + Weight(ps') >= |j| + Weight(ps)
    decreases |ps|
  {
    if ps != [] && ps[0].prev == |j| && ps[0].version > ps[0].prev {
      if AppliesCleanly(j, ps[0]) {
        AppliedLength(j, ps[0]);
        DrainedWeight(Applied(j, ps[0]), ps[1..]);
      }
    }
  }

  function Delivered(es: seq<Event>): seq<Msg> {
    if es == [] then []
    else if es[|es| - 1].Deliver? then Delivered(es[..|es| - 1]) + [es[|es| - 1].msg]
    else Delivered(es[..|es| - 1])
  }

  lemma {:induction false} WeightMore(ps: seq<Msg>, m: Msg)
    ensures Weight(ps + [m]) == Weight(ps) + m.version - m.prev
  {
    if ps == [] {
      assert ps + [m] == [m];
    } else {
      WeightMore(ps[1..], m);
      assert (ps + [m])[1..] == ps[1..] + [m];
    }
  }

  lemma {:induction false} ClientWeight(c: Client, es: seq<Event>)
    ensures var d := ClientRun(c, es); |d.journal| + Weight(d.patches) >= |c.journal| + Weight(c.patches) + Weight(Delivered(es))
  {
    hide Drained, Weight;
    if es == [] {
      assert Weight([]) == 0 by { WeightNone(); }
    } else {
      var n := |es| - 1;
      ClientWeight(c, es[..n]);
      if es[n].Deliver? {
        var b, m := ClientRun(c, es[..n]), es[n].msg;
        InsertedWeight(b.patches, Tagged(m, b.c2l));
        DrainedWeight(b.journal, Inserted(b.patches, Tagged(m, b.c2l)));
        WeightMore(Delivered(es[..n]), m);
      }
    }
  }

  lemma WeightNone()
    ensures Weight([]) == 0
  {
  }

  function Pick(chain: seq<Msg>, arrivals: seq<nat>): (r: seq<Msg>)
    requires forall k :: 0 <= k < |arrivals| ==> arrivals[k] < |chain|
    ensures |r| == |arrivals|
  { seq(|arrivals|, k requires 0 <= k < |arrivals| => chain[arrivals[k]]) }

  lemma {:induction false} DeliveredPicks(es: seq<Event>, chain: seq<Msg>, arrivals: seq<nat>)
    requires Schedules(es, chain, arrivals)
    ensures (forall k :: 0 <= k < |arrivals| ==> arrivals[k] < |chain|) && Delivered(es) == Pick(chain, arrivals)
    decreases |es|
  {
    if es != [] {
      var n := |es| - 1;
      if es[n].Deliver? {
        var a := |arrivals| - 1;
        DeliveredPicks(es[..n], chain, arrivals[..a]);
        assert arrivals == arrivals[..a] + [arrivals[a]];
      } else {
        DeliveredPicks(es[..n], chain, arrivals);
      }
    }
  }

  lemma {:induction false} WeightSplits(a: seq<Msg>, b: seq<Msg>)
    ensures Weight(a + b) == Weight(a) + Weight(b)
  {
    if a == [] { assert a + b == b; }
    else {
      WeightSplits(a[1..], b);
      assert (a + b)[1..] == a[1..] + b;
    }
  }

  lemma {:induction false} WeightPositive(ps: seq<Msg>)
    requires forall i :: 0 <= i < |ps| ==> ps[i].prev < ps[i].version
    ensures Weight(ps) >= |ps|
  {
    if ps != [] { WeightPositive(ps[1..]); }
  }

  /** One arrival taken out. */
  lemma PickOut(chain: seq<Msg>, arrivals: seq<nat>, k: nat)
    requires (forall i :: 0 <= i < |arrivals| ==> arrivals[i] < |chain|) && Distinct(arrivals)
    requires k < |arrivals| && arrivals[k] == |chain| - 1
    requires forall i :: 0 <= i < |chain| ==> i in arrivals
    ensures var n, others, p := |chain| - 1, arrivals[..k] + arrivals[k + 1..], Pick(chain, arrivals);
      && (forall i :: 0 <= i < |others| ==> others[i] < n) && Distinct(others) && (forall i :: 0 <= i < n ==> i in others)
      && p == p[..k] + [chain[n]] + p[k + 1..] && Pick(chain[..n], others) == p[..k] + p[k + 1..]
  {
    var n, others := |chain| - 1, arrivals[..k] + arrivals[k + 1..];
    assert forall i :: 0 <= i < |others| ==> others[i] == arrivals[if i < k then i else i + 1];
    StillThere(arrivals, k);
    forall i | 0 <= i < n ensures i in others { assert i in arrivals && i != arrivals[k]; }
  }

  lemma StillThere(arrivals: seq<nat>, k: nat)
    requires k < |arrivals|
    ensures forall i :: i in arrivals && i != arrivals[k] ==> i in arrivals[..k] + arrivals[k + 1..]
  {
    var others := arrivals[..k] + arrivals[k + 1..];
    forall i | i in arrivals && i != arrivals[k] ensures i in others {
      var q :| 0 <= q < |arrivals| && arrivals[q] == i;
      assert others[if q < k then q else q - 1] == i;
    }
  }

  /** Picking every patch of a chain covers what the chain covers. */
  lemma {:induction false} PicksCover(chain: seq<Msg>, arrivals: seq<nat>)
    requires forall k :: 0 <= k < |arrivals| ==> arrivals[k] < |chain|
    requires forall i :: 0 <= i < |chain| ==> i in arrivals
    requires Distinct(arrivals)
    ensures Weight(Pick(chain, arrivals)) == Weight(chain)
    decreases |chain|
  {
    hide Weight, Distinct;
    if chain == [] {
      NothingPicked(arrivals);
      assert Pick(chain, arrivals) == chain;
    } else {
      var n := |chain| - 1;
      assert n in arrivals;
      var k :| 0 <= k < |arrivals| && arrivals[k] == n;
      PickOut(chain, arrivals, k);
      WeightOut(Pick(chain, arrivals), chain[n], k);
      PicksCover(chain[..n], arrivals[..k] + arrivals[k + 1..]);
      WeightMore(chain[..n], chain[n]);
      assert chain == chain[..n] + [chain[n]];
    }
  }

  lemma NothingPicked(arrivals: seq<nat>)
    requires forall k :: 0 <= k < |arrivals| ==> arrivals[k] < 0
    ensures arrivals == []
  {
    FirstNatural(arrivals);
  }

  lemma FirstNatural(s: seq<nat>)
    ensures s != [] ==> s[0] >= 0
  {
  }

  lemma WeightOut(p: seq<Msg>, m: Msg, k: nat)
    requires k < |p| && p == p[..k] + [m] + p[k + 1..]
    ensures Weight(p) == Weight(p[..k] + p[k + 1..]) + m.version - m.prev
  {
    hide Weight;
    WeightSplits(p[..k], p[k + 1..]);
    WeightSplits(p[..k] + [m], p[k + 1..]);
    WeightMore(p[..k], m);
  }

  lemma {:induction false} ChainWeight(from: int, ms: seq<Msg>)
    requires IsChain(from, ms)
    ensures Weight(ms) == ChainEnd(from, ms) - from
    decreases |ms|
  {
    if ms != [] {
      var n := |ms| - 1;
      assert IsChain(from, ms[..n]);
      ChainWeight(from, ms[..n]);
      WeightMore(ms[..n], ms[n]);
      assert ms == ms[..n] + [ms[n]];
    }
  }

  /** On the client a run of the system is a run of the client. */
  lemma {:induction false} ClientAlone(w: World, gs: seq<Event>)
    requires forall i :: 0 <= i < |gs| && gs[i].Deliver? ==> gs[i].msg in RunFrom(w, gs[..i]).sent
    ensures RunFrom(w, gs).client == ClientRun(w.client, gs)
  {
    if gs != [] {
      hide Next, ClientNext;
      var n := |gs| - 1;
      assert forall i :: 0 <= i < n ==> gs[..n][..i] == gs[..i] && gs[..n][i] == gs[i];
      ClientAlone(w, gs[..n]);
      NextAlone(RunFrom(w, gs[..n]), gs[n]);
    }
  }

  lemma NextAlone(w: World, e: Event)
    requires e.Deliver? ==> e.msg in w.sent
    ensures Next(w, e).client == ClientNext(w.client, e)
  {
    hide Receive, Patched, NextMsg, Appends;
  }

  /** The server only appends and blanks. */
  ghost predicate Later(w: World, w': World) {
    && |w.server| <= |w'.server| && w.history <= w'.history
    && forall i :: 0 <= i < |w.server| && w.server[i].Blank? ==> w'.server[i].Blank?
  }

  lemma NextLater(w: World, e: Event)
    requires Inv(w)
    ensures Later(w, Next(w, e))
  {
    hide MsgInv, ClientInv, Receive;
    if e.Submit? && Appends(w.server, e.action, e.header, 0) {
      SubmitKeeps(w.server, w.history, e.action, e.header);
    }
  }

  lemma {:induction false} RunLater(es: seq<Event>, gs: seq<Event>)
    ensures Later(Run(es), Run(es + gs))
  {
    hide Inv, Next;
    if gs == [] {
      assert es + gs == es;
    } else {
      var n := |gs| - 1;
      RunLater(es, gs[..n]);
      RunKeeps(es + gs[..n]);
      NextLater(Run(es + gs[..n]), gs[n]);
      assert (es + gs)[..|es + gs| - 1] == es + gs[..n];
    }
  }

  /** A session: the subscription starts at the client's last version and is not
      reset; each patch sent arrives once, in any order, whatever the server
      appends, removes and sends meanwhile. */
  ghost predicate Session(es: seq<Event>, gs: seq<Event>, arrivals: seq<nat>) {
    && Run(es).sub == Some(|Run(es).client.journal|)
    && (forall i :: 0 <= i < |gs| ==> !gs[i].Subscribe? && !gs[i].Unsubscribe?)
    && (forall i :: 0 <= i < |gs| && gs[i].Deliver? ==> gs[i].msg in RunFrom(Run(es), gs[..i]).sent)
    && Schedules(gs, Emitted(Run(es), gs), arrivals) && Distinct(arrivals)
    && forall i :: 0 <= i < |Emitted(Run(es), gs)| ==> i in arrivals
  }

  lemma SessionFacts(es: seq<Event>, gs: seq<Event>, arrivals: seq<nat>)
    requires Session(es, gs, arrivals)
    ensures var w0, w, chain := Run(es), Run(es + gs), Emitted(Run(es), gs);
      && Inv(w0) && Inv(w) && Later(w0, w) && w.client == ClientRun(w0.client, gs)
      && IsChain(|w0.client.journal|, chain) && w.sub == Some(ChainEnd(|w0.client.journal|, chain))
      && forall i :: 0 <= i < |chain| ==> MsgInv(w.server, w.history, chain[i])
  {
    hide Inv, Run, RunFrom, Emitted, Schedules, Distinct, Later, IsChain, ClientRun, MsgInv;
    RunKeeps(es);
    RunKeeps(es + gs);
    RunLater(es, gs);
    RunSplits(es, gs);
    SendsFormChain(es, gs);
    ClientAlone(Run(es), gs);
  }

  /** Nothing dangles and nothing waited: the chain is applied whole. */
  lemma SessionApplies(w0: World, w: World, gs: seq<Event>, chain: seq<Msg>, arrivals: seq<nat>)
    requires Inv(w0) && Inv(w) && Later(w0, w) && w.client == ClientRun(w0.client, gs)
    requires IsChain(|w0.client.journal|, chain) && ChainEnd(|w0.client.journal|, chain) == |w.server|
    requires forall i :: 0 <= i < |chain| ==> MsgInv(w.server, w.history, chain[i])
    requires Schedules(gs, chain, arrivals) && Distinct(arrivals) && forall i :: 0 <= i < |chain| ==> i in arrivals
    requires LastFree(w0.client, gs) && w0.client.patches == [] && !HasDangling(chain)
    ensures w.client.patches == [] && |w.client.journal| == |w.server|
  {
    hide ServerInv, MsgInv, ClientRun, Schedules, Clean, ClientInv, Dangling, LastFree, IsChain;
    var j := w0.client.journal;
    assert |w.server| == |w.history| && |w0.server| == |w0.history| by { SameSizes(w); SameSizes(w0); }
    ClientStays(j, w0.server, w0.history, w.server, w.history);
    forall i | 0 <= i < |chain| ensures !Dangling(chain[i].version, chain[i].header) { assert !Dangles(chain[i]); }
    ChainApplies(j, w.server, w.history, chain);
    AnyOrder(w0.client, chain, gs, arrivals);
  }

  lemma SameSizes(w: World)
    requires Inv(w)
    ensures |w.server| == |w.history| && |w.client.journal| <= |w.server|
  {
    hide MsgInv;
  }

  /** An empty list at the end leaves no room for patches that waited, nor for dangling ones. */
  lemma SessionNeeds(w0: World, w: World, gs: seq<Event>, chain: seq<Msg>, arrivals: seq<nat>)
    requires Inv(w0) && Inv(w) && w.client == ClientRun(w0.client, gs)
    requires IsChain(|w0.client.journal|, chain) && ChainEnd(|w0.client.journal|, chain) == |w.server|
    requires Schedules(gs, chain, arrivals) && Distinct(arrivals) && forall i :: 0 <= i < |chain| ==> i in arrivals
    requires w.client.patches == []
    ensures w0.client.patches == [] && !HasDangling(chain) && |w.client.journal| == |w.server|
  {
    hide ServerInv, ClientInv, ClientRun, Schedules, Dangles;
    SameSizes(w);
    DeliveredPicks(gs, chain, arrivals);
    PicksCover(chain, arrivals);
    ChainWeight(|w0.client.journal|, chain);
    ClientWeight(w0.client, gs);
    WeightNone();
    WeightPositive(w0.client.patches);
    if HasDangling(chain) {
      var i :| 0 <= i < |chain| && Dangles(chain[i]);
      DeliversIt(gs, chain, arrivals, i);
      DanglingMarkBlocks(w0.client, gs);
    }
  }

  lemma {:induction false} DeliversIt(es: seq<Event>, chain: seq<Msg>, arrivals: seq<nat>, i: nat)
    requires Schedules(es, chain, arrivals) && i in arrivals && i < |chain|
    ensures exists k :: 0 <= k < |es| && es[k].Deliver? && es[k].msg == chain[i]
    decreases |es|
  {
    var n := |es| - 1;
    if es[n].Deliver? && arrivals[|arrivals| - 1] == i {
      assert es[n].msg == chain[i];
    } else {
      DeliversIt(es[..n], chain, if es[n].Deliver? then arrivals[..|arrivals| - 1] else arrivals, i);
      var k :| 0 <= k < n && es[..n][k].Deliver? && es[..n][k].msg == chain[i];
      assert es[k] == es[..n][k];
    }
  }

  /** Convergence, in every run.  At the end of a session that sent everything, if
      no ack was pending at the last arrival, the list is empty exactly when it was
      empty at the start and nothing sent dangles; then the journals are the same. */
  lemma Convergence(es: seq<Event>, gs: seq<Event>, arrivals: seq<nat>)
    requires Session(es, gs, arrivals) && LastFree(Run(es).client, gs)
    requires Run(es + gs).sub == Some(|Run(es + gs).server|)
    ensures var w, sent := Run(es + gs), Emitted(Run(es), gs);
      && (w.client.patches == [] <==> Run(es).client.patches == [] && !HasDangling(sent))
      && (w.client.patches == [] ==> SameJournal(w.client.journal, w.server))
  {
    hide Inv, Run, RunFrom, Emitted, Schedules, Distinct, Later, IsChain, ClientRun, MsgInv, LastFree, HasDangling, SameJournal;
    SessionFacts(es, gs, arrivals);
    var w0, w, chain := Run(es), Run(es + gs), Emitted(Run(es), gs);
    if w0.client.patches == [] && !HasDangling(chain) { SessionApplies(w0, w, gs, chain, arrivals); }
    if w.client.patches == [] {
      SessionNeeds(w0, w, gs, chain, arrivals);
      CaughtUpInv(w);
    }
  }

  const ONE: Msg := Msg(0, 1, Add, [])

  const ONE_SENT: seq<Event> := [Submit(Add, []), Send, Deliver(ONE)]

  const SUBSCRIBED: World := START.(sub := Some(0))

  /** Such sessions there are: one submission, sent and delivered. */
  lemma OneDelivery()
    ensures var es := [Subscribe(0)]; Session(es, ONE_SENT, [0]) && LastFree(Run(es).client, ONE_SENT) && Run(es + ONE_SENT).sub == Some(|Run(es + ONE_SENT).server|)
  {
    hide RunFrom, Emitted, Schedules, ClientRun, Next;
    var es: seq<Event> := [Subscribe(0)];
    assert Run(es) == SUBSCRIBED by { SubscribedFirst(); }
    OneRun();
    OneSchedule();
    RunSplits(es, ONE_SENT);
    assert forall i :: 0 <= i < |ONE_SENT| && ONE_SENT[i].Deliver? ==> i == 2;
  }

  lemma SubscribedFirst()
    ensures Run([Subscribe(0)]) == SUBSCRIBED
  {
    assert [Subscribe(0)][..0] == [];
  }

  lemma OneRun()
    ensures ONE in RunFrom(SUBSCRIBED, ONE_SENT[..2]).sent && Emitted(SUBSCRIBED, ONE_SENT) == [ONE]
    ensures RunFrom(SUBSCRIBED, ONE_SENT).sub == Some(1) && |RunFrom(SUBSCRIBED, ONE_SENT).server| == 1
  {
    hide Receive;
    var gs := ONE_SENT;
    var w1 := SUBSCRIBED.(server := [Live(Add, [])], history := [Origin(Add, [])]);
    assert gs[..0] == [] && gs[..1][..0] == [] && gs[..2][..1] == gs[..1] && gs[..3] == gs;
    assert Padded([], 0) == [];
    assert RunFrom(SUBSCRIBED, gs[..1]) == w1 && Emitted(SUBSCRIBED, gs[..1]) == [];
    assert NextMsg(w1.server, 0) == Some(ONE);
    assert RunFrom(SUBSCRIBED, gs[..2]) == w1.(sub := Some(1), sent := {ONE}) && Emitted(SUBSCRIBED, gs[..2]) == [ONE];
  }

  lemma OneSchedule()
    ensures Schedules(ONE_SENT, [ONE], [0]) && LastFree(SUBSCRIBED.client, ONE_SENT)
  {
    hide Receive;
    var gs := ONE_SENT;
    assert gs[..0] == [] && gs[..1][..0] == [] && gs[..2][..1] == gs[..1] && [0][..0] == [];
    assert Schedules(gs[..1], [ONE], []);
    assert Schedules(gs[..2], [ONE], []);
    assert ClientRun(SUBSCRIBED.client, gs[..1]) == SUBSCRIBED.client;
  }
}
