/** From a local patch to its central version: requests, acks, received
    patches and view updates of one client, in any order (lib/mdir.c,
    mdsyncc/reader.c, mdsyncc/writer.c, lib/mdirc.c). */
module HandOver {
  import opened Headers
  import opened Journals
  import opened Mdirs
  import opened Replication
  import opened Views

  /** What the server and the user's requests decide. */
  datatype Ids = Ids(
    tseq: int,                // next transient version
    central: map<int, int>,   // central version the server gave to a local patch
    acked: set<int>,          // local patches whose ack with status 200 was received
    arrived: set<int>,        // central versions whose PATCH was received
    early: set<int>,          // local patches whose PATCH was received before their ack
    put: set<int>)            // local patches whose command waits for its ack

  /** What the view was told so far. */
  datatype Told = Told(
    listed: set<int>,         // local additions shown at some point
    handed: set<int>,         // local patches whose central version was listed
    hidden: set<int>)         // targets of local removals

  datatype Session = Session(client: Client, tmp: map<int, Transient>, ids: Ids, view: View, told: Told)

  datatype Happening =
    | Ask(patch: Transient)            // mdir_patch_request
    | Put(local: int)                  // ls_transients sends a command for the file
    | Accept(local: int, version: int) // the server appends it
    | AckOk(local: int)
    | AckFail(local: int)
    | AckRetry(local: int)             // status 3xx: the file stays and will be sent again
    | Arrive(msg: Msg)
    | Look(order: seq<int>)            // mdirc_update, with .tmp read in this order

  const BEGIN: Session := Session(Client([], [], 0, []), map[], Ids(1, map[], {}, {}, {}, {}), EMPTY, Told({}, {}, {}))

  // ----- what an update looks at -----

  /** Local additions and removal targets among the files newer than `start`. */
  function NewPlus(tmp: map<int, Transient>, start: int): set<int> {
    set n | n in tmp && n > start && tmp[n].Plus? && Shown(tmp[n].header)
  }

  function NewMinus(tmp: map<int, Transient>, start: int): set<int> {
    set n | n in tmp && n > start && tmp[n].Minus? :: tmp[n].target
  }

  /** Local versions of the additions listed from index `p` on. */
  function Handed(j: Journal, p: int): set<int> {
    set i | 0 <= i < |j| && p <= i && j[i].Live? && j[i].action == Add && LocalId(j[i].header).Some? :: LocalId(j[i].header).value
  }

  predicate Reads(order: seq<int>, tmp: map<int, Transient>) {
    NoDup(order) && (forall n :: n in order ==> n in tmp) && (forall n :: n in tmp ==> n in order)
  }

  function Looked(s: Session, order: seq<int>): Session {
    var j := s.client.journal;
    var w := SynchList(s.view, j);
    s.(view := TransientList(w, s.tmp, order, w.unsync),
       told := Told(s.told.listed + NewPlus(s.tmp, s.view.unsync),
                    s.told.handed + Handed(j, s.view.sync),
                    s.told.hidden + NewMinus(s.tmp, s.view.unsync)))
  }

  // ----- one step; what is not possible changes nothing -----

  predicate CanAsk(j: Journal, t: Transient) {
    t.Minus? ==> Exists(|j|, t.target) && (j[t.target - 1].Live? ==> j[t.target - 1].action == Add)
  }

  /** An ack with another status than 200. */
  function Refused(c: Client): Client { c.(pending := if c.pending > 0 then c.pending - 1 else 0) }

  function Next(s: Session, e: Happening): Session {
    var i := s.ids;
    match e
    case Ask(t) =>
      if CanAsk(s.client.journal, t)
      then s.(tmp := s.tmp[i.tseq := t], ids := i.(tseq := i.tseq + 1)) else s
    case Put(n) =>
      if n in s.tmp && n !in i.put
      then s.(client := s.client.(pending := s.client.pending + 1), ids := i.(put := i.put + {n})) else s
    case Accept(n, c) =>
      if n in i.put && n !in i.central && c > |s.client.journal| && c !in i.central.Values && c !in i.arrived
      then s.(ids := i.(central := i.central[n := c])) else s
    case AckOk(n) =>
      if n in i.put && n in i.central
      then s.(client := Acked(s.client, i.central[n], n), tmp := s.tmp - {n}, ids := i.(acked := i.acked + {n}, put := i.put - {n})) else s
    case AckFail(n) =>
      if n in i.put && n !in i.central
      then s.(client := Refused(s.client), tmp := s.tmp - {n}, ids := i.(put := i.put - {n})) else s
    case AckRetry(n) =>
      if n in i.put && n !in i.central
      then s.(client := Refused(s.client), ids := i.(put := i.put - {n})) else s
    case Arrive(m) =>
      if m.prev < m.version && m.version >= 1 && (m.version !in i.arrived || m.version <= |s.client.journal|) && Find(m.header, SC_LOCALID).None?
      then s.(client := Receive(s.client, m),
              ids := i.(arrived := i.arrived + {m.version},
                        early := i.early + (set n | n in i.central && i.central[n] == m.version && n !in i.acked))) else s
    case Look(order) => if Reads(order, s.tmp) then Looked(s, order) else s
  }

  function Run(es: seq<Happening>): Session {
    if es == [] then BEGIN else Next(Run(es[..|es| - 1]), es[|es| - 1])
  }

  // ----- invariants -----

  ghost predicate IdsInv(i: Ids, tmp: map<int, Transient>) {
    && i.tseq >= 1
    && (forall n :: n in tmp ==> 1 <= n < i.tseq && n !in i.acked)
    && (forall n :: n in i.put ==> n in tmp)
    && (forall n :: n in i.acked ==> n in i.central)
    && (forall n :: n in i.central ==> 1 <= n < i.tseq && i.central[n] >= 1)
    && (forall n, k :: n in i.central && k in i.central && i.central[n] == i.central[k] ==> n == k)
  }

  /** The local version in a header of central version `v` is right, and there unless the ack came late. */
  ghost predicate TagRule(i: Ids, v: int, h: Header) {
    && v in i.arrived
    && (LocalId(h).Some? ==> LocalId(h).value in i.acked && LocalId(h).value in i.central && i.central[LocalId(h).value] == v)
    && (forall n :: n in i.central && i.central[n] == v ==> if n in i.early then LocalId(h).None? else LocalId(h) == Some(n))
  }

  ghost predicate MapsInv(i: Ids, l: seq<C2L>) {
    && (forall q :: 0 <= q < |l| ==> l[q].local in i.acked && l[q].local in i.central && i.central[l[q].local] == l[q].central)
    && (forall n :: n in i.acked && n in i.central && n !in i.early && i.central[n] !in i.arrived ==> C2L(i.central[n], n) in l)
    && (forall n :: n in i.early ==> n in i.central && i.central[n] in i.arrived)
    && (forall n :: n in i.central && n !in i.acked && i.central[n] in i.arrived ==> n in i.early)
  }

  /** The waiting patches, `have` versions being applied; one received again after that is never applied. */
  ghost predicate PatchesInv(i: Ids, ps: seq<Msg>, have: nat) {
    forall q :: 0 <= q < |ps| ==> ps[q].prev < ps[q].version && (ps[q].version <= have || TagRule(i, ps[q].version, ps[q].header))
  }

  ghost predicate JournalInv(i: Ids, j: Journal) {
    Consistent(j) && forall q :: 0 <= q < |j| && j[q].Live? ==> TagRule(i, q + 1, j[q].header)
  }

  ghost predicate ViewInv(j: Journal, i: Ids, w: View, t: Told) {
    && 0 <= w.sync <= |j| && 0 <= w.unsync < i.tseq
    && Central(w.msgs, j, w.sync, t.hidden)
    && Local(w.msgs, t.listed, t.handed)
    && (forall n :: n in t.listed ==> 1 <= n <= w.unsync)
    && (forall n :: n in t.handed ==> n in i.acked && n !in i.early && n in i.central && i.central[n] <= w.sync)
    && (forall q :: 0 <= q < w.sync && j[q].Live? && j[q].action == Add && LocalId(j[q].header).Some? ==>
          LocalId(j[q].header).value in t.handed)
  }

  /** The local copies shown are those listed and not yet handed over. */
  ghost predicate Local(msgs: seq<int>, listed: set<int>, handed: set<int>) {
    forall n :: n >= 1 ==> (-n in msgs <==> n in listed && n !in handed)
  }

  ghost predicate Inv(s: Session) {
    && IdsInv(s.ids, s.tmp) && MapsInv(s.ids, s.client.c2l) && PatchesInv(s.ids, s.client.patches, |s.client.journal|)
    && JournalInv(s.ids, s.client.journal) && ViewInv(s.client.journal, s.ids, s.view, s.told)
    && s.client.pending == |s.ids.put|
    && forall n :: n in s.tmp && s.tmp[n].Minus? ==> Exists(|s.client.journal|, s.tmp[n].target)
  }

  // ----- receiving a patch -----

  lemma ArrivedTag(i: Ids, i': Ids, tmp: map<int, Transient>, l: seq<C2L>, m: Msg)
    requires IdsInv(i, tmp) && MapsInv(i, l)
    requires m.version !in i.arrived && Find(m.header, SC_LOCALID).None?
    requires i' == i.(arrived := i.arrived + {m.version},
                      early := i.early + (set n | n in i.central && i.central[n] == m.version && n !in i.acked))
    ensures TagRule(i', m.version, Tagged(m, l).header)
    ensures MapsInv(i', C2LAfter(m, l))
  {
    hide Find, LocalTag;
    var found := Search(l, m.version);
    var l' := C2LAfter(m, l);
    if found.Some? {
      var q := found.value;
      assert LocalId(Tagged(m, l).header) == Some(l[q].local) by { TagKeeps(m.header, l[q].local); }
      assert l == l[..q] + [l[q]] + l[q + 1..];
      assert forall x :: x in l && x != l[q] ==> x in l';
      assert forall k :: 0 <= k < |l'| ==> l'[k] in l;
    } else {
      assert LocalId(m.header).None?;
      forall n | n in i'.central && i'.central[n] == m.version ensures n in i'.early {
        assert n !in i.acked || n in i.early || C2L(m.version, n) in l;
      }
    }
  }

  /** A version received before: at most a mapping goes that is of no use. */
  lemma ArrivedAgain(i: Ids, i': Ids, l: seq<C2L>, m: Msg)
    requires MapsInv(i, l) && m.version in i.arrived
    requires i' == i.(arrived := i.arrived + {m.version},
                      early := i.early + (set n | n in i.central && i.central[n] == m.version && n !in i.acked))
    ensures i' == i && MapsInv(i, C2LAfter(m, l))
  {
    assert i.arrived + {m.version} == i.arrived;
    assert forall n :: n in i.central && i.central[n] == m.version && n !in i.acked ==> n in i.early;
    assert i'.early == i.early;
    var found := Search(l, m.version);
    if found.Some? {
      var q := found.value;
      assert l == l[..q] + [l[q]] + l[q + 1..];
      assert forall x :: x in l && x != l[q] ==> x in C2LAfter(m, l);
      assert forall k :: 0 <= k < |C2LAfter(m, l)| ==> C2LAfter(m, l)[k] in l;
    }
  }

  lemma TagStays(i: Ids, i': Ids, v: int, h: Header)
    requires TagRule(i, v, h) && i'.central == i.central && i.acked <= i'.acked && i.arrived <= i'.arrived && i.early <= i'.early
    requires forall n :: n in i'.early && n !in i.early && n in i.central ==> i.central[n] != v
    ensures TagRule(i', v, h)
  {
    hide LocalId;
  }

  lemma AppliedIs(j: Journal, m: Msg)
    requires m.prev == |j| < m.version
    ensures var r := Applied(j, m);
            && |j| <= |r|
            && (forall q :: 0 <= q < |j| ==> r[q] == j[q] || r[q].Blank?)
            && (forall q :: |j| <= q < |r| && r[q].Live? ==> q + 1 == m.version && r[q] == Live(m.action, m.header))
  {
    hide Target;
    var p := Padded(j, Gap(m));
    assert forall q :: 0 <= q < |j| ==> p[q] == p[..|j|][q];
  }

  /** Draining the list keeps the journal right, whatever was listed of it before. */
  lemma {:induction false} DrainKeeps(i: Ids, j: Journal, ps: seq<Msg>, w: View, t: Told)
    requires JournalInv(i, j) && PatchesInv(i, ps, |j|) && ViewInv(j, i, w, t)
    ensures var (j', ps') := Drained(j, ps);
            |j| <= |j'| && JournalInv(i, j') && PatchesInv(i, ps', |j'|) && ViewInv(j', i, w, t)
    decreases |ps|
  {
    if ps != [] && ps[0].prev == |j| && ps[0].version > ps[0].prev {
      HeadTagged(i, j, ps);
      ApplyKeeps(i, j, ps[0], w, t);
      hide JournalInv, PatchesInv, ViewInv, AppliesCleanly, Applied;
      if AppliesCleanly(j, ps[0]) {
        PatchesTail(i, ps, |j|, |Applied(j, ps[0])|);
        DrainKeeps(i, Applied(j, ps[0]), ps[1..], w, t);
      }
    }
  }

  lemma HeadTagged(i: Ids, j: Journal, ps: seq<Msg>)
    requires PatchesInv(i, ps, |j|) && ps != [] && ps[0].version > |j|
    ensures TagRule(i, ps[0].version, ps[0].header)
  {
  }

  lemma PatchesTail(i: Ids, ps: seq<Msg>, have: nat, more: nat)
    requires PatchesInv(i, ps, have) && ps != [] && have <= more
    ensures PatchesInv(i, ps[1..], more)
  {
    hide TagRule;
  }

  lemma ApplyKeeps(i: Ids, j: Journal, m: Msg, w: View, t: Told)
    requires JournalInv(i, j) && ViewInv(j, i, w, t) && m.prev == |j| < m.version && TagRule(i, m.version, m.header)
    ensures var r := Applied(j, m); |j| <= |r| && JournalInv(i, r) && ViewInv(r, i, w, t)
  {
    hide TagRule, LocalId, Consistent, Central, Local, Target;
    AppliedIs(j, m);
    ConsistentPatched(j, m.action, m.header, Gap(m));
    CentralPatched(w.msgs, j, w.sync, t.hidden, m.action, m.header, Gap(m));
    assert Patched(j, m.action, m.header, m.header, Gap(m)) == Applied(j, m);
    hide Applied, Patched;
  }

  /** The numbers after a PATCH of version `v` was received. */
  ghost predicate After(i: Ids, i': Ids, v: int) {
    i' == i.(arrived := i.arrived + {v}, early := i.early + (set n | n in i.central && i.central[n] == v && n !in i.acked))
  }

  lemma ArriveMaps(i: Ids, i': Ids, tmp: map<int, Transient>, l: seq<C2L>, m: Msg, have: nat)
    requires IdsInv(i, tmp) && MapsInv(i, l) && After(i, i', m.version)
    requires (m.version !in i.arrived || m.version <= have) && Find(m.header, SC_LOCALID).None?
    ensures IdsInv(i', tmp) && MapsInv(i', C2LAfter(m, l))
    ensures m.version <= have || TagRule(i', m.version, Tagged(m, l).header)
  {
    hide Find, MapsInv, TagRule;
    if m.version !in i.arrived { ArrivedTag(i, i', tmp, l, m); } else { ArrivedAgain(i, i', l, m); }
  }

  lemma ArriveTags(i: Ids, i': Ids, l: seq<C2L>, ps: seq<Msg>, j: Journal, m: Msg)
    requires MapsInv(i, l) && PatchesInv(i, ps, |j|) && JournalInv(i, j) && After(i, i', m.version) && m.prev < m.version
    requires (m.version !in i.arrived || m.version <= |j|) && (m.version <= |j| || TagRule(i', m.version, Tagged(m, l).header))
    ensures PatchesInv(i', Inserted(ps, Tagged(m, l)), |j|) && JournalInv(i', j)
  {
    hide Find, LocalId, Consistent, Inserted, TagRule;
    var t := Tagged(m, l);
    InsertedHas(ps, t);
    forall v, h | TagRule(i, v, h) ensures TagRule(i', v, h) {
      ArriveKeepsTag(i, i', l, v, h, m.version);
    }
  }

  lemma ArriveKeepsTag(i: Ids, i': Ids, l: seq<C2L>, v: int, h: Header, version: int)
    requires TagRule(i, v, h) && MapsInv(i, l) && After(i, i', version)
    ensures TagRule(i', v, h)
  {
    hide LocalId;
    if version in i.arrived {
      assert forall n :: n in i.central && i.central[n] == version && n !in i.acked ==> n in i.early;
    }
    TagStays(i, i', v, h);
  }

  lemma ArriveKeeps(s: Session, m: Msg)
    requires Inv(s) && Next(s, Arrive(m)) != s
    ensures Inv(Next(s, Arrive(m)))
  {
    hide IdsInv, MapsInv, PatchesInv, JournalInv, Inserted, Tagged, C2LAfter, TagRule, Central, Local, LocalId, Find;
    var i, i', c := s.ids, Next(s, Arrive(m)).ids, s.client;
    ArriveMaps(i, i', s.tmp, c.c2l, m, |c.journal|);
    ArriveTags(i, i', c.c2l, c.patches, c.journal, m);
    ArriveView(i, i', c.journal, s.view, s.told, s.client.c2l, m.version);
    DrainKeeps(i', c.journal, Inserted(c.patches, Tagged(m, c.c2l)), s.view, s.told);
  }

  lemma ArriveView(i: Ids, i': Ids, j: Journal, w: View, t: Told, l: seq<C2L>, v: int)
    requires ViewInv(j, i, w, t) && MapsInv(i, l) && After(i, i', v)
    ensures ViewInv(j, i', w, t)
  {
    hide Central, Local, LocalId;
  }

  // ----- requests and acks -----

  lemma AskKeeps(s: Session, t: Transient)
    requires Inv(s)
    ensures Inv(Next(s, Ask(t)))
  {
    hide Central, Consistent, LocalId, Local, Find;
    var i, i' := s.ids, Next(s, Ask(t)).ids;
    assert forall v, h :: TagRule(i, v, h) ==> TagRule(i', v, h);
  }

  lemma AcceptKeeps(s: Session, n: int, c: int)
    requires Inv(s)
    ensures Inv(Next(s, Accept(n, c)))
  {
    hide Central, Consistent, LocalId, Local, Find;
    var i, i' := s.ids, Next(s, Accept(n, c)).ids;
    assert forall v, h :: TagRule(i, v, h) ==> TagRule(i', v, h);
  }

  lemma AckKeeps(s: Session, n: int)
    requires Inv(s)
    ensures Inv(Next(s, AckOk(n)))
  {
    hide Central, Consistent, LocalId, Local, Find;
    if n in s.ids.put && n in s.ids.central {
      var i, i' := s.ids, Next(s, AckOk(n)).ids;
      forall v, h | TagRule(i, v, h) ensures TagRule(i', v, h) { TagStays(i, i', v, h); }
      var l, l' := s.client.c2l, Next(s, AckOk(n)).client.c2l;
      assert l' == [C2L(i.central[n], n)] + l;
      assert MapsInv(i', l');
      hide TagRule, MapsInv;
    }
  }

  lemma AckFailKeeps(s: Session, n: int)
    requires Inv(s)
    ensures Inv(Next(s, AckFail(n)))
  {
    hide Central, Consistent, LocalId, Local, Find;
    var i, i' := s.ids, Next(s, AckFail(n)).ids;
    assert forall v, h :: TagRule(i, v, h) ==> TagRule(i', v, h);
  }

  // ----- listing the journal -----

  function TagSet(e: Entry): set<int> {
    if e.Live? && e.action == Add && LocalId(e.header).Some? then {LocalId(e.header).value} else {}
  }

  lemma LocalStep(msgs: seq<int>, unsync: int, j: Journal, p: nat, listed: set<int>, handed: set<int>)
    requires p < |j| && NoDup(msgs) && Consistent(j) && TagsOk(j) && Local(msgs, listed, handed)
    requires forall n :: n in listed ==> 1 <= n <= unsync
    ensures Local(Listed(msgs, unsync, p + 1, j[p]), listed, handed + TagSet(j[p]))
  {
    hide Target, LocalId, Shown;
    var e := j[p];
    if e.Live? && e.action == Rem {
      DroppedHas(msgs, Target(e.header).value);
    } else if e.Live? && LocalId(e.header).Some? {
      DroppedHas(msgs, -LocalId(e.header).value);
    }
  }

  lemma HandedSplits(j: Journal, p: nat)
    requires p < |j|
    ensures Handed(j, p) == TagSet(j[p]) + Handed(j, p + 1)
  {
    hide LocalId;
  }

  lemma {:induction false} LocalList(w: View, j: Journal, p: nat, listed: set<int>, handed: set<int>, hidden: set<int>)
    requires Consistent(j) && TagsOk(j) && Central(w.msgs, j, p, hidden) && Local(w.msgs, listed, handed)
    requires forall n :: n in listed ==> 1 <= n <= w.unsync
    ensures Local(ListFrom(w, j, p).msgs, listed, handed + Handed(j, p))
    decreases |j| - p
  {
    hide Consistent, TagsOk, Listed, Local, LocalId;
    if p < |j| {
      CentralStep(w.msgs, w.unsync, j, p, hidden);
      LocalStep(w.msgs, w.unsync, j, p, listed, handed);
      hide Central;
      HandedSplits(j, p);
      var w' := View(Listed(w.msgs, w.unsync, p + 1, j[p]), if j[p].Blank? then w.sync else p + 1, w.unsync);
      LocalList(w', j, p + 1, listed, handed + TagSet(j[p]), hidden);
      assert handed + TagSet(j[p]) + Handed(j, p + 1) == handed + Handed(j, p);
    } else {
      assert Handed(j, p) == {};
      assert handed + {} == handed;
    }
  }

  // ----- listing the local patches -----

  function PlusIn(tmp: map<int, Transient>, start: int, order: seq<int>): set<int> {
    set n | n in order && n in tmp && n > start && tmp[n].Plus? && Shown(tmp[n].header)
  }

  function MinusIn(tmp: map<int, Transient>, start: int, order: seq<int>): set<int> {
    set n | n in order && n in tmp && n > start && tmp[n].Minus? :: tmp[n].target
  }

  lemma HideOne(msgs: seq<int>, j: Journal, hidden: set<int>, target: int)
    requires Central(msgs, j, |j|, hidden) && Exists(|j|, target)
    ensures Central(Dropped(msgs, target), j, |j|, hidden + {target})
    ensures forall x :: x < 0 ==> (x in Dropped(msgs, target) <==> x in msgs)
  {
    hide Visible, Doomed;
    DroppedHas(msgs, target);
    hide Dropped;
  }

  lemma ShowOne(msgs: seq<int>, j: Journal, hidden: set<int>, n: int)
    requires Central(msgs, j, |j|, hidden) && n >= 1 && -n !in msgs
    ensures Central(msgs + [-n], j, |j|, hidden)
  {
    hide Visible, Doomed;
  }

  lemma {:induction false} TransientKeeps(w: View, tmp: map<int, Transient>, order: seq<int>, j: Journal, t: Told)
    requires NoDup(order) && Central(w.msgs, j, |j|, t.hidden) && Local(w.msgs, t.listed, t.handed)
    requires forall n :: n in tmp ==> 1 <= n && n !in t.handed
    requires forall n :: n in tmp && tmp[n].Minus? ==> Exists(|j|, tmp[n].target)
    requires forall n :: n in t.listed ==> n <= w.unsync
    ensures var r := TransientList(w, tmp, order, w.unsync);
            && r.sync == w.sync && w.unsync <= r.unsync && (forall n :: n in order && n in tmp ==> n <= r.unsync)
            && (r.unsync == w.unsync || r.unsync in tmp)
            && Central(r.msgs, j, |j|, t.hidden + MinusIn(tmp, w.unsync, order))
            && Local(r.msgs, t.listed + PlusIn(tmp, w.unsync, order), t.handed)
  {
    hide Central, Shown, Dropped, PlusIn, MinusIn;
    if order == [] {
      NoneIn(tmp, w.unsync);
      assert t.hidden + MinusIn(tmp, w.unsync, order) == t.hidden;
      assert t.listed + PlusIn(tmp, w.unsync, order) == t.listed;
    } else {
      var part, n := order[..|order| - 1], order[|order| - 1];
      assert order == part + [n];
      assert n !in part;
      TransientKeeps(w, tmp, part, j, t);
      var r := TransientList(w, tmp, part, w.unsync);
      var hid, lst := t.hidden + MinusIn(tmp, w.unsync, part), t.listed + PlusIn(tmp, w.unsync, part);
      OneMoreIn(tmp, w.unsync, part, n);
      if n !in tmp || n <= w.unsync {
        assert t.hidden + MinusIn(tmp, w.unsync, order) == hid && t.listed + PlusIn(tmp, w.unsync, order) == lst;
      } else if tmp[n].Minus? {
        assert t.listed + PlusIn(tmp, w.unsync, order) == lst;
        HideOne(r.msgs, j, hid, tmp[n].target);
        assert t.hidden + MinusIn(tmp, w.unsync, order) == hid + {tmp[n].target};
      } else {
        assert n !in lst;
        assert t.hidden + MinusIn(tmp, w.unsync, order) == hid;
        ShowOne(r.msgs, j, hid, n);
        assert t.listed + PlusIn(tmp, w.unsync, order) == if Shown(tmp[n].header) then lst + {n} else lst;
      }
    }
  }

  lemma NoneIn(tmp: map<int, Transient>, start: int)
    ensures PlusIn(tmp, start, []) == {} && MinusIn(tmp, start, []) == {}
  {
  }

  /** What one more file of the directory adds. */
  lemma OneMoreIn(tmp: map<int, Transient>, start: int, part: seq<int>, n: int)
    requires n !in part
    ensures n !in PlusIn(tmp, start, part)
    ensures PlusIn(tmp, start, part + [n]) ==
      PlusIn(tmp, start, part) + (if n in tmp && n > start && tmp[n].Plus? && Shown(tmp[n].header) then {n} else {})
    ensures MinusIn(tmp, start, part + [n]) ==
      MinusIn(tmp, start, part) + (if n in tmp && n > start && tmp[n].Minus? then {tmp[n].target} else {})
  {
    hide Shown;
  }

  // ----- a whole update -----

  lemma TagsPositive(i: Ids, tmp: map<int, Transient>, j: Journal)
    requires IdsInv(i, tmp) && JournalInv(i, j)
    ensures TagsOk(j)
    ensures forall n, p :: n in Handed(j, p) ==> n in i.acked && n !in i.early && n in i.central && Exists(|j|, i.central[n]) && j[i.central[n] - 1].Live?
  {
    hide LocalId;
  }

  /** What `synch_list` did, before the local patches are looked at. */
  lemma SynchPart(s: Session)
    requires Inv(s)
    ensures var j := s.client.journal;
            var w := SynchList(s.view, j);
            && Central(w.msgs, j, |j|, s.told.hidden) && s.view.sync <= w.sync <= |j| && w.unsync == s.view.unsync
            && (forall q :: w.sync <= q < |j| ==> j[q].Blank?)
            && Local(w.msgs, s.told.listed, s.told.handed + Handed(j, s.view.sync))
            && (forall n :: n in Handed(j, s.view.sync) ==>
                  n in s.ids.acked && n !in s.ids.early && n in s.ids.central && Exists(w.sync, s.ids.central[n]))
  {
    var j, w := s.client.journal, s.view;
    TagsPositive(s.ids, s.tmp, j);
    hide TagRule, LocalId, MapsInv, PatchesInv, ListFrom, Local, Handed;
    CentralList(w, j, w.sync, s.told.hidden);
    LocalList(w, j, w.sync, s.told.listed, s.told.handed, s.told.hidden);
  }

  lemma LookPart(s: Session, order: seq<int>)
    requires Inv(s) && Reads(order, s.tmp)
    ensures var r := Looked(s, order);
            var j := s.client.journal;
            && Central(r.view.msgs, j, |j|, r.told.hidden) && Local(r.view.msgs, r.told.listed, r.told.handed)
            && r.view.sync == SynchList(s.view, j).sync
            && s.view.unsync <= r.view.unsync < s.ids.tseq
            && (forall n :: n in r.told.listed ==> 1 <= n <= r.view.unsync)
  {
    var j, w := s.client.journal, s.view;
    SynchPart(s);
    var t1 := s.told.(handed := s.told.handed + Handed(j, w.sync));
    assert NewPlus(s.tmp, w.unsync) == PlusIn(s.tmp, w.unsync, order);
    assert NewMinus(s.tmp, w.unsync) == MinusIn(s.tmp, w.unsync, order);
    hide TagRule, LocalId, MapsInv, PatchesInv, JournalInv, SynchList, Local, Handed, Central, TransientList, NewPlus, NewMinus, PlusIn, MinusIn;
    TransientKeeps(SynchList(w, j), s.tmp, order, j, t1);
    PlusOk(s.tmp, w.unsync, order, Looked(s, order).view.unsync);
  }

  /** Everything `mdirc_update` shows: the central versions that are visible and
      not hidden, and the local additions listed and not handed over. */
  lemma LookShows(s: Session, order: seq<int>)
    requires Inv(s) && Reads(order, s.tmp)
    ensures var r := Looked(s, order);
            var j := s.client.journal;
            && Inv(r)
            && (forall v :: v >= 0 ==> (v in r.view.msgs <==> Exists(|j|, v) && Visible(j[v - 1]) && v !in r.told.hidden))
            && Local(r.view.msgs, r.told.listed, r.told.handed)
            && (forall q :: 0 <= q < |j| && j[q].Live? && j[q].action == Add && LocalId(j[q].header).Some? ==>
                  LocalId(j[q].header).value in r.told.handed)
  {
    var j := s.client.journal;
    var r := Looked(s, order);
    SynchPart(s);
    LookPart(s, order);
    CentralDone(r.view.msgs, j, r.told.hidden);
    CentralRewind(r.view.msgs, j, |j|, r.view.sync, r.told.hidden);
    HandedCovers(j, s.view.sync);
    hide TagRule, LocalId, MapsInv, PatchesInv, JournalInv, SynchList, Local, Handed, Central, TransientList, NewPlus, NewMinus, IdsInv, Visible;
  }

  lemma PlusOk(tmp: map<int, Transient>, start: int, order: seq<int>, top: int)
    requires forall n :: n in order && n in tmp ==> n <= top
    requires forall n :: n in tmp ==> 1 <= n
    ensures forall n :: n in PlusIn(tmp, start, order) ==> 1 <= n <= top
  {
  }

  lemma HandedCovers(j: Journal, p: nat)
    ensures forall q :: p <= q < |j| && j[q].Live? && j[q].action == Add && LocalId(j[q].header).Some? ==>
              LocalId(j[q].header).value in Handed(j, p)
  {
  }

  lemma PutKeeps(s: Session, e: Happening, n: int)
    requires Inv(s) && (e == Put(n) || e == AckRetry(n))
    ensures Inv(Next(s, e))
  {
    hide Central, Consistent, LocalId, Local, Find;
    var i, i' := s.ids, Next(s, e).ids;
    assert forall v, h :: TagRule(i, v, h) ==> TagRule(i', v, h);
  }

  lemma StepKeeps(s: Session, e: Happening)
    requires Inv(s)
    ensures Inv(Next(s, e))
  {
    match e {
      case Ask(t) => AskKeeps(s, t);
      case Put(n) => PutKeeps(s, e, n);
      case Accept(n, c) => AcceptKeeps(s, n, c);
      case AckOk(n) => AckKeeps(s, n);
      case AckFail(n) => AckFailKeeps(s, n);
      case AckRetry(n) => PutKeeps(s, e, n);
      case Arrive(m) => if Next(s, e) != s { ArriveKeeps(s, m); }
      case Look(order) => if Reads(order, s.tmp) { LookShows(s, order); }
    }
  }

  lemma BeginHolds()
    ensures Inv(BEGIN)
  {
  }

  lemma {:induction false} RunKeeps(es: seq<Happening>)
    ensures Inv(Run(es))
  {
    hide Inv, Next;
    if es == [] {
      BeginHolds();
    } else {
      RunKeeps(es[..|es| - 1]);
      StepKeeps(Run(es[..|es| - 1]), es[|es| - 1]);
    }
  }

  // ----- theorems -----

  /** An ack ends the wait for one command, whatever its status; the file stays only
      to be sent again.  It is accepted, or else refused or to be tried again. */
  lemma AcksEnd(es: seq<Happening>, n: int)
    requires n in Run(es).ids.put
    ensures var s, ok, no, later := Run(es), Next(Run(es), AckOk(n)), Next(Run(es), AckFail(n)), Next(Run(es), AckRetry(n));
      && n in s.tmp && s.client.pending > 0
      && (n in s.ids.central ==>
            && ok.client.pending == s.client.pending - 1 && ok.ids.put == s.ids.put - {n} && ok.tmp == s.tmp - {n}
            && ok.client.c2l == [C2L(s.ids.central[n], n)] + s.client.c2l && no == later == s)
      && (n !in s.ids.central ==>
            && no.client == later.client == s.client.(pending := s.client.pending - 1) && no.ids.put == later.ids.put == s.ids.put - {n}
            && no.tmp == s.tmp - {n} && later.tmp == s.tmp && ok == s)
  {
    hide Run, MapsInv, PatchesInv, JournalInv, ViewInv, Receive, Reads, CanAsk;
    RunKeeps(es);
  }

  /** As long as a command waits for its ack, nothing that arrives is applied. */
  lemma WaitsForAcks(es: seq<Happening>, m: Msg)
    requires Run(es).ids.put != {}
    ensures Next(Run(es), Arrive(m)).client.journal == Run(es).client.journal
  {
    hide Run, IdsInv, MapsInv, PatchesInv, JournalInv, ViewInv, Receive;
    RunKeeps(es);
    HeldBack(Run(es).client, m);
  }

  /** Hand-over, in every run, after any update.  The local copy and the central
      version of a patch are shown together exactly when the local copy had been
      listed, the central version is visible, and its PATCH was received before
      its ack.  Otherwise a visible central version is shown alone; and until its
      version is reached, a listed local copy is. */
  lemma HandOverExact(es: seq<Happening>, order: seq<int>, n: int)
    requires Reads(order, Run(es).tmp) && n in Run(es).ids.central
    ensures var r := Looked(Run(es), order);
            var j, c := r.client.journal, r.ids.central[n];
            var shown := Exists(|j|, c) && Visible(j[c - 1]) && c !in r.told.hidden;
            && (c in r.view.msgs <==> shown)
            && (-n in r.view.msgs && c in r.view.msgs <==> shown && n in r.told.listed && n in r.ids.early)
            && (shown && n !in r.ids.early ==> c in r.view.msgs && -n !in r.view.msgs)
            && (c > |j| && n in r.told.listed ==> -n in r.view.msgs && c !in r.view.msgs)
  {
    hide Run, Inv, Visible, LocalId, Local, SynchList, TransientList, NewPlus, NewMinus, Handed;
    RunKeeps(es);
    LookShows(Run(es), order);
    ShownExactly(Looked(Run(es), order), n);
  }

  lemma ShownExactly(r: Session, n: int)
    requires Inv(r) && n in r.ids.central
    requires var j := r.client.journal;
             && (forall v :: v >= 0 ==> (v in r.view.msgs <==> Exists(|j|, v) && Visible(j[v - 1]) && v !in r.told.hidden))
             && (forall q :: 0 <= q < |j| && j[q].Live? && j[q].action == Add && LocalId(j[q].header).Some? ==>
                   LocalId(j[q].header).value in r.told.handed)
    ensures var j, c := r.client.journal, r.ids.central[n];
            var shown := Exists(|j|, c) && Visible(j[c - 1]) && c !in r.told.hidden;
            && (c in r.view.msgs <==> shown)
            && (-n in r.view.msgs && c in r.view.msgs <==> shown && n in r.told.listed && n in r.ids.early)
            && (shown && n !in r.ids.early ==> c in r.view.msgs && -n !in r.view.msgs)
            && (c > |j| && n in r.told.listed ==> -n in r.view.msgs && c !in r.view.msgs)
  {
    hide LocalId, Consistent, Central, Shown, MapsInv, PatchesInv;
    var j, c := r.client.journal, r.ids.central[n];
    if Exists(|j|, c) && Visible(j[c - 1]) { assert TagRule(r.ids, (c - 1) + 1, j[c - 1].header); }
  }

  // ----- which local copies are stale -----

  /** An update of session `s` finds version `c` a live addition that knows its local version. */
  ghost predicate AliveAt(s: Session, c: int) {
    var j := s.client.journal;
    Exists(|j|, c) && j[c - 1].Live? && j[c - 1].action == Add && LocalId(j[c - 1].header).Some?
  }

  ghost predicate SeesAt(es: seq<Happening>, k: nat, c: int)
    requires k < |es|
  {
    es[k].Look? && Reads(es[k].order, Run(es[..k]).tmp) && AliveAt(Run(es[..k]), c)
  }

  /** Some update of the run did. */
  ghost predicate SawAlive(es: seq<Happening>, c: int) {
    exists k: nat :: k < |es| && SeesAt(es, k, c)
  }

  lemma SawOneMore(p: seq<Happening>, e: Happening, c: int)
    ensures SawAlive(p + [e], c) <==> SawAlive(p, c) || (e.Look? && Reads(e.order, Run(p).tmp) && AliveAt(Run(p), c))
  {
    hide Run, Reads, AliveAt;
    var es := p + [e];
    assert es[..|p|] == p;
    forall k: nat | k < |p| ensures SeesAt(es, k, c) <==> SeesAt(p, k, c) { assert es[..k] == p[..k]; }
    assert SeesAt(es, |p|, c) <==> e.Look? && Reads(e.order, Run(p).tmp) && AliveAt(Run(p), c);
  }

  /** Only a version whose PATCH was received is seen. */
  lemma {:induction false} SawArrived(es: seq<Happening>, c: int)
    requires SawAlive(es, c)
    ensures c in Run(es).ids.arrived
  {
    var p, e := es[..|es| - 1], es[|es| - 1];
    assert p + [e] == es;
    SawOneMore(p, e, c);
    if SawAlive(p, c) { SawArrived(p, c); } else { AliveArrived(p, c); }
    hide Run, SawAlive, AliveAt;
    ArrivedStays(Run(p), e);
  }

  lemma AliveArrived(es: seq<Happening>, c: int)
    requires AliveAt(Run(es), c)
    ensures c in Run(es).ids.arrived
  {
    hide Run, LocalId, Consistent, IdsInv, MapsInv, PatchesInv, ViewInv;
    RunKeeps(es);
    assert TagRule(Run(es).ids, (c - 1) + 1, Run(es).client.journal[c - 1].header);
  }

  lemma ArrivedStays(s: Session, e: Happening)
    ensures s.ids.arrived <= Next(s, e).ids.arrived
    ensures forall n :: n in s.ids.central ==> n in Next(s, e).ids.central && Next(s, e).ids.central[n] == s.ids.central[n]
  {
    hide Reads, CanAsk, Receive, Acked;
  }

  /** What one update adds to the local versions handed over. */
  lemma HandedByLook(s: Session, order: seq<int>, n: int)
    requires Inv(s) && Reads(order, s.tmp) && n in s.ids.central
    ensures n in Looked(s, order).told.handed <==> n in s.told.handed || AliveAt(s, s.ids.central[n])
  {
    hide Handed, SynchList, TransientList, NewPlus, NewMinus, LocalId, Reads, TagRule, AliveAt, Central, Local, PatchesInv, MapsInv;
    var c := s.ids.central[n];
    TagOf(s, n);
    if AliveAt(s, c) { AliveHanded(s, c); }
  }

  /** The live addition of a patch, and no other entry, may carry its local version. */
  lemma TagOf(s: Session, n: int)
    requires Inv(s) && n in s.ids.central
    ensures n in Handed(s.client.journal, s.view.sync) ==> AliveAt(s, s.ids.central[n])
    ensures AliveAt(s, s.ids.central[n]) ==> LocalId(s.client.journal[s.ids.central[n] - 1].header) == Some(n)
  {
    hide LocalId, Reads, Consistent, ViewInv, PatchesInv, MapsInv;
    var j, c := s.client.journal, s.ids.central[n];
    if n in Handed(j, s.view.sync) {
      var q :| 0 <= q < |j| && j[q].Live? && j[q].action == Add && LocalId(j[q].header).Some? && LocalId(j[q].header).value == n;
      assert TagRule(s.ids, q + 1, j[q].header);
    }
    if AliveAt(s, c) { assert TagRule(s.ids, (c - 1) + 1, j[c - 1].header); }
  }

  lemma AliveHanded(s: Session, c: int)
    requires Inv(s) && AliveAt(s, c)
    ensures LocalId(s.client.journal[c - 1].header).value in s.told.handed + Handed(s.client.journal, s.view.sync)
  {
    hide LocalId, Handed, Consistent, TagRule, Central, Local, PatchesInv, MapsInv, IdsInv;
    HandedCovers(s.client.journal, s.view.sync);
  }

  lemma HandedOnlyByLook(s: Session, e: Happening)
    requires !(e.Look? && Reads(e.order, s.tmp))
    ensures Next(s, e).told == s.told
  {
    hide Reads, CanAsk, Receive, Acked;
  }

  /** What became of the central version of a patch when it was given to it just now. */
  lemma AcceptedNow(s: Session, e: Happening, n: int)
    requires Inv(s) && n !in s.ids.central && n in Next(s, e).ids.central
    ensures e.Accept? && Next(s, e).ids.central[n] !in s.ids.arrived && n !in s.told.handed
  {
    hide Reads, CanAsk, Receive, Acked, IdsInv, MapsInv, PatchesInv, JournalInv, Central, Local, LocalId;
  }

  /** In every run a local patch is handed over if and only if an update saw its central version alive. */
  lemma {:induction false} HandedIfSeen(es: seq<Happening>, n: int)
    requires n in Run(es).ids.central
    ensures n in Run(es).told.handed <==> SawAlive(es, Run(es).ids.central[n])
  {
    hide Inv, Next, SawAlive, Reads, AliveAt, Looked;
    var p, e := es[..|es| - 1], es[|es| - 1];
    assert p + [e] == es;
    var s, c := Run(p), Run(es).ids.central[n];
    RunKeeps(p);
    SawOneMore(p, e, c);
    ArrivedStays(s, e);
    if n in s.ids.central {
      HandedIfSeen(p, n);
      if e.Look? && Reads(e.order, s.tmp) {
        HandedByLook(s, e.order, n);
        LookIs(s, e.order);
      } else {
        HandedOnlyByLook(s, e);
      }
    } else {
      AcceptedNow(s, e, n);
      HandedOnlyByLook(s, e);
      if SawAlive(p, c) { SawArrived(p, c); }
    }
  }

  lemma LookIs(s: Session, order: seq<int>)
    requires Reads(order, s.tmp)
    ensures Next(s, Look(order)) == Looked(s, order)
  {
  }

  /** Which local copies an update leaves, in every run: those listed whose central
      version no update, this one included, saw alive with its local version. */
  lemma StaleExactly(es: seq<Happening>, order: seq<int>, n: int)
    requires Reads(order, Run(es).tmp) && n in Run(es).ids.central
    ensures var all := es + [Look(order)];
            var r := Run(all);
            n in r.ids.central && (-n in r.view.msgs <==> n in r.told.listed && !SawAlive(all, r.ids.central[n]))
  {
    hide Inv, SawAlive, Looked, Reads;
    var all := es + [Look(order)];
    assert all[..|all| - 1] == es;
    LookIs(Run(es), order);
    ArrivedStays(Run(es), Look(order));
    HandedIfSeen(all, n);
    RunKeeps(all);
    CopiesShown(Run(all), n);
  }

  lemma CopiesShown(s: Session, n: int)
    requires Inv(s) && n in s.ids.central
    ensures -n in s.view.msgs <==> n in s.told.listed && n !in s.told.handed
  {
    hide Central, LocalId, MapsInv, PatchesInv, JournalInv;
  }

  /** Draining the list only adds entries and blanks some. */
  lemma {:induction false} DrainOnlyBlanks(j: Journal, ps: seq<Msg>)
    ensures var j' := Drained(j, ps).0; |j| <= |j'| && forall q :: 0 <= q < |j| ==> j'[q] == j[q] || j'[q].Blank?
    decreases |ps|
  {
    hide AppliesCleanly, Applied;
    if ps != [] && ps[0].prev == |j| && ps[0].version > ps[0].prev {
      AppliedIs(j, ps[0]);
      if AppliesCleanly(j, ps[0]) { DrainOnlyBlanks(Applied(j, ps[0]), ps[1..]); }
    }
  }

  lemma NotAliveStays(s: Session, e: Happening, c: int)
    requires Exists(|s.client.journal|, c) && !AliveAt(s, c)
    ensures Exists(|Next(s, e).client.journal|, c) && !AliveAt(Next(s, e), c)
  {
    hide LocalId, Find, Inserted, Tagged, C2LAfter, Reads, CanAsk;
    if e.Arrive? { DrainOnlyBlanks(s.client.journal, Inserted(s.client.patches, Tagged(e.msg, s.client.c2l))); }
  }

  lemma RunMore(p: seq<Happening>, e: Happening)
    ensures Run(p + [e]) == Next(Run(p), e)
  {
    assert (p + [e])[..|p|] == p;
  }

  /** An applied version that is not alive is not seen alive any more. */
  lemma {:induction false} NeverSeen(es: seq<Happening>, fs: seq<Happening>, c: int)
    requires Exists(|Run(es).client.journal|, c) && !AliveAt(Run(es), c)
    ensures Exists(|Run(es + fs).client.journal|, c) && !AliveAt(Run(es + fs), c)
    ensures SawAlive(es + fs, c) <==> SawAlive(es, c)
  {
    hide Run, Next, SawAlive, AliveAt, Reads;
    if fs == [] {
      assert es + fs == es;
    } else {
      var p, e := fs[..|fs| - 1], fs[|fs| - 1];
      assert es + p + [e] == es + fs;
      NeverSeen(es, p, c);
      NotAliveStays(Run(es + p), e, c);
      RunMore(es + p, e);
      SawOneMore(es + p, e, c);
    }
  }

  lemma {:induction false} Grows(es: seq<Happening>, fs: seq<Happening>, n: int)
    ensures n in Run(es).told.listed ==> n in Run(es + fs).told.listed
    ensures n in Run(es).ids.central ==> n in Run(es + fs).ids.central && Run(es + fs).ids.central[n] == Run(es).ids.central[n]
  {
    hide Run, Next;
    if fs == [] {
      assert es + fs == es;
    } else {
      var p, e := fs[..|fs| - 1], fs[|fs| - 1];
      assert es + p + [e] == es + fs;
      Grows(es, p, n);
      RunMore(es + p, e);
      ArrivedStays(Run(es + p), e);
      ListedStays(Run(es + p), e);
    }
  }

  lemma ListedStays(s: Session, e: Happening)
    ensures s.told.listed <= Next(s, e).told.listed
  {
    hide Reads, CanAsk, Receive, Acked;
  }

  /** The files of a directory can be read in some order. */
  lemma SomeOrder(tmp: map<int, Transient>) returns (order: seq<int>)
    ensures Reads(order, tmp)
  {
    order := Ordered(tmp.Keys);
  }

  lemma {:induction false} Ordered(left: set<int>) returns (order: seq<int>)
    ensures NoDup(order) && forall n :: n in order <==> n in left
    decreases |left|
  {
    if left == {} { return []; }
    assert (forall n :: n !in left) ==> left == {};
    var n :| n in left;
    var rest := Ordered(left - {n});
    order := rest + [n];
  }

  /** Once its central version is applied, a listed local copy stays in the view
      whatever follows if and only if no update saw that version alive with its
      local version and the next one will not: it was removed, or its ack came late. */
  lemma StaleForever(es: seq<Happening>, n: int)
    requires n in Run(es).ids.central && n in Run(es).told.listed
    requires Exists(|Run(es).client.journal|, Run(es).ids.central[n])
    ensures var c := Run(es).ids.central[n];
            (forall fs :: -n in Run(es + fs).view.msgs) <==> !SawAlive(es, c) && !AliveAt(Run(es), c)
  {
    hide Run, Inv, SawAlive, AliveAt;
    var c := Run(es).ids.central[n];
    if !SawAlive(es, c) && !AliveAt(Run(es), c) {
      forall fs ensures -n in Run(es + fs).view.msgs {
        NeverSeen(es, fs, c);
        Grows(es, fs, n);
        HandedIfSeen(es + fs, n);
        RunKeeps(es + fs);
        CopiesShown(Run(es + fs), n);
      }
    } else {
      var order := SomeOrder(Run(es).tmp);
      SawOneMore(es, Look(order), c);
      Grows(es, [Look(order)], n);
      StaleExactly(es, order, n);
    }
  }

  // ----- both failures are reachable -----

  /** A local addition, listed once. */
  function ShownOnce(): Session { Next(Next(BEGIN, Ask(Plus([]))), Look([1])) }

  lemma ShownOnceIs()
    ensures ShownOnce() == Session(Client([], [], 0, []), map[1 := Plus([])], Ids(2, map[], {}, {}, {}, {}), View([-1], 0, 1), Told({1}, {}, {}))
  {
    var s := Next(BEGIN, Ask(Plus([])));
    assert s.tmp == map[1 := Plus([])];
    assert Reads([1], s.tmp);
    assert [1][..0] == [];
    assert TransientList(EMPTY, s.tmp, [1], 0) == View([-1], 0, 1);
    assert NewPlus(s.tmp, 0) == {1};
    assert NewMinus(s.tmp, 0) == {};
    assert Handed([], 0) == {};
  }

  const FIRST: Msg := Msg(0, 1, Add, [])
  const REMOVAL: Msg := Msg(1, 2, Rem, [Field(SC_TARGET, "1")])

  const SECOND: Msg := Msg(1, 2, Add, [])

  /** The PATCH of that addition arrives before its ack, and so untagged; once the
      ack is there, the next PATCH has both applied, and both copies are shown. */
  lemma LateAckShowsBoth()
    ensures var s := Next(Next(Next(Next(Next(ShownOnce(), Put(1)), Accept(1, 1)), Arrive(FIRST)), AckOk(1)), Arrive(SECOND));
            Looked(s, []).view.msgs == [-1, 1, 2]
  {
    ShownOnceIs();
    NoFields();
    hide ShownOnce, Find, LocalTag, SynchList;
    var s := Next(Next(ShownOnce(), Put(1)), Accept(1, 1));
    assert s.client == Client([], [], 1, []) && s.ids.central == map[1 := 1];
    var a := Next(s, Arrive(FIRST));
    assert Inserted([], FIRST) == [FIRST];
    assert a.client == Client([], [FIRST], 1, []) && a.ids.put == {1};
    var d := Next(a, AckOk(1));
    assert d.client == Client([], [FIRST], 0, [C2L(1, 1)]) && d.tmp == map[];
    assert Tagged(SECOND, [C2L(1, 1)]) == SECOND by { NotFound(); }
    TwoInserted();
    TwoApplied();
    var e := Next(d, Arrive(SECOND));
    var j := [Live(Add, []), Live(Add, [])];
    assert e.client.journal == j && e.tmp == map[] && e.view == View([-1], 0, 1);
    TwoListed(j);
  }

  lemma NotFound()
    ensures Search([C2L(1, 1)], 2) == None
  {
    assert [C2L(1, 1)][1..] == [];
  }

  lemma TwoInserted()
    ensures Inserted([FIRST], SECOND) == [FIRST, SECOND]
  {
    assert [FIRST][1..] == [];
    assert Inserted([], SECOND) == [SECOND];
  }

  lemma TwoApplied()
    ensures Drained([], [FIRST, SECOND]) == ([Live(Add, []), Live(Add, [])], [])
  {
    var one, two := [Live(Add, [])], [Live(Add, []), Live(Add, [])];
    NoFields();
    assert MarkTarget([]) == 0;
    hide MarkTarget, Find;
    assert Padded([], 0) == [] && Padded(one, 0) == one;
    assert Applied([], FIRST) == one && AppliesCleanly([], FIRST);
    assert Applied(one, SECOND) == two && AppliesCleanly(one, SECOND);
    assert [FIRST, SECOND][1..] == [SECOND] && [SECOND][1..] == [];
    assert Drained(two, []) == (two, []);
    assert Drained(one, [SECOND]) == (two, []);
  }

  lemma TwoListed(j: Journal)
    requires j == [Live(Add, []), Live(Add, [])]
    ensures SynchList(View([-1], 0, 1), j).msgs == [-1, 1, 2]
  {
    NoFields();
    assert Listed([-1], 1, 1, j[0]) == [-1, 1] && Listed([-1, 1], 1, 2, j[1]) == [-1, 1, 2];
    hide Listed;
    assert ListFrom(View([-1, 1, 2], 2, 1), j, 2) == View([-1, 1, 2], 2, 1);
    assert ListFrom(View([-1, 1], 1, 1), j, 1) == View([-1, 1, 2], 2, 1);
  }

  lemma RemovalTarget()
    ensures Target(REMOVAL.header) == Some(1) && MarkTarget(REMOVAL.header) == 0 && Find(REMOVAL.header, SC_LOCALID).None?
  {
    var h := REMOVAL.header;
    assert h[1..] == [];
    assert Lower(SC_LOCALID)[3] == 'l' && Lower(SC_TYPE)[4] == 'y' && Lower(SC_TARGET)[3] == 't' && Lower(SC_TARGET)[4] == 'a';
    assert !SameName(SC_TARGET, SC_TYPE) && !SameName(SC_TARGET, SC_LOCALID);
    assert Find(h[1..], SC_TYPE) == None && Find(h, SC_TYPE) == None;
    VersionReadsBack(1);
    assert VersionToString(1) == "1";
  }

  const UNSEEN: seq<Happening> := [Ask(Plus([])), Look([1]), Put(1), Accept(1, 1), AckOk(1), Arrive(FIRST), Arrive(REMOVAL)]

  /** Sent, acked in time, but removed before the next update: the local copy stays for ever. */
  lemma RemovedUnseenStays()
    ensures forall fs :: -1 in Run(UNSEEN + fs).view.msgs
  {
    hide Run, Next, Inv, SawAlive;
    UnseenRun();
    RemovedUnseenIs();
    HandedIfSeen(UNSEEN, 1);
    StaleForever(UNSEEN, 1);
  }

  lemma UnseenRun()
    ensures Run(UNSEEN) == Next(Next(Next(Next(Next(ShownOnce(), Put(1)), Accept(1, 1)), AckOk(1)), Arrive(FIRST)), Arrive(REMOVAL))
  {
    hide Next;
    var es := UNSEEN;
    assert es[..1] == [] + [es[0]] && es[..2] == es[..1] + [es[1]] && es[..3] == es[..2] + [es[2]] && es[..4] == es[..3] + [es[3]];
    assert es[..5] == es[..4] + [es[4]] && es[..6] == es[..5] + [es[5]] && es == es[..6] + [es[6]];
    hide Run;
    RunMore([], es[0]);
    RunMore(es[..1], es[1]);
    RunMore(es[..2], es[2]);
    RunMore(es[..3], es[3]);
    RunMore(es[..4], es[4]);
    RunMore(es[..5], es[5]);
    RunMore(es[..6], es[6]);
    assert Run([]) == BEGIN by { NoRun(); }
  }

  lemma NoRun()
    ensures Run([]) == BEGIN
  {
  }

  lemma RemovedUnseenIs()
    ensures var s := Next(Next(Next(Next(Next(ShownOnce(), Put(1)), Accept(1, 1)), AckOk(1)), Arrive(FIRST)), Arrive(REMOVAL));
            && s.ids.central == map[1 := 1] && s.told == Told({1}, {}, {})
            && |s.client.journal| == 2 && s.client.journal[0].Blank?
  {
    hide Target, MarkTarget, Find, LocalTag, Drained, ShownOnce;
    ShownOnceIs();
    RemovalTarget();
    NoFields();
    var s := Next(Next(Next(ShownOnce(), Put(1)), Accept(1, 1)), AckOk(1));
    assert s.client == Client([], [], 0, [C2L(1, 1)]);
    var a := Next(s, Arrive(FIRST));
    var t := Tagged(FIRST, [C2L(1, 1)]);
    assert t == FIRST.(header := [LocalTag(1)]) by { assert [] + [LocalTag(1)] == [LocalTag(1)]; }
    var l1 := Live(Add, t.header);
    FirstApplied(t);
    assert Inserted([], t) == [t];
    assert a.client == Client([l1], [], 0, []);
    var b := Next(a, Arrive(REMOVAL));
    assert Tagged(REMOVAL, []) == REMOVAL && Inserted([], REMOVAL) == [REMOVAL];
    SecondApplied(l1);
  }

  lemma NoFields()
    ensures forall name :: Find([], name) == None
  {
  }

  lemma FirstApplied(t: Msg)
    requires t == FIRST.(header := [LocalTag(1)])
    ensures Drained([], [t]) == ([Live(Add, t.header)], [])
  {
    TagKeeps([], 1);
    assert [] + [LocalTag(1)] == [LocalTag(1)];
    assert MarkTarget(t.header) == MarkTarget([]) == 0;
    hide MarkTarget, LocalTag;
    assert Padded([], 0) == [];
    assert Applied([], t) == [Live(Add, t.header)];
    assert [t][1..] == [];
    assert AppliesCleanly([], t);
  }

  lemma SecondApplied(e: Entry)
    requires e.Live? && e.action == Add
    ensures Drained([e], [REMOVAL]).0 == [Blank, Live(Rem, REMOVAL.header)]
  {
    RemovalTarget();
    hide Target, MarkTarget;
    assert Padded([e], 0) == [e];
    assert [REMOVAL][1..] == [];
    assert Applied([e], REMOVAL) == [Blank, Live(Rem, REMOVAL.header)];
    assert AppliesCleanly([e], REMOVAL);
  }
}
