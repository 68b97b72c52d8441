/** The cached message list of a directory (lib/mdirc.c), kept up to date from
    a cursor by `synch_list` and `transient_list` (lib/mdir.c). */
module Views {
  import opened Headers
  import opened Journals
  import opened Mdirs

  /** Versions in the list (negative for local patches not yet synchronised), and the cursor. */
  datatype View = View(msgs: seq<int>, sync: int, unsync: int)

  const EMPTY: View := View([], 0, 0)

  /** `add_msg` puts neither directories nor marks in the top-level list. */
  predicate Shown(h: Header) { !IsDirectory(h) && !HasType(h, SC_MARK_TYPE) }

  /** Told by the first "sc-type" of the header. */
  lemma ShownByField(h: Header)
    ensures Shown(h) <==> !Says(h, "dir") && !Says(h, "mark")
  {
    hide Says;
    TypesByField(h);
  }

  predicate Visible(e: Entry) { e.Live? && e.action == Add && Shown(e.header) }

  /** `rem_msg`: the first message of that version goes. */
  function Dropped(msgs: seq<int>, v: int): seq<int> {
    if msgs == [] then []
    else if msgs[0] == v then msgs[1..]
    else [msgs[0]] + Dropped(msgs[1..], v)
  }

  /** `add_msg`. */
  function Added(msgs: seq<int>, h: Header, v: int): seq<int> { if Shown(h) then msgs + [v] else msgs }

  /** The local copy of this addition was listed before. */
  predicate Replaces(h: Header, unsync: int) { LocalId(h).Some? && LocalId(h).value <= unsync }

  /** What `synch_list` does with the list for one entry. */
  function Listed(msgs: seq<int>, unsync: int, v: int, e: Entry): seq<int> {
    match e
    case Blank => msgs
    case Live(Rem, h) => if Target(h).Some? then Dropped(msgs, Target(h).value) else msgs
    case Live(Add, h) => Added(if Replaces(h, unsync) then Dropped(msgs, -LocalId(h).value) else msgs, h, v)
  }

  /** Entries from index `p` on are listed; removed ones do not move the cursor. */
  function ListFrom(w: View, j: Journal, p: nat): View
    decreases |j| - p
  {
    if p >= |j| then w
    else ListFrom(View(Listed(w.msgs, w.unsync, p + 1, j[p]), if j[p].Blank? then w.sync else p + 1, w.unsync), j, p + 1)
  }

  /** The cursor ends at the last entry that is not removed, or stays where it was. */
  lemma {:induction false} CursorStops(w: View, j: Journal, p: nat)
    ensures var r := ListFrom(w, j, p).sync;
      && (r == w.sync || (p < r <= |j| && j[r - 1].Live?))
      && (forall q :: p <= q < |j| && j[q].Live? ==> p < r <= |j| && j[r - 1].Live? && q < r)
    decreases |j| - p
  {
    hide Listed;
    if p < |j| { CursorStops(View(Listed(w.msgs, w.unsync, p + 1, j[p]), if j[p].Blank? then w.sync else p + 1, w.unsync), j, p + 1); }
  }

  /** `synch_list`. */
  function SynchList(w: View, j: Journal): View { ListFrom(w, j, if w.sync < 0 then 0 else w.sync) }

  // ----- what a list should hold -----

  predicate NoDup(s: seq<int>) { forall i, k :: 0 <= i < k < |s| ==> s[i] != s[k] }

  lemma {:induction false} DroppedHas(s: seq<int>, v: int)
    requires NoDup(s)
    ensures NoDup(Dropped(s, v)) && forall x :: x in Dropped(s, v) <==> x in s && x != v
  {
    if s != [] {
      var t := s[1..];
      assert s == [s[0]] + t;
      DroppedHas(t, v);
      if s[0] != v {
        var r := Dropped(t, v);
        forall k | 0 <= k < |r| ensures r[k] != s[0] { assert r[k] in r; assert r[k] in t; }
      } else {
        assert v !in t;
      }
    }
  }

  predicate RemovesVersion(e: Entry, v: int) { e.Live? && e.action == Rem && Target(e.header) == Some(v) }

  /** The removal of `v` is still to be listed. */
  ghost predicate Doomed(j: Journal, p: nat, v: int) {
    exists r :: p <= r < |j| && RemovesVersion(j[r], v)
  }

  /** Removals precede nothing they remove, and what they remove is blank. */
  ghost predicate Consistent(j: Journal) {
    forall r :: 0 <= r < |j| && j[r].Live? && j[r].action == Rem ==>
      Target(j[r].header).Some? && Exists(r, Target(j[r].header).value) && j[Target(j[r].header).value - 1].Blank?
  }

  /** Local versions are positive: `ls_transients` never lets one through to the server. */
  ghost predicate TagsOk(j: Journal) {
    forall i :: 0 <= i < |j| && j[i].Live? && LocalId(j[i].header).Some? ==> LocalId(j[i].header).value > 0
  }

  /** The central versions of the list, when the first `p` entries were listed;
      `hidden` are those a local removal took away early. */
  ghost predicate Central(msgs: seq<int>, j: Journal, p: nat, hidden: set<int>) {
    && p <= |j| && NoDup(msgs)
    && (forall v :: v in msgs && v >= 0 ==> Exists(p, v) && v !in hidden && (Visible(j[v - 1]) || Doomed(j, p, v)))
    && (forall v :: Exists(p, v) && Visible(j[v - 1]) && v !in hidden ==> v in msgs)
    && (forall v :: v in hidden ==> Exists(|j|, v) && (v <= p || j[v - 1].Blank?))
  }

  /** Listing this entry, at index `i`, takes away the central version `v`: its
      header says that `-v` was the local version of the message. */
  predicate Hides(e: Entry, i: nat, unsync: int, v: int) {
    e.Live? && e.action == Add && Replaces(e.header, unsync) && LocalId(e.header).value == -v && 1 <= v <= i
  }

  function HiddenBy(e: Entry, i: nat, unsync: int): (r: set<int>)
    ensures forall v :: v in r <==> Hides(e, i, unsync, v)
  {
    if e.Live? && e.action == Add && Replaces(e.header, unsync) && 1 <= -LocalId(e.header).value <= i then {-LocalId(e.header).value} else {}
  }

  /** What the entries from index `p` on take away. */
  function HiddenFrom(j: Journal, p: nat, unsync: int): (r: set<int>)
    ensures forall v :: v in r <==> exists i :: p <= i < |j| && Hides(j[i], i, unsync, v)
    decreases |j| - p
  {
    if p >= |j| then {} else HiddenBy(j[p], p, unsync) + HiddenFrom(j, p + 1, unsync)
  }

  lemma CentralStepExact(msgs: seq<int>, unsync: int, j: Journal, p: nat, hidden: set<int>)
    requires Consistent(j) && Central(msgs, j, p, hidden) && p < |j|
    ensures Central(Listed(msgs, unsync, p + 1, j[p]), j, p + 1, hidden + HiddenBy(j[p], p, unsync))
  {
    hide Target, LocalId, Shown, Central, Consistent, Dropped, Added;
    match j[p] {
      case Blank => CentralSkipped(msgs, j, p, hidden);
      case Live(Rem, h) => CentralRemoved(msgs, j, p, hidden, h);
      case Live(Add, h) => CentralAdded(msgs, unsync, j, p, hidden, h);
    }
    assert j[p].Blank? || j[p].action == Rem ==> hidden + HiddenBy(j[p], p, unsync) == hidden;
  }

  lemma CentralSkipped(msgs: seq<int>, j: Journal, p: nat, hidden: set<int>)
    requires Central(msgs, j, p, hidden) && p < |j| && j[p].Blank?
    ensures Central(msgs, j, p + 1, hidden)
  {
    hide Target, Shown;
    DoomedLater(j, p);
    hide Doomed;
  }

  /** An entry that removes nothing does not change what is doomed. */
  lemma DoomedLater(j: Journal, p: nat)
    requires p < |j|
    ensures forall v :: Doomed(j, p, v) <==> RemovesVersion(j[p], v) || Doomed(j, p + 1, v)
  {
    hide RemovesVersion;
  }

  lemma CentralRemoved(msgs: seq<int>, j: Journal, p: nat, hidden: set<int>, h: Header)
    requires Consistent(j) && Central(msgs, j, p, hidden) && p < |j| && j[p] == Live(Rem, h)
    ensures Target(h).Some? && Central(Dropped(msgs, Target(h).value), j, p + 1, hidden)
  {
    hide Target, Shown, Dropped;
    DroppedHas(msgs, Target(h).value);
    DoomedLater(j, p);
    hide Doomed;
  }

  lemma CentralAdded(msgs: seq<int>, unsync: int, j: Journal, p: nat, hidden: set<int>, h: Header)
    requires Central(msgs, j, p, hidden) && p < |j| && j[p] == Live(Add, h)
    ensures Central(Added(if Replaces(h, unsync) then Dropped(msgs, -LocalId(h).value) else msgs, h, p + 1), j, p + 1, hidden + HiddenBy(j[p], p, unsync))
  {
    hide LocalId, Shown, Dropped;
    if LocalId(h).Some? { DroppedHas(msgs, -LocalId(h).value); }
    DoomedLater(j, p);
    hide Doomed;
    assert p + 1 !in msgs;
  }

  lemma CentralStep(msgs: seq<int>, unsync: int, j: Journal, p: nat, hidden: set<int>)
    requires Consistent(j) && TagsOk(j) && Central(msgs, j, p, hidden) && p < |j|
    ensures Central(Listed(msgs, unsync, p + 1, j[p]), j, p + 1, hidden)
  {
    hide Central, Consistent, Listed, LocalId;
    CentralStepExact(msgs, unsync, j, p, hidden);
    assert hidden + HiddenBy(j[p], p, unsync) == hidden;
  }

  /** Listing from the cursor keeps the list equal to the visible versions so far,
      less those hidden. */
  lemma {:induction false} CentralListExact(w: View, j: Journal, p: nat, hidden: set<int>)
    requires Consistent(j) && Central(w.msgs, j, p, hidden)
    requires w.sync <= p && forall i :: w.sync <= i < p && 0 <= i ==> j[i].Blank?
    ensures var r := ListFrom(w, j, p);
            && Central(r.msgs, j, |j|, hidden + HiddenFrom(j, p, w.unsync)) && w.sync <= r.sync <= |j|
            && r.unsync == w.unsync && forall i :: r.sync <= i < |j| && 0 <= i ==> j[i].Blank?
    decreases |j| - p
  {
    hide Central, Consistent, Listed, Hides;
    assert p <= |j| by { CentralBounds(w.msgs, j, p, hidden); }
    if p < |j| {
      CentralStepExact(w.msgs, w.unsync, j, p, hidden);
      var w' := View(Listed(w.msgs, w.unsync, p + 1, j[p]), if j[p].Blank? then w.sync else p + 1, w.unsync);
      CentralListExact(w', j, p + 1, hidden + HiddenBy(j[p], p, w.unsync));
      assert hidden + HiddenBy(j[p], p, w.unsync) + HiddenFrom(j, p + 1, w.unsync) == hidden + HiddenFrom(j, p, w.unsync);
    } else {
      assert hidden + HiddenFrom(j, p, w.unsync) == hidden;
    }
  }

  lemma CentralList(w: View, j: Journal, p: nat, hidden: set<int>)
    requires Consistent(j) && TagsOk(j) && Central(w.msgs, j, p, hidden)
    requires w.sync <= p && forall i :: w.sync <= i < p && 0 <= i ==> j[i].Blank?
    ensures var r := ListFrom(w, j, p);
            && Central(r.msgs, j, |j|, hidden) && w.sync <= r.sync <= |j|
            && r.unsync == w.unsync && forall i :: r.sync <= i < |j| && 0 <= i ==> j[i].Blank?
  {
    hide Central, Consistent, ListFrom, HiddenFrom;
    CentralListExact(w, j, p, hidden);
    NoneHidden(j, p, w.unsync);
    assert hidden + HiddenFrom(j, p, w.unsync) == hidden;
  }

  lemma NoneHidden(j: Journal, p: nat, unsync: int)
    requires TagsOk(j)
    ensures HiddenFrom(j, p, unsync) == {}
  {
    hide LocalId, HiddenFrom;
  }

  lemma CentralBounds(msgs: seq<int>, j: Journal, p: nat, hidden: set<int>)
    requires Central(msgs, j, p, hidden)
    ensures p <= |j|
  {
  }

  /** A patch leaves the list valid for the cursor: what it removes is removed later than listed. */
  lemma CentralPatched(msgs: seq<int>, j: Journal, p: nat, hidden: set<int>, a: Action, h: Header, nb: nat)
    requires Central(msgs, j, p, hidden)
    ensures Central(msgs, Patched(j, a, h, h, nb), p, hidden)
  {
    hide Target, Shown;
    var j' := Patched(j, a, h, h, nb);
    assert forall i :: 0 <= i < |j| ==> Padded(j, nb)[i] == Padded(j, nb)[..|j|][i];
    forall v | v in msgs && v >= 0 ensures Exists(p, v) && v !in hidden && (Visible(j'[v - 1]) || Doomed(j', p, v)) {
      if Visible(j[v - 1]) {
        if !Visible(j'[v - 1]) { assert RemovesVersion(j'[|j'| - 1], v); }
      } else {
        var r :| p <= r < |j| && RemovesVersion(j[r], v);
        assert RemovesVersion(j'[r], v);
      }
    }
  }

  lemma ConsistentPatched(j: Journal, a: Action, h: Header, nb: nat)
    requires Consistent(j)
    ensures Consistent(Patched(j, a, h, h, nb))
    ensures TagsOk(j) && (LocalId(h).Some? ==> LocalId(h).value > 0) ==> TagsOk(Patched(j, a, h, h, nb))
  {
    hide Target, LocalId;
    var p := Padded(j, nb);
    assert forall i :: 0 <= i < |j| ==> p[i] == p[..|j|][i];
  }

  /** Rewinding to the cursor is harmless: everything after it was removed. */
  lemma CentralRewind(msgs: seq<int>, j: Journal, p: nat, q: nat, hidden: set<int>)
    requires Central(msgs, j, p, hidden) && q <= p
    requires forall i :: q <= i < p ==> j[i].Blank?
    requires forall v :: v in msgs && v >= 0 ==> Visible(j[v - 1])
    ensures Central(msgs, j, q, hidden)
  {
  }

  /** Once everything was listed, the central versions shown are the visible ones, less the hidden. */
  lemma CentralDone(msgs: seq<int>, j: Journal, hidden: set<int>)
    requires Central(msgs, j, |j|, hidden)
    ensures forall v :: v >= 0 ==> (v in msgs <==> Exists(|j|, v) && Visible(j[v - 1]) && v !in hidden)
  {
  }

  // ----- the view of a journal, without local patches -----

  datatype Step = Patch(action: Action, header: Header, gap: nat) | Update

  function Journaled(steps: seq<Step>): Journal {
    if steps == [] then [] else
      var j := Journaled(steps[..|steps| - 1]);
      match steps[|steps| - 1]
      case Patch(a, h, nb) => Patched(j, a, h, h, nb)
      case Update => j
  }

  function Viewed(steps: seq<Step>): View {
    if steps == [] then EMPTY else
      var w := Viewed(steps[..|steps| - 1]);
      if steps[|steps| - 1].Update? then SynchList(w, Journaled(steps)) else w
  }

  /** Updates and patches, one after the other. */
  lemma StepsMore(p: seq<Step>, a: Action, h: Header, nb: nat)
    ensures Journaled(p + [Patch(a, h, nb)]) == Patched(Journaled(p), a, h, h, nb) && Journaled(p + [Update]) == Journaled(p)
    ensures Viewed(p + [Update]) == SynchList(Viewed(p), Journaled(p)) && Viewed(p + [Patch(a, h, nb)]) == Viewed(p)
  {
    hide Patched, SynchList;
    assert (p + [Patch(a, h, nb)])[..|p|] == p && (p + [Update])[..|p|] == p;
  }

  /** The versions that should be listed, in order. */
  function VisibleVersions(j: Journal): seq<int> {
    if j == [] then [] else
      var s := VisibleVersions(j[..|j| - 1]);
      if Visible(j[|j| - 1]) then s + [|j|] else s
  }

  predicate Rising(s: seq<int>) { forall i, k :: 0 <= i < k < |s| ==> s[i] < s[k] }

  lemma {:induction false} VisibleHas(j: Journal)
    ensures Rising(VisibleVersions(j))
    ensures forall v :: v in VisibleVersions(j) <==> Exists(|j|, v) && Visible(j[v - 1])
  {
    hide Visible;
    if j != [] {
      VisibleHas(j[..|j| - 1]);
      var s := VisibleVersions(j[..|j| - 1]);
      forall i | 0 <= i < |s| ensures s[i] < |j| { assert s[i] in s; }
    }
  }

  lemma {:induction false} RisingUnique(a: seq<int>, b: seq<int>)
    requires Rising(a) && Rising(b) && forall x :: x in a <==> x in b
    ensures a == b
  {
    if a != [] {
      var x := a[|a| - 1];
      assert x in a;
      assert b[|b| - 1] in b;
      var p, q := a[..|a| - 1], b[..|b| - 1];
      assert a == p + [x] && b == q + [b[|b| - 1]];
      LastIsGreatest(a, b);
      forall y ensures y in p <==> y in q {
        if y in p { assert y in b && y != x; }
        if y in q { assert y in a && y != x; }
      }
      RisingUnique(p, q);
    } else {
      HeadIn(b);
    }
  }

  lemma HeadIn(s: seq<int>)
    ensures s != [] ==> s[0] in s
  {
  }

  lemma LastIsGreatest(a: seq<int>, b: seq<int>)
    requires Rising(a) && Rising(b) && a != [] && b != []
    requires a[|a| - 1] in b && b[|b| - 1] in a
    ensures a[|a| - 1] == b[|b| - 1]
  {
  }

  /** A list of central versions only, in order of version. */
  ghost predicate InOrder(msgs: seq<int>, p: nat) { Rising(msgs) && forall i :: 0 <= i < |msgs| ==> 1 <= msgs[i] <= p }

  lemma {:induction false} DroppedForm(s: seq<int>, v: int) returns (i: nat)
    ensures i <= |s|
    ensures Dropped(s, v) == if i < |s| then s[..i] + s[i + 1..] else s
  {
    if s == [] {
      i := 0;
    } else if s[0] == v {
      i := 0;
    } else {
      var k := DroppedForm(s[1..], v);
      i := k + 1;
      assert s == [s[0]] + s[1..];
      if i < |s| {
        assert s[..i] == [s[0]] + s[1..][..k];
        assert s[i + 1..] == s[1..][k + 1..];
      }
    }
  }

  lemma DroppedRises(s: seq<int>, v: int, p: nat)
    requires InOrder(s, p)
    ensures InOrder(Dropped(s, v), p)
  {
    var i := DroppedForm(s, v);
    hide Dropped;
  }

  lemma ListedRises(msgs: seq<int>, unsync: int, j: Journal, p: nat)
    requires p < |j| && InOrder(msgs, p)
    ensures InOrder(Listed(msgs, unsync, p + 1, j[p]), p + 1)
  {
    hide LocalId, Target, Shown, InOrder, Dropped, Added;
    Wider(msgs, p);
    match j[p] {
      case Blank =>
      case Live(Rem, h) =>
        if Target(h).Some? {
          DroppedRises(msgs, Target(h).value, p);
          Wider(Dropped(msgs, Target(h).value), p);
        }
      case Live(Add, h) =>
        if Replaces(h, unsync) { DroppedRises(msgs, -LocalId(h).value, p); }
        AddedRises(if Replaces(h, unsync) then Dropped(msgs, -LocalId(h).value) else msgs, h, p);
    }
  }

  lemma Wider(msgs: seq<int>, p: nat)
    ensures InOrder(msgs, p) ==> InOrder(msgs, p + 1)
  {
  }

  lemma AddedRises(msgs: seq<int>, h: Header, p: nat)
    requires InOrder(msgs, p)
    ensures InOrder(Added(msgs, h, p + 1), p + 1)
  {
    hide Shown;
  }

  lemma {:induction false} ListRises(w: View, j: Journal, p: nat)
    requires p <= |j| && InOrder(w.msgs, p)
    ensures InOrder(ListFrom(w, j, p).msgs, |j|)
    decreases |j| - p
  {
    hide Listed, InOrder;
    if p < |j| {
      ListedRises(w.msgs, w.unsync, j, p);
      ListRises(View(Listed(w.msgs, w.unsync, p + 1, j[p]), if j[p].Blank? then w.sync else p + 1, w.unsync), j, p + 1);
    }
  }

  ghost predicate ViewInv(w: View, j: Journal, hidden: set<int>) {
    0 <= w.sync <= |j| && w.unsync == 0 && Central(w.msgs, j, w.sync, hidden) && InOrder(w.msgs, w.sync)
  }

  /** A version that a list should hold. */
  predicate Listable(j: Journal, v: int) { Exists(|j|, v) && Visible(j[v - 1]) }

  /** An update from a valid cursor lists the visible versions that are not hidden, and leaves a valid cursor. */
  lemma UpdateLists(w: View, j: Journal, hidden: set<int>)
    requires ViewInv(w, j, hidden) && Consistent(j)
    ensures var r, hidden' := SynchList(w, j), hidden + HiddenFrom(j, w.sync, 0);
      && ViewInv(r, j, hidden') && Rising(r.msgs)
      && (forall v :: v in r.msgs <==> Listable(j, v) && v !in hidden')
      && (r.msgs == VisibleVersions(j) <==> forall v :: v in hidden' ==> !Listable(j, v))
  {
    hide Visible, Consistent, ListFrom, VisibleVersions, Central, HiddenFrom;
    var r, hidden' := SynchList(w, j), hidden + HiddenFrom(j, w.sync, 0);
    CentralListExact(w, j, w.sync, hidden);
    ListRises(w, j, w.sync);
    CentralDone(r.msgs, j, hidden');
    VisibleHas(j);
    forall v ensures v in r.msgs <==> Listable(j, v) && v !in hidden' {
      if v in r.msgs { var i :| 0 <= i < |r.msgs| && r.msgs[i] == v; }
    }
    if forall v :: v in hidden' ==> !Listable(j, v) { RisingUnique(r.msgs, VisibleVersions(j)); }
    forall i | 0 <= i < |r.msgs| ensures r.msgs[i] <= r.sync { assert r.msgs[i] in r.msgs; VisibleLive(j, r.msgs[i]); }
    CentralRewind(r.msgs, j, |j|, r.sync, hidden');
  }

  lemma VisibleLive(j: Journal, v: int)
    requires Exists(|j|, v) && Visible(j[v - 1])
    ensures j[v - 1].Live?
  {
  }

  /** The versions taken away by additions that were listed, each alive when it was. */
  function Lost(steps: seq<Step>): set<int> {
    if steps == [] then {}
    else
      var p := steps[..|steps| - 1];
      if steps[|steps| - 1].Update? then Lost(p) + HiddenFrom(Journaled(p), if Viewed(p).sync < 0 then 0 else Viewed(p).sync, 0) else Lost(p)
  }

  /** What is alive up to the cursor was listed alive. */
  ghost predicate Covered(j: Journal, p: int, hidden: set<int>) {
    forall i, v :: 0 <= i < p && i < |j| && Hides(j[i], i, 0, v) ==> v in hidden
  }

  lemma {:induction false} RunView(steps: seq<Step>)
    ensures var j, w := Journaled(steps), Viewed(steps); Consistent(j) && ViewInv(w, j, Lost(steps)) && Covered(j, w.sync, Lost(steps))
  {
    hide Consistent, Central, InOrder, LocalId, Patched, SynchList, Hides, Rising, HiddenFrom;
    if steps == [] {
      StartOk();
    } else {
      var p, s := steps[..|steps| - 1], steps[|steps| - 1];
      RunView(p);
      var j, w := Journaled(p), Viewed(p);
      if s.Patch? {
        ConsistentPatched(j, s.action, s.header, s.gap);
        CentralPatched(w.msgs, j, w.sync, Lost(p), s.action, s.header, s.gap);
        CoveredPatched(j, w.sync, Lost(p), s.action, s.header, s.gap);
      } else {
        UpdateLists(w, j, Lost(p));
        CoveredAfter(j, w.sync, Lost(p));
      }
    }
  }

  lemma CoveredPatched(j: Journal, p: int, hidden: set<int>, a: Action, h: Header, nb: nat)
    requires Covered(j, p, hidden) && p <= |j|
    ensures Covered(Patched(j, a, h, h, nb), p, hidden)
  {
    hide Target, LocalId, Replaces;
    var q := Padded(j, nb);
    assert forall i :: 0 <= i < |j| ==> q[i] == q[..|j|][i];
  }

  lemma CoveredAfter(j: Journal, p: nat, hidden: set<int>)
    requires Covered(j, p, hidden)
    ensures Covered(j, |j|, hidden + HiddenFrom(j, p, 0))
  {
    hide Hides, HiddenFrom;
  }

  lemma StartOk()
    ensures Consistent([]) && Central([], [], 0, {}) && InOrder([], 0)
  {
  }

  /** Incremental view.  However updates interleave with patches and removals,
      after an update the list holds the live additions that are neither
      directories nor marks, each once, in order, less those that an addition
      listed alive took away; so it is right if and only if it took none that is
      still visible, and equal to a fresh listing if and only if those it took
      are taken by additions still alive. */
  lemma IncrementalView(steps: seq<Step>)
    ensures var j, r, lost := Journaled(steps), Viewed(steps + [Update]), Lost(steps + [Update]);
      && Rising(r.msgs) && (forall v :: v in r.msgs <==> Listable(j, v) && v !in lost)
      && (r.msgs == VisibleVersions(j) <==> forall v :: v in lost ==> !Listable(j, v))
      && (r.msgs == SynchList(EMPTY, j).msgs <==> forall v :: v in lost && Listable(j, v) ==> v in HiddenFrom(j, 0, 0))
  {
    hide Consistent, VisibleVersions, SynchList, Central, InOrder, HiddenFrom, Rising, Listable;
    var all := steps + [Update];
    assert all[..|steps|] == steps;
    RunView(steps);
    var j, w := Journaled(steps), Viewed(steps);
    UpdateLists(w, j, Lost(steps));
    FreshOk(j);
    UpdateLists(EMPTY, j, {});
    CoveredAfter(j, w.sync, Lost(steps));
    var r, f, lost := Viewed(all), SynchList(EMPTY, j), Lost(all);
    assert forall v :: v in HiddenFrom(j, 0, 0) ==> v in lost by { CoveredAll(j, lost); }
    assert {} + HiddenFrom(j, 0, 0) == HiddenFrom(j, 0, 0);
    if forall v :: v in lost && Listable(j, v) ==> v in HiddenFrom(j, 0, 0) { RisingUnique(r.msgs, f.msgs); }
  }

  lemma CoveredAll(j: Journal, hidden: set<int>)
    requires Covered(j, |j|, hidden)
    ensures forall v :: v in HiddenFrom(j, 0, 0) ==> v in hidden
  {
    hide Hides, HiddenFrom;
  }

  lemma FreshOk(j: Journal)
    ensures ViewInv(EMPTY, j, {})
  {
  }

  /** A fresh listing is right if and only if no live addition says that `-v` was
      its local version for a version `v` visible before it. */
  lemma FreshView(j: Journal)
    requires Consistent(j)
    ensures SynchList(EMPTY, j).msgs == VisibleVersions(j)
      <==> forall i, v :: 0 <= i < |j| && Hides(j[i], i, 0, v) ==> !Listable(j, v)
  {
    hide Consistent, VisibleVersions, SynchList, HiddenFrom, Listable, Hides, Central, InOrder;
    FreshOk(j);
    UpdateLists(EMPTY, j, {});
    assert {} + HiddenFrom(j, 0, 0) == HiddenFrom(j, 0, 0);
  }

  /** Local versions above 0, as they are unless a header is forged: the list is right and equal to a fresh one. */
  lemma IncrementalEqualsFresh(steps: seq<Step>)
    requires forall i :: 0 <= i < |steps| && steps[i].Patch? && LocalId(steps[i].header).Some? ==> LocalId(steps[i].header).value >= 0
    ensures var j := Journaled(steps);
            Viewed(steps + [Update]).msgs == VisibleVersions(j) == SynchList(EMPTY, j).msgs
  {
    hide VisibleVersions, SynchList, HiddenFrom, Listable, LocalId, Rising;
    var all := steps + [Update];
    assert forall i :: 0 <= i < |all| && all[i].Patch? ==> all[i] == steps[i];
    NothingLost(all);
    IncrementalView(steps);
  }

  lemma {:induction false} NothingLost(steps: seq<Step>)
    requires forall i :: 0 <= i < |steps| && steps[i].Patch? && LocalId(steps[i].header).Some? ==> LocalId(steps[i].header).value >= 0
    ensures Lost(steps) == {}
    ensures forall i, v :: 0 <= i < |Journaled(steps)| ==> !Hides(Journaled(steps)[i], i, 0, v)
  {
    hide LocalId, HiddenFrom, Patched, Viewed;
    if steps != [] {
      var p, s := steps[..|steps| - 1], steps[|steps| - 1];
      NothingLost(p);
      if s.Patch? { NoHidesPatched(Journaled(p), s.action, s.header, s.gap); }
    }
  }

  lemma NoHidesPatched(j: Journal, a: Action, h: Header, nb: nat)
    requires forall i, v :: 0 <= i < |j| ==> !Hides(j[i], i, 0, v)
    requires LocalId(h).Some? ==> LocalId(h).value >= 0
    ensures var r := Patched(j, a, h, h, nb); forall i, v :: 0 <= i < |r| ==> !Hides(r[i], i, 0, v)
  {
    hide Target, LocalId;
    var q := Padded(j, nb);
    assert forall i :: 0 <= i < |j| ==> q[i] == q[..|j|][i];
  }

  /** Such an addition. */
  lemma NegativeLocalIdHides()
    ensures var j := [Live(Add, []), Live(Add, [LocalTag(-1)])];
            VisibleVersions(j) == [1, 2] && SynchList(EMPTY, j).msgs == [2]
  {
    TagKeeps([], -1);
    assert [] + [LocalTag(-1)] == [LocalTag(-1)];
    var j := [Live(Add, []), Live(Add, [LocalTag(-1)])];
    assert j[..1] == [Live(Add, [])] && j[..1][..0] == [];
    var w1 := View([1], 1, 0);
    assert [] + [1] == [1];
    assert ListFrom(EMPTY, j, 0) == ListFrom(w1, j, 1);
    assert Listed([1], 0, 2, j[1]) == [2];
    assert ListFrom(w1, j, 1) == ListFrom(View([2], 2, 0), j, 2);
  }

  // ----- the loops -----

  /** A file of the `.tmp` directory: `+n` or `-n`. */
  datatype Transient = Plus(header: Header) | Minus(target: int)

  /** One file of `.tmp`, when it is newer than what was listed before. */
  function ListTransient(msgs: seq<int>, n: int, t: Transient): seq<int> {
    match t
    case Plus(h) => Added(msgs, h, -n)
    case Minus(target) => Dropped(msgs, target)
  }

  function TransientList(w: View, tmp: map<int, Transient>, order: seq<int>, start: int): View {
    if order == [] then w else
      var r, n := TransientList(w, tmp, order[..|order| - 1], start), order[|order| - 1];
      if n !in tmp || n <= start then r
      else View(ListTransient(r.msgs, n, tmp[n]), r.sync, if n > r.unsync then n else r.unsync)
  }

  class Mdirc {
    var msgs: seq<int>
    var nbMsgs: int
    var lastListedSync: int
    var lastListedUnsync: int

    ghost predicate Valid()
      reads this
    {
      nbMsgs == |msgs|
    }

    ghost function State(): View
      reads this
    {
      View(msgs, lastListedSync, lastListedUnsync)
    }

    constructor ()
      ensures Valid() && State() == EMPTY
    {
      msgs, nbMsgs, lastListedSync, lastListedUnsync := [], 0, 0, 0;
    }

    /** `find_msg_by_version` and `rem_msg`. */
    method RemMsg(version: int)
      requires Valid()
      modifies this`msgs, this`nbMsgs
      ensures Valid() && msgs == Dropped(old(msgs), version)
    {
      var i := 0;
      while i < |msgs| && msgs[i] != version
        invariant 0 <= i <= |msgs|
        invariant Dropped(msgs, version) == msgs[..i] + Dropped(msgs[i..], version)
      {
        assert msgs[i..][1..] == msgs[i + 1..];
        assert msgs[..i + 1] == msgs[..i] + [msgs[i]];
        i := i + 1;
      }
      if i < |msgs| {
        assert msgs[i..][1..] == msgs[i + 1..];
        msgs := msgs[..i] + msgs[i + 1..];
        nbMsgs := nbMsgs - 1;
      } else {
        assert msgs[..i] + [] == msgs;
      }
    }

    /** `add_msg`; marks attached to messages are not kept here. */
    method AddMsg(header: Header, version: int)
      requires Valid()
      modifies this`msgs, this`nbMsgs
      ensures Valid() && msgs == Added(old(msgs), header, version)
      ensures msgs == if Says(header, "dir") || Says(header, "mark") then old(msgs) else old(msgs) + [version]
    {
      ShownByField(header);
      if IsDirectory(header) { return; }
      if HasType(header, SC_MARK_TYPE) { return; }
      msgs := msgs + [version];
      nbMsgs := nbMsgs + 1;
    }

    /** The body of the loop of `synch_list`. */
    method ListEntry(version: int, entry: Entry)
      requires Valid()
      modifies this`msgs, this`nbMsgs, this`lastListedSync
      ensures Valid() && State() == View(Listed(old(msgs), lastListedUnsync, version, entry),
                                         if entry.Blank? then old(lastListedSync) else version, lastListedUnsync)
    {
      hide Shown, LocalId, Target;
      if entry.Blank? { return; }
      var h := entry.header;
      if entry.action == Rem {
        var target := Target(h);
        if target.Some? { RemMsg(target.value); }
      } else {
        var local := LocalId(h);
        if local.Some? && local.value <= lastListedUnsync { RemMsg(-local.value); }
        AddMsg(h, version);
      }
      lastListedSync := version;
    }

    /** The inner loop of `synch_list`: one journal, from version `from` on. */
    method ListJnl(mdir: Mdir, jnl: Jnl, from: int)
      requires Valid() && mdir.Valid() && jnl in mdir.jnls && jnl.version <= from <= jnl.version + jnl.nbPatches
      requires 1 <= jnl.version && lastListedSync >= 0
      modifies this`msgs, this`nbMsgs, this`lastListedSync
      ensures Valid() && lastListedSync >= 0
      ensures ListFrom(State(), mdir.Journal(), jnl.version + jnl.nbPatches - 1) == old(ListFrom(State(), mdir.Journal(), from - 1))
    {
      hide Listed, Mdir.Journal, Mdir.Valid;
      for index := from - jnl.version to jnl.nbPatches
        invariant Valid() && lastListedSync >= 0
        invariant ListFrom(State(), mdir.Journal(), jnl.version - 1 + index) == old(ListFrom(State(), mdir.Journal(), from - 1))
      {
        var entry, parsed := mdir.ReadAt(jnl, jnl.version + index);
        Length(mdir);
        ListEntry(jnl.version + index, entry);
      }
    }

    /** `synch_list`, through the list of journals. */
    method SynchListing(mdir: Mdir)
      requires Valid() && mdir.Valid() && lastListedSync >= 0
      modifies this`msgs, this`nbMsgs, this`lastListedSync
      ensures Valid() && State() == SynchList(old(State()), mdir.Journal()) && lastListedSync >= 0
    {
      hide ListFrom, Mdir.Journal, Holds, Mdir.Valid;
      var from := lastListedSync + 1;
      ghost var p: nat := lastListedSync;
      for i := 0 to |mdir.jnls|
        invariant Valid() && lastListedSync >= 0 && Reached(mdir, i, from, p)
        invariant ListFrom(State(), mdir.Journal(), p) == old(SynchList(State(), mdir.Journal()))
      {
        from, p := SynchJnl(mdir, i, from, p);
      }
      ListedAll(State(), mdir, p) by { ReachedAll(mdir, from, p); }
    }

    /** The first `i` journals were listed, up to index `p`; listing goes on at version `from`. */
    ghost predicate Reached(mdir: Mdir, i: nat, from: int, p: nat)
      reads mdir, mdir.jnls
    {
      && i <= |mdir.jnls| && from >= 1 && p >= from - 1
      && (i > 0 ==> p >= mdir.jnls[i - 1].version + mdir.jnls[i - 1].nbPatches - 1)
      && (p == from - 1 || (i > 0 && from <= p && p == mdir.jnls[i - 1].version + mdir.jnls[i - 1].nbPatches - 1))
    }

    /** One turn of the loop of `synch_list` over the journals. */
    method SynchJnl(mdir: Mdir, i: nat, from: int, ghost p: nat) returns (from': int, ghost p': nat)
      requires Valid() && mdir.Valid() && lastListedSync >= 0 && Reached(mdir, i, from, p) && i < |mdir.jnls|
      modifies this`msgs, this`nbMsgs, this`lastListedSync
      ensures Valid() && lastListedSync >= 0 && Reached(mdir, i + 1, from', p')
      ensures ListFrom(State(), mdir.Journal(), p') == old(ListFrom(State(), mdir.Journal(), p))
    {
      hide ListFrom, Mdir.Journal, Holds;
      from', p' := from, p;
      var jnl := mdir.jnls[i];
      assert 1 <= jnl.version by { Starts(mdir, i); }
      if jnl.version + jnl.nbPatches > from {
        if from < jnl.version { from' := jnl.version; }
        assert p == from' - 1;
        ListJnl(mdir, jnl, from');
        p' := jnl.version + jnl.nbPatches - 1;
      }
    }

    lemma ReachedAll(mdir: Mdir, from: int, p: nat)
      requires mdir.Valid() && Reached(mdir, |mdir.jnls|, from, p)
      ensures p >= |mdir.contents|
    {
    }

    /** The loop of `transient_list`, over the files in the order the directory gives them. */
    method TransientListing(tmp: map<int, Transient>, order: seq<int>)
      requires Valid() && forall i :: 0 <= i < |order| ==> order[i] in tmp
      modifies this`msgs, this`nbMsgs, this`lastListedUnsync
      ensures Valid() && State() == TransientList(old(State()), tmp, order, old(lastListedUnsync))
    {
      var start := lastListedUnsync;
      hide Shown;
      for i := 0 to |order|
        invariant Valid() && State() == TransientList(old(State()), tmp, order[..i], start)
      {
        var n := order[i];
        assert order[..i + 1][..i] == order[..i];
        if n <= start { continue; }
        if n > lastListedUnsync { lastListedUnsync := n; }
        match tmp[n] {
          case Minus(target) => RemMsg(target);
          case Plus(h) => AddMsg(h, -n);
        }
      }
      assert order[..|order|] == order;
    }

    /** `mdirc_update`: the journals, then the local patches. */
    method Update(mdir: Mdir, tmp: map<int, Transient>, order: seq<int>)
      requires Valid() && mdir.Valid() && lastListedSync >= 0 && forall i :: 0 <= i < |order| ==> order[i] in tmp
      modifies this
      ensures Valid() && lastListedSync >= 0
      ensures var w := SynchList(old(State()), mdir.Journal()); State() == TransientList(w, tmp, order, w.unsync)
    {
      SynchListing(mdir);
      hide Mdir.Journal, Mdir.Valid, SynchList;
      ghost var w := State();
      TransientListing(tmp, order);
      assert lastListedSync >= 0 by { TransientSync(w, tmp, order, w.unsync); }
    }
  }

  lemma {:induction false} TransientSync(w: View, tmp: map<int, Transient>, order: seq<int>, start: int)
    ensures TransientList(w, tmp, order, start).sync == w.sync
  {
    if order != [] { TransientSync(w, tmp, order[..|order| - 1], start); }
  }

  lemma Starts(m: Mdir, i: nat)
    requires m.Valid() && i < |m.jnls|
    ensures 1 <= m.jnls[i].version
  {
    assert Holds(m.jnls[i], m.contents);
  }

  lemma ListedAll(w: View, m: Mdir, p: nat)
    requires p >= |m.contents|
    ensures ListFrom(w, m.Journal(), p) == w
  {
  }

  lemma Length(m: Mdir)
    ensures |m.Journal()| == |m.contents|
  {
  }
}
