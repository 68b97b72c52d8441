/** The mark index (`last_mark` of lib/jnl.c, updated by `mdir_patch`): each
    version heads a linked list of the marks that target it.
    The index file is taken to be written in place, which the way the source
    opens it does not give on every system (`Journals.AppendedEntryMisplaced`). */
module Marks {
  import opened Headers
  import opened Journals
  import opened Mdirs

  /** Target of each version's header, 0 when it is no mark (or a blank entry). */
  type Targets = seq<int>

  function TargetsOf(hs: seq<Header>): (ts: Targets)
    ensures |ts| == |hs| && forall i :: 0 <= i < |hs| ==> ts[i] == MarkTarget(hs[i])
  {
    seq(|hs|, i requires 0 <= i < |hs| => MarkTarget(hs[i]))
  }

  /** The mark index after the headers `hs` were appended one after the other. */
  function Index(hs: seq<Header>): (m: seq<int>)
    ensures |m| == |hs|
  {
    if hs == [] then [] else Threaded(Index(hs[..|hs| - 1]), hs[|hs| - 1])
  }

  /** The mark was linked: its target existed before it. */
  predicate Linked(ts: Targets, v: int) { Exists(|ts|, v) && 1 <= ts[v - 1] < v }

  /** For each version, what it is about in the end, through marks of marks. */
  function Roots(ts: Targets): (rs: seq<int>)
    ensures |rs| == |ts|
  {
    if ts == [] then [] else
      var rs, t := Roots(ts[..|ts| - 1]), ts[|ts| - 1];
      rs + [if Exists(|rs|, t) then rs[t - 1] else |ts|]
  }

  function Root(ts: Targets, v: int): int
    requires Exists(|ts|, v)
  {
    Roots(ts)[v - 1]
  }

  /** A linked mark has the root of its target; any other version is its own root. */
  lemma {:induction false} RootOf(ts: Targets, v: int)
    requires Exists(|ts|, v)
    ensures Root(ts, v) == if Linked(ts, v) then Root(ts, ts[v - 1]) else v
  {
    var p := ts[..|ts| - 1];
    if v < |ts| { RootOf(p, v); }
  }

  /** Following the index from `v` visits exactly `l`, then stops. */
  predicate Path(m: seq<int>, v: int, l: seq<int>) {
    && l != [] && l[0] == v
    && (forall i :: 0 <= i < |l| ==> Exists(|m|, l[i]))
    && (forall i :: 0 <= i < |l| - 1 ==> m[l[i] - 1] == l[i + 1])
    && m[l[|l| - 1] - 1] == 0
  }

  predicate NoRepeat(l: seq<int>) { forall i, j :: 0 <= i < j < |l| ==> l[i] != l[j] }

  /** `ls[i]` is the list that version `i + 1` belongs to, headed by its root `rs[i]`. */
  ghost predicate Partition(m: seq<int>, rs: seq<int>, ls: seq<seq<int>>) {
    && |m| == |rs| == |ls|
    && (forall i :: 0 <= i < |ls| ==> Path(m, rs[i], ls[i]) && NoRepeat(ls[i]) && i + 1 in ls[i])
    && (forall i, x :: 0 <= i < |ls| && x in ls[i] ==> Exists(|rs|, x) && rs[x - 1] == rs[i])
    && (forall i, k :: 0 <= i < |ls| && 0 <= k < |ls| && rs[i] == rs[k] ==> ls[i] == ls[k])
  }

  /** The index after a new version was linked in front of `t`'s list. */
  function Link(m: seq<int>, t: int): (r: seq<int>)
    requires Exists(|m|, t)
    ensures |r| == |m| + 1 && r[t - 1] == |m| + 1 && r[|m|] == m[t - 1]
    ensures forall i :: 0 <= i < |m| && i != t - 1 ==> r[i] == m[i]
  {
    (m + [0])[t - 1 := |m| + 1][|m| := m[t - 1]]
  }

  /** `n` is inserted after the element at `p` of a list. */
  function After(l: seq<int>, p: nat, n: int): (r: seq<int>)
    requires p < |l|
    ensures |r| == |l| + 1
    ensures forall i :: 0 <= i <= p ==> r[i] == l[i]
    ensures r[p + 1] == n
    ensures forall i :: p + 2 <= i < |r| ==> r[i] == l[i - 1]
    ensures forall x :: x in r <==> x in l || x == n
  {
    var r := l[..p + 1] + [n] + l[p + 1..];
    assert l == l[..p + 1] + l[p + 1..];
    r
  }

  lemma Spliced(m: seq<int>, v: int, l: seq<int>, p: nat)
    requires Path(m, v, l) && NoRepeat(l) && p < |l|
    ensures Path(Link(m, l[p]), v, After(l, p, |m| + 1)) && NoRepeat(After(l, p, |m| + 1))
  {
    hide Link, After;
    var m', l' := Link(m, l[p]), After(l, p, |m| + 1);
    forall i | 0 <= i < |l'| - 1 ensures m'[l'[i] - 1] == l'[i + 1] {
      if i < p { assert l[i] != l[p]; }
      if i > p + 1 { assert l[p] != l[i - 1]; }
    }
    if p < |l| - 1 { assert l[p] != l[|l| - 1]; }
  }

  /** A path that does not visit the changed version is not disturbed. */
  lemma Untouched(m: seq<int>, v: int, l: seq<int>, t: int)
    requires Path(m, v, l) && Exists(|m|, t) && t !in l
    ensures Path(Link(m, t), v, l)
  {
    hide Link;
    assert forall i :: 0 <= i < |l| ==> l[i] in l;
  }

  /** The lists once `l` replaced that of version `t`, and a new version joined it. */
  function Relist(ls: seq<seq<int>>, rs: seq<int>, t: int, l: seq<int>): (r: seq<seq<int>>)
    requires |ls| == |rs| && Exists(|rs|, t)
    ensures |r| == |ls| + 1 && r[|ls|] == l
    ensures forall i :: 0 <= i < |ls| ==> r[i] == if rs[i] == rs[t - 1] then l else ls[i]
  {
    seq(|ls|, i requires 0 <= i < |ls| => if rs[i] == rs[t - 1] then l else ls[i]) + [l]
  }

  lemma LinkStep(m: seq<int>, rs: seq<int>, ls: seq<seq<int>>, t: int) returns (ls': seq<seq<int>>)
    requires Partition(m, rs, ls) && Exists(|rs|, t)
    ensures Partition(Link(m, t), rs + [rs[t - 1]], ls')
  {
    var n, l := |m| + 1, ls[t - 1];
    assert t - 1 + 1 in l;
    var p :| 0 <= p < |l| && l[p] == t;
    var l' := After(l, p, n);
    Spliced(m, rs[t - 1], l, p);
    ls' := Relist(ls, rs, t, l');
    hide Path, NoRepeat, Link, After, Relist;
    var rs' := rs + [rs[t - 1]];
    forall i | 0 <= i < |ls'| ensures Path(Link(m, t), rs'[i], ls'[i]) && NoRepeat(ls'[i]) && i + 1 in ls'[i] {
      RelistPaths(m, rs, ls, t, l', i);
    }
    forall i, x | 0 <= i < |ls'| && x in ls'[i] ensures Exists(|rs'|, x) && rs'[x - 1] == rs'[i] {
      RelistRoots(ls, rs, t, l', i, x);
    }
    hide Partition;
    assert forall i :: 0 <= i < |ls'| ==> rs'[i] == if i < |rs| then rs[i] else rs[t - 1];
    Assembled(Link(m, t), rs, ls, t, l', rs', ls');
  }

  lemma Assembled(m: seq<int>, rs: seq<int>, ls: seq<seq<int>>, t: int, l: seq<int>, rs': seq<int>, ls': seq<seq<int>>)
    requires |ls| == |rs| && |m| == |rs| + 1 && Exists(|rs|, t)
    requires forall i, k :: 0 <= i < |ls| && 0 <= k < |ls| && rs[i] == rs[k] ==> ls[i] == ls[k]
    requires rs' == rs + [rs[t - 1]] && |ls'| == |rs'| && ls' == Relist(ls, rs, t, l)
    requires forall i :: 0 <= i < |ls'| ==> Path(m, rs'[i], ls'[i]) && NoRepeat(ls'[i]) && i + 1 in ls'[i]
    requires forall i, x :: 0 <= i < |ls'| && x in ls'[i] ==> Exists(|rs'|, x) && rs'[x - 1] == rs'[i]
    ensures Partition(m, rs', ls')
  {
    hide Path, NoRepeat, Relist;
  }

  lemma RelistPaths(m: seq<int>, rs: seq<int>, ls: seq<seq<int>>, t: int, l: seq<int>, i: nat)
    requires Partition(m, rs, ls) && Exists(|rs|, t) && i <= |ls|
    requires Path(Link(m, t), rs[t - 1], l) && NoRepeat(l)
    requires |m| + 1 in l && forall x :: x in ls[t - 1] ==> x in l
    ensures var rs', ls' := rs + [rs[t - 1]], Relist(ls, rs, t, l);
            Path(Link(m, t), rs'[i], ls'[i]) && NoRepeat(ls'[i]) && i + 1 in ls'[i]
  {
    hide Path, NoRepeat, Link, Relist;
    if i < |ls| {
      assert i + 1 in ls[i];
      if rs[i] == rs[t - 1] {
        assert ls[i] == ls[t - 1];
      } else {
        assert t !in ls[i];
        Untouched(m, rs[i], ls[i], t);
      }
    }
  }

  lemma RelistRoots(ls: seq<seq<int>>, rs: seq<int>, t: int, l: seq<int>, i: nat, x: int)
    requires |ls| == |rs| && Exists(|rs|, t) && i <= |ls| && x in Relist(ls, rs, t, l)[i]
    requires forall i, x :: 0 <= i < |ls| && x in ls[i] ==> Exists(|rs|, x) && rs[x - 1] == rs[i]
    requires forall x :: x in l ==> x in ls[t - 1] || x == |rs| + 1
    ensures var rs' := rs + [rs[t - 1]]; Exists(|rs'|, x) && rs'[x - 1] == rs'[i]
  {
    hide Relist;
    var rs' := rs + [rs[t - 1]];
    assert rs'[i] == if i < |rs| then rs[i] else rs[t - 1];
    if i < |ls| && rs[i] != rs[t - 1] {
      assert x in ls[i];
      assert Exists(|rs|, x) && rs[x - 1] == rs[i];
      assert rs'[x - 1] == rs[x - 1];
    } else if x != |rs| + 1 {
      assert x in ls[t - 1];
      assert Exists(|rs|, x) && rs[x - 1] == rs[t - 1];
      assert rs'[x - 1] == rs[x - 1];
    }
  }

  lemma RootStep(m: seq<int>, rs: seq<int>, ls: seq<seq<int>>) returns (ls': seq<seq<int>>)
    requires Partition(m, rs, ls)
    ensures Partition(m + [0], rs + [|m| + 1], ls')
  {
    var n := |m| + 1;
    ls' := ls + [[n]];
    assert Path(m + [0], n, [n]) && NoRepeat([n]);
    forall i | 0 <= i < |ls| ensures Path(m + [0], rs[i], ls[i]) && rs[i] != n {
      assert Path(m, rs[i], ls[i]);
      assert ls[i][0] in ls[i];
    }
    hide Path, NoRepeat;
  }

  lemma {:induction false} Threads(hs: seq<Header>) returns (ls: seq<seq<int>>)
    ensures Partition(Index(hs), Roots(TargetsOf(hs)), ls)
  {
    if hs == [] {
      ls := [];
    } else {
      var part, h := hs[..|hs| - 1], hs[|hs| - 1];
      ls := Threads(part);
      var m, ts, t := Index(part), TargetsOf(part), MarkTarget(h);
      assert TargetsOf(hs) == ts + [t];
      assert (ts + [t])[..|ts|] == ts;
      hide Partition, MarkTarget, TargetsOf;
      ThreadedIs(m, h);
      if Exists(|ts|, t) {
        ls := LinkStep(m, Roots(ts), ls, t);
      } else {
        ls := RootStep(m, Roots(ts), ls);
      }
    }
  }

  lemma ThreadedIs(m: seq<int>, h: Header)
    ensures Threaded(m, h) == if Exists(|m|, MarkTarget(h)) then Link(m, MarkTarget(h)) else m + [0]
  {
    hide MarkTarget;
    var t := MarkTarget(h);
    if Exists(|m|, t) {
      assert (m + [0])[t - 1] == m[t - 1];
    } else if t == |m| + 1 {
      assert (m + [0])[t - 1 := t][t - 1 := 0] == m + [0];
    }
  }

  /** Following the index from any version terminates.  From a version that is
      not a linked mark it visits, once each, exactly the versions whose root it
      is: itself and the marks that target it directly or through other marks. */
  lemma MarkLists(hs: seq<Header>, v: int)
    requires Exists(|hs|, v)
    ensures exists l :: Path(Index(hs), v, l) && NoRepeat(l)
              && (!Linked(TargetsOf(hs), v) ==>
                    forall x :: x in l <==> Exists(|hs|, x) && Root(TargetsOf(hs), x) == v)
  {
    hide Path, NoRepeat, Roots, Index, TargetsOf;
    var ls := Threads(hs);
    var ts := TargetsOf(hs);
    var l := ls[v - 1];
    assert v - 1 + 1 in l;
    var p :| 0 <= p < |l| && l[p] == v;
    Suffix(Index(hs), Root(ts, v), l, p);
    RootOf(ts, v);
    if !Linked(ts, v) {
      FirstOnly(Index(hs), v, l, p);
      forall x ensures x in l <==> Exists(|hs|, x) && Root(ts, x) == v { Members(Index(hs), Roots(ts), ls, v, x); }
    }
  }

  lemma Members(m: seq<int>, rs: seq<int>, ls: seq<seq<int>>, v: int, x: int)
    requires Partition(m, rs, ls) && Exists(|rs|, v) && rs[v - 1] == v
    ensures x in ls[v - 1] <==> Exists(|rs|, x) && rs[x - 1] == v
  {
    hide Path, NoRepeat;
    var i := v - 1;
    if Exists(|rs|, x) {
      var k := x - 1;
      assert k + 1 in ls[k];
      assert rs[k] == rs[i] ==> ls[k] == ls[i];
    }
  }

  lemma FirstOnly(m: seq<int>, v: int, l: seq<int>, p: nat)
    requires Path(m, v, l) && NoRepeat(l) && p < |l| && l[p] == v
    ensures p == 0 && l[p..] == l
  {
  }

  lemma Suffix(m: seq<int>, v: int, l: seq<int>, p: nat)
    requires Path(m, v, l) && NoRepeat(l) && p < |l|
    ensures Path(m, l[p], l[p..]) && NoRepeat(l[p..])
  {
    var s := l[p..];
    assert forall i :: 0 <= i < |s| ==> s[i] == l[p + i];
  }

  lemma Next(m: seq<int>, v: int, l: seq<int>)
    requires Path(m, v, l) && |l| > 1
    ensures Path(m, l[1], l[1..]) && l[1] == m[v - 1]
  {
    assert forall i :: 0 <= i < |l[1..]| ==> l[1..][i] == l[i + 1];
  }

  /** The list from a version is unique. */
  lemma {:induction false} PathUnique(m: seq<int>, v: int, a: seq<int>, b: seq<int>)
    requires Path(m, v, a) && Path(m, v, b)
    ensures a == b
    decreases |a|
  {
    assert |a| > 1 ==> m[a[0] - 1] == a[1];
    assert |b| > 1 ==> m[b[0] - 1] == b[1];
    if |a| > 1 && |b| > 1 {
      Next(m, v, a);
      Next(m, v, b);
      PathUnique(m, a[1], a[1..], b[1..]);
      assert a == [v] + a[1..] && b == [v] + b[1..];
    }
  }

  /** The lists of distinct versions that are no linked marks are disjoint. */
  lemma ListsDisjoint(hs: seq<Header>, v: int, w: int, a: seq<int>, b: seq<int>)
    requires Exists(|hs|, v) && Exists(|hs|, w) && v != w
    requires !Linked(TargetsOf(hs), v) && !Linked(TargetsOf(hs), w)
    requires Path(Index(hs), v, a) && Path(Index(hs), w, b)
    ensures forall x :: !(x in a && x in b)
  {
    hide Path, NoRepeat, Index, Linked, Root, TargetsOf;
    MarkLists(hs, v);
    MarkLists(hs, w);
    var l :| Path(Index(hs), v, l) && NoRepeat(l) && forall x :: x in l <==> Exists(|hs|, x) && Root(TargetsOf(hs), x) == v;
    var k :| Path(Index(hs), w, k) && NoRepeat(k) && forall x :: x in k <==> Exists(|hs|, x) && Root(TargetsOf(hs), x) == w;
    PathUnique(Index(hs), v, a, l);
    PathUnique(Index(hs), w, b, k);
  }

  function NoHeaders(n: nat): seq<Header> { seq(n, _ => []) }

  lemma {:induction false} PadIndex(hs: seq<Header>, n: nat)
    ensures Index(hs + NoHeaders(n)) == Index(hs) + seq(n, _ => 0)
  {
    if n == 0 {
      assert hs + NoHeaders(0) == hs;
    } else {
      PadIndex(hs, n - 1);
      var all := hs + NoHeaders(n);
      assert all[..|all| - 1] == hs + NoHeaders(n - 1);
    }
  }

  /** The index `mdir_patch` maintains across journals is that of the headers appended so far. */
  lemma IndexFollowsPatch(hs: seq<Header>, j: Journal, a: Action, h: Header, nb: nat)
    ensures PatchedMarks(Index(hs), j, a, h, nb) ==
            Index(hs + NoHeaders(nb) + (if Appends(j, a, h, nb) then [h] else []))
  {
    hide Appends, Threaded;
    PadIndex(hs, nb);
    var all := hs + NoHeaders(nb);
    assert (all + [h])[..|all|] == all;
    assert all + [] == all;
  }
}
