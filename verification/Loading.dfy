/** Reloading a message directory (`mdir_reload`): journal files are found in
    directory order and `jnl_ctor` inserts each at its place. */
module Loading {
  import opened Headers
  import opened Journals

  /** A journal file: its first version, from its name, and its entries. */
  datatype File = File(version: int, entries: seq<Entry>) {
    function End(): int { version + |entries| }
  }

  /** Insertion in version order; `None` is the error "Bad journals". */
  function Inserted(list: seq<File>, f: File): Option<seq<File>> {
    if list == [] || list[0].version > f.version then Some([f] + list)
    else if list[0].version >= f.version || list[0].End() > f.version then None
    else
      match Inserted(list[1..], f)
      case None => None
      case Some(r) => Some([list[0]] + r)
  }

  function Prepend(a: seq<File>, o: Option<seq<File>>): Option<seq<File>> {
    if o.Some? then Some(a + o.value) else None
  }

  lemma PrependTwice(a: seq<File>, f: File, o: Option<seq<File>>)
    ensures Prepend(a, Prepend([f], o)) == Prepend(a + [f], o)
    ensures Prepend([], o) == o
  {
    if o.Some? {
      assert a + ([f] + o.value) == a + [f] + o.value;
      assert [] + o.value == o.value;
    }
  }

  /** The insertion loop of `jnl_ctor`. */
  method Insert(list: seq<File>, f: File) returns (r: Option<seq<File>>)
    ensures r == Inserted(list, f)
  {
    var i := 0;
    PrependTwice([], f, Inserted(list, f));
    assert list[0..] == list;
    while i < |list| && list[i].version <= f.version
      invariant 0 <= i <= |list|
      invariant Inserted(list, f) == Prepend(list[..i], Inserted(list[i..], f))
    {
      if list[i].version >= f.version || list[i].End() > f.version { return None; }
      assert list[i..][1..] == list[i + 1..];
      assert list[..i + 1] == list[..i] + [list[i]];
      PrependTwice(list[..i], list[i], Inserted(list[i + 1..], f));
      i := i + 1;
    }
    assert list[..i] + ([f] + list[i..]) == list[..i] + [f] + list[i..];
    r := Some(list[..i] + [f] + list[i..]);
  }

  /** Sorted, and nothing in two files. */
  predicate Ascending(list: seq<File>) {
    forall i, k :: 0 <= i < k < |list| ==> list[i].version < list[k].version && list[i].End() <= list[k].version
  }

  /** The new file starts where another does, or inside it. */
  predicate StartsIn(list: seq<File>, f: File, i: int)
    requires 0 <= i < |list|
  {
    list[i].version == f.version || list[i].version < f.version < list[i].End()
  }

  lemma StartsLater(list: seq<File>, f: File)
    requires list != []
    ensures (exists i :: 0 <= i < |list| && StartsIn(list, f, i)) <==>
            StartsIn(list, f, 0) || exists i :: 0 <= i < |list[1..]| && StartsIn(list[1..], f, i)
  {
    var t := list[1..];
    assert forall i :: 0 <= i < |t| ==> (StartsIn(t, f, i) <==> StartsIn(list, f, i + 1));
    if i :| 0 <= i < |list| && StartsIn(list, f, i) && i > 0 { assert StartsIn(t, f, i - 1); }
  }

  /** Exactly which files are refused: those that start where another starts or inside it. */
  lemma {:induction false} RefusedExactly(list: seq<File>, f: File)
    requires Ascending(list)
    ensures Inserted(list, f).None? <==> exists i :: 0 <= i < |list| && StartsIn(list, f, i)
  {
    if list != [] {
      StartsLater(list, f);
      assert Ascending(list[1..]);
      if list[0].version > f.version {
        forall i | 0 <= i < |list| ensures !StartsIn(list, f, i) {}
      } else {
        RefusedExactly(list[1..], f);
      }
    }
  }

  /** All others go to their place, after the files that start before them. */
  lemma {:induction false} PlacedInOrder(list: seq<File>, f: File) returns (k: nat)
    requires Ascending(list) && Inserted(list, f).Some?
    ensures k <= |list| && Inserted(list, f).value == list[..k] + [f] + list[k..]
    ensures forall i :: 0 <= i < |list| ==> if i < k then list[i].version < f.version else f.version < list[i].version
  {
    if list == [] || list[0].version > f.version {
      k := 0;
      assert [] + [f] + list == [f] + list;
    } else {
      var t := list[1..];
      var n := PlacedInOrder(t, f);
      k := n + 1;
      OneBefore(list, n, f);
      assert forall i :: 0 < i < |list| ==> list[i] == t[i - 1];
    }
  }

  lemma OneBefore(list: seq<File>, n: nat, f: File)
    requires list != [] && n < |list|
    ensures [list[0]] + (list[1..][..n] + [f] + list[1..][n..]) == list[..n + 1] + [f] + list[n + 1..]
  {
  }

  /** So a file that reaches into the one after it is not detected. */
  lemma OverlapMissed()
    ensures Inserted([File(3, [Blank])], File(1, [Blank, Blank, Blank])) == Some([File(1, [Blank, Blank, Blank]), File(3, [Blank])])
  {
    var a, b := File(1, [Blank, Blank, Blank]), File(3, [Blank]);
    assert [a] + [b] == [a, b];
  }

  /** Files loaded one after the other, in the order the directory gives them. */
  function Load(files: seq<File>): Option<seq<File>> {
    if files == [] then Some([])
    else match Load(files[..|files| - 1])
      case None => None
      case Some(l) => Inserted(l, files[|files| - 1])
  }

  /** Each file starts where the one before ends; only the last may be empty. */
  ghost predicate Contiguous(cs: seq<File>) {
    && (forall i :: 0 < i < |cs| ==> cs[i - 1].End() == cs[i].version)
    && (forall i :: 0 <= i < |cs| - 1 ==> cs[i].entries != [])
  }

  lemma {:induction false} Spaced(cs: seq<File>, i: nat, k: nat)
    requires Contiguous(cs) && i < k < |cs|
    ensures cs[i].End() <= cs[k].version && cs[i].version < cs[k].version
    decreases k
  {
    if i < k - 1 { Spaced(cs, i, k - 1); }
  }

  /** `list` holds the files of the given indexes, in order. */
  ghost predicate Picks(list: seq<File>, cs: seq<File>, idx: seq<nat>) {
    && |list| == |idx|
    && (forall q :: 0 <= q < |idx| ==> idx[q] < |cs| && list[q] == cs[idx[q]])
    && (forall p, q :: 0 <= p < q < |idx| ==> idx[p] < idx[q])
  }

  lemma {:induction false} InsertPicks(list: seq<File>, cs: seq<File>, idx: seq<nat>, k: nat) returns (idx': seq<nat>)
    requires Contiguous(cs) && Picks(list, cs, idx) && k < |cs| && k !in idx
    ensures Inserted(list, cs[k]).Some? && Picks(Inserted(list, cs[k]).value, cs, idx')
    ensures forall x :: x in idx' <==> x in idx || x == k
    decreases |list|
  {
    hide Contiguous, Picks;
    PicksEnds(list, cs, idx);
    if list == [] {
      idx' := [k];
      PicksMore(cs, list, idx, k);
      assert [k] + idx == [k];
    } else if k < idx[0] {
      Spaced(cs, k, idx[0]);
      idx' := [k] + idx;
      PicksMore(cs, list, idx, k);
    } else {
      Spaced(cs, idx[0], k);
      var rest := InsertPicks(list[1..], cs, idx[1..], k);
      idx' := [idx[0]] + rest;
      assert idx == [idx[0]] + idx[1..];
      forall q | 0 <= q < |rest| ensures idx[0] < rest[q] { assert rest[q] in rest; }
      PicksMore(cs, Inserted(list[1..], cs[k]).value, rest, idx[0]);
    }
  }

  /** The head and the tail of a pick. */
  lemma PicksEnds(list: seq<File>, cs: seq<File>, idx: seq<nat>)
    requires Picks(list, cs, idx)
    ensures |list| == |idx|
    ensures list != [] ==> idx[0] in idx && idx[0] < |cs| && list[0] == cs[idx[0]] && Picks(list[1..], cs, idx[1..])
    ensures forall q :: 0 < q < |idx| ==> idx[0] < idx[q]
  {
  }

  lemma PicksMore(cs: seq<File>, list: seq<File>, idx: seq<nat>, k: nat)
    requires Picks(list, cs, idx) && k < |cs| && forall q :: 0 <= q < |idx| ==> k < idx[q]
    ensures Picks([cs[k]] + list, cs, [k] + idx)
  {
  }

  function Pick(cs: seq<File>, order: seq<nat>): (r: seq<File>)
    requires forall i :: 0 <= i < |order| ==> order[i] < |cs|
    ensures |r| == |order| && forall i :: 0 <= i < |r| ==> r[i] == cs[order[i]]
  {
    seq(|order|, i requires 0 <= i < |order| => cs[order[i]])
  }

  ghost predicate Distinct(s: seq<nat>) { forall p, q :: 0 <= p < q < |s| ==> s[p] != s[q] }

  lemma {:induction false} LoadPicks(cs: seq<File>, order: seq<nat>) returns (idx: seq<nat>)
    requires Contiguous(cs) && Distinct(order) && forall i :: 0 <= i < |order| ==> order[i] < |cs|
    ensures Load(Pick(cs, order)).Some? && Picks(Load(Pick(cs, order)).value, cs, idx)
    ensures forall x :: x in idx <==> x in order
    decreases |order|
  {
    hide Contiguous;
    if order == [] {
      idx := [];
    } else {
      var part, k := order[..|order| - 1], order[|order| - 1];
      assert order == part + [k];
      idx := LoadPicks(cs, part);
      assert k !in part;
      assert Pick(cs, order)[..|part|] == Pick(cs, part);
      idx := InsertPicks(Load(Pick(cs, part)).value, cs, idx, k);
    }
  }

  lemma HeadIn(idx: seq<nat>)
    ensures idx == [] || idx[0] in idx
  {
  }

  lemma {:induction false} Full(idx: seq<nat>, n: nat)
    requires forall p, q :: 0 <= p < q < |idx| ==> idx[p] < idx[q]
    requires forall x :: x in idx <==> 0 <= x < n
    ensures |idx| == n && forall i :: 0 <= i < n ==> idx[i] == i
  {
    if n > 0 {
      assert n - 1 in idx;
      var p :| 0 <= p < |idx| && idx[p] == n - 1;
      assert idx[|idx| - 1] in idx;
      var rest := idx[..p];
      assert idx == rest + [n - 1];
      forall x ensures x in rest <==> 0 <= x < n - 1 {
        if x in rest { var q :| 0 <= q < p && rest[q] == x; assert idx[q] in idx; assert idx[q] < idx[p]; }
        if 0 <= x < n - 1 { assert x in idx; }
      }
      Full(rest, n - 1);
    } else {
      HeadIn(idx);
    }
  }

  /** Whatever the directory order, loading well-formed journals gives the same contiguous list. */
  lemma LoadAnyOrder(cs: seq<File>, order: seq<nat>)
    requires Contiguous(cs) && Distinct(order)
    requires forall i :: 0 <= i < |order| ==> order[i] < |cs|
    requires forall i :: 0 <= i < |cs| ==> i in order
    ensures Load(Pick(cs, order)) == Some(cs)
  {
    var idx := LoadPicks(cs, order);
    forall x ensures x in idx <==> 0 <= x < |cs| {
      if x in idx { assert x in order; }
    }
    Full(idx, |cs|);
    assert Load(Pick(cs, order)).value == cs;
  }
}
