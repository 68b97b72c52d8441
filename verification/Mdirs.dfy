/** A message directory (lib/mdir.c): versions 1, 2, 3... kept in a list of
    journals, seen from outside as one flat sequence. */
module Mdirs {
  import opened Headers
  import opened Journals

  /** Version `v` is at index `v - 1`. */
  type Journal = seq<Entry>

  function Entries(slots: seq<Slot>): (j: Journal)
    ensures |j| == |slots| && forall i :: 0 <= i < |j| ==> j[i] == EntryOf(slots[i])
  {
    seq(|slots|, i requires 0 <= i < |slots| => EntryOf(slots[i]))
  }

  function Marks(slots: seq<Slot>): (m: seq<int>)
    ensures |m| == |slots| && forall i :: 0 <= i < |m| ==> m[i] == slots[i].mark
  {
    seq(|slots|, i requires 0 <= i < |slots| => slots[i].mark)
  }

  predicate Exists(n: int, v: int) { 1 <= v <= n }

  // ----- what mdir_patch does to the flat sequence -----

  function Padded(j: Journal, nb: nat): (p: Journal)
    ensures |p| == |j| + nb && p[..|j|] == j && forall i :: |j| <= i < |p| ==> p[i] == Blank
  {
    j + seq(nb, _ => Blank)
  }

  /** `mdir_prepare_rem` succeeds: the target exists and is an addition, or is already gone. */
  predicate Removable(j: Journal, h: Header) {
    Target(h).Some? && Exists(|j|, Target(h).value)
    && (j[Target(h).value - 1].Live? ==> j[Target(h).value - 1].action == Add)
  }

  /** The patch reaches the journal. */
  predicate Appends(j: Journal, a: Action, h: Header, nb: nat) {
    a == Rem ==> Removable(Padded(j, nb), h)
  }

  /** The journal after `mdir_patch`; `kept` is the header as it will be read back.
      A refused removal leaves the blank entries already inserted. */
  function Patched(j: Journal, a: Action, h: Header, kept: Header, nb: nat): (r: Journal)
    ensures |r| == |j| + nb + (if Appends(j, a, h, nb) then 1 else 0)
  {
    var p := Padded(j, nb);
    if a == Add then p + [Live(a, kept)]
    else if Removable(p, h) then p[Target(h).value - 1 := Blank] + [Live(a, kept)]
    else p
  }

  /** A mark on a version that does not exist: `mdir_patch` fails after the append. */
  predicate Dangling(n: int, h: Header) { MarkTarget(h) != 0 && !Exists(n, MarkTarget(h)) }

  /** The mark index after version `|marks| + 1` was appended with header `h`. */
  function Threaded(marks: seq<int>, h: Header): (r: seq<int>)
    ensures |r| == |marks| + 1
  {
    var v, t, m := |marks| + 1, MarkTarget(h), marks + [0];
    if t == 0 || !Exists(v, t) then m
    else
      var last := m[t - 1];
      m[t - 1 := v][v - 1 := last]
  }

  /** The index by the fields of the header: a mark goes in front of those of its
      target and takes the first of them over; nothing else links. */
  lemma ThreadedByField(marks: seq<int>, h: Header)
    ensures !Says(h, "mark") ==> Threaded(marks, h) == marks + [0]
    ensures Says(h, "mark") ==> forall v :: Aims(h, v) && Exists(|marks|, v) ==>
              Threaded(marks, h) == marks[v - 1 := |marks| + 1] + [marks[v - 1]]
    ensures Says(h, "mark") ==> forall v :: Aims(h, v) && !Exists(|marks|, v) ==> Threaded(marks, h) == marks + [0]
  {
    hide Says, Aims, MarkTarget;
    TargetsByField(h);
  }

  lemma DanglesByField(n: int, h: Header)
    ensures !Says(h, "mark") ==> !Dangling(n, h)
    ensures Says(h, "mark") ==> forall v :: Aims(h, v) ==> (Dangling(n, h) <==> v != 0 && !Exists(n, v))
  {
    hide Says, Aims, MarkTarget;
    TargetsByField(h);
  }

  function PatchedMarks(marks: seq<int>, j: Journal, a: Action, h: Header, nb: nat): seq<int> {
    var p := marks + seq(nb, _ => 0);
    if Appends(j, a, h, nb) then Threaded(p, h) else p
  }

  /** The index before and after a patch: a mark is now the first of its target's;
      after any other header the old entries are as they were, the new ones free. */
  ghost predicate Linked(before: seq<int>, after: seq<int>, h: Header) {
    && |before| <= |after|
    && (!Says(h, "mark") ==> forall i :: 0 <= i < |after| ==> after[i] == if i < |before| then before[i] else 0)
    && (Says(h, "mark") ==> forall v :: Aims(h, v) && 1 <= v < |after| ==> after[v - 1] == |after|)
  }

  lemma LinkedByField(marks: seq<int>, j: Journal, a: Action, h: Header, nb: nat)
    requires |marks| == |j|
    ensures var n := |Patched(j, a, h, h, nb)|;
      (Appends(j, a, h, nb) && !Dangling(n, h)) || !Says(h, "mark") ==> Linked(marks, PatchedMarks(marks, j, a, h, nb), h)
  {
    hide Says, Aims, Dangling, Threaded, Removable;
    ThreadedByField(marks + seq(nb, _ => 0), h);
  }

  /** The first version after `v` that was not removed; `None` when there is none. */
  function NextLive(j: Journal, v: int): (r: Option<int>)
    ensures r.Some? ==> v < r.value && Exists(|j|, r.value) && j[r.value - 1].Live?
    ensures forall i :: v <= i && 0 <= i < |j| && (r.None? || i < r.value - 1) ==> j[i].Blank?
    decreases if v < |j| then |j| - v else 0
  {
    if v >= |j| then None
    else if v + 1 >= 1 && j[v].Live? then Some(v + 1)
    else NextLive(j, if v < 0 then 0 else v + 1)
  }

  /** The journal stores its part of the flat sequence. */
  ghost predicate Holds(jnl: Jnl, c: seq<Slot>)
    reads jnl
  {
    && jnl.Valid() && |jnl.slots| == jnl.nbPatches
    && 1 <= jnl.version && jnl.version - 1 + jnl.nbPatches <= |c|
    && forall k :: 0 <= k < jnl.nbPatches ==> jnl.slots[k] == c[jnl.version - 1 + k]
  }

  /** Distinct journals, each starting where the one before ends. */
  ghost predicate Chained(js: seq<Jnl>)
    reads js
  {
    && (js != [] ==> js[0].version == 1)
    && (forall i, j :: 0 <= i < j < |js| ==> js[i] != js[j] && js[i].version + js[i].nbPatches <= js[j].version)
    && (forall i :: 0 < i < |js| ==> js[i - 1].version + js[i - 1].nbPatches == js[i].version)
  }

  ghost function End(js: seq<Jnl>): int
    reads js
  {
    if js == [] then 0 else js[|js| - 1].version + js[|js| - 1].nbPatches - 1
  }

  twostate lemma ChainGrows(new js: seq<Jnl>)
    requires forall i :: 0 <= i < |js| ==> old(allocated(js[i]))
    requires old(Chained(js))
    requires forall i :: 0 <= i < |js| - 1 ==> js[i].nbPatches == old(js[i].nbPatches)
    ensures Chained(js)
  {
  }

  lemma ChainMore(js: seq<Jnl>, jnl: Jnl)
    requires Chained(js) && jnl !in js && jnl.nbPatches == 0 && jnl.version == End(js) + 1
    requires forall i :: 0 <= i < |js| ==> js[i].nbPatches > 0
    ensures Chained(js + [jnl]) && End(js + [jnl]) == End(js)
  {
  }

  twostate lemma ChainSame(new js: seq<Jnl>)
    requires forall i :: 0 <= i < |js| ==> old(allocated(js[i])) && js[i].nbPatches == old(js[i].nbPatches)
    requires old(Chained(js))
    ensures Chained(js) && End(js) == old(End(js))
  {
  }

  lemma HoldsHere(jnl: Jnl, v: int, slot: Slot, before: seq<Slot>, c: seq<Slot>)
    requires jnl.Valid() && 1 <= jnl.version <= v < jnl.version + jnl.nbPatches <= |c| + 1
    requires |before| == jnl.nbPatches && jnl.slots == before[v - jnl.version := slot]
    requires forall k :: 0 <= k < |before| ==> before[k] == c[jnl.version - 1 + k]
    ensures Holds(jnl, c[v - 1 := slot])
  {
    hide Jnl.Valid;
  }

  /** Another journal of the list holds no part of this one. */
  lemma HoldsElsewhere(js: seq<Jnl>, jnl: Jnl, other: Jnl, v: int, slot: Slot, c: seq<Slot>)
    requires Chained(js) && jnl in js && other in js && other != jnl && Holds(other, c)
    requires 1 <= jnl.version <= v < jnl.version + jnl.nbPatches <= |c| + 1
    ensures Holds(other, c[v - 1 := slot])
  {
    hide Jnl.Valid;
    var i, k :| 0 <= i < |js| && js[i] == other && 0 <= k < |js| && js[k] == jnl;
    if i < k {
      assert other.version + other.nbPatches <= jnl.version;
    } else {
      assert jnl.version + jnl.nbPatches <= other.version;
    }
  }

  class Mdir {
    const maxJnlSize: nat
    var jnls: seq<Jnl>
    ghost var contents: seq<Slot>

    ghost predicate Stored()
      reads this, jnls
    {
      && maxJnlSize > 0
      && Chained(jnls)
      && |contents| == End(jnls)
      && forall i :: 0 <= i < |jnls| ==> Holds(jnls[i], contents)
    }

    ghost predicate Valid()
      reads this, jnls
    {
      Stored() && forall i :: 0 <= i < |jnls| ==> jnls[i].nbPatches > 0
    }

    ghost function Journal(): Journal
      reads this
    {
      Entries(contents)
    }

    constructor (maxSize: nat)
      requires maxSize > 0
      ensures Valid() && contents == [] && jnls == [] && maxJnlSize == maxSize
    {
      maxJnlSize, jnls, contents := maxSize, [], [];
    }

    /** `mdir_last_version`. */
    method LastVersion() returns (v: int)
      requires Valid()
      ensures v == |contents|
    {
      if jnls == [] { return 0; }
      var jnl := jnls[|jnls| - 1];
      v := jnl.version + jnl.nbPatches - 1;
    }

    /** `last_jnl`: the last journal, or a new one when it is full. */
    method LastJnl() returns (jnl: Jnl)
      requires Valid()
      modifies this`jnls
      ensures Stored() && jnls != [] && jnl == jnls[|jnls| - 1] && Holds(jnl, contents)
      ensures |contents| == jnl.version + jnl.nbPatches - 1
      ensures forall i :: 0 <= i < |jnls| - 1 ==> jnls[i].nbPatches > 0 && jnls[i] != jnl && Holds(jnls[i], contents)
      ensures jnls == old(jnls) || (fresh(jnl) && jnls == old(jnls) + [jnl])
      ensures jnls == old(jnls) <==> old(jnls != [] && jnls[|jnls| - 1].nbPatches < maxJnlSize)
      ensures jnl.nbPatches < maxJnlSize
    {
      hide Jnl.Valid, Holds;
      if jnls == [] {
        jnl := NewJnl(1);
      } else {
        jnl := jnls[|jnls| - 1];
        if jnl.nbPatches >= maxJnlSize {
          jnl := NewJnl(jnl.version + jnl.nbPatches);
        }
      }
    }

    /** `jnl_new_empty` at the end of the list. */
    method NewJnl(start: int) returns (jnl: Jnl)
      requires Valid() && start == |contents| + 1
      modifies this`jnls
      ensures Stored() && fresh(jnl) && jnls == old(jnls) + [jnl] && jnl.nbPatches == 0
      ensures Holds(jnl, contents) && |contents| == jnl.version + jnl.nbPatches - 1
    {
      hide Jnl.Valid, Chained, End;
      ghost var before := jnls;
      label made:
      jnl := new Jnl(start);
      ChainSame@made(before);
      ChainMore(before, jnl);
      jnls := jnls + [jnl];
    }

    /** `find_jnl` and `jnl_get_by_version`. */
    method FindJnl(v: int) returns (jnl: Jnl?)
      requires Valid()
      ensures jnl == null <==> !Exists(|contents|, v)
      ensures jnl != null ==> jnl in jnls && jnl.version <= v < jnl.version + jnl.nbPatches
    {
      for i := 0 to |jnls|
        invariant i == 0 || v < 1 || v >= jnls[i - 1].version + jnls[i - 1].nbPatches
      {
        if jnls[i].version <= v < jnls[i].version + jnls[i].nbPatches { return jnls[i]; }
      }
      jnl := null;
    }

    /** The record just written in the last journal joins the flat sequence. */
    ghost method Grow(jnl: Jnl, slot: Slot, before: seq<Slot>)
      requires maxJnlSize > 0 && Chained(jnls) && jnls != [] && jnl == jnls[|jnls| - 1]
      requires forall i :: 0 <= i < |jnls| - 1 ==> jnls[i].nbPatches > 0 && Holds(jnls[i], contents)
      requires jnl.Valid() && 1 <= jnl.version && jnl.version - 1 + |before| == |contents|
      requires jnl.slots == before + [slot] && jnl.nbPatches == |before| + 1
      requires forall k :: 0 <= k < |before| ==> before[k] == contents[jnl.version - 1 + k]
      modifies this`contents
      ensures Valid() && contents == old(contents) + [slot]
    {
      hide Jnl.Valid, Chained;
      contents := contents + [slot];
      assert Holds(jnl, contents);
      assert forall i :: 0 <= i < |jnls| - 1 ==> Holds(jnls[i], contents);
    }

    /** One more record: `last_jnl` followed by `jnl_patch_blank`. */
    method AppendBlank()
      requires Valid()
      modifies this, jnls
      ensures Valid() && contents == old(contents) + [BLANK_SLOT]
      ensures forall i :: 0 <= i < |jnls| ==> jnls[i] in old(jnls) || fresh(jnls[i])
    {
      hide Jnl.Valid, Chained;
      var jnl := LastJnl();
      ghost var before := jnl.slots;
      label written:
      var v := jnl.PatchBlank();
      ChainGrows@written(jnls);
      Grow(jnl, BLANK_SLOT, before);
    }

    /** `last_jnl` followed by `jnl_patch`; the journal written to is returned too. */
    method Append(action: Action, header: Header) returns (version: int, jnl: Jnl)
      requires Valid()
      modifies this, jnls
      ensures Valid() && contents == old(contents) + [PatchSlot(action, header)] && version == |contents|
      ensures jnl in jnls && jnl.version <= version < jnl.version + jnl.nbPatches
      ensures forall i :: 0 <= i < |jnls| ==> jnls[i] in old(jnls) || fresh(jnls[i])
    {
      hide Jnl.Valid, PatchSlot, Chained;
      jnl := LastJnl();
      ghost var before := jnl.slots;
      label written:
      version := jnl.Patch(action, header);
      ChainGrows@written(jnls);
      Grow(jnl, PatchSlot(action, header), before);
    }

    /** `insert_blank_patches`. */
    method InsertBlankPatches(nb: nat)
      requires Valid()
      modifies this, jnls
      ensures Valid() && contents == old(contents) + seq(nb, _ => BLANK_SLOT)
      ensures forall i :: 0 <= i < |jnls| ==> jnls[i] in old(jnls) || fresh(jnls[i])
    {
      hide Holds, Chained;
      for i := 0 to nb
        invariant Valid() && contents == old(contents) + seq(i, _ => BLANK_SLOT)
        invariant forall i :: 0 <= i < |jnls| ==> jnls[i] in old(jnls) || fresh(jnls[i])
      {
        AppendBlank();
      }
    }

    /** What a journal reads is what the flat sequence holds. */
    method ReadAt(jnl: Jnl, v: int) returns (entry: Entry, ok: bool)
      requires Valid() && jnl in jnls && jnl.version <= v < jnl.version + jnl.nbPatches
      ensures Exists(|contents|, v) && entry == Journal()[v - 1] && ok == Readable(contents[v - 1])
    {
      hide EntryOf, Readable, Jnl.Valid, Chained;
      ghost var k :| 0 <= k < |jnls| && jnls[k] == jnl;
      assert Holds(jnls[k], contents);
      entry, ok := jnl.Read(v - jnl.version);
    }

    /** Rewriting one record in place. */
    ghost method Overwrite(jnl: Jnl, v: int, slot: Slot, before: seq<Slot>)
      requires maxJnlSize > 0 && Chained(jnls) && |contents| == End(jnls)
      requires forall i :: 0 <= i < |jnls| ==> jnls[i].nbPatches > 0 && (jnls[i] != jnl ==> Holds(jnls[i], contents))
      requires jnl in jnls && jnl.Valid() && 1 <= jnl.version && jnl.version - 1 + jnl.nbPatches <= |contents|
      requires jnl.version <= v < jnl.version + jnl.nbPatches
      requires |before| == jnl.nbPatches && jnl.slots == before[v - jnl.version := slot]
      requires forall k :: 0 <= k < |before| ==> before[k] == contents[jnl.version - 1 + k]
      modifies this`contents
      ensures Valid() && contents == old(contents)[v - 1 := slot]
    {
      hide Jnl.Valid, Holds, Chained;
      ghost var c := contents;
      contents := c[v - 1 := slot];
      HoldsHere(jnl, v, slot, before, c);
      forall i | 0 <= i < |jnls| ensures Holds(jnls[i], contents) {
        if jnls[i] != jnl { HoldsElsewhere(jnls, jnl, jnls[i], v, slot, c); }
      }
    }

    method MarkDel(jnl: Jnl, v: int)
      requires Valid() && jnl in jnls && jnl.version <= v < jnl.version + jnl.nbPatches
      requires Exists(|contents|, v) && Journal()[v - 1].Live? && Journal()[v - 1].action == Add
      modifies this`contents, jnl
      ensures Valid() && contents == old(contents)[v - 1 := Removed(old(contents)[v - 1])]
    {
      hide Jnl.Valid, Chained, Removed;
      ghost var k :| 0 <= k < |jnls| && jnls[k] == jnl;
      assert Holds(jnls[k], contents);
      ghost var before := jnl.slots;
      label cut:
      var ok := jnl.MarkDel(v);
      ChainSame@cut(jnls);
      Overwrite(jnl, v, Removed(contents[v - 1]), before);
    }

    method SetMark(jnl: Jnl, v: int, mark: int) returns (prev: int)
      requires Valid() && jnl in jnls && jnl.version <= v < jnl.version + jnl.nbPatches
      modifies this`contents, jnl
      ensures Exists(|old(contents)|, v) && prev == old(contents)[v - 1].mark
      ensures Valid() && contents == old(contents)[v - 1 := old(contents)[v - 1].(mark := mark)]
      ensures jnl.nbPatches == old(jnl.nbPatches)
    {
      hide Jnl.Valid, Chained;
      ghost var k :| 0 <= k < |jnls| && jnls[k] == jnl;
      assert Holds(jnls[k], contents);
      ghost var before := jnl.slots;
      label swapped:
      prev := jnl.ReplaceLastMark(v - jnl.version, mark);
      ChainSame@swapped(jnls);
      Overwrite(jnl, v, contents[v - 1].(mark := mark), before);
    }

    /** `mdir_prepare_rem` for an applied patch, without its directory unlinking. */
    method PrepareRem(header: Header) returns (ok: bool)
      requires Valid()
      modifies this`contents, jnls
      ensures Valid()
      ensures ok <==> Removable(old(Journal()), header)
      ensures ok ==> Journal() == old(Journal())[Target(header).value - 1 := Blank]
      ensures !ok ==> contents == old(contents)
      ensures Marks(contents) == Marks(old(contents))
    {
      hide Holds, Chained, Target, Readable;
      var target := Target(header);
      if target.None? { return false; }
      var toDel := target.value;
      var jnl := FindJnl(toDel);
      if jnl == null { return false; }
      var entry, parsed := ReadAt(jnl, toDel);
      if entry.Blank? {
        assert Journal() == Journal()[toDel - 1 := Blank];
        return true;
      }
      if entry.action != Add { return false; }
      MarkDel(jnl, toDel);
      return true;
    }

    /** The mark index part of `mdir_patch`: the version just written is linked in front of its target's marks. */
    method Thread(jnl: Jnl, version: int, header: Header) returns (ok: bool)
      requires Valid() && jnl in jnls && jnl.version <= version < jnl.version + jnl.nbPatches
      requires contents != [] && version == |contents| && contents[version - 1].mark == 0
      modifies this`contents, jnls
      ensures Valid() && |contents| == |old(contents)| && Journal() == old(Journal())
      ensures ok <==> !Dangling(|contents|, header)
      ensures Marks(contents) == Threaded(Marks(old(contents))[..version - 1], header)
    {
      hide Holds, Chained, MarkTarget, EntryOf;
      var marked := MarkTarget(header);
      assert Marks(contents) == Marks(contents)[..version - 1] + [0];
      if marked == 0 { return true; }
      var targetJnl := FindJnl(marked);
      if targetJnl == null { return false; }
      ghost var c := contents;
      var lastMark := SetMark(targetJnl, marked, version);
      var unused := SetMark(jnl, version, lastMark);
      SameEntries(contents, c);
      return true;
    }

    /** What `mdir_patch` does before it appends: blank entries, then the removal. */
    method Prepare(action: Action, header: Header, nbDeleted: nat) returns (ok: bool)
      requires Valid()
      modifies this, jnls
      ensures Valid() && (ok <==> Appends(old(Journal()), action, header, nbDeleted))
      ensures forall i :: 0 <= i < |jnls| ==> jnls[i] in old(jnls) || fresh(jnls[i])
      ensures var p := Padded(old(Journal()), nbDeleted);
        Journal() == if action == Rem && ok then p[Target(header).value - 1 := Blank] else p
      ensures Marks(contents) == Marks(old(contents)) + seq(nbDeleted, _ => 0)
    {
      hide Holds, Chained, EntryOf, Entries, Marks, Target, End;
      BlankSlots(contents, nbDeleted);
      if nbDeleted > 0 { InsertBlankPatches(nbDeleted); }
      ok := true;
      if action == Rem { ok := PrepareRem(header); }
    }

    /** `mdir_patch`, without directory links and permission files. */
    method Patch(action: Action, header: Header, nbDeleted: nat) returns (version: int, ok: bool)
      requires Valid()
      modifies this, jnls
      ensures Valid()
      ensures forall i :: 0 <= i < |jnls| ==> jnls[i] in old(jnls) || fresh(jnls[i])
      ensures Journal() == Patched(old(Journal()), action, header, Journals.Stored(header), nbDeleted)
      ensures Marks(contents) == PatchedMarks(Marks(old(contents)), old(Journal()), action, header, nbDeleted)
      ensures ok || !Says(header, "mark") ==> Linked(Marks(old(contents)), Marks(contents), header)
      ensures ok <==> Appends(old(Journal()), action, header, nbDeleted) && !Dangling(|contents|, header)
      ensures version == if Appends(old(Journal()), action, header, nbDeleted) then |contents| else 0
    {
      hide Holds, Chained, EntryOf, PatchSlot, Threaded, Dangling, Journals.Stored, Entries, Marks, Target, MarkTarget, End, Says, Linked;
      LinkedByField(Marks(contents), Journal(), action, header, nbDeleted);
      ok := Prepare(action, header, nbDeleted);
      if !ok { return 0, false; }
      ghost var before := contents;
      var jnl;
      version, jnl := Append(action, header);
      NewSlot(before, action, header);
      ok := Thread(jnl, version, header);
    }

    /** `get_next_version`: the version after `v`, skipping a gap, and its journal. */
    method GetNextVersion(v: int) returns (next: int, jnl: Jnl?)
      requires Valid()
      ensures jnl == null <==> v >= |contents| || contents == []
      ensures jnl != null ==> next == (if v < 0 then 1 else v + 1)
      ensures jnl != null ==> jnl in jnls && jnl.version <= next < jnl.version + jnl.nbPatches
    {
      next := 0;
      for i := 0 to |jnls|
        invariant i > 0 ==> v + 1 >= jnls[i - 1].version + jnls[i - 1].nbPatches
      {
        jnl := jnls[i];
        if jnl.version <= v + 1 < jnl.version + jnl.nbPatches { return v + 1, jnl; }
        if jnl.version > v + 1 { return jnl.version, jnl; }
      }
      jnl := null;
    }

    /** `mdir_read_next`: what comes after `v`, removed entries skipped. */
    method ReadNext(v: int) returns (next: int, entry: Entry)
      requires Valid()
      ensures NextLive(Journal(), v).Some? <==> entry.Live?
      ensures entry.Live? ==> NextLive(Journal(), v) == Some(next) && entry == Journal()[next - 1]
    {
      hide Holds, Chained, EntryOf, Readable;
      next, entry := v, Blank;
      while true
        invariant NextLive(Journal(), next) == NextLive(Journal(), v)
        decreases if next < |contents| then |contents| - next else 0
      {
        var n, jnl := GetNextVersion(next);
        if jnl == null { return next, Blank; }
        var parsed;
        entry, parsed := ReadAt(jnl, n);
        next := n;
        if entry.Live? { return; }
      }
    }
  }

  lemma SameEntries(a: seq<Slot>, b: seq<Slot>)
    requires |a| == |b| && forall i :: 0 <= i < |a| ==> a[i].tag == b[i].tag && a[i].body == b[i].body
    ensures Entries(a) == Entries(b)
  {
  }

  lemma BlankSlots(c: seq<Slot>, nb: nat)
    ensures var d := c + seq(nb, _ => BLANK_SLOT);
            && Entries(d) == Padded(Entries(c), nb)
            && Marks(d) == Marks(c) + seq(nb, _ => 0)
            && (nb == 0 ==> d == c)
  {
  }

  lemma NewSlot(c: seq<Slot>, a: Action, h: Header)
    ensures var d := c + [PatchSlot(a, h)];
            && Entries(d) == Entries(c) + [Live(a, Stored(h))]
            && Marks(d) == Marks(c) + [0] && Marks(d)[..|c|] == Marks(c)
  {
    PatchReadsBack(a, h);
  }
}
