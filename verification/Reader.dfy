/** The two ends of the protocol as they run: the client's patch list on top of
    its own message directory (mdsyncc/reader.c) and the server's subscription
    (mdsyncd/sub.c). */
module Reader {
  import opened Headers
  import opened Journals
  import opened Mdirs
  import opened Replication

  lemma DecimalChars(n: nat)
    ensures var s := Decimal(n); IsCompact(s) && ValueChars(s) && s != "" && s[0] != ' '
  {
    DecimalValue(n);
  }

  /** A local version added to a normal header keeps it normal. */
  lemma TagNormal(h: Header, local: int)
    requires Normal(h)
    ensures Normal(h + [LocalTag(local)])
  {
    hide Tidy;
    TagTidy(local);
  }

  lemma TagTidy(local: int)
    ensures Tidy(LocalTag(local)) && LocalTag(local).name != ""
  {
    NameTidy();
    hide Decimal, IsCompact, ValueChars, NameChars, Lower;
    var n: nat := if local < 0 then -local else local;
    DecimalChars(n);
    if local < 0 { SignedChars(Decimal(n)); }
  }

  lemma NameTidy()
    ensures IsCompact(SC_LOCALID) && Lower(SC_LOCALID) == SC_LOCALID && NameChars(SC_LOCALID) && SC_LOCALID != ""
  {
  }

  lemma SignedChars(s: string)
    requires IsCompact(s) && ValueChars(s)
    requires s != "" && s[0] != ' '
    ensures IsCompact("-" + s) && ValueChars("-" + s)
  {
    var t := "-" + s;
    assert forall i :: 1 <= i < |t| ==> t[i] == s[i - 1];
  }

  /** The list insertion of `patch_ctor`. */
  method InsertSorted(ps: seq<Msg>, m: Msg) returns (r: seq<Msg>)
    ensures r == Inserted(ps, m)
  {
    hide Inserted;
    var i := 0;
    assert ps[0..] == ps && ps[..0] + Inserted(ps[0..], m) == Inserted(ps, m);
    while i < |ps| && ps[i].prev <= m.prev
      invariant 0 <= i <= |ps|
      invariant Inserted(ps, m) == ps[..i] + Inserted(ps[i..], m)
    {
      InsertedStep(ps, i, m);
      TakeOne(ps, i, Inserted(ps[i + 1..], m));
      i := i + 1;
    }
    InsertedStep(ps, i, m);
    PutBetween(ps[..i], m, ps[i..]);
    r := ps[..i] + [m] + ps[i..];
  }

  lemma TakeOne(ps: seq<Msg>, i: nat, rest: seq<Msg>)
    requires i < |ps|
    ensures ps[..i] + ([ps[i]] + rest) == ps[..i + 1] + rest
  {
  }

  lemma PutBetween(a: seq<Msg>, m: Msg, b: seq<Msg>)
    ensures a + ([m] + b) == a + [m] + b
  {
  }

  lemma InsertedStep(ps: seq<Msg>, i: nat, m: Msg)
    requires i <= |ps|
    ensures Inserted(ps[i..], m) == if i == |ps| || ps[i].prev > m.prev then [m] + ps[i..] else [ps[i]] + Inserted(ps[i + 1..], m)
  {
    if i < |ps| { assert ps[i..][1..] == ps[i + 1..]; }
  }

  class SyncedMdir {
    const mdir: Mdir
    var patches: seq<Msg>
    var nbPendingAcks: nat
    var c2lMaps: seq<C2L>

    ghost predicate Valid()
      reads this, mdir, mdir.jnls
    {
      && mdir.Valid()
      && forall i :: 0 <= i < |patches| ==> patches[i].prev < patches[i].version && Normal(patches[i].header)
    }

    ghost function State(): Client
      reads this, mdir
    {
      Client(mdir.Journal(), patches, nbPendingAcks, c2lMaps)
    }

    constructor (m: Mdir)
      requires m.Valid()
      ensures Valid() && mdir == m && State() == Client(m.Journal(), [], 0, [])
    {
      mdir, patches, nbPendingAcks, c2lMaps := m, [], 0, [];
    }

    /** `patch_ctor`: tags the header and inserts the patch in the sorted list. */
    method AddPatch(m: Msg)
      requires Valid() && m.prev < m.version && Normal(m.header)
      modifies this`patches, this`c2lMaps
      ensures Valid()
      ensures State() == old(State()).(patches := Inserted(old(patches), Tagged(m, old(c2lMaps))), c2l := C2LAfter(m, old(c2lMaps)))
    {
      hide Mdir.Valid, Normal, Mdir.Journal, Inserted;
      var patch := m;
      var found := SearchMap(m.version);
      if found.Some? {
        TagNormal(m.header, c2lMaps[found.value].local);
        patch := m.(header := m.header + [LocalTag(c2lMaps[found.value].local)]);
        c2lMaps := Without(c2lMaps, found.value);
      }
      InsertedHas(patches, patch);
      var ps := InsertSorted(patches, patch);
      patches := ps;
    }

    /** `c2l_search`. */
    method SearchMap(central: int) returns (r: Option<nat>)
      ensures r == Search(c2lMaps, central)
    {
      for i := 0 to |c2lMaps|
        invariant Search(c2lMaps, central) == match Search(c2lMaps[i..], central) { case None => None case Some(k) => Some(k + i) }
      {
        if c2lMaps[i].central == central { return Some(i); }
        assert c2lMaps[i..][1..] == c2lMaps[i + 1..];
      }
      r := None;
    }

    /** One turn of the loop of `try_apply`. */
    method ApplyFirst() returns (done: bool)
      requires Valid() && patches != []
      modifies this`patches, mdir, mdir.jnls
      ensures Valid()
      ensures !done ==> |patches| < |old(patches)| && Drained(mdir.Journal(), patches) == old(Drained(mdir.Journal(), patches))
      ensures done ==> (mdir.Journal(), patches) == old(Drained(mdir.Journal(), patches))
      ensures forall i :: 0 <= i < |mdir.jnls| ==> mdir.jnls[i] in old(mdir.jnls) || fresh(mdir.jnls[i])
    {
      hide Mdir.Valid, Normal, Mdir.Journal, AppliesCleanly, Applied, Drained;
      DrainedStep(mdir.Journal(), patches);
      var patch := patches[0];
      var last := mdir.LastVersion();
      Contents(mdir);
      if last != patch.prev { return true; }
      var ok := ApplyMsg(patch);
      if !ok { return true; }
      patches := patches[1..];
      done := false;
    }

    /** The `mdir_patch` of `try_apply`, which gives the expected version. */
    method ApplyMsg(patch: Msg) returns (ok: bool)
      requires mdir.Valid() && patch.prev < patch.version && |mdir.Journal()| == patch.prev && Normal(patch.header)
      modifies mdir, mdir.jnls
      ensures mdir.Valid() && mdir.Journal() == Applied(old(mdir.Journal()), patch)
      ensures ok <==> AppliesCleanly(old(mdir.Journal()), patch)
      ensures forall i :: 0 <= i < |mdir.jnls| ==> mdir.jnls[i] in old(mdir.jnls) || fresh(mdir.jnls[i])
    {
      hide Mdir.Valid, Normal, Appends, Dangling, Patched, Mdir.Journal, PatchedMarks, Stored, AppliesCleanly, Applied, Marks, Entries;
      ghost var j := mdir.Journal();
      ApplySpec(j, patch);
      StoredSame(patch.header);
      var version;
      version, ok := mdir.Patch(patch.action, patch.header, patch.version - patch.prev - 1);
      Contents(mdir);
      assert ok ==> version == patch.version;
    }

    /** `try_apply`. */
    method Apply()
      requires Valid()
      modifies this`patches, mdir, mdir.jnls
      ensures Valid() && State() == TryApply(old(State()))
      ensures nbPendingAcks > 0 ==> State() == old(State())
      ensures forall i :: 0 <= i < |mdir.jnls| ==> mdir.jnls[i] in old(mdir.jnls) || fresh(mdir.jnls[i])
    {
      hide Mdir.Valid, Normal, Mdir.Journal, AppliesCleanly, Applied;
      if nbPendingAcks > 0 { return; }
      while patches != []
        invariant Valid() && Drained(mdir.Journal(), patches) == old(Drained(mdir.Journal(), patches))
        invariant forall i :: 0 <= i < |mdir.jnls| ==> mdir.jnls[i] in old(mdir.jnls) || fresh(mdir.jnls[i])
        decreases |patches|
      {
        var done := ApplyFirst();
        if done { return; }
      }
    }

    /** `patch_service`. */
    method PatchService(m: Msg)
      requires Valid() && m.prev < m.version && Normal(m.header)
      modifies this`patches, this`c2lMaps, mdir, mdir.jnls
      ensures Valid() && State() == Receive(old(State()), m)
      ensures nbPendingAcks > 0 ==> mdir.Journal() == old(mdir.Journal()) && |patches| == |old(patches)| + 1
      ensures forall i :: 0 <= i < |mdir.jnls| ==> mdir.jnls[i] in old(mdir.jnls) || fresh(mdir.jnls[i])
    {
      hide Mdir.Valid, Normal, Mdir.Journal, Drained, Tagged, C2LAfter, Inserted;
      HeldBack(State(), m);
      AddPatch(m);
      Apply();
    }

    /** `finalize_put`, `finalize_rem`: an ack with status 200 brings the central version. */
    method FinalizePutRem(status: int, central: int, local: int)
      requires Valid() && nbPendingAcks > 0
      modifies this`nbPendingAcks, this`c2lMaps
      ensures Valid()
      ensures status == 200 ==> State() == Acked(old(State()), central, local)
      ensures status != 200 ==> State() == old(State()).(pending := old(nbPendingAcks) - 1)
    {
      hide Mdir.Valid, Mdir.Journal, Normal;
      nbPendingAcks := nbPendingAcks - 1;
      if status == 200 { c2lMaps := [C2L(central, local)] + c2lMaps; }
    }
  }

  lemma Contents(m: Mdir)
    ensures |m.Journal()| == |m.contents|
  {
  }

  lemma DrainedStep(j: Journal, ps: seq<Msg>)
    requires ps != [] && ps[0].prev < ps[0].version
    ensures Drained(j, ps) ==
      if ps[0].prev != |j| then (j, ps) else if AppliesCleanly(j, ps[0]) then Drained(Applied(j, ps[0]), ps[1..]) else (Applied(j, ps[0]), ps)
  {
    hide AppliesCleanly, Applied;
  }

  lemma StoredSame(h: Header)
    requires Normal(h)
    ensures Journals.Stored(h) == h
  {
    hide Normal, Journals.Stored;
    PatchReadsBack(Add, h);
  }

  lemma ApplySpec(j: Journal, m: Msg)
    requires m.prev < m.version && |j| == m.prev
    ensures var nb := m.version - m.prev - 1;
            && Applied(j, m) == Patched(j, m.action, m.header, m.header, nb)
            && (AppliesCleanly(j, m) <==> Appends(j, m.action, m.header, nb) && !Dangling(|Applied(j, m)|, m.header))
            && (Appends(j, m.action, m.header, nb) ==> |Applied(j, m)| == m.version)
  {
  }

  class Subscription {
    const mdir: Mdir
    var version: int

    constructor (m: Mdir, v: int)
      ensures mdir == m && version == v
    {
      mdir, version := m, v;
    }

    /** `subscription_reset_version`. */
    method ResetVersion(v: int)
      modifies this
      ensures version <= old(version) && version <= v && (version == old(version) || version == v)
      ensures Some(version) == Reset(Some(old(version)), v)
    {
      if v > version { return; }
      version := v;
    }

    /** `client_needs_patch`. */
    method NeedsPatch() returns (b: bool)
      requires mdir.Valid()
      ensures b <==> version < |mdir.Journal()|
    {
      var last := mdir.LastVersion();
      b := version < last;
    }

    /** `send_next_patch`: the message written, if there is a header to send. */
    method SendNextPatch() returns (sent: Option<Msg>)
      requires mdir.Valid()
      modifies this
      ensures sent == NextMsg(mdir.Journal(), old(version))
      ensures version == if sent.Some? then sent.value.version else old(version)
    {
      hide Mdir.Valid, Mdir.Journal, NextLive;
      var next, entry := mdir.ReadNext(version);
      if entry.Blank? { return None; }
      sent := Some(Msg(version, next, entry.action, entry.header));
      version := next;
    }
  }
}
