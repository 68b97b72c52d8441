/** Three-way file synchronisation (merefs/): a local tree, the files listed in
    a message directory, and the map of what was last in sync.  A content is
    identified with its digest. */
module Merefs {
  import opened Headers

  /** A listed file; lists are maps by name, the source keeping one file a name. */
  datatype File = File(digest: string, resource: int, version: int)

  /** Patches asked for: one that adds a file, one that removes a version. */
  datatype Request = Advertise(name: string, digest: string, resource: int) | Retract(version: int)

  /** Which system or network calls fail while one file is worked on; `read` is its digest. */
  datatype Faults = Faults(read: bool, get: bool, link: bool, upload: bool, request: bool, del: bool, rename: bool, remove: bool)

  const NO_FAULT: Faults := Faults(false, false, false, false, false, false, false, false)

  // ----- names -----

  /** A component of the path starts with a dot: the traversal skips it. */
  predicate Hidden(n: string) {
    (n != "" && n[0] == '.') || exists i :: 0 <= i < |n| - 1 && n[i] == '/' && n[i + 1] == '.'
  }

  /** Where the last component of a path starts. */
  function Base(n: string): (k: nat)
    ensures k <= |n| && (k > 0 ==> n[k - 1] == '/') && (forall i :: k <= i < |n| ==> n[i] != '/')
  {
    if n == "" then 0
    else if n[|n| - 1] == '/' then |n|
    else Base(n[..|n| - 1])
  }

  /** The path `conflict` saves a file under: the same, its last component hidden. */
  function Backup(n: string): string { n[..Base(n)] + "." + n[Base(n)..] }

  /** The shifting loop of `conflict`. */
  method BackupName(n: string) returns (bak: string)
    ensures bak == Backup(n)
  {
    var c := |n|;
    var tail := "";
    while c > 0 && n[c - 1] != '/'
      invariant 0 <= c <= |n| && tail == n[c..]
      invariant Base(n) == Base(n[..c])
    {
      assert n[..c][..c - 1] == n[..c - 1];
      tail := [n[c - 1]] + tail;
      c := c - 1;
    }
    assert n[..|n|] == n;
    bak := n[..c] + "." + tail;
  }

  lemma BackupHidden(n: string)
    ensures Hidden(Backup(n))
  {
    var k, b := Base(n), Backup(n);
    assert b[k] == '.';
    if k > 0 { assert b[k - 1] == '/' && b[(k - 1) + 1] == '.'; }
  }

  lemma BackupLonger(n: string)
    ensures |Backup(n)| == |n| + 1
  {
  }

  /** The last slash of a backup name is where the name's own was. */
  lemma BackupSlash(n: string)
    ensures Base(n) > 0 ==> Backup(n)[Base(n) - 1] == '/'
    ensures forall i :: Base(n) <= i < |Backup(n)| ==> Backup(n)[i] != '/'
  {
  }

  lemma BackupInjective(a: string, b: string)
    requires Backup(a) == Backup(b)
    ensures a == b
  {
    BackupSlash(a);
    BackupSlash(b);
    var k, s := Base(a), Backup(a);
    assert a == s[..k] + s[k + 1..] && b == s[..k] + s[k + 1..];
  }

  // ----- the decision for one name -----

  /** What `match_local_file` does with a local file of digest `l`. */
  datatype Verdict = Keep | Pull | Push | Clash | Delete | ClashDelete

  function Decide(l: string, m: Option<string>, r: Option<string>): Verdict {
    match (m, r)
    case (Some(md), Some(rd)) =>
      if l == md then (if l == rd then Keep else Pull)
      else if md == rd then Push else Clash
    case (None, Some(rd)) => if l == rd then Keep else Clash
    case (Some(md), None) => if l == md then Delete else ClashDelete
    case (None, None) => Push
  }

  /** State of one name: content of the local file, digest in the map, digest of the listed file. */
  datatype Triple = Triple(local: Option<string>, map_: Option<string>, remote: Option<string>)

  /** The three after a round without error, once the requests it made are listed. */
  function Synced(t: Triple): Triple {
    match t.local
    case Some(l) =>
      (match Decide(l, t.map_, t.remote)
       case Keep => Triple(Some(l), Some(l), t.remote)
       case Pull => Triple(t.remote, t.remote, t.remote)
       case Clash => Triple(t.remote, t.remote, t.remote)
       case Push => Triple(Some(l), Some(l), Some(l))
       case _ => Triple(None, None, None))
    case None =>
      if t.remote.Some? && t.map_.None? then Triple(t.remote, t.remote, t.remote)
      else Triple(None, None, None)
  }

  predicate Agree(t: Triple) { t.local == t.map_ == t.remote }

  /** The round asks for a patch about this name. */
  predicate Asks(t: Triple) {
    match t.local
    case Some(l) => Decide(l, t.map_, t.remote) == Push
    case None => t.remote.Some? && t.map_.Some?
  }

  /** After one round the three agree, whatever they were; a round on three that agree does nothing. */
  lemma OneRoundAgrees(t: Triple)
    ensures Agree(Synced(t))
    ensures Agree(t) <==> Synced(t) == t
    ensures Agree(t) ==> !Asks(t)
    ensures Synced(t).remote != t.remote <==> Asks(t)
  {
  }

  /** A remote edit survives the round, unless the file was removed here: that removal wins over it. */
  lemma RemoteEditsKept(t: Triple)
    requires t.remote.Some? && t.remote != t.map_
    ensures Synced(t).remote == t.remote <==> !(t.local.None? && t.map_.Some?)
  {
  }

  /** What changed on one side only goes to the other. */
  lemma OneSidedChange(t: Triple)
    ensures t.local == t.map_ ==> Synced(t).local == t.remote
    ensures t.remote == t.map_ ==> Synced(t).remote == t.local
  {
  }

  // ----- what working on one local file leaves, faults included -----

  /** Content at the path, content at its backup path, entry of the next map. */
  datatype Effect = Effect(here: Option<string>, saved: Option<string>, entry: Option<string>, failed: bool)

  function Digest(r: Option<File>): Option<string> { if r.Some? then Some(r.value.digest) else None }

  function Pulled(here: Option<string>, saved: Option<string>, r: File, f: Faults): Effect {
    if f.get then Effect(here, saved, None, true)
    else if f.link then Effect(None, saved, None, true)
    else Effect(Some(r.digest), saved, Some(r.digest), false)
  }

  /** `known` says that some listed or removed file already has this content. */
  function Outcome(l: string, b: Option<string>, m: Option<string>, r: Option<File>, known: bool, f: Faults): Effect {
    if f.read then Effect(Some(l), b, None, true)
    else match Decide(l, m, Digest(r))
    case Keep => Effect(Some(l), b, Some(l), false)
    case Pull => Pulled(Some(l), b, r.value, f)
    case Clash => if f.rename then Effect(Some(l), None, None, true) else Pulled(None, Some(l), r.value, f)
    case Push =>
      if (!known && f.upload) || f.request || (r.Some? && (f.del || r.value.version <= 0)) then Effect(Some(l), b, None, true)
      else Effect(Some(l), b, Some(l), false)
    case Delete => Effect(if f.remove then Some(l) else None, b, None, f.remove)
    case ClashDelete =>
      if f.rename then Effect(if f.remove then Some(l) else None, None, None, true)
      else Effect(None, Some(l), None, true)
  }

  /** Changed here, deleted there, the rename to the backup fails and the removal after it does not. */
  predicate Lossy(l: string, m: Option<string>, r: Option<File>, f: Faults) {
    Decide(l, m, Digest(r)) == ClashDelete && !f.read && f.rename && !f.remove
  }

  /** The content stays, is the one of the map, or is in the backup: in all cases but one. */
  lemma OutcomeKeeps(l: string, b: Option<string>, m: Option<string>, r: Option<File>, known: bool, f: Faults)
    ensures var e := Outcome(l, b, m, r, known, f);
      (e.here == Some(l) || m == Some(l) || e.saved == Some(l)) <==> !Lossy(l, m, r, f)
  {
  }

  /** Without error the effect is the one of `Synced`; errors have a fault or one of two states behind them. */
  lemma OutcomeSettles(l: string, b: Option<string>, m: Option<string>, r: Option<File>, known: bool, f: Faults)
    ensures var e, t := Outcome(l, b, m, r, known, f), Triple(Some(l), m, Digest(r));
      && (!e.failed ==> e.here == Synced(t).local && e.entry == Synced(t).map_)
      && (!e.failed ==> e.saved == if Decide(l, m, Digest(r)) == Clash then Some(l) else b)
      && (Agree(t) && !f.read ==> !e.failed)
      && (f == NO_FAULT ==> (e.failed <==> Decide(l, m, Digest(r)) == ClashDelete || (Asks(t) && r.Some? && r.value.version <= 0)))
  {
  }

  // ----- the decision, by digests alone -----

  /** A backup is made of a file that is not the one last in sync, if the listed file
      of its name is not either, there being a record or the two being different, or
      if the record is there and the listed file is not. */
  predicate Saves(l: string, m: Option<string>, r: Option<string>) {
    m != Some(l) && (if r.Some? then m != r && (m.Some? || r != Some(l)) else m.Some?)
  }

  /** Without fault: when a backup is made, when the backup path is left alone, and
      when work on the file ends in an error. */
  lemma BackupsByDigest(l: string, b: Option<string>, m: Option<string>, r: Option<File>, known: bool)
    ensures var e := Outcome(l, b, m, r, known, NO_FAULT);
      && e.saved == (if Saves(l, m, Digest(r)) then Some(l) else b)
      && (e.failed <==> (r.None? && m.Some? && m != Some(l)) || (r.Some? && m == Some(r.value.digest) && m != Some(l) && r.value.version <= 0))
  {
  }

  /** What each fault does, by digests alone: which work it stops, and what is then
      at the path and at the backup path. */
  lemma FaultsByDigest(l: string, b: Option<string>, m: Option<string>, r: Option<File>, known: bool, f: Faults)
    requires !f.read
    ensures var e := Outcome(l, b, m, r, known, f);
      && (Saves(l, m, Digest(r)) && f.rename ==> e.failed && e.saved == None && (r.Some? ==> e.here == Some(l)))
      && (Saves(l, m, Digest(r)) && !f.rename ==> e.saved == Some(l) && (r.None? || f.get || f.link ==> e.failed && e.here == None))
      && (m == Some(l) && r.Some? && r.value.digest != l ==>
            e.saved == b && (e.failed <==> f.get || f.link) && (e.failed ==> e.here == if f.get then Some(l) else None))
      && (m == Some(l) && r.None? ==> e.saved == b && (e.failed <==> f.remove) && (e.failed ==> e.here == Some(l)))
      && (m != Some(l) && m == Digest(r) ==>
            && e.saved == b && e.here == Some(l)
            && (e.failed <==> (!known && f.upload) || f.request || (r.Some? && (f.del || r.value.version <= 0))))
      && (e.failed ==> e.entry == None)
  {
  }

  /** A push that got through did not have to retract a version that is not central yet. */
  lemma PushFails(l: string, b: Option<string>, m: Option<string>, r: Option<File>, known: bool, f: Faults)
    requires !Outcome(l, b, m, r, known, f).failed
    ensures Decide(l, m, Digest(r)) != ClashDelete
    ensures Asks(Triple(Some(l), m, Digest(r))) && r.Some? ==> r.value.version > 0
  {
  }

  /** The one case: an edit whose backup could not be made is removed all the same. */
  lemma EditLost()
    ensures Outcome("edited", None, Some("synced"), None, false, NO_FAULT.(rename := true)) == Effect(None, None, None, true)
  {
  }
}
