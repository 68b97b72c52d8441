/** Rounds of merefs: the lists, the local tree and the maps of
    merefs/local.c, readmdir.c and merefs.c, changed in place. */
module FileSync {
  import opened Headers
  import opened Merefs

  function Get<T>(m: map<string, T>, n: string): Option<T> { if n in m then Some(m[n]) else None }

  function Put<T>(m: map<string, T>, n: string, o: Option<T>): map<string, T> {
    match o case Some(v) => m[n := v] case None => m - {n}
  }

  /** Local contents by path, last-sync map, files listed in the message directory. */
  datatype State = State(tree: map<string, string>, current: map<string, string>, remote: map<string, File>)

  /** The three about one name; a hidden path is never looked at locally. */
  function Look(s: State, n: string): Triple {
    Triple(if Hidden(n) then None else Get(s.tree, n), Get(s.current, n), Digest(Get(s.remote, n)))
  }

  predicate Pushes(s: State, n: string) {
    var t := Look(s, n);
    t.local.Some? && Decide(t.local.value, t.map_, t.remote) == Push
  }

  predicate Clashes(s: State, n: string) {
    var t := Look(s, n);
    t.local.Some? && Decide(t.local.value, t.map_, t.remote) == Clash
  }

  /** Listed, absent here, and never in sync: the round creates it. */
  predicate Creates(s: State, n: string) {
    var t := Look(s, n);
    t.local.None? && t.map_.None? && t.remote.Some?
  }

  /** Fails the round whatever the network and the disk do. */
  predicate Blocked(s: State, n: string) {
    var t := Look(s, n);
    || (t.local.Some? && Decide(t.local.value, t.map_, t.remote) == ClashDelete)
    || (Asks(t) && n in s.remote && s.remote[n].version <= 0)
  }

  /** The patches asked for about the names of `p`, and no other. */
  ghost predicate AskedFor(s: State, p: set<string>, asked: set<Request>) {
    && (forall n, d, r :: Advertise(n, d, r) in asked ==> n in p && Pushes(s, n) && Look(s, n).local == Some(d))
    && (forall v :: Retract(v) in asked ==> exists n :: n in p && n in s.remote && s.remote[n].version == v && Asks(Look(s, n)))
    && (forall n :: n in p && Pushes(s, n) ==> exists r :: Advertise(n, s.tree[n], r) in asked)
    && (forall n :: n in p && n in s.remote && Asks(Look(s, n)) ==> Retract(s.remote[n].version) in asked)
  }

  /** A round that ended without error took `s` to `t`. */
  ghost predicate Settled(s: State, t: State, asked: set<Request>) {
    && t.remote == s.remote
    && (forall n :: !Blocked(s, n))
    && (forall n :: Get(t.current, n) == Synced(Look(s, n)).map_)
    && (forall n :: !Hidden(n) ==> Get(t.tree, n) == Synced(Look(s, n)).local)
    && (forall n :: Clashes(s, n) && !Creates(s, Backup(n)) ==> Get(t.tree, Backup(n)) == Get(s.tree, n))
    && (forall n :: Hidden(n) && Creates(s, n) ==> Get(t.tree, n) == Look(s, n).remote)
    && (forall n :: Hidden(n) && !Creates(s, n) && (forall m :: Clashes(s, m) ==> Backup(m) != n) ==> Get(t.tree, n) == Get(s.tree, n))
    && AskedFor(s, Visible(s.tree) + s.remote.Keys, asked)
  }

  // ----- reading the message directory -----

  /** What the listing reports: a file, or the removal of a version. */
  datatype Shown = Added(name: string, file: File) | Gone(version: int)

  /** A new file replaces the one of the same name; a removal goes by version. */
  function Show(r: map<string, File>, e: Shown): map<string, File> {
    match e
    case Added(n, f) => r[n := f]
    case Gone(v) => map n | n in r && r[n].version != v :: r[n]
  }

  function Listed(r: map<string, File>, shown: seq<Shown>): map<string, File> {
    if shown == [] then r else Show(Listed(r, shown[..|shown| - 1]), shown[|shown| - 1])
  }

  predicate OneEach(r: map<string, File>) {
    forall a, b :: a in r && b in r && r[a].version == r[b].version ==> a == b
  }

  /** The content of a local file is still there, or is the one last in sync, or was saved. */
  predicate Kept(s: State, tree: map<string, string>, n: string) {
    n in s.tree ==>
      || Get(tree, n) == Some(s.tree[n])
      || Get(s.current, n) == Some(s.tree[n])
      || Get(tree, Backup(n)) == Some(s.tree[n])
  }

  lemma PutOne(t: map<string, string>, n: string)
    ensures Put(t, n, Get(t, n)) == t && Put(t, n, None) == t - {n} && forall d :: Put(t, n, Some(d)) == t[n := d]
  {
  }

  lemma PutLaws(t: map<string, string>, n: string, b: string)
    requires n in t && n != b
    ensures Get(t, n) == Some(t[n])
    ensures Put(t, b, Get(t, b)) == t && Put(t, n, Some(t[n])) == t
    ensures forall o :: Put(Put(t, b, o), n, Some(t[n])) == Put(t, b, o)
    ensures forall o, x, y :: Get(Put(Put(t, b, o), n, x), n) == x && Put(Put(Put(t, b, o), n, x), n, y) == Put(Put(t, b, o), n, y)
    ensures forall o, x :: n in Put(Put(t, b, o), n, x) <==> x.Some?
    ensures forall o :: n in Put(t, b, o)
  {
    assert Put(t, b, Get(t, b)) == t && Put(t, n, Some(t[n])) == t;
    forall o ensures n in Put(t, b, o) && Put(Put(t, b, o), n, Some(t[n])) == Put(t, b, o) {
      assert n in Put(t, b, o) && Put(t, b, o)[n] == t[n];
    }
    forall o, x ensures n in Put(Put(t, b, o), n, x) <==> x.Some? {}
    forall o, x ensures Get(Put(Put(t, b, o), n, x), n) == x {}
    forall o, x, y ensures Put(Put(Put(t, b, o), n, x), n, y) == Put(Put(t, b, o), n, y) { PutTwice(Put(t, b, o), n, x, y); }
  }

  lemma PutTwice(t: map<string, string>, n: string, x: Option<string>, y: Option<string>)
    ensures Put(Put(t, n, x), n, y) == Put(t, n, y)
  {
  }

  /** The tree and the next map after work on one name, from those before. */
  ghost predicate Effected(n: string, e: Effect, failed: bool, tree: map<string, string>, next: map<string, string>, tree': map<string, string>, next': map<string, string>) {
    && failed == e.failed
    && tree' == Put(Put(tree, Backup(n), e.saved), n, e.here)
    && next' == if e.entry.Some? then next[n := e.entry.value] else next
  }

  /** The patches asked for after work on one name, from those before. */
  ghost predicate Requested(n: string, d: string, m: Option<string>, r: Option<File>, failed: bool, asked: set<Request>, asked': set<Request>) {
    if Decide(d, m, Digest(r)) != Push then asked' == asked
    else !failed ==> exists x :: asked' == asked + {Advertise(n, d, x)} + (if r.Some? then {Retract(r.value.version)} else {})
  }

  /** The paths the traversal comes across. */
  function Visible(tree: map<string, string>): set<string> { set n | n in tree && !Hidden(n) }

  /** Where the round stands once the names of `p` are done. */
  ghost predicate Progress(s: State, p: set<string>, tree: map<string, string>, next: map<string, string>, asked: set<Request>) {
    && Done(s, p, next)
    && (forall n :: !Hidden(n) ==> Get(tree, n) == if n in p then Synced(Look(s, n)).local else Get(s.tree, n))
    && Backups(s, p, tree)
    && (forall n :: n in p ==> !Blocked(s, n))
    && AskedFor(s, p, asked)
  }

  /** Hidden paths: files created there, backups, and all others as they were. */
  ghost predicate Backups(s: State, p: set<string>, tree: map<string, string>) {
    && (forall n :: n in p && Clashes(s, n) && !(Backup(n) in p && Creates(s, Backup(n))) ==> Get(tree, Backup(n)) == Get(s.tree, n))
    && (forall n :: n in p && Hidden(n) && Creates(s, n) ==> Get(tree, n) == Look(s, n).remote)
    && (forall n :: Hidden(n) && !(n in p && Creates(s, n)) && (forall m :: m in p && Clashes(s, m) ==> Backup(m) != n) ==> Get(tree, n) == Get(s.tree, n))
  }

  /** The file clashed with the listed one of its name, and a listed file of `p` was created over its backup. */
  predicate Spoiled(s: State, p: set<string>, n: string)
    requires n in s.tree
  {
    && Clashes(s, n) && Get(s.remote, n).Some? && s.remote[n].digest != s.tree[n]
    && Backup(n) in p && Creates(s, Backup(n)) && Digest(Get(s.remote, Backup(n))) != Some(s.tree[n])
  }

  /** The stop at `q` took the content: its own, or a backup unlinked for a listed file that could not be linked. */
  predicate Struck(s: State, q: string, n: string, f: Faults)
    requires n in s.tree
  {
    || (n == q && Lossy(s.tree[n], Get(s.current, n), Get(s.remote, n), f))
    || (Clashes(s, n) && Get(s.remote, n).Some? && s.remote[n].digest != s.tree[n] && Backup(n) == q && Creates(s, q) && !f.get && f.link)
  }

  /** With the names of `p` done and a stop at `q`, which local contents are lost and which are kept. */
  ghost predicate LostExactly(s: State, tree: map<string, string>, p: set<string>, q: string, f: Faults) {
    forall n :: n in Visible(s.tree) ==> (Kept(s, tree, n) <==> !Spoiled(s, p, n) && !Struck(s, q, n, f))
  }

  /** A stop at `q` has a fault behind it, or a name that no round gets past; where
      three agree only the digest of the local file can fail. */
  predicate StopsAt(s: State, q: string, f: Faults) {
    && q in Visible(s.tree) + s.remote.Keys
    && (f == NO_FAULT ==> Blocked(s, q))
    && (Agree(Look(s, q)) ==> f.read && q in Visible(s.tree))
  }

  /** The map so far has the entries of the names of `p`, and no other. */
  ghost predicate Done(s: State, p: set<string>, next: map<string, string>) {
    forall n :: Get(next, n) == if n in p then Synced(Look(s, n)).map_ else None
  }

  /** A round that did the names of `p` and stopped at `q`: local files first, then the others. */
  ghost predicate Stopped(s: State, p: set<string>, q: string, tree: map<string, string>, next: map<string, string>, f: Faults) {
    && q !in p && p <= Visible(s.tree) + s.remote.Keys
    && (if q in Visible(s.tree) then p <= Visible(s.tree) else Visible(s.tree) <= p)
    && StopsAt(s, q, f) && Done(s, p, next) && LostExactly(s, tree, p, q, f)
  }

  lemma Starts(s: State)
    ensures Progress(s, {}, s.tree, map[], {})
  {
  }

  lemma Untouched(s: State, p: set<string>, tree: map<string, string>, next: map<string, string>, asked: set<Request>, n: string)
    requires Progress(s, p, tree, next, asked) && n in Visible(s.tree) - p
    ensures n in tree && n in s.tree && tree[n] == s.tree[n] && !Hidden(n)
  {
    assert Get(tree, n) == Get(s.tree, n);
  }

  lemma EffectAt(n: string, e: Effect, failed: bool, tree: map<string, string>, next: map<string, string>, tree': map<string, string>, next': map<string, string>)
    requires Effected(n, e, failed, tree, next, tree', next') && n !in next
    ensures failed == e.failed && Backup(n) != n
    ensures forall x :: Get(tree', x) == if x == n then e.here else if x == Backup(n) then e.saved else Get(tree, x)
    ensures forall x :: Get(next', x) == if x == n then e.entry else Get(next, x)
  {
    BackupLonger(n);
  }

  lemma StepAsked(s: State, p: set<string>, n: string, asked: set<Request>, asked': set<Request>)
    requires AskedFor(s, p, asked) && n in Visible(s.tree) - p
    requires Requested(n, s.tree[n], Get(s.current, n), Get(s.remote, n), false, asked, asked')
    ensures AskedFor(s, p + {n}, asked')
  {
    hide Hidden;
    assert Look(s, n) == Triple(Some(s.tree[n]), Get(s.current, n), Digest(Get(s.remote, n)));
    assert Asks(Look(s, n)) <==> Pushes(s, n);
    forall m | m in p + {n} && Pushes(s, m) ensures exists r :: Advertise(m, s.tree[m], r) in asked' {
      if m in p { var r :| Advertise(m, s.tree[m], r) in asked; assert Advertise(m, s.tree[m], r) in asked'; }
    }
    forall v | Retract(v) in asked' ensures exists m :: m in p + {n} && m in s.remote && s.remote[m].version == v && Asks(Look(s, m)) {
      if Retract(v) in asked {
        var m :| m in p && m in s.remote && s.remote[m].version == v && Asks(Look(s, m));
        assert m in p + {n};
      } else {
        assert n in p + {n} && n in s.remote && s.remote[n].version == v;
      }
    }
  }

  lemma StepBackups(s: State, p: set<string>, n: string, tree: map<string, string>, e: Effect, tree': map<string, string>)
    requires Backups(s, p, tree) && n in Visible(s.tree) - p && (forall m :: m in p && Creates(s, m) ==> !Hidden(m))
    requires forall x :: Get(tree', x) == if x == n then e.here else if x == Backup(n) then e.saved else Get(tree, x)
    requires e.saved == if Clashes(s, n) then Get(s.tree, n) else Get(tree, Backup(n))
    ensures Backups(s, p + {n}, tree')
  {
    BackupHidden(n);
    hide Hidden, Backup, Clashes, Creates;
    forall m | m in p + {n} && Clashes(s, m) ensures Get(tree', Backup(m)) == Get(s.tree, m) {
      BackupHidden(m);
      if m != n && Backup(m) == Backup(n) { BackupInjective(m, n); }
    }
    forall x | Hidden(x) && (forall m :: m in p + {n} && Clashes(s, m) ==> Backup(m) != x) ensures Get(tree', x) == Get(s.tree, x) {
      assert forall m :: m in p && Clashes(s, m) ==> m in p + {n};
      assert n in p + {n};
    }
  }

  lemma LookVisible(s: State, n: string)
    requires n in Visible(s.tree)
    ensures Look(s, n) == Triple(Some(s.tree[n]), Get(s.current, n), Digest(Get(s.remote, n)))
    ensures !Creates(s, n) && !Hidden(n)
    ensures Clashes(s, n) <==> Decide(s.tree[n], Get(s.current, n), Digest(Get(s.remote, n))) == Clash
    ensures Blocked(s, n) <==>
      || Decide(s.tree[n], Get(s.current, n), Digest(Get(s.remote, n))) == ClashDelete
      || (Asks(Look(s, n)) && n in s.remote && s.remote[n].version <= 0)
  {
  }

  /** One visible file worked on without error, seen name by name. */
  lemma StepAt(s: State, n: string, e: Effect, b: Option<string>, known: bool, f: Faults, tree: map<string, string>, next: map<string, string>, tree': map<string, string>, next': map<string, string>)
    requires n in Visible(s.tree) && n !in next && b == Get(tree, Backup(n))
    requires e == Outcome(s.tree[n], b, Get(s.current, n), Get(s.remote, n), known, f)
    requires Effected(n, e, false, tree, next, tree', next')
    ensures forall x :: Get(tree', x) == if x == n then Synced(Look(s, n)).local else if x == Backup(n) then e.saved else Get(tree, x)
    ensures forall x :: Get(next', x) == if x == n then Synced(Look(s, n)).map_ else Get(next, x)
    ensures e.here == Synced(Look(s, n)).local && e.saved == (if Clashes(s, n) then Get(s.tree, n) else b) && !Blocked(s, n)
  {
    EffectAt(n, e, false, tree, next, tree', next');
    OutcomeSettles(s.tree[n], b, Get(s.current, n), Get(s.remote, n), known, f);
    PushFails(s.tree[n], b, Get(s.current, n), Get(s.remote, n), known, f);
    LookVisible(s, n);
    hide Outcome, Effected, Backup, Hidden, Synced, Decide, Look, Clashes, Blocked;
  }

  lemma StepProgress(s: State, p: set<string>, tree: map<string, string>, next: map<string, string>, asked: set<Request>, n: string, known: bool, f: Faults, tree': map<string, string>, next': map<string, string>, asked': set<Request>)
    requires Progress(s, p, tree, next, asked) && p <= Visible(s.tree) && n in Visible(s.tree) - p
    requires Effected(n, Outcome(s.tree[n], Get(tree, Backup(n)), Get(s.current, n), Get(s.remote, n), known, f), false, tree, next, tree', next')
    requires Requested(n, s.tree[n], Get(s.current, n), Get(s.remote, n), false, asked, asked')
    ensures Progress(s, p + {n}, tree', next', asked')
  {
    hide Outcome, Effected, Requested, Backup, Hidden, Synced, Decide, Backups, Look, Clashes, Creates, Blocked, AskedFor;
    var e := Outcome(s.tree[n], Get(tree, Backup(n)), Get(s.current, n), Get(s.remote, n), known, f);
    assert n !in next by { assert Get(next, n) == None; }
    StepAt(s, n, e, Get(tree, Backup(n)), known, f, tree, next, tree', next');
    hide Get, Visible;
    assert Hidden(Backup(n)) by { BackupHidden(n); }
    StepAsked(s, p, n, asked, asked');
    forall m | m in p ensures !Creates(s, m) { LookVisible(s, m); }
    LookVisible(s, n);
    StepBackups(s, p, n, tree, e, tree');
  }

  /** A name done is kept unless a created file took its backup. */
  lemma KeptDone(s: State, p: set<string>, tree: map<string, string>, next: map<string, string>, asked: set<Request>, n: string)
    requires Progress(s, p, tree, next, asked) && n in Visible(s.tree) && n in p
    ensures Kept(s, tree, n) <==> !Spoiled(s, p, n)
    ensures !(Clashes(s, n) && Get(s.remote, n).Some? && s.remote[n].digest != s.tree[n]) ==>
      Get(tree, n) == Some(s.tree[n]) || Get(s.current, n) == Some(s.tree[n])
    ensures Clashes(s, n) && Get(s.remote, n).Some? && s.remote[n].digest != s.tree[n] ==>
      Get(tree, n) != Some(s.tree[n]) && Get(s.current, n) != Some(s.tree[n])
  {
    LookVisible(s, n);
    BackupHidden(n);
    assert Creates(s, Backup(n)) ==> Look(s, Backup(n)).remote == Digest(Get(s.remote, Backup(n)));
    hide Hidden, Backup, AskedFor, Look, Creates;
    assert Get(tree, n) == Synced(Look(s, n)).local;
  }

  /** A name still to do is as it was. */
  lemma KeptYet(s: State, p: set<string>, tree: map<string, string>, next: map<string, string>, asked: set<Request>, n: string)
    requires Progress(s, p, tree, next, asked) && n in Visible(s.tree) - p && p <= Visible(s.tree)
    ensures Get(tree, n) == Some(s.tree[n]) && !Spoiled(s, p, n)
  {
    BackupHidden(n);
    if Backup(n) in p { LookVisible(s, Backup(n)); }
    hide Hidden, Backup, AskedFor, Look, Creates;
  }

  lemma StopsLost(s: State, p: set<string>, tree: map<string, string>, next: map<string, string>, asked: set<Request>, n: string, known: bool, f: Faults, tree': map<string, string>, next': map<string, string>)
    requires Progress(s, p, tree, next, asked) && p <= Visible(s.tree) && n in Visible(s.tree) - p
    requires Effected(n, Outcome(s.tree[n], Get(tree, Backup(n)), Get(s.current, n), Get(s.remote, n), known, f), true, tree, next, tree', next')
    ensures Stopped(s, p, n, tree', next', f)
  {
    var b, m, r := Get(tree, Backup(n)), Get(s.current, n), Get(s.remote, n);
    FailedEntry(s.tree[n], b, m, r, known, f);
    OutcomeSettles(s.tree[n], b, m, r, known, f);
    LookVisible(s, n);
    StopsLostExactly(s, p, tree, next, asked, n, known, f, tree', next');
    hide Outcome, Backup, Hidden, Synced, Decide, Look, Blocked, Creates, Clashes, LostExactly, Backups, AskedFor, Get, Put, Done, Visible;
  }

  lemma StopsLostExactly(s: State, p: set<string>, tree: map<string, string>, next: map<string, string>, asked: set<Request>, n: string, known: bool, f: Faults, tree': map<string, string>, next': map<string, string>)
    requires Progress(s, p, tree, next, asked) && p <= Visible(s.tree) && n in Visible(s.tree) - p
    requires Effected(n, Outcome(s.tree[n], Get(tree, Backup(n)), Get(s.current, n), Get(s.remote, n), known, f), true, tree, next, tree', next')
    ensures LostExactly(s, tree', p, n, f)
  {
    var e := Outcome(s.tree[n], Get(tree, Backup(n)), Get(s.current, n), Get(s.remote, n), known, f);
    assert n !in next by { assert Get(next, n) == None; }
    EffectAt(n, e, true, tree, next, tree', next');
    OutcomeKeeps(s.tree[n], Get(tree, Backup(n)), Get(s.current, n), Get(s.remote, n), known, f);
    LookVisible(s, n);
    BackupHidden(n);
    hide Outcome, Effected, Backup, Hidden, Synced, Decide, Look, Lossy, Blocked, Progress, Spoiled, Creates, Clashes;
    forall x | x in Visible(s.tree) ensures Kept(s, tree', x) <==> !Spoiled(s, p, x) && !Struck(s, n, x, f) {
      LookVisible(s, x);
      BackupHidden(x);
      NotSpoiled(s, p, x);
      if x == n {
      } else {
        if x in p { KeptDone(s, p, tree, next, asked, x); } else { KeptYet(s, p, tree, next, asked, x); }
        if Backup(x) == Backup(n) { BackupInjective(x, n); }
      }
    }
  }

  lemma FailedEntry(l: string, b: Option<string>, m: Option<string>, r: Option<File>, known: bool, f: Faults)
    ensures var e := Outcome(l, b, m, r, known, f); e.failed ==> e.entry.None?
  {
  }

  /** A local file whose digest cannot be taken: nothing is changed, and the round stops. */
  lemma Unread(s: State, p: set<string>, tree: map<string, string>, next: map<string, string>, asked: set<Request>, n: string, f: Faults)
    requires Progress(s, p, tree, next, asked) && p <= Visible(s.tree) && n in Visible(s.tree) - p && f.read
    ensures Stopped(s, p, n, tree, next, f)
  {
    Untouched(s, p, tree, next, asked, n);
    BackupLonger(n);
    PutLaws(tree, n, Backup(n));
    StopsLost(s, p, tree, next, asked, n, false, f, tree, next);
  }

  /** While only local names are done, no backup was taken. */
  lemma NotSpoiled(s: State, p: set<string>, n: string)
    requires p <= Visible(s.tree) && n in Visible(s.tree)
    ensures !Spoiled(s, p, n)
  {
    if Backup(n) in p { LookVisible(s, Backup(n)); }
    hide Creates, Clashes;
  }

  /** The listed files, those of `p` moved to the matched ones. */
  predicate Sorted(remote: map<string, File>, p: set<string>, unmatched: map<string, File>, matched: map<string, File>) {
    unmatched == remote - p && matched == (map n | n in remote && n in p :: remote[n])
  }

  lemma StartsSorted(u: map<string, File>)
    ensures Sorted(u + map[], {}, u, map[]) && Whole(u + map[], u, map[])
  {
    assert u + map[] == u;
  }

  lemma StepSorted(remote: map<string, File>, p: set<string>, u: map<string, File>, m: map<string, File>, n: string, u': map<string, File>, m': map<string, File>)
    requires Sorted(remote, p, u, m) && n !in p
    requires u' == u - {n} && m' == if n in u then m[n := u[n]] else m
    ensures n !in m && Get(u, n) == Get(remote, n) && Sorted(remote, p + {n}, u', m')
  {
  }

  lemma SortedWhole(remote: map<string, File>, p: set<string>, u: map<string, File>, m: map<string, File>)
    requires Sorted(remote, p, u, m)
    ensures Whole(remote, u, m) && u.Keys == remote.Keys - p
  {
  }

  lemma CreateStep(s: State, p: set<string>, tree: map<string, string>, next: map<string, string>, asked: set<Request>, n: string, tree': map<string, string>, next': map<string, string>)
    requires Progress(s, p, tree, next, asked) && n !in p && Creates(s, n)
    requires tree' == tree[n := s.remote[n].digest] && next' == next[n := s.remote[n].digest]
    ensures Progress(s, p + {n}, tree', next', asked)
  {
    hide Pushes, Clashes, Asks, Look, Blocked, Hidden, Backup, Synced, Backups, Creates, AskedFor;
    CreatesNow(s, n);
    CreateBackups(s, p, tree, n, tree');
    AskedSame(s, p, asked, n, asked);
  }

  lemma CreatesNow(s: State, n: string)
    requires Creates(s, n)
    ensures n in s.remote && !Pushes(s, n) && !Asks(Look(s, n)) && !Blocked(s, n)
    ensures var d := Some(s.remote[n].digest); Synced(Look(s, n)) == Triple(d, d, d)
  {
  }

  lemma RetractsNow(s: State, n: string)
    requires n in s.remote && n in s.current && Look(s, n).local == None
    ensures !Pushes(s, n) && Asks(Look(s, n)) && !Creates(s, n) && !Clashes(s, n)
    ensures Blocked(s, n) <==> s.remote[n].version <= 0
    ensures Synced(Look(s, n)) == Triple(None, None, None) && (!Hidden(n) ==> Get(s.tree, n) == None)
  {
  }

  lemma RetractBackups(s: State, p: set<string>, tree: map<string, string>, n: string)
    requires Backups(s, p, tree) && !Creates(s, n) && !Clashes(s, n)
    ensures Backups(s, p + {n}, tree)
  {
    hide Creates, Clashes, Get, Hidden, Backup;
  }

  lemma CreateBackups(s: State, p: set<string>, tree: map<string, string>, n: string, tree': map<string, string>)
    requires Backups(s, p, tree) && n !in p && Creates(s, n)
    requires tree' == tree[n := s.remote[n].digest]
    ensures Backups(s, p + {n}, tree')
  {
  }

  lemma AskedSame(s: State, p: set<string>, asked: set<Request>, n: string, asked': set<Request>)
    requires AskedFor(s, p, asked) && !Pushes(s, n) && n in s.remote
    requires asked' == if Asks(Look(s, n)) then asked + {Retract(s.remote[n].version)} else asked
    ensures AskedFor(s, p + {n}, asked')
  {
  }

  lemma RetractStep(s: State, p: set<string>, tree: map<string, string>, next: map<string, string>, asked: set<Request>, n: string, asked': set<Request>)
    requires Progress(s, p, tree, next, asked) && n !in p && n in s.remote && n in s.current && Look(s, n).local == None && s.remote[n].version > 0
    requires asked' == asked + {Retract(s.remote[n].version)}
    ensures Progress(s, p + {n}, tree, next, asked')
  {
    hide Pushes, Clashes, Asks, Look, Blocked, Hidden, Backup, Synced, Backups, Creates, AskedFor;
    RetractsNow(s, n);
    RetractBackups(s, p, tree, n);
    AskedSame(s, p, asked, n, asked');
  }

  predicate Whole(remote: map<string, File>, u: map<string, File>, m: map<string, File>) {
    u.Keys !! m.Keys && u + m == remote
  }

  lemma Unmatched(s: State, u: map<string, File>, m: map<string, File>, n: string)
    requires Whole(s.remote, u, m) && n in u && Look(s, n).local == None
    ensures n in s.remote && u[n] == s.remote[n] && (n !in s.current ==> Creates(s, n)) && !Agree(Look(s, n))
  {
  }

  lemma MoveKeeps(remote: map<string, File>, u: map<string, File>, m: map<string, File>, n: string)
    requires Whole(remote, u, m) && n in u
    ensures Whole(remote, u - {n}, m[n := u[n]])
  {
  }

  lemma NotLocal(s: State, p: set<string>, n: string)
    requires n !in Visible(s.tree)
    ensures Look(s, n).local == None
  {
  }

  /** The round stops while it creates a file. */
  lemma CreateStops(s: State, p: set<string>, tree: map<string, string>, next: map<string, string>, asked: set<Request>, q: string, tree': map<string, string>, f: Faults)
    requires Progress(s, p, tree, next, asked) && Visible(s.tree) <= p && q !in p && p <= Visible(s.tree) + s.remote.Keys
    requires q in s.remote && Look(s, q).local == None && !Agree(Look(s, q)) && q !in Visible(s.tree)
    requires tree' == if Creates(s, q) && !f.get && f.link then tree - {q} else tree
    requires f == NO_FAULT ==> Blocked(s, q)
    ensures Stopped(s, p, q, tree', next, f)
  {
    hide Hidden, Backup, Look, Blocked, Creates, Get, Done, Visible, Backups, AskedFor, LostExactly;
    CreateStopsLost(s, p, tree, next, asked, q, tree', f);
  }

  lemma CreateStopsLost(s: State, p: set<string>, tree: map<string, string>, next: map<string, string>, asked: set<Request>, q: string, tree': map<string, string>, f: Faults)
    requires Progress(s, p, tree, next, asked) && Visible(s.tree) <= p && q !in p
    requires Look(s, q).local == None && q !in Visible(s.tree)
    requires tree' == if Creates(s, q) && !f.get && f.link then tree - {q} else tree
    ensures LostExactly(s, tree', p, q, f)
  {
    hide Progress, Hidden, Backup, Look, Blocked, Lossy, Spoiled, Clashes, Creates;
    forall x | x in Visible(s.tree) ensures Kept(s, tree', x) <==> !Spoiled(s, p, x) && !Struck(s, q, x, f) {
      KeptDone(s, p, tree, next, asked, x);
      SpoiledBy(s, p, x);
    }
  }

  lemma SpoiledBy(s: State, p: set<string>, n: string)
    requires n in s.tree
    ensures Spoiled(s, p, n) ==> Backup(n) in p && Clashes(s, n) && Get(s.remote, n).Some? && s.remote[n].digest != s.tree[n]
  {
    hide Clashes, Creates, Backup;
  }

  lemma Remains(remote: map<string, File>, u: map<string, File>, m: map<string, File>)
    requires Whole(remote, u, m)
    ensures u + m == remote
  {
  }

  lemma Elsewhere(s: State, n: string)
    requires n !in Visible(s.tree) + s.remote.Keys
    ensures Synced(Look(s, n)) == Triple(None, None, None) && !Blocked(s, n) && !Clashes(s, n) && !Creates(s, n)
    ensures !Hidden(n) ==> Get(s.tree, n) == None
  {
  }

  /** All names are done: the round is what `Settled` says. */
  lemma Ends(s: State, tree: map<string, string>, next: map<string, string>, asked: set<Request>)
    requires Progress(s, Visible(s.tree) + s.remote.Keys, tree, next, asked)
    ensures Settled(s, State(tree, next, s.remote), asked)
  {
    hide Hidden, Backup, Look, Creates, Clashes, AskedFor, Blocked, Synced, Visible, Get;
    forall n | n !in Visible(s.tree) + s.remote.Keys
      ensures Synced(Look(s, n)) == Triple(None, None, None) && !Blocked(s, n) && !Clashes(s, n) && !Creates(s, n)
      ensures !Hidden(n) ==> Get(s.tree, n) == None
    { Elsewhere(s, n); }
  }

  /** After a round that ended well: a content is lost if and only if its file
      clashed and a listed file of another content was created over its backup. */
  lemma SettledKeeps(s: State, t: State, asked: set<Request>, n: string)
    requires Settled(s, t, asked) && n in Visible(s.tree)
    ensures Kept(s, t.tree, n) <==> !Spoiled(s, s.remote.Keys, n)
  {
    LookVisible(s, n);
    BackupHidden(n);
    assert Creates(s, Backup(n)) ==> Backup(n) in s.remote && Look(s, Backup(n)).remote == Digest(Get(s.remote, Backup(n)));
    hide Hidden, Backup, AskedFor, Look, Creates;
    assert !Blocked(s, n);
  }

  /** The files that get a backup, by digests alone: both files are there, neither is
      the one last in sync, and there is a record or the two are different. */
  predicate Diverged(s: State, n: string) {
    && n in s.tree && !Hidden(n) && n in s.remote
    && Get(s.current, n) != Some(s.tree[n]) && Get(s.current, n) != Some(s.remote[n].digest)
    && (n in s.current || s.tree[n] != s.remote[n].digest)
  }

  lemma ClashesByDigest(s: State, n: string)
    ensures Clashes(s, n) <==> Diverged(s, n)
  {
  }

  /** After a round that ended well a visible file was saved if and only if it had
      diverged, unless a listed file was created there; else its backup path is as it was. */
  lemma SettledSaves(s: State, t: State, asked: set<Request>, n: string)
    requires Settled(s, t, asked) && n in Visible(s.tree) && !Creates(s, Backup(n))
    ensures Get(t.tree, Backup(n)) == if Diverged(s, n) then Some(s.tree[n]) else Get(s.tree, Backup(n))
  {
    BackupHidden(n);
    ClashesByDigest(s, n);
    hide Hidden, Backup, Look, Creates, Clashes, Diverged, AskedFor;
    if !Clashes(s, n) {
      forall m | Clashes(s, m) ensures Backup(m) != Backup(n) { if Backup(m) == Backup(n) { BackupInjective(m, n); } }
    }
  }

  /** A file that is the listed one, with no record or with that of the same content,
      is left alone, and nothing is asked for about it. */
  lemma SameLeftAlone(s: State, t: State, asked: set<Request>, n: string)
    requires Settled(s, t, asked) && n in Visible(s.tree) && n in s.remote && s.remote[n].digest == s.tree[n]
    requires Get(s.current, n) == None || Get(s.current, n) == Some(s.tree[n])
    ensures Get(t.tree, n) == Some(s.tree[n]) && Get(t.current, n) == Some(s.tree[n])
    ensures !Creates(s, Backup(n)) ==> Get(t.tree, Backup(n)) == Get(s.tree, Backup(n))
    ensures forall d, r :: Advertise(n, d, r) !in asked
    ensures OneEach(s.remote) ==> Retract(s.remote[n].version) !in asked
  {
    if !Creates(s, Backup(n)) { SettledSaves(s, t, asked, n); }
    LookVisible(s, n);
    assert !Pushes(s, n) && !Asks(Look(s, n)) && Synced(Look(s, n)) == Triple(Some(s.tree[n]), Some(s.tree[n]), Some(s.tree[n]));
    hide Hidden, Backup, Creates, Clashes, Look, Synced, Asks;
  }

  /** No fault and no change from outside: the backup of a clash is overwritten by a listed file of its name. */
  lemma BackupOverwritten(t: State, asked: set<Request>)
    requires Settled(State(map["f" := "mine"], map[], map["f" := File("theirs", 0, 1), ".f" := File("other", 1, 2)]), t, asked)
    ensures t.tree == map["f" := "theirs", ".f" := "other"]
  {
    var s := State(map["f" := "mine"], map[], map["f" := File("theirs", 0, 1), ".f" := File("other", 1, 2)]);
    assert Hidden(".f") && !Hidden("f");
    assert Get(t.tree, "f") == Synced(Look(s, "f")).local == Some("theirs");
    assert Creates(s, ".f") && Get(t.tree, ".f") == Some("other");
    forall n | n != "f" && n != ".f" ensures Get(t.tree, n) == None {
      if Hidden(n) {
        assert !Creates(s, n);
        forall m | Clashes(s, m) ensures Backup(m) != n { assert m == "f"; BackupOfF(); }
      }
    }
    assert forall n :: n in t.tree ==> Get(t.tree, n) == Some(t.tree[n]);
  }

  lemma BackupOfF()
    ensures Backup("f") == ".f"
  {
    assert "f"[..0] == "";
  }

  ghost predicate Lists(u: map<string, File>, d: string) { exists n :: n in u && u[n].digest == d }

  lemma LeavesKnown(u: map<string, File>, n: string, d: string)
    requires n in u && Lists(u, d)
    ensures u[n].digest == d || Lists(u - {n}, d)
  {
    var x :| x in u && u[x].digest == d;
    if x != n { assert x in u - {n} && (u - {n})[x] == u[x]; }
  }

  lemma MovedKnown(u: map<string, File>, m: map<string, File>, u': map<string, File>, m': map<string, File>, n: string, d: string)
    requires n !in m && u' == u - {n} && m' == if n in u then m[n := u[n]] else m
    ensures Lists(u', d) || Lists(m', d) <==> Lists(u, d) || Lists(m, d)
  {
    if x :| x in u && u[x].digest == d { assert if x == n then x in m' && m'[x] == u[x] else x in u' && u'[x] == u[x]; }
    if x :| x in m && m[x].digest == d { assert x in m' && m'[x] == m[x]; }
  }

  class Syncer {
    var tree: map<string, string>
    var current: map<string, string>
    var next: map<string, string>
    var unmatched: map<string, File>
    var matched: map<string, File>
    var removed: set<File>
    var asked: set<Request>
    var store: map<int, string>
    var nextResource: int

    /** The resource of every file, and of every file advertised, holds the content of its digest. */
    ghost predicate Sound()
      reads this`store, this`nextResource, this`unmatched, this`matched, this`removed, this`asked
    {
      && (forall r :: r in store ==> r < nextResource)
      && AllStored(unmatched) && AllStored(matched)
      && (forall f :: f in removed ==> InStore(f.digest, f.resource))
      && (forall n, d, r :: Advertise(n, d, r) in asked ==> InStore(d, r))
    }

    ghost predicate AllStored(files: map<string, File>)
      reads this`store
    { forall n :: n in files ==> InStore(files[n].digest, files[n].resource) }

    lemma UnionStored(a: map<string, File>, b: map<string, File>)
      requires AllStored(a) && AllStored(b)
      ensures AllStored(a + b)
    {
      hide InStore;
    }

    predicate InStore(d: string, r: int)
      reads this`store
    { r in store && store[r] == d }

    /** A file of some list has this content. */
    ghost predicate Known(d: string)
      reads this`unmatched, this`matched, this`removed
    {
      Lists(unmatched, d) || Lists(matched, d) || (exists f :: f in removed && f.digest == d)
    }

    method RemoteIsMaster(n: string, r: File, f: Faults) returns (failed: bool)
      requires Sound() && InStore(r.digest, r.resource)
      modifies this`tree, this`next
      ensures Sound()
      ensures var e := Pulled(Get(old(tree), n), None, r, f);
        tree == Put(old(tree), n, e.here) && failed == e.failed
        && next == (if failed then old(next) else old(next)[n := r.digest])
    {
      if f.get { return true; }
      var content := store[r.resource];
      tree := tree - {n};
      if f.link { return true; }
      tree := tree[n := content];
      next := next[n := r.digest];
      return false;
    }

    /** The three searches by digest, then the upload if none finds the content. */
    method Resource(n: string, d: string, f: Faults) returns (r: int, failed: bool)
      requires Sound() && n in tree && tree[n] == d
      modifies this`store, this`nextResource
      ensures Sound()
      ensures failed <==> !old(Known(d)) && f.upload
      ensures !failed ==> InStore(d, r)
      ensures forall r :: r in old(store) ==> InStore(old(store)[r], r)
    {
      if m :| m in unmatched && unmatched[m].digest == d { return unmatched[m].resource, false; }
      if m :| m in matched && matched[m].digest == d { return matched[m].resource, false; }
      if g :| g in removed && g.digest == d { return g.resource, false; }
      if f.upload { return 0, true; }
      r := nextResource;
      store := store[r := tree[n]];
      nextResource := nextResource + 1;
      failed := false;
    }

    method LocalIsMaster(n: string, remote: Option<File>, d: string, f: Faults) returns (failed: bool)
      requires Sound() && n in tree && tree[n] == d
      modifies this`next, this`asked, this`store, this`nextResource
      ensures Sound()
      ensures failed <==> (!old(Known(d)) && f.upload) || f.request || (remote.Some? && (f.del || remote.value.version <= 0))
      ensures next == if failed then old(next) else old(next)[n := d]
      ensures !failed ==> exists r :: asked == old(asked) + {Advertise(n, d, r)} + (if remote.Some? then {Retract(remote.value.version)} else {})
      ensures forall r :: r in old(store) ==> InStore(old(store)[r], r)
    {
      var r, missing := Resource(n, d, f);
      hide Known;
      if missing || f.request { return true; }
      asked := asked + {Advertise(n, d, r)};
      if remote.Some? {
        var refused := DelRequest(remote.value.version, f);
        if refused { return true; }
      }
      next := next[n := d];
      return false;
    }

    /** Saves the file under the backup name, over any earlier backup. */
    method Conflict(n: string, f: Faults) returns (failed: bool)
      requires Sound() && n in tree
      modifies this`tree
      ensures Sound() && failed == f.rename
      ensures tree == if f.rename then Put(old(tree), Backup(n), None) else Put(Put(old(tree), Backup(n), Some(old(tree)[n])), n, None)
    {
      var bak := BackupName(n);
      assert |bak| == |n| + 1;
      tree := tree - {bak};
      if f.rename { return true; }
      tree := tree[bak := tree[n]] - {n};
      return false;
    }

    /** Fails on a file that is not there too. */
    method RemoveLocalFile(n: string, f: Faults) returns (failed: bool)
      requires Sound()
      modifies this`tree
      ensures Sound() && failed == (n !in old(tree) || f.remove)
      ensures tree == if failed then old(tree) else Put(old(tree), n, None)
    {
      if n !in tree || f.remove { return true; }
      tree := tree - {n};
      return false;
    }

    /** Moves the listed file of that name, if any, to the matched ones. */
    method TakeRemote(n: string) returns (r: Option<File>)
      requires Sound()
      modifies this`unmatched, this`matched
      ensures Sound() && r == Get(old(unmatched), n) && (r.Some? ==> InStore(r.value.digest, r.value.resource))
      ensures unmatched == old(unmatched) - {n}
      ensures matched == if r.Some? then old(matched)[n := r.value] else old(matched)
      ensures n !in old(matched) || n !in old(unmatched) ==> forall d :: Known(d) <==> old(Known(d))
    {
      r := None;
      if n in unmatched {
        r := Some(unmatched[n]);
        unmatched, matched := unmatched - {n}, matched[n := unmatched[n]];
      }
      if n !in old(matched) && n in old(unmatched) {
        forall d ensures Known(d) <==> old(Known(d)) { MovedKnown(old(unmatched), old(matched), unmatched, matched, n, d); }
      }
    }

    /** A listed file of that name: keep, pull, push or clash. */
    method MatchListed(n: string, m: Option<string>, r: File, f: Faults) returns (failed: bool)
      requires Sound() && !f.read && n in tree && InStore(r.digest, r.resource)
      modifies this`tree, this`next, this`asked, this`store, this`nextResource
      ensures Sound()
      ensures Effected(n, Outcome(old(tree)[n], Get(old(tree), Backup(n)), m, Some(r), old(Known(tree[n])), f), failed, old(tree), old(next), tree, next)
      ensures Requested(n, old(tree)[n], m, Some(r), failed, old(asked), asked)
    {
      var d := tree[n];
      assert Backup(n) != n by { BackupLonger(n); }
      PutLaws(old(tree), n, Backup(n));
      hide Known, Sound, Backup, Put, Get;
      if m.Some? && d != m.value && m.value == r.digest {
        failed := LocalIsMaster(n, Some(r), d, f);
      } else if d == r.digest && (m.None? || d == m.value) {
        next := next[n := d];
        failed := false;
      } else if m.Some? && d == m.value {
        failed := RemoteIsMaster(n, r, f);
      } else {
        failed := SaveAndPull(n, r, f);
      }
    }

    /** A conflict, then the remote file unless that failed. */
    method SaveAndPull(n: string, r: File, f: Faults) returns (failed: bool)
      requires Sound() && n in tree && InStore(r.digest, r.resource)
      modifies this`tree, this`next
      ensures Sound()
      ensures var e := if f.rename then Effect(Some(old(tree)[n]), None, None, true) else Pulled(None, Some(old(tree)[n]), r, f);
        Effected(n, e, failed, old(tree), old(next), tree, next)
    {
      assert Backup(n) != n by { BackupLonger(n); }
      PutLaws(old(tree), n, Backup(n));
      hide Known, Sound, Backup, Put, Get;
      failed := Conflict(n, f);
      if !failed { failed := RemoteIsMaster(n, r, f); }
    }

    /** No listed file of that name: a conflict that failed does not stop the removal after it. */
    method MatchUnlisted(n: string, m: Option<string>, f: Faults) returns (failed: bool)
      requires Sound() && !f.read && n in tree
      modifies this`tree, this`next, this`asked, this`store, this`nextResource
      ensures Sound()
      ensures Effected(n, Outcome(old(tree)[n], Get(old(tree), Backup(n)), m, None, old(Known(tree[n])), f), failed, old(tree), old(next), tree, next)
      ensures Requested(n, old(tree)[n], m, None, failed, old(asked), asked)
    {
      var d := tree[n];
      assert Backup(n) != n by { BackupLonger(n); }
      PutLaws(old(tree), n, Backup(n));
      hide Known, Sound, Backup, Put, Get;
      if m.None? {
        failed := LocalIsMaster(n, None, d, f);
      } else if d == m.value {
        failed := RemoveLocalFile(n, f);
      } else {
        var lost := Conflict(n, f);
        failed := RemoveLocalFile(n, f);
        failed := failed || lost;
      }
    }

    method MatchLocalFile(n: string, f: Faults) returns (failed: bool)
      requires Sound() && !f.read && n in tree && (n !in matched || n !in unmatched)
      modifies this`tree, this`next, this`asked, this`store, this`nextResource, this`unmatched, this`matched
      ensures Sound()
      ensures unmatched == old(unmatched) - {n}
      ensures matched == if n in old(unmatched) then old(matched)[n := old(unmatched)[n]] else old(matched)
      ensures var d, m, r := old(tree)[n], Get(current, n), Get(old(unmatched), n);
        && Effected(n, Outcome(d, Get(old(tree), Backup(n)), m, r, old(Known(d)), f), failed, old(tree), old(next), tree, next)
        && Requested(n, d, m, r, failed, old(asked), asked)
    {
      var m := Get(current, n);
      var r := TakeRemote(n);
      hide Known, Sound, Effected, Requested, Outcome, Backup;
      if r.Some? { failed := MatchListed(n, m, r.value, f); }
      else { failed := MatchUnlisted(n, m, f); }
    }

    /** What the round starts from. */
    ghost function Now(): State
      reads this
    { State(tree, current, unmatched + matched) }

    /** One turn of the traversal, the names of `p` done: the digest of the file, then the work on it. */
    method MatchOne(ghost s: State, ghost p: set<string>, n: string, f: Faults) returns (failed: bool)
      requires Sound() && current == s.current && Sorted(s.remote, p, unmatched, matched) && Progress(s, p, tree, next, asked)
      requires p <= Visible(s.tree) && n in Visible(s.tree) - p
      modifies this`tree, this`next, this`asked, this`store, this`nextResource, this`unmatched, this`matched
      ensures Sound() && Whole(s.remote, unmatched, matched)
      ensures !failed ==> Sorted(s.remote, p + {n}, unmatched, matched) && Progress(s, p + {n}, tree, next, asked)
      ensures failed ==> Stopped(s, p, n, tree, next, f)
    {
      hide Sound, Progress, Stopped, Effected, Requested, Outcome, Sorted, Known, Get, Visible, Whole;
      Untouched(s, p, tree, next, asked, n);
      SortedWhole(s.remote, p, unmatched, matched);
      if f.read {
        Unread(s, p, tree, next, asked, n, f);
        return true;
      }
      ghost var tree0, next0, asked0, known := tree, next, asked, Known(s.tree[n]);
      StepSorted(s.remote, p, unmatched, matched, n, unmatched - {n}, if n in unmatched then matched[n := unmatched[n]] else matched);
      failed := MatchLocalFile(n, f);
      SortedWhole(s.remote, p + {n}, unmatched, matched);
      if failed {
        StopsLost(s, p, tree0, next0, asked0, n, known, f, tree, next);
      } else {
        StepProgress(s, p, tree0, next0, asked0, n, known, f, tree, next, asked);
      }
    }

    /** Works on every visible local file, in any order; a stop leaves the names done and the one it failed on. */
    method TraverseLocalPath(faults: string -> Faults) returns (failed: bool, ghost p: set<string>, ghost q: string)
      requires Sound() && matched == map[] && next == map[] && asked == {}
      modifies this`tree, this`next, this`asked, this`store, this`nextResource, this`unmatched, this`matched
      ensures Sound()
      ensures Whole(old(Now()).remote, unmatched, matched)
      ensures !failed ==> Sorted(old(Now()).remote, Visible(old(tree)), unmatched, matched)
      ensures !failed ==> Progress(old(Now()), Visible(old(tree)), tree, next, asked)
      ensures failed ==> Stopped(old(Now()), p, q, tree, next, faults(q))
    {
      hide Sound, Progress, Stopped, Sorted, Whole, Visible;
      ghost var s := Now();
      p, q := {}, "";
      var todo := Visible(tree);
      Starts(s);
      StartsSorted(unmatched);
      failed := false;
      while todo != {} && !failed
        invariant Sound() && Whole(s.remote, unmatched, matched)
        invariant !failed ==> todo !! p && todo + p == Visible(s.tree) && Sorted(s.remote, p, unmatched, matched) && Progress(s, p, tree, next, asked)
        invariant failed ==> Stopped(s, p, q, tree, next, faults(q))
      {
        var n :| n in todo;
        failed := MatchOne(s, p, n, faults(n));
        if failed { q := n; } else { p := p + {n}; }
        todo := todo - {n};
      }
    }

    /** `mdir_del_request`: refuses a version that is not central yet. */
    method DelRequest(version: int, f: Faults) returns (failed: bool)
      requires Sound()
      modifies this`asked
      ensures Sound() && failed == (f.del || version <= 0)
      ensures asked == if failed then old(asked) else old(asked) + {Retract(version)}
    {
      if f.del || version <= 0 { return true; }
      asked := asked + {Retract(version)};
      return false;
    }

    lemma UnmatchedInStore(n: string)
      requires Sound() && n in unmatched
      ensures InStore(unmatched[n].digest, unmatched[n].resource)
    {
    }

    method MarkMatched(n: string)
      requires Sound() && n in unmatched
      modifies this`unmatched, this`matched
      ensures Sound() && unmatched == old(unmatched) - {n}
      ensures forall remote :: Whole(remote, old(unmatched), old(matched)) ==> Whole(remote, unmatched, matched)
    {
      forall remote | Whole(remote, unmatched, matched)
        ensures Whole(remote, unmatched - {n}, matched[n := unmatched[n]])
      {
        MoveKeeps(remote, unmatched, matched, n);
      }
      unmatched, matched := unmatched - {n}, matched[n := unmatched[n]];
    }

    /** One unmatched file: created here, or retracted there. */
    method CreateOne(ghost s: State, ghost p: set<string>, n: string, f: Faults) returns (failed: bool)
      requires Sound() && current == s.current && Whole(s.remote, unmatched, matched)
      requires Progress(s, p, tree, next, asked) && n in unmatched && n !in p && Look(s, n).local == None
      modifies this`tree, this`next, this`asked, this`unmatched, this`matched
      ensures Sound() && Whole(s.remote, unmatched, matched)
      ensures forall x :: x in old(unmatched) && x != n ==> x in unmatched
      ensures !failed ==> Progress(s, p + {n}, tree, next, asked)
      ensures failed ==> tree == (if Creates(s, n) && !f.get && f.link then old(tree) - {n} else old(tree)) && next == old(next)
      ensures failed && f == NO_FAULT ==> Blocked(s, n)
    {
      hide Sound, Progress, Creates, Look, Blocked, Whole, Put, Get, InStore;
      ghost var tree0, next0, asked0 := tree, next, asked;
      var r := unmatched[n];
      Unmatched(s, unmatched, matched, n);
      UnmatchedInStore(n);
      PutOne(tree, n);
      if n !in current {
        failed := RemoteIsMaster(n, r, f);
        if !failed {
          MarkMatched(n);
          CreateStep(s, p, tree0, next0, asked0, n, tree, next);
        }
      } else {
        RetractsNow(s, n);
        failed := DelRequest(r.version, f);
        if !failed { RetractStep(s, p, tree0, next0, asked0, n, asked); }
      }
    }

    /** The files still unmatched, in any order; a stop leaves the names done and the one it failed on. */
    method CreateUnmatchedFiles(ghost s: State, faults: string -> Faults) returns (failed: bool, ghost p: set<string>, ghost q: string)
      requires Sound() && current == s.current && Sorted(s.remote, Visible(s.tree), unmatched, matched)
      requires Progress(s, Visible(s.tree), tree, next, asked)
      modifies this`tree, this`next, this`asked, this`unmatched, this`matched
      ensures Sound() && Whole(s.remote, unmatched, matched)
      ensures !failed ==> Progress(s, Visible(s.tree) + s.remote.Keys, tree, next, asked)
      ensures failed ==> Stopped(s, p, q, tree, next, faults(q))
    {
      hide Sound, Progress, Stopped, Whole, Creates, Blocked, Look, Sorted;
      p, q := Visible(s.tree), "";
      var todo := unmatched.Keys;
      SortedWhole(s.remote, p, unmatched, matched);
      failed := false;
      while todo != {} && !failed
        invariant Sound() && Whole(s.remote, unmatched, matched)
        invariant todo <= unmatched.Keys
        invariant !failed ==> todo !! p && todo + p == Visible(s.tree) + s.remote.Keys && Visible(s.tree) <= p && Progress(s, p, tree, next, asked)
        invariant failed ==> Stopped(s, p, q, tree, next, faults(q))
      {
        var n :| n in todo;
        ghost var tree0, next0, asked0 := tree, next, asked;
        NotLocal(s, p, n);
        Unmatched(s, unmatched, matched, n);
        failed := CreateOne(s, p, n, faults(n));
        if failed {
          CreateStops(s, p, tree0, next0, asked0, n, tree, faults(n));
          q := n;
        } else {
          p := p + {n};
        }
        todo := todo - {n};
      }
      assert !failed ==> p == Visible(s.tree) + s.remote.Keys;
    }

    /** Puts all remote files on the unmatched list; nothing is asked for yet. */
    method UnmatchAll()
      requires Sound()
      modifies this`unmatched, this`matched, this`next, this`asked
      ensures Sound() && Now() == old(Now()) && matched == map[] && next == map[] && asked == {}
    {
      UnionStored(unmatched, matched);
      assert unmatched + matched + map[] == unmatched + matched;
      hide InStore;
      unmatched, matched := unmatched + matched, map[];
      next, asked := map[], {};
    }

    /** One turn of `loop`: an error leaves the map of the last one that ended well. */
    method Round(faults: string -> Faults) returns (failed: bool, ghost p: set<string>, ghost q: string)
      requires Sound()
      modifies this
      ensures Sound() && Now().remote == old(Now()).remote
      ensures !failed ==> Settled(old(Now()), Now(), asked)
      ensures !failed ==> forall n :: n in Visible(old(tree)) ==> (Kept(old(Now()), tree, n) <==> !Spoiled(old(Now()), old(Now()).remote.Keys, n))
      ensures failed ==> current == old(current) && Stopped(old(Now()), p, q, tree, next, faults(q))
    {
      hide Sound, Progress, Stopped, Whole, Sorted, Settled;
      ghost var s := Now();
      UnmatchAll();
      failed, p, q := TraverseLocalPath(faults);
      if !failed {
        failed, p, q := CreateUnmatchedFiles(s, faults);
        if !failed {
          Ends(s, tree, next, asked);
          forall n | n in Visible(s.tree) ensures Kept(s, tree, n) <==> !Spoiled(s, s.remote.Keys, n) {
            SettledKeeps(s, State(tree, next, s.remote), asked, n);
          }
          current := next;
        }
      }
      Remains(s.remote, unmatched, matched);
    }

    /** A removed file stays known by its content. */
    method RemoveRemoteFile(v: int)
      requires Sound() && OneEach(unmatched)
      modifies this`unmatched, this`removed
      ensures Sound() && unmatched == Show(old(unmatched), Gone(v))
      ensures forall d :: old(Known(d)) ==> Known(d)
    {
      if n :| n in unmatched && unmatched[n].version == v {
        var f := unmatched[n];
        removed := removed + {f};
        unmatched := unmatched - {n};
        forall d | old(Known(d)) ensures Known(d) {
          if Lists(old(unmatched), d) { LeavesKnown(old(unmatched), n, d); }
          assert f in removed;
        }
      } else {
        assert Show(unmatched, Gone(v)) == unmatched;
      }
    }

    method AddRemoteFile(n: string, f: File)
      requires Sound() && InStore(f.digest, f.resource)
      modifies this`unmatched
      ensures Sound() && unmatched == Show(old(unmatched), Added(n, f))
    {
      if n in unmatched { unmatched := unmatched - {n}; }
      unmatched := unmatched[n := f];
    }

    /** Reads new entries, once all files are unmatched. */
    method ReadMdir(shown: seq<Shown>)
      requires Sound()
      requires forall i :: 0 <= i <= |shown| ==> OneEach(Listed(unmatched, shown[..i]))
      requires forall i :: 0 <= i < |shown| && shown[i].Added? ==> InStore(shown[i].file.digest, shown[i].file.resource)
      modifies this`unmatched, this`removed
      ensures Sound() && unmatched == Listed(old(unmatched), shown)
    {
      hide Sound, Show, OneEach;
      for i := 0 to |shown|
        invariant Sound() && unmatched == Listed(old(unmatched), shown[..i])
      {
        assert shown[..i + 1][..i] == shown[..i];
        assert OneEach(unmatched);
        match shown[i] {
          case Added(n, f) => AddRemoteFile(n, f);
          case Gone(v) => RemoveRemoteFile(v);
        }
      }
      assert shown[..|shown|] == shown;
    }
  }
}
