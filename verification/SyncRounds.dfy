/** What rounds of merefs come to: local tree, map and listed files agree after
    one round that ends well, and the next one has nothing to do. */
module SyncRounds {
  import opened Headers
  import opened Merefs
  import opened FileSync

  /** The listing reports the patches asked for, each at least once and in any
      order, under versions that no listed file has. */
  ghost predicate Answers(remote: map<string, File>, asked: set<Request>, shown: seq<Shown>) {
    && (forall i :: 0 <= i < |shown| ==> Answer(remote, asked, shown[i]))
    && (forall n, d, r :: Advertise(n, d, r) in asked ==> exists i :: 0 <= i < |shown| && shown[i].Added? && shown[i].name == n)
    && (forall v :: Retract(v) in asked ==> exists i :: 0 <= i < |shown| && shown[i] == Gone(v))
  }

  predicate Answer(remote: map<string, File>, asked: set<Request>, e: Shown) {
    match e
    case Added(n, f) => Advertise(n, f.digest, f.resource) in asked && Fresh(remote, f.version)
    case Gone(v) => Retract(v) in asked
  }

  predicate Fresh(remote: map<string, File>, v: int) { forall m :: m in remote ==> remote[m].version != v }

  predicate Adds(shown: seq<Shown>, n: string) { exists i :: 0 <= i < |shown| && shown[i].Added? && shown[i].name == n }

  predicate Drops(shown: seq<Shown>, v: int) { exists i :: 0 <= i < |shown| && shown[i] == Gone(v) }

  /** The file listed under a name: the one added, else the old one unless it is gone. */
  ghost predicate ListedAs(s: State, shown: seq<Shown>, n: string, x: Option<File>) {
    if Adds(shown, n) then x.Some? && Some(x.value.digest) == Look(s, n).local && Fresh(s.remote, x.value.version)
    else if n in s.remote && Drops(shown, s.remote[n].version) then x == None
    else x == Get(s.remote, n)
  }

  lemma AddsMore(shown: seq<Shown>, e: Shown)
    ensures forall n :: Adds(shown + [e], n) <==> Adds(shown, n) || (e.Added? && e.name == n)
    ensures forall v :: Drops(shown + [e], v) <==> Drops(shown, v) || e == Gone(v)
  {
    var all := shown + [e];
    forall n ensures Adds(all, n) <==> Adds(shown, n) || (e.Added? && e.name == n) {
      if i :| 0 <= i < |shown| && shown[i].Added? && shown[i].name == n { assert all[i] == shown[i]; }
      if e.Added? && e.name == n { assert all[|shown|] == e; }
    }
    forall v ensures Drops(all, v) <==> Drops(shown, v) || e == Gone(v) {
      if i :| 0 <= i < |shown| && shown[i] == Gone(v) { assert all[i] == shown[i]; }
      if e == Gone(v) { assert all[|shown|] == e; }
    }
  }

  lemma {:induction false} ListedPointwise(s: State, p: set<string>, asked: set<Request>, shown: seq<Shown>, n: string)
    requires AskedFor(s, p, asked) && (forall i :: 0 <= i < |shown| ==> Answer(s.remote, asked, shown[i]))
    ensures ListedAs(s, shown, n, Get(Listed(s.remote, shown), n))
  {
    hide ListedAs, AskedFor, Answer, Show;
    if shown != [] {
      var k := |shown| - 1;
      var before, e := shown[..k], shown[k];
      assert forall i :: 0 <= i < k ==> before[i] == shown[i];
      ListedPointwise(s, p, asked, before, n);
      assert before + [e] == shown;
      ListedStep(s, p, asked, before, e, n, Listed(s.remote, before));
    } else {
      NoneShown(s, n);
    }
  }

  lemma NoneShown(s: State, n: string)
    ensures ListedAs(s, [], n, Get(s.remote, n))
  {
  }

  lemma ListedStep(s: State, p: set<string>, asked: set<Request>, before: seq<Shown>, e: Shown, n: string, r: map<string, File>)
    requires AskedFor(s, p, asked) && Answer(s.remote, asked, e) && ListedAs(s, before, n, Get(r, n))
    ensures ListedAs(s, before + [e], n, Get(Show(r, e), n))
  {
    hide Adds, Drops, Look, Pushes, Asks;
    AddsMore(before, e);
    match e {
      case Added(m, f) =>
      case Gone(v) =>
        assert exists m :: m in s.remote && s.remote[m].version == v;
    }
  }

  /** Local content, map and listed digest are the same, hidden paths not looked at. */
  ghost predicate Agreed(u: State) {
    && (forall n :: Get(u.current, n) == Digest(Get(u.remote, n)))
    && (forall n :: !Hidden(n) ==> Get(u.tree, n) == Get(u.current, n))
  }

  /** Convergence, from any state: one round that ends well, read back. */
  lemma Converges(s: State, t: State, asked: set<Request>, shown: seq<Shown>, u: State)
    requires OneEach(s.remote) && Settled(s, t, asked) && Answers(s.remote, asked, shown)
    requires u == State(t.tree, t.current, Listed(t.remote, shown))
    ensures Agreed(u)
    ensures forall n :: Hidden(n) ==> (n in u.remote <==> Creates(s, n))
  {
    forall n ensures Digest(Get(u.remote, n)) == Synced(Look(s, n)).remote {
      RemoteSynced(s, asked, shown, n);
    }
    forall n ensures Agree(Synced(Look(s, n))) && (Hidden(n) ==> (Synced(Look(s, n)).remote.Some? <==> Creates(s, n))) {
      OneRoundAgrees(Look(s, n));
    }
  }

  lemma RemoteSynced(s: State, asked: set<Request>, shown: seq<Shown>, n: string)
    requires OneEach(s.remote) && AskedFor(s, Visible(s.tree) + s.remote.Keys, asked) && Answers(s.remote, asked, shown)
    ensures Digest(Get(Listed(s.remote, shown), n)) == Synced(Look(s, n)).remote
  {
    ListedPointwise(s, Visible(s.tree) + s.remote.Keys, asked, shown, n);
    AddsPushed(s, asked, shown, n);
    if n in s.remote { DropsAsked(s, asked, shown, n); }
    hide Hidden, AskedFor, Answers, Adds, Drops, Listed, Fresh, OneEach, Visible;
  }

  lemma AddsPushed(s: State, asked: set<Request>, shown: seq<Shown>, n: string)
    requires AskedFor(s, Visible(s.tree) + s.remote.Keys, asked) && Answers(s.remote, asked, shown)
    ensures Adds(shown, n) <==> Pushes(s, n)
  {
    if Pushes(s, n) {
      var r :| Advertise(n, s.tree[n], r) in asked;
    }
    if i :| 0 <= i < |shown| && shown[i].Added? && shown[i].name == n {
      assert Answer(s.remote, asked, shown[i]);
    }
  }

  lemma DropsAsked(s: State, asked: set<Request>, shown: seq<Shown>, n: string)
    requires OneEach(s.remote) && AskedFor(s, Visible(s.tree) + s.remote.Keys, asked) && Answers(s.remote, asked, shown)
    requires n in s.remote
    ensures Drops(shown, s.remote[n].version) <==> Asks(Look(s, n))
  {
    var v := s.remote[n].version;
    if Asks(Look(s, n)) { assert Retract(v) in asked; }
    if i :| 0 <= i < |shown| && shown[i] == Gone(v) {
      assert Answer(s.remote, asked, shown[i]);
      assert Retract(v) in asked;
    }
  }

  /** Once they agree, a round changes no file, and asks for nothing if and only
      if no hidden path is listed; then it cannot fail either, whatever the faults. */
  lemma ThenQuiet(u: State, w: State, asked: set<Request>, faults: string -> Faults)
    requires Agreed(u)
    ensures Settled(u, w, asked) ==> w.tree == u.tree
    ensures Settled(u, w, asked) ==> (asked == {} <==> forall n :: n in u.remote ==> !Hidden(n))
    ensures Settled(u, w, asked) ==> (w.current == u.current <==> forall n :: n in u.remote ==> !Hidden(n))
    ensures (forall n :: n in u.remote ==> !Hidden(n)) ==> forall q :: StopsAt(u, q, faults(q)) ==> faults(q).read && q in Visible(u.tree)
  {
    forall n ensures QuietAt(u, n) { QuietName(u, n); }
    if Settled(u, w, asked) {
      SameTree(u, w, asked);
      SameMap(u, w, asked);
      NothingAsked(u, w, asked);
    }
  }

  /** A name the round has nothing to do for, a hidden listed one being retracted. */
  ghost predicate QuietAt(u: State, n: string) {
    && !Pushes(u, n) && !Clashes(u, n) && !Creates(u, n)
    && (Asks(Look(u, n)) <==> Hidden(n) && n in u.remote)
    && (Agree(Look(u, n)) <==> !(Hidden(n) && n in u.remote))
    && (n in u.remote <==> n in u.current)
    && (!Hidden(n) ==> Synced(Look(u, n)).local == Get(u.tree, n))
    && Synced(Look(u, n)).map_ == (if Hidden(n) then None else Get(u.current, n))
  }

  lemma QuietName(u: State, n: string)
    requires Agreed(u)
    ensures QuietAt(u, n)
  {
    assert Get(u.current, n) == Digest(Get(u.remote, n));
    assert !Hidden(n) ==> Get(u.tree, n) == Get(u.current, n);
    hide Hidden, Agreed;
  }

  lemma SameMaps(a: map<string, string>, b: map<string, string>)
    requires forall n :: Get(a, n) == Get(b, n)
    ensures a == b
  {
    assert forall n :: n in a ==> Get(a, n) == Some(a[n]);
    assert forall n :: n in b ==> Get(b, n) == Some(b[n]);
  }

  lemma SameTree(u: State, w: State, asked: set<Request>)
    requires Settled(u, w, asked) && forall n :: QuietAt(u, n)
    ensures w.tree == u.tree
  {
    forall n ensures !Clashes(u, n) && !Creates(u, n) { assert QuietAt(u, n); }
    forall n ensures Get(w.tree, n) == Get(u.tree, n) {
      assert QuietAt(u, n);
      hide Synced, Look, Hidden, Get, AskedFor, Blocked;
    }
    SameMaps(w.tree, u.tree);
  }

  lemma SameMap(u: State, w: State, asked: set<Request>)
    requires Settled(u, w, asked) && forall n :: QuietAt(u, n)
    ensures w.current == u.current <==> forall n :: n in u.remote ==> !Hidden(n)
  {
    if n :| n in u.remote && Hidden(n) {
      assert QuietAt(u, n) && Get(w.current, n) == Synced(Look(u, n)).map_;
    } else {
      forall n ensures Get(w.current, n) == Get(u.current, n) {
        assert QuietAt(u, n);
        hide Synced, Look, Hidden, AskedFor, Blocked;
      }
      SameMaps(w.current, u.current);
    }
  }

  lemma NothingAsked(u: State, w: State, asked: set<Request>)
    requires Settled(u, w, asked) && forall n :: QuietAt(u, n)
    ensures asked == {} <==> forall n :: n in u.remote ==> !Hidden(n)
  {
    hide Hidden, Look, Synced;
    if n :| n in u.remote && Hidden(n) {
      assert QuietAt(u, n);
      assert Retract(u.remote[n].version) in asked;
    } else {
      forall n ensures !Pushes(u, n) && (n in u.remote ==> !Asks(Look(u, n))) { assert QuietAt(u, n); }
      hide QuietAt, Pushes;
      assert forall n, d, r :: Advertise(n, d, r) !in asked;
      assert forall v :: Retract(v) !in asked;
      forall q ensures q !in asked {
        match q { case Advertise(n, d, r) => case Retract(v) => }
      }
    }
  }

  /** A hidden listed file is created by one round and retracted from the server by the next. */
  lemma HiddenNameRetracted(t: State, asked: set<Request>, shown: seq<Shown>, u: State, w: State, asked': set<Request>)
    requires var s := State(map[], map[], map[".profile" := File("d", 0, 1)]);
      Settled(s, t, asked) && Answers(s.remote, asked, shown)
    requires u == State(t.tree, t.current, Listed(t.remote, shown)) && Settled(u, w, asked')
    ensures asked' != {} && ".profile" in w.tree && ".profile" !in w.current
  {
    var s := State(map[], map[], map[".profile" := File("d", 0, 1)]);
    assert Hidden(".profile") && Creates(s, ".profile");
    Converges(s, t, asked, shown, u);
    assert Get(u.tree, ".profile") == Look(s, ".profile").remote;
    ThenQuiet(u, w, asked', n => NO_FAULT);
    QuietName(u, ".profile");
    assert Get(w.current, ".profile") == Synced(Look(u, ".profile")).map_;
  }
}
