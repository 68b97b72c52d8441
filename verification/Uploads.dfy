/** Local patches on their way to the server: one command a file of `.tmp`, and
    the count of pending acks (mdsyncc/writer.c, command.c, reader.c; lib/cnx.c). */
module Uploads {
  import Commands

  const SQ_TIMEOUT: int := 20

  /** A file of `.tmp`: `+n` or `-n`. */
  datatype Name = Name(rem: bool, n: int)

  /** The command for a file, and the number of its query. */
  datatype Command = Command(name: Name, seqnum: int)

  /** A query that waits for its answer. */
  datatype Sent = Sent(seqnum: int, creation: int)

  datatype State = State(tmp: set<Name>, commands: seq<Command>, sent: seq<Sent>, nextSeq: int, pending: int)

  /** `retry_later`. */
  predicate RetryLater(status: int) { 300 <= status < 400 }

  datatype Event =
    | New(name: Name)                              // mdir_patch_request
    | Other                                        // any other query takes a number
    | List(order: seq<Name>, now: int)             // ls_transients, over the files it could read and send
    | Answer(seqnum: int, status: int, now: int)

  function ByName(cs: seq<Command>, name: Name): (r: nat)
    ensures r <= |cs| && (r < |cs| ==> cs[r].name == name) && forall i :: 0 <= i < r ==> cs[i].name != name
  { if cs == [] || cs[0].name == name then 0 else 1 + ByName(cs[1..], name) }

  function ByNumber(cs: seq<Command>, seqnum: int): (r: nat)
    ensures r <= |cs| && (r < |cs| ==> cs[r].seqnum == seqnum) && forall i :: 0 <= i < r ==> cs[i].seqnum != seqnum
  { if cs == [] || cs[0].seqnum == seqnum then 0 else 1 + ByNumber(cs[1..], seqnum) }

  function Requested(s: State, name: Name, now: int): State {
    if ByName(s.commands, name) < |s.commands| then s
    else State(s.tmp, [Command(name, s.nextSeq)] + s.commands, [Sent(s.nextSeq, now)] + s.sent, s.nextSeq + 1, s.pending + 1)
  }

  function AllRequested(s: State, order: seq<Name>, now: int): State {
    if order == [] then s else Requested(AllRequested(s, order[..|order| - 1], now), order[|order| - 1], now)
  }

  /** `mdir_cnx_query_retrieve`: queries passed on the way are dropped when too old. */
  function Retrieved(l: seq<Sent>, seqnum: int, now: int): (r: (seq<Sent>, bool)) {
    if l == [] then ([], false)
    else if l[0].seqnum == seqnum then (l[1..], true)
    else
      var (rest, found) := Retrieved(l[1..], seqnum, now);
      if l[0].creation + SQ_TIMEOUT < now then (rest, found) else ([l[0]] + rest, found)
  }

  function Without(cs: seq<Command>, k: nat): seq<Command>
    requires k < |cs|
  { cs[..k] + cs[k + 1..] }

  /** `finalize_put` and `finalize_rem`. */
  function Answered(s: State, seqnum: int, status: int, now: int): State {
    var (l, found) := Retrieved(s.sent, seqnum, now);
    var k := ByNumber(s.commands, seqnum);
    if !found || k == |s.commands| then s.(sent := l)
    else State(if RetryLater(status) then s.tmp else s.tmp - {s.commands[k].name}, Without(s.commands, k), l, s.nextSeq, s.pending - 1)
  }

  function Next(s: State, e: Event): State {
    match e
    case New(name) => s.(tmp := s.tmp + {name})
    case Other => s.(nextSeq := s.nextSeq + 1)
    case List(order, now) => if forall i :: 0 <= i < |order| ==> order[i] in s.tmp then AllRequested(s, order, now) else s
    case Answer(seqnum, status, now) => Answered(s, seqnum, status, now)
  }

  const BEGIN: State := State({}, [], [], 1, 0)

  function Run(es: seq<Event>): State {
    if es == [] then BEGIN else Next(Run(es[..|es| - 1]), es[|es| - 1])
  }

  /** A run is its steps, one after the other. */
  lemma RunMore(es: seq<Event>, e: Event)
    ensures Run(es + [e]) == Next(Run(es), e)
  {
    assert (es + [e])[..|es|] == es;
  }

  // ----- invariant -----

  predicate Unique(cs: seq<Command>) {
    forall i, j :: 0 <= i < j < |cs| ==> cs[i].name != cs[j].name && cs[i].seqnum != cs[j].seqnum
  }

  predicate Waiting(cs: seq<Command>, seqnum: int) { exists i :: 0 <= i < |cs| && cs[i].seqnum == seqnum }

  ghost predicate Inv(s: State) {
    && s.pending == |s.commands| && Unique(s.commands)
    && (forall i :: 0 <= i < |s.commands| ==> s.commands[i].name in s.tmp && s.commands[i].seqnum < s.nextSeq)
    && (forall i :: 0 <= i < |s.sent| ==> Waiting(s.commands, s.sent[i].seqnum))
    && (forall i, j :: 0 <= i < j < |s.sent| ==> s.sent[i].seqnum != s.sent[j].seqnum)
  }

  lemma RequestedKeeps(s: State, name: Name, now: int)
    requires Inv(s) && name in s.tmp
    ensures Inv(Requested(s, name, now))
  {
    var t := Requested(s, name, now);
    if t != s {
      assert forall i :: 0 < i < |t.commands| ==> t.commands[i] == s.commands[i - 1];
      hide Waiting, ByName;
      forall i | 0 <= i < |t.sent| ensures Waiting(t.commands, t.sent[i].seqnum) {
        WaitingMore(Command(name, s.nextSeq), s.commands, t.sent[i].seqnum);
      }
    }
  }

  lemma WaitingMore(c: Command, cs: seq<Command>, seqnum: int)
    ensures Waiting([c] + cs, seqnum) <==> c.seqnum == seqnum || Waiting(cs, seqnum)
  {
    var all := [c] + cs;
    if c.seqnum == seqnum { assert all[0].seqnum == seqnum; }
    if k :| 0 <= k < |cs| && cs[k].seqnum == seqnum { assert all[k + 1].seqnum == seqnum; }
  }

  lemma {:induction false} AllRequestedKeeps(s: State, order: seq<Name>, now: int)
    requires Inv(s) && forall i :: 0 <= i < |order| ==> order[i] in s.tmp
    ensures var t := AllRequested(s, order, now); Inv(t) && t.tmp == s.tmp
    ensures forall i :: 0 <= i < |order| ==> Commanded(AllRequested(s, order, now), order[i])
    ensures forall name :: Commanded(s, name) ==> Commanded(AllRequested(s, order, now), name)
  {
    if order != [] {
      var n := |order| - 1;
      AllRequestedKeeps(s, order[..n], now);
      var r := AllRequested(s, order[..n], now);
      RequestedKeeps(r, order[n], now);
      hide Inv;
      forall name | Commanded(r, name) || name == order[n] ensures Commanded(AllRequested(s, order, now), name) {
        RequestedHas(r, order[n], now, name);
      }
      forall i | 0 <= i < |order| ensures Commanded(AllRequested(s, order, now), order[i]) {
        if i < n { assert Commanded(r, order[..n][i]); }
      }
    }
  }

  predicate Commanded(s: State, name: Name) { exists i :: 0 <= i < |s.commands| && s.commands[i].name == name }

  lemma RequestedHas(s: State, name: Name, now: int, x: Name)
    requires Commanded(s, x) || x == name
    ensures Commanded(Requested(s, name, now), x)
  {
    var t := Requested(s, name, now);
    if t != s {
      if x == name { assert t.commands[0].name == x; }
      else {
        var i :| 0 <= i < |s.commands| && s.commands[i].name == x;
        assert t.commands[i + 1].name == x;
      }
    }
  }

  /** What is retrieved was there, once, and what remains was there too. */
  lemma {:induction false} RetrievedFrom(l: seq<Sent>, seqnum: int, now: int)
    requires forall i, j :: 0 <= i < j < |l| ==> l[i].seqnum != l[j].seqnum
    ensures var (r, found) := Retrieved(l, seqnum, now);
      && (found <==> exists i :: 0 <= i < |l| && l[i].seqnum == seqnum)
      && (forall k :: 0 <= k < |r| ==> r[k] in l && r[k].seqnum != seqnum)
      && (forall i, j :: 0 <= i < j < |r| ==> r[i].seqnum != r[j].seqnum)
  {
    if l != [] && l[0].seqnum != seqnum {
      RetrievedFrom(l[1..], seqnum, now);
      assert forall i :: 0 < i < |l| ==> l[i] == l[1..][i - 1];
    }
  }

  lemma AnsweredKeeps(s: State, seqnum: int, status: int, now: int)
    requires Inv(s)
    ensures Inv(Answered(s, seqnum, status, now))
  {
    hide Retrieved, ByNumber, Waiting;
    RetrievedFrom(s.sent, seqnum, now);
    var (l, found) := Retrieved(s.sent, seqnum, now);
    var k := ByNumber(s.commands, seqnum);
    if found && k < |s.commands| { RemovedKeeps(s.commands, k); }
    var t := Answered(s, seqnum, status, now);
    forall i | 0 <= i < |l| ensures Waiting(t.commands, l[i].seqnum) {
      assert l[i] in s.sent;
      var j :| 0 <= j < |s.sent| && s.sent[j] == l[i];
      if found && k < |s.commands| { StillWaiting(s.commands, k, l[i].seqnum); }
    }
  }

  lemma RemovedKeeps(cs: seq<Command>, k: nat)
    requires Unique(cs) && k < |cs|
    ensures Unique(Without(cs, k)) && |Without(cs, k)| == |cs| - 1
    ensures forall i :: 0 <= i < |cs| - 1 ==> Without(cs, k)[i] in cs && Without(cs, k)[i].name != cs[k].name
  {
    forall i | 0 <= i < |cs| - 1 ensures Without(cs, k)[i] == cs[if i < k then i else i + 1] {}
  }

  lemma StillWaiting(cs: seq<Command>, k: nat, seqnum: int)
    requires k < |cs| && cs[k].seqnum != seqnum && Waiting(cs, seqnum)
    ensures Waiting(Without(cs, k), seqnum)
  {
    var c :| 0 <= c < |cs| && cs[c].seqnum == seqnum;
    assert Without(cs, k)[if c < k then c else c - 1] == cs[c];
  }

  /** What an answer does, by the lists alone.  One that matches a query and a command
      ends that command, whatever its status; the file stays on a status from 300 to
      399 and goes on any other.  One that does not ends nothing. */
  lemma AnswerEnds(s: State, seqnum: int, status: int, now: int, k: nat)
    requires Inv(s) && k < |s.commands|
    ensures var t := Answered(s, seqnum, status, now);
      if s.commands[k].seqnum == seqnum && exists i :: 0 <= i < |s.sent| && s.sent[i].seqnum == seqnum then
        && t.pending == s.pending - 1 && |t.commands| == |s.commands| - 1 && s.commands[k] !in t.commands
        && (forall c :: c in s.commands && c.seqnum != seqnum ==> c in t.commands)
        && (s.commands[k].name in t.tmp <==> 300 <= status <= 399)
        && (forall n :: n != s.commands[k].name ==> (n in t.tmp <==> n in s.tmp))
      else s.commands[k] in t.commands && (s.commands[k].name in t.tmp)
    ensures (forall i :: 0 <= i < |s.sent| ==> s.sent[i].seqnum != seqnum) ==>
      var t := Answered(s, seqnum, status, now); t.tmp == s.tmp && t.commands == s.commands && t.pending == s.pending
  {
    hide Retrieved, Waiting;
    RetrievedFrom(s.sent, seqnum, now);
    var j := ByNumber(s.commands, seqnum);
    if j < |s.commands| {
      RemovedKeeps(s.commands, j);
      forall c | c in s.commands && c.seqnum != seqnum ensures c in Without(s.commands, j) { KeptOthers(s.commands, j, c); }
    }
  }

  lemma KeptOthers(cs: seq<Command>, j: nat, c: Command)
    requires j < |cs| && c in cs && c != cs[j]
    ensures c in Without(cs, j)
  {
    var i :| 0 <= i < |cs| && cs[i] == c;
    assert Without(cs, j)[if i < j then i else i - 1] == c;
  }

  /** In every run the pending acks are the commands under way, at most one a file. */
  lemma {:induction false} RunKeeps(es: seq<Event>)
    ensures Inv(Run(es))
  {
    if es != [] {
      var s, e := Run(es[..|es| - 1]), es[|es| - 1];
      RunKeeps(es[..|es| - 1]);
      match e {
        case New(name) =>
        case Other =>
        case List(order, now) =>
          if forall i :: 0 <= i < |order| ==> order[i] in s.tmp { AllRequestedKeeps(s, order, now); }
        case Answer(seqnum, status, now) => AnsweredKeeps(s, seqnum, status, now);
      }
    }
  }

  /** So patches are held back exactly while some file waits, and a listing leaves no file of it without command. */
  lemma HeldBackExactly(es: seq<Event>, order: seq<Name>, now: int)
    requires forall i :: 0 <= i < |order| ==> order[i] in Run(es).tmp
    ensures var s := Run(es + [List(order, now)]);
      && (s.pending > 0 <==> s.commands != []) && s.pending >= 0
      && forall i :: 0 <= i < |order| ==> Commanded(s, order[i])
  {
    assert (es + [List(order, now)])[..|es|] == es;
    RunKeeps(es);
    RunKeeps(es + [List(order, now)]);
    AllRequestedKeeps(Run(es), order, now);
  }

  // ----- an answer that never comes -----

  /** The query of this command was dropped. */
  ghost predicate Orphan(s: State, name: Name, seqnum: int) {
    && (exists i :: 0 <= i < |s.commands| && s.commands[i] == Command(name, seqnum))
    && (forall i :: 0 <= i < |s.sent| ==> s.sent[i].seqnum != seqnum)
    && seqnum < s.nextSeq && Inv(s)
  }

  lemma RequestedOrphan(s: State, n: Name, now: int, name: Name, seqnum: int)
    requires Orphan(s, name, seqnum) && n in s.tmp
    ensures Orphan(Requested(s, n, now), name, seqnum)
  {
    RequestedKeeps(s, n, now);
    var t := Requested(s, n, now);
    if t != s {
      var i :| 0 <= i < |s.commands| && s.commands[i] == Command(name, seqnum);
      assert t.commands[i + 1] == Command(name, seqnum);
    }
  }

  lemma {:induction false} AllRequestedOrphan(s: State, order: seq<Name>, now: int, name: Name, seqnum: int)
    requires Orphan(s, name, seqnum) && forall i :: 0 <= i < |order| ==> order[i] in s.tmp
    ensures Orphan(AllRequested(s, order, now), name, seqnum)
  {
    if order != [] {
      var n := |order| - 1;
      AllRequestedOrphan(s, order[..n], now, name, seqnum);
      AllRequestedKeeps(s, order[..n], now);
      RequestedOrphan(AllRequested(s, order[..n], now), order[n], now, name, seqnum);
    }
  }

  lemma SentOnce(s: State)
    requires Inv(s)
    ensures forall i, j :: 0 <= i < j < |s.sent| ==> s.sent[i].seqnum != s.sent[j].seqnum
  {
  }

  lemma AnsweredOrphan(s: State, q: int, status: int, now: int, name: Name, seqnum: int)
    requires Orphan(s, name, seqnum)
    ensures Orphan(Answered(s, q, status, now), name, seqnum)
  {
    hide Inv, Retrieved, ByNumber;
    AnsweredKeeps(s, q, status, now);
    assert forall i, j :: 0 <= i < j < |s.sent| ==> s.sent[i].seqnum != s.sent[j].seqnum by { SentOnce(s); }
    RetrievedFrom(s.sent, q, now);
    var (l, found) := Retrieved(s.sent, q, now);
    var k := ByNumber(s.commands, q);
    var i :| 0 <= i < |s.commands| && s.commands[i] == Command(name, seqnum);
    if found && k < |s.commands| {
      assert i != k;
      assert Without(s.commands, k)[if i < k then i else i - 1] == s.commands[i];
    }
  }

  lemma OrphanStays(s: State, e: Event, name: Name, seqnum: int)
    requires Orphan(s, name, seqnum)
    ensures Orphan(Next(s, e), name, seqnum)
  {
    match e {
      case New(n) =>
      case Other =>
      case List(order, now) =>
        if forall i :: 0 <= i < |order| ==> order[i] in s.tmp { AllRequestedOrphan(s, order, now, name, seqnum); }
      case Answer(q, status, now) => AnsweredOrphan(s, q, status, now, name, seqnum);
    }
  }

  function RunFrom(s: State, es: seq<Event>): State {
    if es == [] then s else Next(RunFrom(s, es[..|es| - 1]), es[|es| - 1])
  }

  /** Once a query is dropped its file is never sent again, and patches are held back for ever. */
  lemma {:induction false} OrphanForever(s: State, es: seq<Event>, name: Name, seqnum: int)
    requires Orphan(s, name, seqnum)
    ensures Orphan(RunFrom(s, es), name, seqnum) && RunFrom(s, es).pending > 0
  {
    if es != [] {
      OrphanForever(s, es[..|es| - 1], name, seqnum);
      OrphanStays(RunFrom(s, es[..|es| - 1]), es[|es| - 1], name, seqnum);
    }
  }

  /** The answer's own query is not among the first `i` of the list. */
  predicate Passed(l: seq<Sent>, i: nat, seqnum: int)
    requires i <= |l|
  { forall j :: 0 <= j < i ==> l[j].seqnum != seqnum }

  predicate TooOld(q: Sent, now: int) { q.creation + SQ_TIMEOUT < now }

  /** A query stays in the list unless it is the one answered, or comes before it and is too old. */
  lemma {:induction false} RetrievedKeeps(l: seq<Sent>, seqnum: int, now: int, i: nat)
    requires i < |l| && forall i, j :: 0 <= i < j < |l| ==> l[i].seqnum != l[j].seqnum
    ensures l[i] in Retrieved(l, seqnum, now).0 <==> l[i].seqnum != seqnum && !(Passed(l, i, seqnum) && TooOld(l[i], now))
    ensures (exists k :: 0 <= k < |Retrieved(l, seqnum, now).0| && Retrieved(l, seqnum, now).0[k].seqnum == l[i].seqnum) <==> l[i] in Retrieved(l, seqnum, now).0
  {
    var (r, found) := Retrieved(l, seqnum, now);
    RetrievedFrom(l, seqnum, now);
    forall k | 0 <= k < |r| && r[k].seqnum == l[i].seqnum ensures r[k] == l[i] {
      assert r[k] in l;
      var j :| 0 <= j < |l| && l[j] == r[k];
      assert j == i;
    }
    RetrievedHas(l, seqnum, now, i);
  }

  lemma {:induction false} RetrievedHas(l: seq<Sent>, seqnum: int, now: int, i: nat)
    requires i < |l| && forall i, j :: 0 <= i < j < |l| ==> l[i].seqnum != l[j].seqnum
    ensures l[i] in Retrieved(l, seqnum, now).0 <==> l[i].seqnum != seqnum && !(Passed(l, i, seqnum) && TooOld(l[i], now))
  {
    if l[0].seqnum == seqnum {
      assert Passed(l, i, seqnum) ==> i == 0;
      if i > 0 { assert l[1..][i - 1] == l[i]; }
    } else {
      assert forall j :: 0 < j < |l| ==> l[j] == l[1..][j - 1];
      RetrievedFrom(l[1..], seqnum, now);
      if i > 0 {
        RetrievedHas(l[1..], seqnum, now, i - 1);
        assert Passed(l, i, seqnum) <==> Passed(l[1..], i - 1, seqnum);
      }
    }
  }

  /** An answer orphans exactly the commands sent after the one it answers, or
      any if it answers none, whose query is more than 20 seconds old. */
  lemma OrphanedExactly(s: State, seqnum: int, status: int, now: int, i: nat, k: nat)
    requires Inv(s) && i < |s.sent| && k < |s.commands| && s.commands[k].seqnum == s.sent[i].seqnum
    ensures Orphan(Answered(s, seqnum, status, now), s.commands[k].name, s.sent[i].seqnum)
      <==> s.sent[i].seqnum != seqnum && Passed(s.sent, i, seqnum) && TooOld(s.sent[i], now)
  {
    hide Retrieved, ByNumber, Waiting, Passed;
    AnsweredKeeps(s, seqnum, status, now);
    RetrievedKeeps(s.sent, seqnum, now, i);
    RetrievedFrom(s.sent, seqnum, now);
    var (l, found) := Retrieved(s.sent, seqnum, now);
    var at := ByNumber(s.commands, seqnum);
    if found && at < |s.commands| { CommandsLeft(s.commands, at, k); }
    if s.sent[i].seqnum == seqnum { assert found; }
  }

  lemma CommandsLeft(cs: seq<Command>, at: nat, k: nat)
    requires Unique(cs) && at < |cs| && k < |cs|
    ensures (exists i :: 0 <= i < |Without(cs, at)| && Without(cs, at)[i] == cs[k]) <==> k != at
  {
    var r := Without(cs, at);
    assert forall i :: 0 <= i < |r| ==> r[i] == cs[if i < at then i else i + 1];
    if k != at { assert r[if k < at then k else k - 1] == cs[k]; }
  }

  /** Two files are sent within a second; a late answer to the first one drops the query of the second. */
  lemma LateAnswerDrops(s: State, status: int)
    requires s == State({Name(false, 1), Name(false, 2)}, [Command(Name(false, 2), 2), Command(Name(false, 1), 1)], [Sent(2, 1), Sent(1, 0)], 3, 2)
    ensures Orphan(Answered(s, 1, status, 30), Name(false, 2), 2)
  {
    assert Waiting(s.commands, 2) by { assert s.commands[0].seqnum == 2; }
    assert Waiting(s.commands, 1) by { assert s.commands[1].seqnum == 1; }
    OrphanedExactly(s, 1, status, 30, 0, 0);
  }

  // ----- numbers that are cut -----

  /** Answers carry the number that was sent, which has 7 digits at most. */
  ghost predicate CutAnswers(es: seq<Event>) {
    forall i :: 0 <= i < |es| && es[i].Answer? ==> exists n: nat :: es[i].seqnum == Commands.SentNumber(n)
  }

  predicate Holds(s: State, name: Name, seqnum: int) {
    exists i :: 0 <= i < |s.commands| && s.commands[i] == Command(name, seqnum)
  }

  lemma RequestedHolds(s: State, n: Name, now: int, name: Name, seqnum: int)
    requires Holds(s, name, seqnum)
    ensures Holds(Requested(s, n, now), name, seqnum)
  {
    var i :| 0 <= i < |s.commands| && s.commands[i] == Command(name, seqnum);
    var t := Requested(s, n, now);
    if t != s { assert t.commands[i + 1] == s.commands[i]; }
  }

  lemma {:induction false} AllRequestedHolds(s: State, order: seq<Name>, now: int, name: Name, seqnum: int)
    requires Holds(s, name, seqnum)
    ensures Holds(AllRequested(s, order, now), name, seqnum)
  {
    if order != [] {
      AllRequestedHolds(s, order[..|order| - 1], now, name, seqnum);
      RequestedHolds(AllRequested(s, order[..|order| - 1], now), order[|order| - 1], now, name, seqnum);
    }
  }

  lemma AnsweredHolds(s: State, q: int, status: int, now: int, name: Name, seqnum: int)
    requires Holds(s, name, seqnum) && q != seqnum
    ensures Holds(Answered(s, q, status, now), name, seqnum)
  {
    hide Retrieved;
    var i :| 0 <= i < |s.commands| && s.commands[i] == Command(name, seqnum);
    var k := ByNumber(s.commands, q);
    if k < |s.commands| { assert Without(s.commands, k)[if i < k then i else i - 1] == s.commands[i]; }
  }

  /** A command whose number has more than 7 digits is never answered: its file
      stays, it is never sent again, and patches are held back from then on. */
  lemma {:induction false} CutNumberNeverAnswered(es: seq<Event>, gs: seq<Event>, name: Name, seqnum: int)
    requires Holds(Run(es), name, seqnum) && seqnum >= 10000000 && CutAnswers(gs)
    ensures Holds(Run(es + gs), name, seqnum) && Run(es + gs).pending > 0 && name in Run(es + gs).tmp
    decreases |gs|
  {
    hide Requested, Retrieved, Without;
    if gs == [] {
      assert es + gs == es;
    } else {
      var n := |gs| - 1;
      var e, b := gs[n], Run(es + gs[..n]);
      assert (es + gs)[..|es + gs| - 1] == es + gs[..n] && (es + gs)[|es + gs| - 1] == e;
      assert CutAnswers(gs[..n]) by { assert forall i :: 0 <= i < n ==> gs[..n][i] == gs[i]; }
      CutNumberNeverAnswered(es, gs[..n], name, seqnum);
      match e {
        case New(_) =>
        case Other =>
        case List(order, now) => AllRequestedHolds(b, order, now, name, seqnum);
        case Answer(q, status, now) => AnsweredHolds(b, q, status, now, name, seqnum);
      }
    }
    RunKeeps(es + gs);
  }

  // ----- the loops -----

  class Uploader {
    var tmp: set<Name>
    var commands: seq<Command>
    var sent: seq<Sent>
    var nextSeq: int
    var pending: int

    ghost function Now(): State
      reads this
    { State(tmp, commands, sent, nextSeq, pending) }

    method CommandGetByPath(name: Name) returns (k: nat)
      ensures k == ByName(commands, name)
    {
      k := 0;
      while k < |commands| && commands[k].name != name
        invariant 0 <= k <= |commands| && ByName(commands, name) == k + ByName(commands[k..], name)
      {
        k := k + 1;
      }
    }

    /** `mdir_cnx_query` for one command. */
    method CommandNew(name: Name, now: int)
      modifies this`commands, this`sent, this`nextSeq
      ensures commands == [Command(name, old(nextSeq))] + old(commands)
      ensures sent == [Sent(old(nextSeq), now)] + old(sent) && nextSeq == old(nextSeq) + 1
    {
      var seqnum := nextSeq;
      nextSeq := nextSeq + 1;
      sent := [Sent(seqnum, now)] + sent;
      commands := [Command(name, seqnum)] + commands;
    }

    method LsTransients(order: seq<Name>, now: int)
      modifies this
      ensures Now() == AllRequested(old(Now()), order, now)
    {
      for i := 0 to |order|
        invariant Now() == AllRequested(old(Now()), order[..i], now)
      {
        assert order[..i + 1][..i] == order[..i];
        var k := CommandGetByPath(order[i]);
        if k < |commands| { continue; }
        CommandNew(order[i], now);
        pending := pending + 1;
      }
      assert order[..|order|] == order;
    }

    method QueryRetrieve(seqnum: int, now: int) returns (found: bool)
      modifies this`sent
      ensures (sent, found) == Retrieved(old(sent), seqnum, now)
    {
      var kept: seq<Sent>, left := [], sent;
      found := false;
      Behind([], Sent(0, 0), Retrieved(sent, seqnum, now));
      while left != []
        invariant sent == old(sent) && Retrieved(sent, seqnum, now) == After(kept, Retrieved(left, seqnum, now))
        decreases |left|
      {
        if left[0].seqnum == seqnum {
          sent := kept + left[1..];
          return true;
        }
        Behind(kept, left[0], Retrieved(left[1..], seqnum, now));
        if left[0].creation + SQ_TIMEOUT >= now { kept := kept + [left[0]]; }
        left := left[1..];
      }
      assert kept + [] == kept;
      sent := kept;
    }

    method CommandGetByNumber(seqnum: int) returns (k: nat)
      ensures k == ByNumber(commands, seqnum)
    {
      k := 0;
      while k < |commands| && commands[k].seqnum != seqnum
        invariant 0 <= k <= |commands| && ByNumber(commands, seqnum) == k + ByNumber(commands[k..], seqnum)
      {
        k := k + 1;
      }
    }

    /** `finalize_put` and `finalize_rem`, which delete the command whatever the status. */
    method Finalize(seqnum: int, status: int, now: int)
      modifies this
      ensures Now() == Answered(old(Now()), seqnum, status, now)
    {
      hide Retrieved, ByNumber;
      var found := QueryRetrieve(seqnum, now);
      if !found { return; }
      var k := CommandGetByNumber(seqnum);
      if k == |commands| { return; }
      pending := pending - 1;
      if !RetryLater(status) { tmp := tmp - {commands[k].name}; }
      commands := Without(commands, k);
    }
  }

  function After(kept: seq<Sent>, r: (seq<Sent>, bool)): (seq<Sent>, bool) { (kept + r.0, r.1) }

  lemma Behind(kept: seq<Sent>, q: Sent, r: (seq<Sent>, bool))
    ensures After([], r) == r && After(kept, ([q] + r.0, r.1)) == After(kept + [q], r)
  {
    assert [] + r.0 == r.0 && kept + ([q] + r.0) == (kept + [q]) + r.0;
  }
}
