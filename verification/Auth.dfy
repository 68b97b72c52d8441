/** Users, groups and permissions (commons/auth.c).  A user file lists aliases;
    a user is in a group that leads to it through aliases. */
module Auth {
  import opened Headers

  type Graph = map<string, seq<string>>

  datatype Answer = Yes | No | Unknown

  // ----- the search, on values -----

  /** Depth-first search that does not enter a name of `v` again. */
  function Search(g: Graph, u: string, n: string, v: set<string>): (r: (Answer, set<string>))
    decreases |g.Keys - v|, 0
    ensures v <= r.1
  {
    if n == "*" then (Yes, v)
    else if n !in g then (Unknown, v)
    else if n == u then (Yes, v)
    else if n in v then (No, v)
    else
      assert g.Keys - (v + {n}) < g.Keys - v by { assert n in g.Keys - v; }
      Smaller(g.Keys - (v + {n}), g.Keys - v);
      SearchAll(g, u, g[n], v + {n})
  }

  function SearchAll(g: Graph, u: string, names: seq<string>, v: set<string>): (r: (Answer, set<string>))
    decreases |g.Keys - v|, |names|
    ensures v <= r.1
  {
    if names == [] then (No, v)
    else
      var (a, w) := Search(g, u, names[0], v);
      Fewer(g.Keys - w, g.Keys - v);
      if a != No then (a, w) else SearchAll(g, u, names[1..], w)
  }

  lemma {:induction false} Fewer(a: set<string>, b: set<string>)
    requires a <= b
    ensures |a| <= |b|
  {
    if a != {} {
      var x :| x in a;
      Fewer(a - {x}, b - {x});
    }
  }

  lemma Smaller(a: set<string>, b: set<string>)
    requires a < b
    ensures |a| < |b|
  {
    var x :| x in b && x !in a;
    Fewer(a, b - {x});
  }

  // ----- what it decides -----

  /** Each name of the path is an alias in the file of the one before. */
  predicate Path(g: Graph, p: seq<string>) {
    && p != []
    && forall i :: 0 <= i < |p| - 1 ==> Leads(g, p[i], p[i + 1])
  }

  predicate Leads(g: Graph, a: string, b: string) { a != "*" && a in g && b in g[a] }

  ghost predicate Reaches(g: Graph, n: string, m: string) {
    exists p :: Path(g, p) && p[0] == n && p[|p| - 1] == m
  }

  /** The user, or everyone. */
  ghost predicate Granted(g: Graph, u: string, n: string) { (u in g && Reaches(g, n, u)) || Reaches(g, n, "*") }

  /** Some name on the way has no file. */
  ghost predicate Doubtful(g: Graph, n: string) { exists m :: m != "*" && m !in g && Reaches(g, n, m) }

  lemma ReachesSelf(g: Graph, n: string)
    ensures Reaches(g, n, n)
  {
    assert Path(g, [n]);
  }

  lemma ReachesBy(g: Graph, n: string, k: string, m: string)
    requires Leads(g, n, k) && Reaches(g, k, m)
    ensures Reaches(g, n, m)
  {
    var p :| Path(g, p) && p[0] == k && p[|p| - 1] == m;
    var q := [n] + p;
    forall i | 0 <= i < |q| - 1 ensures Leads(g, q[i], q[i + 1]) {
      if i > 0 { assert q[i] == p[i - 1] && q[i + 1] == p[i]; }
    }
    assert Path(g, q) && q[|q| - 1] == m;
  }

  /** Neither the user, nor everyone, nor a name without a file; and it only leads into `w`. */
  predicate Closed(g: Graph, u: string, n: string, w: set<string>) {
    n != "*" && n in g && n != u && forall i :: 0 <= i < |g[n]| ==> g[n][i] in w
  }

  /** Soundness of the search from any set of names already entered. */
  lemma {:induction false} SearchSound(g: Graph, u: string, n: string, v: set<string>)
    ensures var (a, w) := Search(g, u, n, v);
      && (a == Yes ==> Granted(g, u, n)) && (a == Unknown ==> Doubtful(g, n))
      && (a == No ==> n in w && forall x :: x in w && x !in v ==> Closed(g, u, x, w))
    decreases |g.Keys - v|, 0
  {
    ReachesSelf(g, n);
    if n != "*" && n in g && n != u && n !in v {
      assert n in g.Keys - v && n !in g.Keys - (v + {n});
      Smaller(g.Keys - (v + {n}), g.Keys - v);
      SearchAllSound(g, u, n, 0, v + {n});
      assert g[n][0..] == g[n];
    }
  }

  lemma {:induction false} SearchAllSound(g: Graph, u: string, n: string, k: nat, v: set<string>)
    requires n != "*" && n in g && k <= |g[n]|
    ensures var (a, w) := SearchAll(g, u, g[n][k..], v);
      && (a == Yes ==> Granted(g, u, n)) && (a == Unknown ==> Doubtful(g, n))
      && (a == No ==> (forall i :: k <= i < |g[n]| ==> g[n][i] in w) && forall x :: x in w && x !in v ==> Closed(g, u, x, w))
    decreases |g.Keys - v|, |g[n]| - k
  {
    if k < |g[n]| {
      var m := g[n][k];
      assert g[n][k..][0] == m && g[n][k..][1..] == g[n][k + 1..];
      SearchSound(g, u, m, v);
      assert Leads(g, n, m);
      forall x | Reaches(g, m, x) ensures Reaches(g, n, x) { ReachesBy(g, n, m, x); }
      var (a, w) := Search(g, u, m, v);
      if a == No {
        Fewer(g.Keys - w, g.Keys - v);
        SearchAllSound(g, u, n, k + 1, w);
      }
    }
  }

  /** Nothing outside a closed set is reached from it. */
  lemma {:induction false} StaysClosed(g: Graph, u: string, w: set<string>, p: seq<string>)
    requires Path(g, p) && p[0] in w && forall x :: x in w ==> Closed(g, u, x, w)
    ensures p[|p| - 1] in w
    decreases |p|
  {
    if |p| > 1 {
      assert Leads(g, p[0], p[1]);
      var i :| 0 <= i < |g[p[0]]| && g[p[0]][i] == p[1];
      assert g[p[0]][i] in w;
      forall j | 0 <= j < |p| - 2 ensures Leads(g, p[1..][j], p[1..][j + 1]) { assert Leads(g, p[j + 1], p[j + 2]); }
      StaysClosed(g, u, w, p[1..]);
    }
  }

  /** Group membership is reachability, and doubt is reaching a name without a file. */
  lemma MembershipIsReachability(g: Graph, u: string, n: string)
    ensures var a := Search(g, u, n, {}).0;
      && (a == Yes ==> Granted(g, u, n))
      && (a == Unknown ==> Doubtful(g, n))
      && (a == No <==> !Granted(g, u, n) && !Doubtful(g, n))
      && (!Doubtful(g, n) ==> (a == Yes <==> Granted(g, u, n)))
  {
    SearchSound(g, u, n, {});
    var (a, w) := Search(g, u, n, {});
    if a == No {
      forall m | Reaches(g, n, m) ensures m in w {
        var p :| Path(g, p) && p[0] == n && p[|p| - 1] == m;
        StaysClosed(g, u, w, p);
      }
      assert forall m :: m in w ==> Closed(g, u, m, w);
    }
  }

  // ----- in which order names are met -----

  /** A name at which the search stops: everyone, the user, or a name without file. */
  predicate Decisive(g: Graph, u: string, n: string) { n == "*" || n !in g || n == u }

  /** The names met from `n` on, depth first and in alias order, decisive ones not
      followed and no other met twice; the walk does not stop. */
  function Walk(g: Graph, u: string, n: string, v: set<string>): (r: (seq<string>, set<string>))
    decreases |g.Keys - v|, 0
    ensures v <= r.1
  {
    if Decisive(g, u, n) then ([n], v)
    else if n in v then ([], v)
    else
      Smaller(g.Keys - (v + {n}), g.Keys - v);
      var (ms, w) := WalkAll(g, u, g[n], v + {n});
      ([n] + ms, w)
  }

  function WalkAll(g: Graph, u: string, names: seq<string>, v: set<string>): (r: (seq<string>, set<string>))
    decreases |g.Keys - v|, |names|
    ensures v <= r.1
  {
    if names == [] then ([], v)
    else
      var (ms, w) := Walk(g, u, names[0], v);
      Fewer(g.Keys - w, g.Keys - v);
      var (rest, x) := WalkAll(g, u, names[1..], w);
      (ms + rest, x)
  }

  /** `k` is the place of the first decisive name, or the end. */
  predicate FirstDecisive(g: Graph, u: string, ms: seq<string>, k: nat) {
    k <= |ms| && (k < |ms| ==> Decisive(g, u, ms[k])) && forall i :: 0 <= i < k ==> !Decisive(g, u, ms[i])
  }

  /** What that name decides: a name without file is doubt, the others are a yes. */
  function Verdict(g: Graph, ms: seq<string>, k: nat): Answer
    requires k <= |ms|
  { if k == |ms| then No else if ms[k] != "*" && ms[k] !in g then Unknown else Yes }

  lemma {:induction false} SearchMeets(g: Graph, u: string, n: string, v: set<string>) returns (k: nat)
    ensures var ((a, w), (ms, x)) := (Search(g, u, n, v), Walk(g, u, n, v));
      FirstDecisive(g, u, ms, k) && a == Verdict(g, ms, k) && (a == No ==> w == x)
    decreases |g.Keys - v|, 0
  {
    if Decisive(g, u, n) || n in v {
      k := 0;
    } else {
      Smaller(g.Keys - (v + {n}), g.Keys - v);
      NotDecisive(g, u, [n]);
      var q := SearchAllMeets(g, u, g[n], v + {n});
      k := q + 1;
      hide Decisive, FirstDecisive, Verdict, SearchAll, WalkAll;
      Shifted(g, u, [n], WalkAll(g, u, g[n], v + {n}).0, q);
    }
  }

  lemma NotDecisive(g: Graph, u: string, ms: seq<string>)
    ensures |ms| == 1 && !Decisive(g, u, ms[0]) ==> forall i :: 0 <= i < |ms| ==> !Decisive(g, u, ms[i])
  {
  }

  /** Nothing decisive comes in front. */
  lemma Shifted(g: Graph, u: string, before: seq<string>, ms: seq<string>, k: nat)
    requires FirstDecisive(g, u, ms, k) && forall i :: 0 <= i < |before| ==> !Decisive(g, u, before[i])
    ensures FirstDecisive(g, u, before + ms, |before| + k) && Verdict(g, before + ms, |before| + k) == Verdict(g, ms, k)
  {
    hide Decisive;
    assert forall i :: 0 <= i < |ms| ==> (before + ms)[|before| + i] == ms[i];
  }

  lemma {:induction false} SearchAllMeets(g: Graph, u: string, names: seq<string>, v: set<string>) returns (k: nat)
    ensures var ((a, w), (ms, x)) := (SearchAll(g, u, names, v), WalkAll(g, u, names, v));
      FirstDecisive(g, u, ms, k) && a == Verdict(g, ms, k) && (a == No ==> w == x)
    decreases |g.Keys - v|, |names|
  {
    if names == [] {
      k := 0;
    } else {
      k := SearchMeets(g, u, names[0], v);
      var (ms, w) := Walk(g, u, names[0], v);
      Fewer(g.Keys - w, g.Keys - v);
      var (rest, x) := WalkAll(g, u, names[1..], w);
      if k == |ms| {
        var q := SearchAllMeets(g, u, names[1..], w);
        k := |ms| + q;
        Shifted(g, u, ms, rest, q);
      }
      assert forall i :: 0 <= i < |ms| ==> (ms + rest)[i] == ms[i];
    }
  }

  /** The first decisive name met decides: the user or "*" for a yes, a name
      without file for the caller's answer to doubt, none for a no. */
  lemma FirstMetCounts(g: Graph, u: string, n: string, ifUnknown: bool) returns (k: nat)
    ensures var ms := Walk(g, u, n, {}).0;
      && FirstDecisive(g, u, ms, k)
      && (k == |ms| ==> !InGroup(g, u, n, ifUnknown))
      && (k < |ms| && (ms[k] == "*" || ms[k] in g) ==> InGroup(g, u, n, ifUnknown))
      && (k < |ms| && ms[k] != "*" && ms[k] !in g ==> InGroup(g, u, n, ifUnknown) == ifUnknown)
  {
    k := SearchMeets(g, u, n, {});
    hide Search, Walk;
  }

  // ----- permissions, on values -----

  /** `mdir_user_is_in_group`, doubt answered by the caller. */
  predicate InGroup(g: Graph, u: string, n: string, ifUnknown: bool) {
    match Search(g, u, n, {}).0 case Yes => true case No => false case Unknown => ifUnknown
  }

  /** A field that grants or refuses; an unknown group does not grant, and does refuse. */
  function Rule(g: Graph, u: string, f: Field, allow: string, deny: string): Option<bool> {
    if f.name == allow then (if InGroup(g, u, f.value, false) then Some(true) else None)
    else if f.name == deny && InGroup(g, u, f.value, true) then Some(false)
    else None
  }

  function Ruled(g: Graph, u: string, h: Header, allow: string, deny: string): Option<bool> {
    if h == [] then None
    else if Rule(g, u, h[0], allow, deny).Some? then Rule(g, u, h[0], allow, deny)
    else Ruled(g, u, h[1..], allow, deny)
  }

  /** The header, then the default one, then a refusal. */
  predicate Allowed(g: Graph, u: string, h: Option<Header>, byDefault: Option<Header>, allow: string, deny: string) {
    var r := if h.Some? then Ruled(g, u, h.value, allow, deny) else None;
    if r.Some? then r.value
    else byDefault.Some? && Ruled(g, u, byDefault.value, allow, deny) == Some(true)
  }

  /** The field at `i` is the first that has something to say. */
  predicate FirstAt(g: Graph, u: string, h: Header, allow: string, deny: string, i: int) {
    && 0 <= i < |h| && Rule(g, u, h[i], allow, deny).Some?
    && forall j :: 0 <= j < i ==> Rule(g, u, h[j], allow, deny).None?
  }

  /** The first field that has something to say decides. */
  lemma {:induction false} FirstRuleDecides(g: Graph, u: string, h: Header, allow: string, deny: string)
    ensures Ruled(g, u, h, allow, deny).None? <==> forall i :: 0 <= i < |h| ==> Rule(g, u, h[i], allow, deny).None?
    ensures forall i :: FirstAt(g, u, h, allow, deny, i) ==> Ruled(g, u, h, allow, deny) == Rule(g, u, h[i], allow, deny)
  {
    if h != [] {
      FirstRuleDecides(g, u, h[1..], allow, deny);
      assert forall i :: 0 < i < |h| ==> h[i] == h[1..][i - 1];
      hide Rule;
      forall i | FirstAt(g, u, h, allow, deny, i)
        ensures Ruled(g, u, h, allow, deny) == Rule(g, u, h[i], allow, deny)
      {
        if i > 0 {
          assert Rule(g, u, h[0], allow, deny).None?;
          assert forall j :: 0 <= j < i - 1 ==> h[1..][j] == h[j + 1];
          assert FirstAt(g, u, h[1..], allow, deny, i - 1);
        }
      }
      if forall i :: 0 <= i < |h| ==> Rule(g, u, h[i], allow, deny).None? {
        assert Rule(g, u, h[0], allow, deny).None?;
        assert forall i :: 0 <= i < |h| - 1 ==> h[1..][i] == h[i + 1];
      }
    }
  }

  /** A grant is backed by reachability; a refusal by the lack of it or by doubt. */
  lemma RuleMeaning(g: Graph, u: string, f: Field, allow: string, deny: string)
    requires allow != deny
    ensures Rule(g, u, f, allow, deny) == Some(true) ==> f.name == allow && Granted(g, u, f.value)
    ensures Rule(g, u, f, allow, deny) == Some(false) ==> f.name == deny && (Granted(g, u, f.value) || Doubtful(g, f.value))
    ensures f.name == deny && Rule(g, u, f, allow, deny).None? ==> !Granted(g, u, f.value) && !Doubtful(g, f.value)
    ensures f.name == allow && Rule(g, u, f, allow, deny).None? && !Doubtful(g, f.value) ==> !Granted(g, u, f.value)
  {
    MembershipIsReachability(g, u, f.value);
    hide Granted, Doubtful, Search;
  }

  /** The header decides before the default: the first of its fields that has
      something to say is final, a refusal as well as a grant.  Only where none has,
      the default does, and without any rule that grants nothing is allowed. */
  lemma HeaderDecides(g: Graph, u: string, h: Header, d: Option<Header>, allow: string, deny: string)
    requires allow != deny
    ensures forall i :: FirstAt(g, u, h, allow, deny, i) ==> (Allowed(g, u, Some(h), d, allow, deny) <==> h[i].name == allow)
    ensures (forall i :: 0 <= i < |h| ==> Rule(g, u, h[i], allow, deny).None?) ==>
              (Allowed(g, u, Some(h), d, allow, deny) <==> Allowed(g, u, None, d, allow, deny))
    ensures !Allowed(g, u, None, None, allow, deny)
    ensures (forall i :: 0 <= i < |h| ==> Rule(g, u, h[i], allow, deny).None?) ==> !Allowed(g, u, None, Some(h), allow, deny)
    ensures forall i :: FirstAt(g, u, h, allow, deny, i) ==> (Allowed(g, u, None, Some(h), allow, deny) <==> h[i].name == allow)
  {
    hide InGroup;
    FirstRuleDecides(g, u, h, allow, deny);
    hide Ruled;
  }

  const SC_ALLOW_READ: string := "sc-allow-read"
  const SC_DENY_READ: string := "sc-deny-read"
  const SC_ALLOW_WRITE: string := "sc-allow-write"
  const SC_DENY_WRITE: string := "sc-deny-write"
  const SC_ALLOW_ADMIN: string := "sc-allow-admin"
  const SC_DENY_ADMIN: string := "sc-deny-admin"

  /** What `auth_init` sets up. */
  const DEFAULT_PERMS: Header := [Field(SC_ALLOW_READ, "*"), Field(SC_DENY_WRITE, "*"), Field(SC_ALLOW_ADMIN, "admin"), Field(SC_DENY_ADMIN, "*")]

  predicate Can(g: Graph, u: string, h: Option<Header>, byDefault: Option<Header>, allow: string, deny: string) {
    Allowed(g, u, h, byDefault, allow, deny) || Allowed(g, u, h, byDefault, SC_ALLOW_ADMIN, SC_DENY_ADMIN)
  }

  function Length(h: Option<Header>): nat { if h.Some? then |h.value| else 0 }

  /** Everyone reads a directory that says nothing; only members of "admin" write it, and all of them do when every name met has a file. */
  lemma DefaultPermissions(g: Graph, u: string)
    ensures Can(g, u, None, Some(DEFAULT_PERMS), SC_ALLOW_READ, SC_DENY_READ)
    ensures Can(g, u, None, Some(DEFAULT_PERMS), SC_ALLOW_WRITE, SC_DENY_WRITE) ==> Granted(g, u, "admin")
    ensures Granted(g, u, "admin") && !Doubtful(g, "admin") ==> Can(g, u, None, Some(DEFAULT_PERMS), SC_ALLOW_WRITE, SC_DENY_WRITE)
  {
    hide Granted, Doubtful, Search, InGroup, Ruled;
    MembershipIsReachability(g, u, "admin");
    EveryoneIn(g, u);
    DefaultRules(g, u);
    InGroupIs(g, u, "admin");
  }

  /** A directory that denies reading to everybody is read by members of "admin"
      only, though by default everybody reads. */
  lemma DenyAll(g: Graph, u: string)
    ensures var h := Some([Field(SC_DENY_READ, "*")]);
      && !Allowed(g, u, h, Some(DEFAULT_PERMS), SC_ALLOW_READ, SC_DENY_READ)
      && (Can(g, u, h, Some(DEFAULT_PERMS), SC_ALLOW_READ, SC_DENY_READ) ==> Granted(g, u, "admin"))
      && (Granted(g, u, "admin") && !Doubtful(g, "admin") ==> Can(g, u, h, Some(DEFAULT_PERMS), SC_ALLOW_READ, SC_DENY_READ))
  {
    hide Granted, Doubtful, Search, InGroup, Ruled;
    var h := [Field(SC_DENY_READ, "*")];
    EveryoneIn(g, u);
    MembershipIsReachability(g, u, "admin");
    InGroupIs(g, u, "admin");
    DefaultRules(g, u);
    assert FirstAt(g, u, h, SC_ALLOW_READ, SC_DENY_READ, 0);
    HeaderDecides(g, u, h, Some(DEFAULT_PERMS), SC_ALLOW_READ, SC_DENY_READ);
    HeaderDecides(g, u, h, Some(DEFAULT_PERMS), SC_ALLOW_ADMIN, SC_DENY_ADMIN);
  }

  lemma EveryoneIn(g: Graph, u: string)
    ensures InGroup(g, u, "*", true) && InGroup(g, u, "*", false)
  {
  }

  lemma InGroupIs(g: Graph, u: string, n: string)
    ensures InGroup(g, u, n, false) <==> Search(g, u, n, {}).0 == Yes
  {
  }

  lemma DefaultRules(g: Graph, u: string)
    requires InGroup(g, u, "*", true) && InGroup(g, u, "*", false)
    ensures Ruled(g, u, DEFAULT_PERMS, SC_ALLOW_READ, SC_DENY_READ) == Some(true)
    ensures Ruled(g, u, DEFAULT_PERMS, SC_ALLOW_WRITE, SC_DENY_WRITE) == Some(false)
    ensures Ruled(g, u, DEFAULT_PERMS, SC_ALLOW_ADMIN, SC_DENY_ADMIN) == Some(InGroup(g, u, "admin", false))
  {
    hide InGroup, Ruled;
    var d := DEFAULT_PERMS;
    assert d[1..] == [d[1], d[2], d[3]] && d[1..][1..] == [d[2], d[3]] && d[1..][1..][1..] == [d[3]];
    assert Rule(g, u, d[0], SC_ALLOW_READ, SC_DENY_READ) == Some(true);
    RuledStep(g, u, d, SC_ALLOW_READ, SC_DENY_READ);
    RuledStep(g, u, d, SC_ALLOW_WRITE, SC_DENY_WRITE);
    RuledStep(g, u, d[1..], SC_ALLOW_WRITE, SC_DENY_WRITE);
    RuledStep(g, u, d, SC_ALLOW_ADMIN, SC_DENY_ADMIN);
    RuledStep(g, u, d[1..], SC_ALLOW_ADMIN, SC_DENY_ADMIN);
    RuledStep(g, u, d[1..][1..], SC_ALLOW_ADMIN, SC_DENY_ADMIN);
    RuledStep(g, u, d[1..][1..][1..], SC_ALLOW_ADMIN, SC_DENY_ADMIN);
  }

  lemma RuledStep(g: Graph, u: string, h: Header, allow: string, deny: string)
    requires h != []
    ensures Ruled(g, u, h, allow, deny) ==
      if Rule(g, u, h[0], allow, deny).Some? then Rule(g, u, h[0], allow, deny) else Ruled(g, u, h[1..], allow, deny)
  {
    hide Rule;
  }

  // ----- users in memory -----

  datatype User = User(aliases: seq<string>, tag: nat)

  const UNSIGNED: nat := 0x1_0000_0000

  /** Tags that are neither new nor the one of this search are as they were. */
  predicate Retagged(before: map<string, User>, users: map<string, User>, t: nat) {
    forall x :: x in users ==> users[x].tag in {0, t} || (x in before && users[x].tag == before[x].tag)
  }

  ghost function Coded(r: (Answer, set<string>)): (bool, bool, set<string>) { (r.0 == Yes, r.0 == Unknown, r.1) }

  class Directory {
    const files: Graph
    var users: map<string, User>
    var tag: nat

    /** The files read so far as they were then, the others as they are. */
    ghost function Aliases(): Graph
      reads this
    { files + map n | n in users :: users[n].aliases }

    /** Names a search under this tag went into. */
    ghost function Entered(t: nat): set<string>
      reads this
    { set n | n in users && users[n].tag == t }

    /** No tag is from a later search. */
    ghost predicate Valid()
      reads this
    { tag < UNSIGNED && forall n :: n in users ==> users[n].tag <= tag }

    /** Names a search under this tag will not go into: those it went into and, for
        the tag 0 that every entry starts with, those not read yet. */
    ghost function Seen(t: nat): set<string>
      reads this
    { Entered(t) + if t == 0 then Aliases().Keys - users.Keys else {} }

    method Load(n: string) returns (ok: bool)
      modifies this`users
      ensures Aliases() == old(Aliases())
      ensures ok <==> n in Aliases()
      ensures ok ==> n in users && users[n].aliases == Aliases()[n]
      ensures forall x :: x in old(users) ==> x in users
      ensures forall t :: Retagged(old(users), users, t) && Seen(t) == old(Seen(t))
    {
      if n in users { return true; }
      if n !in files { return false; }
      users := users[n := User(files[n], 0)];
      forall t ensures Seen(t) == old(Seen(t)) { SeenLoaded(old(users), n, t); }
      return true;
    }

    lemma SeenLoaded(before: map<string, User>, n: string, t: nat)
      requires n !in before && n in files && users == before[n := User(files[n], 0)]
      ensures var known := (files + map x | x in before :: before[x].aliases).Keys;
        Seen(t) == (set x | x in before && before[x].tag == t) + if t == 0 then known - before.Keys else {}
    {
    }

    lemma SeenBy(n: string, t: nat)
      requires n in users
      ensures n in Seen(t) <==> users[n].tag == t
    {
    }

    /** Tags entries instead of keeping a set. */
    method Enter(n: string, t: nat)
      requires n in users
      modifies this`users
      ensures Aliases() == old(Aliases()) && Seen(t) == old(Seen(t)) + {n}
      ensures users.Keys == old(users.Keys) && users[n].aliases == old(users)[n].aliases && Retagged(old(users), users, t)
    {
      users := users[n := users[n].(tag := t)];
      assert Aliases() == old(Aliases()) by { assert forall x :: x in users ==> users[x].aliases == old(users)[x].aliases; }
      SeenEntered(old(users), n, t);
    }

    lemma SeenEntered(before: map<string, User>, n: string, t: nat)
      requires n in before && users == before[n := before[n].(tag := t)]
      ensures Entered(t) == (set x | x in before && before[x].tag == t) + {n}
      ensures users.Keys == before.Keys
    {
    }

    /** The search with tags is the search with a set, whatever the tags. */
    method IsInGroupRec(u: string, n: string, t: nat) returns (res: bool, failed: bool)
      requires u in users
      modifies this`users
      ensures Aliases() == old(Aliases()) && u in users && Retagged(old(users), users, t)
      ensures (res, failed, Seen(t)) == Coded(Search(old(Aliases()), u, n, old(Seen(t))))
      decreases |Aliases().Keys - Seen(t)|, 0
    {
      hide Aliases, Seen;
      if n == "*" { return true, false; }
      ghost var g, v := Aliases(), Seen(t);
      var ok := Load(n);
      if !ok { return false, true; }
      if n == u { return true, false; }
      SeenBy(n, t);
      if users[n].tag == t { return false, false; }
      Enter(n, t);
      assert n in g.Keys - v && n !in g.Keys - Seen(t);
      Smaller(g.Keys - Seen(t), g.Keys - v);
      res, failed := Visit(u, users[n].aliases, t);
    }

    /** The loop over the aliases of a group. */
    method Visit(u: string, names: seq<string>, t: nat) returns (res: bool, failed: bool)
      requires u in users
      modifies this`users
      ensures Aliases() == old(Aliases()) && u in users && Retagged(old(users), users, t)
      ensures (res, failed, Seen(t)) == Coded(SearchAll(old(Aliases()), u, names, old(Seen(t))))
      decreases |Aliases().Keys - Seen(t)|, |names| + 1
    {
      hide Aliases, Seen;
      ghost var g, v := Aliases(), Seen(t);
      assert names[0..] == names;
      for i := 0 to |names|
        invariant Aliases() == g && u in users && v <= Seen(t)
        invariant SearchAll(g, u, names[i..], Seen(t)) == SearchAll(g, u, names, v)
        invariant Retagged(old(users), users, t)
      {
        Fewer(g.Keys - Seen(t), g.Keys - v);
        assert names[i..][1..] == names[i + 1..];
        res, failed := IsInGroupRec(u, names[i], t);
        if failed || res { return res, failed; }
      }
      return false, false;
    }

    /** The result for any tag: names seen under it, from a search of 2^32 calls
        ago or by being not read yet under tag 0, are not gone into. */
    method IsInGroup(u: string, n: string, ifUnknown: bool) returns (res: bool)
      requires u in users
      modifies this`users, this`tag
      ensures Aliases() == old(Aliases()) && u in users && tag == (old(tag) + 1) % UNSIGNED
      ensures res == match Search(Aliases(), u, n, old(Seen((tag + 1) % UNSIGNED))).0 case Yes => true case No => false case Unknown => ifUnknown
      ensures old(Valid()) && old(tag) + 1 < UNSIGNED ==> Valid() && res == InGroup(Aliases(), u, n, ifUnknown)
    {
      assert Valid() && tag + 1 < UNSIGNED ==> Seen(tag + 1) == {};
      ghost var seen := Seen((tag + 1) % UNSIGNED);
      tag := (tag + 1) % UNSIGNED;
      assert Seen(tag) == seen;
      hide Aliases, Search, Seen;
      var found, failed := IsInGroupRec(u, n, tag);
      return if failed then ifUnknown else found;
    }

    /** So many searches are left before the counter wraps. */
    ghost predicate Room(k: nat)
      reads this
    { Valid() && tag + k < UNSIGNED }

    /** The fields in order, up to the first that decides. */
    method CheckFields(u: string, h: Header, allow: string, deny: string) returns (r: Option<bool>)
      requires u in users
      modifies this`users, this`tag
      ensures u in users && Aliases() == old(Aliases())
      ensures old(Room(|h|)) ==> Valid() && tag <= old(tag) + |h| && r == Ruled(Aliases(), u, h, allow, deny)
    {
      hide Valid, Aliases, InGroup, Seen, Search;
      assert h[0..] == h;
      for i := 0 to |h|
        invariant u in users && Aliases() == old(Aliases())
        invariant old(Room(|h|)) ==> Valid() && tag <= old(tag) + i && Ruled(Aliases(), u, h, allow, deny) == Ruled(Aliases(), u, h[i..], allow, deny)
      {
        assert h[i..][1..] == h[i + 1..];
        if h[i].name == allow {
          var yes := IsInGroup(u, h[i].value, false);
          if yes { return Some(true); }
        } else if h[i].name == deny {
          var yes := IsInGroup(u, h[i].value, true);
          if yes { return Some(false); }
        }
      }
      return None;
    }

    method CheckUserPerms(u: string, h: Option<Header>, byDefault: Option<Header>, allow: string, deny: string) returns (res: bool)
      requires u in users
      modifies this`users, this`tag
      ensures u in users && Aliases() == old(Aliases())
      ensures old(Room(Length(h) + Length(byDefault))) ==>
        Valid() && tag <= old(tag) + Length(h) + Length(byDefault) && res == Allowed(Aliases(), u, h, byDefault, allow, deny)
    {
      hide Valid, Aliases, Ruled;
      if h.Some? {
        var r := CheckFields(u, h.value, allow, deny);
        if r.Some? { return r.value; }
      }
      if byDefault.None? { return false; }
      var r := CheckFields(u, byDefault.value, allow, deny);
      return r == Some(true);
    }

    method CanAdmin(u: string, h: Option<Header>, byDefault: Option<Header>) returns (res: bool)
      requires u in users
      modifies this`users, this`tag
      ensures u in users && Aliases() == old(Aliases())
      ensures old(Room(Length(h) + Length(byDefault))) ==> Valid() && res == Allowed(Aliases(), u, h, byDefault, SC_ALLOW_ADMIN, SC_DENY_ADMIN)
    {
      res := CheckUserPerms(u, h, byDefault, SC_ALLOW_ADMIN, SC_DENY_ADMIN);
    }

    /** One who can administrate can read and write. */
    method CanRead(u: string, h: Option<Header>, byDefault: Option<Header>) returns (res: bool)
      requires u in users
      modifies this`users, this`tag
      ensures u in users && Aliases() == old(Aliases())
      ensures old(Room(2 * (Length(h) + Length(byDefault)))) ==> Valid() && res == Can(Aliases(), u, h, byDefault, SC_ALLOW_READ, SC_DENY_READ)
    {
      hide Valid, Aliases, Allowed;
      res := CheckUserPerms(u, h, byDefault, SC_ALLOW_READ, SC_DENY_READ);
      if !res { res := CanAdmin(u, h, byDefault); }
    }

    method CanWrite(u: string, h: Option<Header>, byDefault: Option<Header>) returns (res: bool)
      requires u in users
      modifies this`users, this`tag
      ensures u in users && Aliases() == old(Aliases())
      ensures old(Room(2 * (Length(h) + Length(byDefault)))) ==> Valid() && res == Can(Aliases(), u, h, byDefault, SC_ALLOW_WRITE, SC_DENY_WRITE)
    {
      hide Valid, Aliases, Allowed;
      res := CheckUserPerms(u, h, byDefault, SC_ALLOW_WRITE, SC_DENY_WRITE);
      if !res { res := CanAdmin(u, h, byDefault); }
    }
  }
}
