/** The path buffer of the traversal of merefs (merefs/local.c): the name of an
    entry is written behind the path of its directory, in a space computed from
    the size of a pointer instead of that of the buffer. */
module Paths {
  import opened Headers
  import opened Merefs
  import opened FileSync

  const PATH_MAX := 4096
  const POINTER_SIZE := 8
  const SIZE_MAX := 0x1_0000_0000_0000_0000

  datatype Kind = Dir | Plain | Link | Special

  datatype Dirent = Dirent(kind: Kind, name: string)

  /** What a path leads to. */
  datatype Node = Directory(entries: seq<Dirent>) | Regular | Missing

  /** Directories opened and files worked on, in order, by the path the code has for them. */
  datatype Step = Opened(path: string) | Worked(path: string)

  datatype Trail = Trail(steps: seq<Step>, failed: bool)

  const NOTHING: Trail := Trail([], false)

  predicate IsName(name: string) { 1 <= |name| <= 255 && '/' !in name && '\0' !in name }

  predicate Named(es: seq<Dirent>) { forall i :: 0 <= i < |es| ==> IsName(es[i].name) }

  ghost predicate Proper(fs: string -> Node) {
    forall p :: fs(p).Directory? ==> Named(fs(p).entries)
  }

  /** Hidden entries, links and what is neither file nor directory are passed over. */
  predicate Skipped(e: Dirent)
    requires e.name != ""
  {
    e.name[0] == '.' || e.kind == Link || e.kind == Special
  }

  function Then(a: Trail, b: Trail): Trail { Trail(a.steps + b.steps, b.failed) }

  // ----- the traversal that is meant -----

  function Honest(fs: string -> Node, dir: string): Trail
    requires Proper(fs) && |dir| < PATH_MAX
    decreases PATH_MAX - |dir|, 1, 0
  {
    match fs(dir)
    case Directory(es) => Then(Trail([Opened(dir)], false), HonestScan(fs, dir, es))
    case _ => Trail([Opened(dir)], true)
  }

  function HonestScan(fs: string -> Node, dir: string, es: seq<Dirent>): Trail
    requires Proper(fs) && Named(es) && |dir| < PATH_MAX
    decreases PATH_MAX - |dir|, 0, |es|
  {
    if es == [] then NOTHING
    else
      var t, e := HonestScan(fs, dir, es[..|es| - 1]), es[|es| - 1];
      if t.failed || Skipped(e) then t
      else if Overruns(|dir|, e.name) then t.(failed := true)
      else
        var path := dir + "/" + e.name;
        Then(t, if e.kind == Dir then Honest(fs, path) else Trail([Worked(path)], !fs(path).Regular?))
  }

  // ----- the one of the code -----

  /** `sizeof(dirpath)-dirlen`, `dirpath` being a pointer: unsigned, so that it wraps. */
  function Room(dirlen: nat): nat { (POINTER_SIZE - dirlen) % SIZE_MAX }

  function Min(a: nat, b: nat): nat { if a < b then a else b }

  /** The path in the buffer once a name is written at `dirlen`, the text there
      being `here`: nothing is seen of it behind the end of the text. */
  function PathOf(here: string, dirlen: nat, name: string): (path: string)
    requires |here| <= dirlen
    ensures |path| <= dirlen + 1 + |name|
  {
    if |here| < dirlen || Room(dirlen) == 0 then here
    else here + ("/" + name)[..Min(1 + |name|, Room(dirlen) - 1)]
  }

  /** The name would not end within the buffer. */
  predicate Overruns(dirlen: nat, name: string) { dirlen + 1 + |name| >= PATH_MAX }

  function Walk(fs: string -> Node, here: string, dirlen: nat): Trail
    requires Proper(fs) && |here| <= dirlen < PATH_MAX
    decreases PATH_MAX - dirlen, 1, 0
  {
    match fs(here)
    case Directory(es) => Then(Trail([Opened(here)], false), WalkScan(fs, here, dirlen, es))
    case _ => Trail([Opened(here)], true)
  }

  function WalkScan(fs: string -> Node, here: string, dirlen: nat, es: seq<Dirent>): Trail
    requires Proper(fs) && Named(es) && |here| <= dirlen < PATH_MAX
    decreases PATH_MAX - dirlen, 0, |es|
  {
    if es == [] then NOTHING
    else
      var t, e := WalkScan(fs, here, dirlen, es[..|es| - 1]), es[|es| - 1];
      if t.failed || Skipped(e) then t
      else if Overruns(dirlen, e.name) then t.(failed := true)
      else
        var path := PathOf(here, dirlen, e.name);
        Then(t, if e.kind == Dir then Walk(fs, path, dirlen + 1 + |e.name|) else Trail([Worked(path)], !fs(path).Regular?))
  }

  /** After an error nothing more is done. */
  lemma {:induction false} WalkStops(fs: string -> Node, here: string, dirlen: nat, es: seq<Dirent>, i: nat)
    requires Proper(fs) && Named(es) && |here| <= dirlen < PATH_MAX && i <= |es|
    requires WalkScan(fs, here, dirlen, es[..i]).failed
    ensures WalkScan(fs, here, dirlen, es) == WalkScan(fs, here, dirlen, es[..i])
    decreases |es|
  {
    if i < |es| {
      assert es[..|es| - 1][..i] == es[..i];
      WalkStops(fs, here, dirlen, es[..|es| - 1], i);
    } else {
      assert es[..i] == es;
    }
  }

  // ----- in place -----

  /** A text up to the first `c`. */
  function Upto(b: seq<char>, c: char): (s: string)
    ensures |s| <= |b| && s == b[..|s|] && c !in s && (|s| < |b| ==> b[|s|] == c)
  {
    if b == [] || b[0] == c then "" else [b[0]] + Upto(b[1..], c)
  }

  lemma {:induction false} UptoIs(b: seq<char>, c: char, s: string)
    requires |s| <= |b| && s == b[..|s|] && c !in s && (|s| < |b| ==> b[|s|] == c)
    ensures Upto(b, c) == s
  {
    if s != "" {
      assert b[0] == s[0];
      assert s[1..] == b[1..][..|s| - 1];
      UptoIs(b[1..], c, s[1..]);
      assert s == [b[0]] + s[1..];
    }
  }

  /** The text of a buffer. */
  function Text(b: seq<char>): string { Upto(b, '\0') }

  /** A text written at `at` is seen behind the old one only if that one ends there. */
  lemma TextAfter(a: seq<char>, b: seq<char>, at: nat, text: string)
    requires |a| == |b| && at + |text| < |b| && b[..at] == a[..at] && b[at..at + |text|] == text && b[at + |text|] == '\0'
    requires |Text(a)| <= at && '\0' !in text
    ensures Text(b) == if |Text(a)| < at then Text(a) else Text(a) + text
  {
    var here := Text(a);
    hide Upto;
    if |here| < at {
      assert b[..|here|] == b[..at][..|here|] == a[..at][..|here|] && b[|here|] == b[..at][|here|] == a[|here|];
      UptoIs(b, '\0', here);
    } else {
      assert b[..at + |text|] == b[..at] + b[at..at + |text|];
      UptoIs(b, '\0', here + text);
    }
  }

  /** `snprintf(buf + at, room, "/%s", name)`. */
  method Print(buf: array<char>, at: nat, name: string)
    requires buf.Length == PATH_MAX && !Overruns(at, name) && '\0' !in name && |Text(buf[..])| <= at
    modifies buf
    ensures buf[..at] == old(buf[..at])
    ensures Text(buf[..]) == PathOf(old(Text(buf[..])), at, name)
  {
    hide Upto;
    ghost var before := buf[..];
    var room := Room(at);
    if room > 0 {
      var text := ("/" + name)[..Min(1 + |name|, room - 1)];
      forall i | 0 <= i < |text| { buf[at + i] := text[i]; }
      buf[at + |text|] := '\0';
      TextAfter(before, buf[..], at, text);
    }
  }

  /** `dirpath[dirlen] = '\0'`. */
  method Clear(buf: array<char>, dirlen: nat, ghost here: string)
    requires dirlen < buf.Length && |here| <= dirlen && '\0' !in here
    requires here == buf[..|here|] && (|here| < dirlen ==> buf[|here|] == '\0')
    modifies buf
    ensures buf[..dirlen] == old(buf[..dirlen]) && Text(buf[..]) == here
  {
    buf[dirlen] := '\0';
    UptoIs(buf[..], '\0', here);
  }

  method TraverseDirRec(fs: string -> Node, buf: array<char>, dirlen: nat) returns (t: Trail)
    requires Proper(fs) && buf.Length == PATH_MAX && dirlen < PATH_MAX && |Text(buf[..])| <= dirlen
    modifies buf
    ensures t == Walk(fs, old(Text(buf[..])), dirlen)
    ensures buf[..dirlen] == old(buf[..dirlen])
    decreases PATH_MAX - dirlen, 1, 0
  {
    var here := Text(buf[..]);
    match fs(here) {
      case Directory(es) =>
        var rest := ScanOpenedDir(fs, buf, dirlen, es);
        t := Then(Trail([Opened(here)], false), rest);
      case _ => t := Trail([Opened(here)], true);
    }
  }

  /** One entry that is not passed over; the buffer holds the directory again afterwards. */
  method ScanEntry(fs: string -> Node, buf: array<char>, dirlen: nat, e: Dirent) returns (t: Trail)
    requires Proper(fs) && IsName(e.name) && buf.Length == PATH_MAX && !Overruns(dirlen, e.name) && |Text(buf[..])| <= dirlen
    modifies buf
    ensures var path := PathOf(old(Text(buf[..])), dirlen, e.name);
            t == if e.kind == Dir then Walk(fs, path, dirlen + 1 + |e.name|) else Trail([Worked(path)], !fs(path).Regular?)
    ensures buf[..dirlen] == old(buf[..dirlen]) && Text(buf[..]) == old(Text(buf[..]))
    decreases PATH_MAX - dirlen, 0, 0
  {
    ghost var here, before := Text(buf[..]), buf[..];
    Print(buf, dirlen, e.name);
    ghost var printed := buf[..];
    var path := Text(buf[..]);
    hide Upto, PathOf, Room;
    if e.kind == Dir {
      t := TraverseDirRec(fs, buf, dirlen + 1 + |e.name|);
      assert buf[..dirlen] == buf[..dirlen + 1 + |e.name|][..dirlen];
    } else {
      t := Trail([Worked(path)], !fs(path).Regular?);
    }
    assert buf[..dirlen] == before[..dirlen];
    KeepsHere(before, buf[..], here, dirlen);
    Clear(buf, dirlen, here);
  }

  lemma KeepsHere(a: seq<char>, b: seq<char>, here: string, dirlen: nat)
    requires dirlen < |a| == |b| && a[..dirlen] == b[..dirlen] && here == Text(a) && |here| <= dirlen
    ensures here == b[..|here|] && '\0' !in here && (|here| < dirlen ==> b[|here|] == '\0')
  {
    assert b[..|here|] == b[..dirlen][..|here|] == a[..|here|];
    assert |here| < dirlen ==> b[|here|] == b[..dirlen][|here|];
  }

  method ScanOpenedDir(fs: string -> Node, buf: array<char>, dirlen: nat, es: seq<Dirent>) returns (t: Trail)
    requires Proper(fs) && Named(es) && buf.Length == PATH_MAX && dirlen < PATH_MAX && |Text(buf[..])| <= dirlen
    modifies buf
    ensures t == WalkScan(fs, old(Text(buf[..])), dirlen, es)
    ensures buf[..dirlen] == old(buf[..dirlen])
    decreases PATH_MAX - dirlen, 0, 1
  {
    hide Upto, Skipped, PathOf;
    ghost var here := Text(buf[..]);
    t := NOTHING;
    var i := 0;
    while i < |es| && !t.failed
      invariant 0 <= i <= |es| && t == WalkScan(fs, here, dirlen, es[..i])
      invariant buf[..dirlen] == old(buf[..dirlen]) && Text(buf[..]) == here
    {
      var e := es[i];
      assert es[..i + 1][..i] == es[..i];
      if Skipped(e) {
      } else if Overruns(dirlen, e.name) {
        t := t.(failed := true);
      } else {
        var more := ScanEntry(fs, buf, dirlen, e);
        t := Then(t, more);
      }
      i := i + 1;
    }
    if t.failed { WalkStops(fs, here, dirlen, es, i); } else { assert es[..i] == es; }
  }

  /** The root path is given without trailing slashes. */
  method TraverseLocalPath(fs: string -> Node, root: string) returns (t: Trail)
    requires Proper(fs) && |root| < PATH_MAX && '\0' !in root && (root == "" || root[|root| - 1] != '/')
    ensures t == Walk(fs, root, |root|)
  {
    var buf := new char[PATH_MAX];
    forall i | 0 <= i < |root| { buf[i] := root[i]; }
    buf[|root|] := '\0';
    assert buf[..|root|] == root;
    UptoIs(buf[..], '\0', root);
    t := TraverseDirRec(fs, buf, |root|);
  }

  // ----- which files are worked on -----

  predicate AllAt(steps: seq<Step>, here: string) { forall i :: 0 <= i < |steps| ==> steps[i].path == here }

  /** No path longer than 7 characters. */
  predicate Fits(steps: seq<Step>) { forall i :: 0 <= i < |steps| ==> |steps[i].path| < POINTER_SIZE }

  predicate ShortOr(steps: seq<Step>, here: string) { forall i :: 0 <= i < |steps| ==> steps[i].path == here || |steps[i].path| < POINTER_SIZE }

  predicate Longer(steps: seq<Step>, dir: string) { forall i :: 0 <= i < |steps| ==> |steps[i].path| > |dir| }

  /** Behind the end of the text nothing is seen any more. */
  lemma {:induction false} WalkLost(fs: string -> Node, here: string, dirlen: nat)
    requires Proper(fs) && |here| < dirlen < PATH_MAX
    ensures AllAt(Walk(fs, here, dirlen).steps, here)
    decreases PATH_MAX - dirlen, 1, 0
  {
    if fs(here).Directory? { ScanLost(fs, here, dirlen, fs(here).entries); }
  }

  lemma {:induction false} ScanLost(fs: string -> Node, here: string, dirlen: nat, es: seq<Dirent>)
    requires Proper(fs) && Named(es) && |here| < dirlen < PATH_MAX
    ensures AllAt(WalkScan(fs, here, dirlen, es).steps, here)
    decreases PATH_MAX - dirlen, 0, |es|
  {
    if es != [] {
      var part, e := es[..|es| - 1], es[|es| - 1];
      ScanLost(fs, here, dirlen, part);
      if e.kind == Dir && !Overruns(dirlen, e.name) { WalkLost(fs, here, dirlen + 1 + |e.name|); }
    }
  }

  /** Within the size of a pointer no path grows past it. */
  lemma {:induction false} WalkShort(fs: string -> Node, here: string, dirlen: nat)
    requires Proper(fs) && |here| <= dirlen < PATH_MAX && |here| <= POINTER_SIZE
    ensures ShortOr(Walk(fs, here, dirlen).steps, here)
    decreases PATH_MAX - dirlen, 1, 0
  {
    if fs(here).Directory? { ScanShort(fs, here, dirlen, fs(here).entries); }
  }

  lemma {:induction false} ScanShort(fs: string -> Node, here: string, dirlen: nat, es: seq<Dirent>)
    requires Proper(fs) && Named(es) && |here| <= dirlen < PATH_MAX && |here| <= POINTER_SIZE
    ensures ShortOr(WalkScan(fs, here, dirlen, es).steps, here)
    decreases PATH_MAX - dirlen, 0, |es|
  {
    if es != [] {
      var part, e := es[..|es| - 1], es[|es| - 1];
      ScanShort(fs, here, dirlen, part);
      var path := PathOf(here, dirlen, e.name);
      assert path == here || |path| < POINTER_SIZE;
      if e.kind == Dir && !Overruns(dirlen, e.name) { WalkShort(fs, path, dirlen + 1 + |e.name|); }
    }
  }

  /** Behind more characters than a pointer has bytes the room has wrapped: names are written whole. */
  lemma {:induction false} WalkLong(fs: string -> Node, dir: string)
    requires Proper(fs) && POINTER_SIZE < |dir| < PATH_MAX
    ensures Walk(fs, dir, |dir|) == Honest(fs, dir)
    decreases PATH_MAX - |dir|, 1, 0
  {
    if fs(dir).Directory? { ScanLong(fs, dir, fs(dir).entries); }
  }

  lemma {:induction false} ScanLong(fs: string -> Node, dir: string, es: seq<Dirent>)
    requires Proper(fs) && Named(es) && POINTER_SIZE < |dir| < PATH_MAX
    ensures WalkScan(fs, dir, |dir|, es) == HonestScan(fs, dir, es)
    decreases PATH_MAX - |dir|, 0, |es|
  {
    if es != [] {
      var part, e := es[..|es| - 1], es[|es| - 1];
      ScanLong(fs, dir, part);
      if !Overruns(|dir|, e.name) {
        assert PathOf(dir, |dir|, e.name) == dir + "/" + e.name by { Whole(dir, e.name); }
        if e.kind == Dir { WalkLong(fs, dir + "/" + e.name); }
      }
    }
  }

  /** A name is written whole if and only if the wrapped room holds it. */
  lemma Whole(dir: string, name: string)
    requires 1 <= |name| && !Overruns(|dir|, name)
    ensures PathOf(dir, |dir|, name) == dir + "/" + name <==> |dir| > POINTER_SIZE || |dir| + 1 + |name| < POINTER_SIZE
  {
    assert dir + ("/" + name) == dir + "/" + name;
  }

  lemma {:induction false} WalkFits(fs: string -> Node, dir: string)
    requires Proper(fs) && |dir| <= POINTER_SIZE && Fits(Honest(fs, dir).steps[1..])
    ensures Walk(fs, dir, |dir|) == Honest(fs, dir)
    decreases PATH_MAX - |dir|, 1, 0
  {
    if fs(dir).Directory? {
      assert Honest(fs, dir).steps[1..] == HonestScan(fs, dir, fs(dir).entries).steps;
      ScanFits(fs, dir, fs(dir).entries);
    }
  }

  lemma {:induction false} ScanFits(fs: string -> Node, dir: string, es: seq<Dirent>)
    requires Proper(fs) && Named(es) && |dir| <= POINTER_SIZE && Fits(HonestScan(fs, dir, es).steps)
    ensures WalkScan(fs, dir, |dir|, es) == HonestScan(fs, dir, es)
    decreases PATH_MAX - |dir|, 0, |es|
  {
    if es != [] {
      var part, e := es[..|es| - 1], es[|es| - 1];
      var t, path := HonestScan(fs, dir, part), dir + "/" + e.name;
      assert t.steps <= HonestScan(fs, dir, es).steps;
      assert Fits(t.steps);
      ScanFits(fs, dir, part);
      if !t.failed && !Skipped(e) {
        assert !Overruns(|dir|, e.name);
        var more := if e.kind == Dir then Honest(fs, path) else Trail([Worked(path)], !fs(path).Regular?);
        assert HonestScan(fs, dir, es).steps == t.steps + more.steps;
        FitsLater(t.steps, more.steps);
        assert more.steps[0].path == path;
        Whole(dir, e.name);
        if e.kind == Dir { WalkFits(fs, path); }
      }
    }
  }

  lemma FitsLater(a: seq<Step>, b: seq<Step>)
    requires Fits(a + b)
    ensures Fits(b) && (b != [] ==> Fits(b[1..]))
  {
    assert forall i :: 0 <= i < |b| ==> (a + b)[|a| + i] == b[i];
  }

  lemma {:induction false} HonestLonger(fs: string -> Node, dir: string, es: seq<Dirent>)
    requires Proper(fs) && Named(es) && |dir| < PATH_MAX
    ensures Longer(HonestScan(fs, dir, es).steps, dir)
    decreases PATH_MAX - |dir|, |es|
  {
    if es != [] {
      var part, e := es[..|es| - 1], es[|es| - 1];
      HonestLonger(fs, dir, part);
      if e.kind == Dir && !Overruns(|dir|, e.name) {
        var path := dir + "/" + e.name;
        if fs(path).Directory? { HonestLonger(fs, path, fs(path).entries); }
      }
    }
  }

  /** Every directory and file is visited under its own path if and only if the
      root has more than 8 characters or no path has more than 7; else none of
      the longer ones is ever visited. */
  lemma WalkExact(fs: string -> Node, root: string)
    requires Proper(fs) && |root| < PATH_MAX
    ensures Walk(fs, root, |root|) == Honest(fs, root) <==> |root| > POINTER_SIZE || Fits(Honest(fs, root).steps[1..])
    ensures |root| <= POINTER_SIZE ==> ShortOr(Walk(fs, root, |root|).steps, root)
  {
    if |root| > POINTER_SIZE {
      WalkLong(fs, root);
    } else {
      WalkShort(fs, root, |root|);
      if Fits(Honest(fs, root).steps[1..]) {
        WalkFits(fs, root);
      } else if fs(root).Directory? {
        HonestLonger(fs, root, fs(root).entries);
        assert Honest(fs, root).steps[1..] == HonestScan(fs, root, fs(root).entries).steps;
      }
    }
  }

  // ----- what the traversal that is meant visits -----

  /** A regular file stands at `n` below a directory, and no link on the way. */
  predicate Stored(fs: string -> Node, dir: string, n: string)
    decreases |n|, 1
  {
    fs(dir).Directory? && exists i :: 0 <= i < |fs(dir).entries| && StoredBy(fs, dir, fs(dir).entries[i], n)
  }

  predicate StoredBy(fs: string -> Node, dir: string, e: Dirent, n: string)
    decreases |n|, 0
  {
    match e.kind
    case Plain => n == e.name
    case Dir => |n| > |e.name| && n[..|e.name|] == e.name && n[|e.name|] == '/' && Stored(fs, dir + "/" + e.name, n[|e.name| + 1..])
    case _ => false
  }

  /** A path below a directory. */
  predicate Under(dir: string, path: string) { |path| > |dir| && path[..|dir|] == dir && path[|dir|] == '/' }

  predicate AllUnder(steps: seq<Step>, dir: string) { forall i :: 0 <= i < |steps| ==> Under(dir, steps[i].path) }

  lemma UnderTrans(a: string, name: string, path: string)
    requires Under(a + "/" + name, path) || path == a + "/" + name
    ensures Under(a, path)
  {
    var b := a + "/" + name;
    assert path[..|b|] == b && path[..|a|] == path[..|b|][..|a|] == b[..|a|] == a;
    assert path[|a|] == path[..|b|][|a|] == b[|a|];
  }

  lemma {:induction false} HonestUnder(fs: string -> Node, dir: string, es: seq<Dirent>)
    requires Proper(fs) && Named(es) && |dir| < PATH_MAX
    ensures AllUnder(HonestScan(fs, dir, es).steps, dir)
    decreases PATH_MAX - |dir|, |es|
  {
    hide Under, Skipped;
    if es != [] {
      var part, e := es[..|es| - 1], es[|es| - 1];
      HonestUnder(fs, dir, part);
      var path := dir + "/" + e.name;
      UnderTrans(dir, e.name, path);
      if e.kind == Dir && !Overruns(|dir|, e.name) && fs(path).Directory? {
        HonestUnder(fs, path, fs(path).entries);
        forall p | Under(path, p) ensures Under(dir, p) { UnderTrans(dir, e.name, p); }
      }
    }
  }

  lemma HiddenParts(name: string, rest: string)
    requires name != "" && '/' !in name
    ensures Hidden(name) <==> name[0] == '.'
    ensures Hidden(name + "/" + rest) <==> name[0] == '.' || Hidden(rest)
  {
    var n := name + "/" + rest;
    assert forall i :: 0 <= i < |name| ==> n[i] == name[i];
    assert n[|name|] == '/' && forall i :: 0 <= i < |rest| ==> n[|name| + 1 + i] == rest[i];
    if Hidden(rest) {
      if rest[0] == '.' {
        assert n[|name| + 1] == '.';
      } else {
        var i :| 0 <= i < |rest| - 1 && rest[i] == '/' && rest[i + 1] == '.';
        assert n[|name| + 1 + i] == '/' && n[|name| + 1 + i + 1] == '.';
      }
    }
    if Hidden(n) && name[0] != '.' {
      var i :| 0 <= i < |n| - 1 && n[i] == '/' && n[i + 1] == '.';
      if i > |name| { assert rest[i - |name| - 1] == '/' && rest[i - |name| - 1 + 1] == '.'; }
    }
  }

  /** What one entry adds to the files worked on. */
  function EntryTrail(fs: string -> Node, dir: string, e: Dirent): Trail
    requires Proper(fs) && !Overruns(|dir|, e.name)
  {
    var path := dir + "/" + e.name;
    if e.kind == Dir then Honest(fs, path) else Trail([Worked(path)], !fs(path).Regular?)
  }

  /** The traversal that is meant works on exactly the files that are there and not hidden. */
  lemma {:induction false} HonestVisits(fs: string -> Node, dir: string, n: string)
    requires Proper(fs) && |dir| < PATH_MAX && !Honest(fs, dir).failed
    ensures Worked(dir + "/" + n) in Honest(fs, dir).steps <==> Stored(fs, dir, n) && !Hidden(n)
    decreases PATH_MAX - |dir|, 2, 0
  {
    hide Hidden;
    var es := fs(dir).entries;
    ScanVisits(fs, dir, es, n);
    assert Honest(fs, dir).steps == [Opened(dir)] + HonestScan(fs, dir, es).steps;
  }

  lemma {:induction false} ScanVisits(fs: string -> Node, dir: string, es: seq<Dirent>, n: string)
    requires Proper(fs) && Named(es) && |dir| < PATH_MAX && !HonestScan(fs, dir, es).failed
    ensures Worked(dir + "/" + n) in HonestScan(fs, dir, es).steps <==> (exists i :: 0 <= i < |es| && StoredBy(fs, dir, es[i], n)) && !Hidden(n)
    decreases PATH_MAX - |dir|, 1, |es|
  {
    hide Hidden, StoredBy;
    if es != [] {
      var part, e := es[..|es| - 1], es[|es| - 1];
      ScanVisits(fs, dir, part, n);
      assert forall i :: 0 <= i < |part| ==> es[i] == part[i];
      assert e == es[|es| - 1];
      if Skipped(e) {
        if StoredBy(fs, dir, e, n) { SkippedVisits(fs, dir, e, n); }
      } else {
        EntryVisits(fs, dir, e, n);
        assert HonestScan(fs, dir, es).steps == HonestScan(fs, dir, part).steps + EntryTrail(fs, dir, e).steps;
      }
    }
  }

  lemma SkippedVisits(fs: string -> Node, dir: string, e: Dirent, n: string)
    requires IsName(e.name) && Skipped(e) && StoredBy(fs, dir, e, n)
    ensures Hidden(n)
  {
    hide Hidden;
    if e.kind == Dir {
      var rest := n[|e.name| + 1..];
      assert n == e.name + "/" + rest;
      HiddenParts(e.name, rest);
    } else {
      HiddenParts(e.name, "");
    }
  }

  lemma {:induction false} EntryVisits(fs: string -> Node, dir: string, e: Dirent, n: string)
    requires Proper(fs) && IsName(e.name) && !Skipped(e) && !Overruns(|dir|, e.name) && !EntryTrail(fs, dir, e).failed
    ensures Worked(dir + "/" + n) in EntryTrail(fs, dir, e).steps <==> StoredBy(fs, dir, e, n) && !Hidden(n)
    decreases PATH_MAX - |dir|, 0, 0
  {
    hide Hidden;
    var path := dir + "/" + e.name;
    if e.kind != Dir {
      HiddenParts(e.name, "");
      SameTail(dir, n, e.name);
    } else if |n| > |e.name| && n[..|e.name|] == e.name && n[|e.name|] == '/' {
      var rest := n[|e.name| + 1..];
      assert n == e.name + "/" + rest;
      HiddenParts(e.name, rest);
      HonestVisits(fs, path, rest);
      assert path + "/" + rest == dir + "/" + n;
    } else {
      NotUnder(fs, dir, e, n);
    }
  }

  lemma SameTail(dir: string, a: string, b: string)
    ensures dir + "/" + a == dir + "/" + b <==> a == b
  {
    assert (dir + "/" + a)[|dir| + 1..] == a && (dir + "/" + b)[|dir| + 1..] == b;
  }

  lemma UnderName(dir: string, name: string, n: string)
    ensures Under(dir + "/" + name, dir + "/" + n) <==> |n| > |name| && n[..|name|] == name && n[|name|] == '/'
  {
    if |n| > |name| {
      assert (dir + "/" + n)[..|dir| + 1 + |name|] == dir + "/" + n[..|name|];
      SameTail(dir, n[..|name|], name);
    }
  }

  lemma NotUnder(fs: string -> Node, dir: string, e: Dirent, n: string)
    requires Proper(fs) && e.kind == Dir && !Overruns(|dir|, e.name) && !(|n| > |e.name| && n[..|e.name|] == e.name && n[|e.name|] == '/')
    ensures Worked(dir + "/" + n) !in EntryTrail(fs, dir, e).steps
  {
    var path, full := dir + "/" + e.name, dir + "/" + n;
    UnderName(dir, e.name, n);
    hide Under;
    if fs(path).Directory? {
      HonestUnder(fs, path, fs(path).entries);
      var steps := HonestScan(fs, path, fs(path).entries).steps;
      assert Honest(fs, path).steps == [Opened(path)] + steps;
      assert forall i :: 0 <= i < |steps| ==> steps[i] != Worked(full);
    }
  }

  predicate Distinct(es: seq<Dirent>) { forall i, k :: 0 <= i < k < |es| ==> es[i].name != es[k].name }

  predicate Once(steps: seq<Step>) { forall i, k :: 0 <= i < k < |steps| ==> steps[i].path != steps[k].path }

  predicate Below(path: string, p: string) { p == path || Under(path, p) }

  lemma Apart(dir: string, a: string, b: string, p: string)
    requires a != b && '/' !in a && '/' !in b && Below(dir + "/" + a, p)
    ensures !Below(dir + "/" + b, p)
  {
    hide Below;
    FirstName(dir, a, p);
    if Below(dir + "/" + b, p) { FirstName(dir, b, p); }
  }

  lemma FirstName(dir: string, name: string, p: string)
    requires '/' !in name && Below(dir + "/" + name, p)
    ensures |p| > |dir| && Upto(p[|dir| + 1..], '/') == name
  {
    var path, n := dir + "/" + name, p[|dir| + 1..];
    assert n[..|name|] == p[..|path|][|dir| + 1..] == name;
    assert |name| < |n| ==> n[|name|] == p[|path|];
    UptoIs(n, '/', name);
  }

  lemma EntryBelow(fs: string -> Node, dir: string, e: Dirent)
    requires Proper(fs) && !Overruns(|dir|, e.name)
    ensures forall i :: 0 <= i < |EntryTrail(fs, dir, e).steps| ==> Below(dir + "/" + e.name, EntryTrail(fs, dir, e).steps[i].path)
  {
    var path := dir + "/" + e.name;
    if fs(path).Directory? { HonestUnder(fs, path, fs(path).entries); }
    hide Under;
  }

  lemma {:induction false} NoneBelow(fs: string -> Node, dir: string, es: seq<Dirent>, name: string)
    requires Proper(fs) && Named(es) && |dir| < PATH_MAX && '/' !in name && forall i :: 0 <= i < |es| ==> es[i].name != name
    ensures forall i :: 0 <= i < |HonestScan(fs, dir, es).steps| ==> !Below(dir + "/" + name, HonestScan(fs, dir, es).steps[i].path)
    decreases |es|
  {
    hide Below, Skipped;
    if es != [] {
      var part, e := es[..|es| - 1], es[|es| - 1];
      NoneBelow(fs, dir, part, name);
      if !Overruns(|dir|, e.name) {
        EntryBelow(fs, dir, e);
        var t := HonestScan(fs, dir, part);
        assert !t.failed && !Skipped(e) ==> HonestScan(fs, dir, es).steps == t.steps + EntryTrail(fs, dir, e).steps;
        forall p | Below(dir + "/" + e.name, p) ensures !Below(dir + "/" + name, p) { Apart(dir, e.name, name, p); }
      }
    }
  }

  /** The names of a directory being distinct, it visits nothing twice. */
  lemma {:induction false} HonestOnce(fs: string -> Node, dir: string)
    requires Proper(fs) && |dir| < PATH_MAX && forall p :: fs(p).Directory? ==> Distinct(fs(p).entries)
    ensures Once(Honest(fs, dir).steps)
    decreases PATH_MAX - |dir|, 1, 0
  {
    if fs(dir).Directory? {
      ScanOnce(fs, dir, fs(dir).entries);
      HonestLonger(fs, dir, fs(dir).entries);
    }
  }

  lemma {:induction false} ScanOnce(fs: string -> Node, dir: string, es: seq<Dirent>)
    requires Proper(fs) && Named(es) && Distinct(es) && |dir| < PATH_MAX && forall p :: fs(p).Directory? ==> Distinct(fs(p).entries)
    ensures Once(HonestScan(fs, dir, es).steps)
    decreases PATH_MAX - |dir|, 0, |es|
  {
    hide Skipped, Below;
    if es != [] {
      var part, e := es[..|es| - 1], es[|es| - 1];
      var t := HonestScan(fs, dir, part);
      ScanOnce(fs, dir, part);
      if !t.failed && !Skipped(e) && !Overruns(|dir|, e.name) {
        NoneBelow(fs, dir, part, e.name);
        EntryBelow(fs, dir, e);
        if e.kind == Dir { HonestOnce(fs, dir + "/" + e.name); }
        assert HonestScan(fs, dir, es).steps == t.steps + EntryTrail(fs, dir, e).steps;
        OnceMore(t.steps, EntryTrail(fs, dir, e).steps, dir + "/" + e.name);
      }
    }
  }

  lemma OnceMore(a: seq<Step>, b: seq<Step>, path: string)
    requires Once(a) && Once(b)
    requires forall i :: 0 <= i < |a| ==> !Below(path, a[i].path)
    requires forall i :: 0 <= i < |b| ==> Below(path, b[i].path)
    ensures Once(a + b)
  {
    hide Below;
  }

  // ----- two files of a short root -----

  /** A root of five characters with the files "a" and "ab". */
  function TwoFiles(p: string): Node {
    if p == "/sync" then Directory([Dirent(Plain, "a"), Dirent(Plain, "ab")])
    else if p == "/sync/a" || p == "/sync/ab" then Regular
    else Missing
  }

  /** The same once "a" is gone. */
  function OneFile(p: string): Node {
    if p == "/sync" then Directory([Dirent(Plain, "ab")])
    else if p == "/sync/ab" then Regular
    else Missing
  }

  /** Both are worked on as "a", without error; when that is gone every round stops. */
  lemma ShortRoot()
    ensures Proper(TwoFiles) && Walk(TwoFiles, "/sync", 5) == Trail([Opened("/sync"), Worked("/sync/a"), Worked("/sync/a")], false)
    ensures Proper(OneFile) && Walk(OneFile, "/sync", 5) == Trail([Opened("/sync"), Worked("/sync/a")], true)
  {
    hide PathOf;
    var a, ab := Dirent(Plain, "a"), Dirent(Plain, "ab");
    CutAlike();
    assert [a, ab][..1] == [a] && [a][..0] == [] && [ab][..0] == [];
    assert WalkScan(TwoFiles, "/sync", 5, [a]) == Trail([Worked("/sync/a")], false);
    assert WalkScan(OneFile, "/sync", 5, [ab]) == Trail([Worked("/sync/a")], true);
  }

  lemma CutAlike()
    ensures PathOf("/sync", 5, "a") == "/sync/a" && PathOf("/sync", 5, "ab") == "/sync/a"
  {
    assert ("/" + "a")[..2] == "/a" && ("/" + "ab")[..2] == "/a" && "/sync" + "/a" == "/sync/a";
  }

  /** A file in sync, worked on twice in a round: it is unlinked, without error. */
  method WorkTwice(sy: Syncer, n: string) returns (failed: bool)
    requires sy.Sound() && n in sy.tree && n in sy.unmatched && n !in sy.matched
    requires Get(sy.current, n) == Some(sy.tree[n]) && sy.unmatched[n].digest == sy.tree[n]
    modifies sy
    ensures !failed && sy.tree == old(sy.tree) - {n} && sy.asked == old(sy.asked) && sy.next == old(sy.next)[n := old(sy.tree[n])]
  {
    BackupLonger(n);
    PutLaws(sy.tree, n, Backup(n));
    failed := sy.MatchLocalFile(n, NO_FAULT);
    assert sy.tree == old(sy.tree);
    if !failed { failed := sy.MatchLocalFile(n, NO_FAULT); }
  }

  /** A file that is gone here but in the map and listed is retracted from the server by the next round that ends well. */
  lemma ThenRetracted(u: State, w: State, asked: set<Request>, n: string)
    requires Settled(u, w, asked) && n !in u.tree && n in u.current && n in u.remote
    ensures Retract(u.remote[n].version) in asked && n !in w.current
  {
    assert Asks(Look(u, n));
    assert Get(w.current, n) == Synced(Look(u, n)).map_;
  }
}
