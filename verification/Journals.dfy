/** One journal file and its index (lib/jnl.c).  The log is a string of
    records, the index a list of offsets; entries are removed by overwriting
    the first byte of their record. */
module Journals {
  import opened Headers

  datatype Action = Add | Rem

  /** What `jnl_read` yields for one version. */
  datatype Entry = Blank | Live(action: Action, header: Header)

  /** One record of the log with its index data, as the journal's history explains it. */
  datatype Slot = Slot(tag: char, body: string, mark: int)

  datatype IndexEntry = IndexEntry(offset: nat, lastMark: int)

  function ActionTag(a: Action): char { if a == Add then '+' else '-' }

  predicate SlotOk(s: Slot) {
    && (s.tag == '+' || s.tag == '-' || s.tag == '%')
    && s.body != "" && s.body[|s.body| - 1] == '\n'
    && (|s.body| > 1 ==> s.body[|s.body| - 2] == '\n')
  }

  function EntryOf(s: Slot): Entry {
    if s.tag == '%' then Blank
    else Live(if s.tag == '+' then Add else Rem, Parsed(s.body).fields)
  }

  /** The text after the tag is parsed without error. */
  predicate Readable(s: Slot) { s.tag == '%' || Parsed(s.body).ok }

  function PatchSlot(a: Action, h: Header): Slot { Slot(ActionTag(a), Dumped(h), 0) }

  const BLANK_SLOT: Slot := Slot('%', "\n", 0)

  function Removed(s: Slot): Slot { s.(tag := '%') }

  function Record(s: Slot): string { [s.tag, '\n'] + s.body }

  function Log(slots: seq<Slot>): string {
    if slots == [] then "" else Log(slots[..|slots| - 1]) + Record(slots[|slots| - 1])
  }

  function Offset(slots: seq<Slot>, i: nat): nat
    requires i <= |slots|
  {
    |Log(slots[..i])|
  }

  predicate Indexes(idx: seq<IndexEntry>, slots: seq<Slot>) {
    |idx| == |slots|
    && forall i :: 0 <= i < |idx| ==> idx[i] == IndexEntry(Offset(slots, i), slots[i].mark)
  }

  lemma {:induction false} LogSplits(a: seq<Slot>, b: seq<Slot>)
    ensures Log(a + b) == Log(a) + Log(b)
  {
    hide Record;
    if b == [] {
      assert a + b == a;
    } else {
      var t, r := b[..|b| - 1], Record(b[|b| - 1]);
      LogSplits(a, t);
      assert (a + b)[..|a + b| - 1] == a + t;
      assert (Log(a) + Log(t)) + r == Log(a) + (Log(t) + r);
    }
  }

  lemma LogAround(a: seq<Slot>, m: Slot, b: seq<Slot>)
    ensures Log(a + [m] + b) == Log(a) + Record(m) + Log(b)
  {
    LogSplits(a + [m], b);
    assert (a + [m])[..|a|] == a;
  }

  /** The bytes between two offsets are the record of that index, and offsets strictly increase. */
  lemma RecordAt(slots: seq<Slot>, i: nat)
    requires i < |slots|
    ensures Offset(slots, i) < Offset(slots, i + 1) <= |Log(slots)|
    ensures Offset(slots, |slots|) == |Log(slots)|
    ensures Log(slots)[Offset(slots, i)..Offset(slots, i + 1)] == Record(slots[i])
  {
    var a, b := slots[..i], slots[i + 1..];
    assert slots[..i + 1][..i] == a;
    assert slots == slots[..i + 1] + b;
    LogSplits(slots[..i + 1], b);
    assert slots[..|slots|] == slots;
  }

  /** Overwriting the first byte of a record blanks that entry and moves nothing. */
  lemma BlankInPlace(slots: seq<Slot>, k: nat)
    requires k < |slots|
    ensures Offset(slots, k) < |Log(slots)|
    ensures var s := slots[k := Removed(slots[k])];
            && Log(s) == Log(slots)[Offset(slots, k) := '%']
            && forall i {:trigger Offset(s, i)} :: 0 <= i <= |s| ==> Offset(s, i) == Offset(slots, i)
  {
    RecordAt(slots, k);
    var s := slots[k := Removed(slots[k])];
    var a, b := slots[..k], slots[k + 1..];
    assert slots == a + [slots[k]] + b && s == a + [s[k]] + b;
    RemovedRecord(slots[k]);
    hide Log, Record, Removed;
    LogAround(a, slots[k], b);
    LogAround(a, s[k], b);
    OneByte(Log(a), Record(slots[k]), Log(b));
    forall i {:trigger Offset(s, i)} | 0 <= i <= |s| ensures Offset(s, i) == Offset(slots, i) {
      SameLengths(slots[..i], s[..i]);
    }
  }

  lemma ShapeAt(m: Slot)
    requires SlotOk(m)
    ensures var r := Record(m);
      && |r| >= 3 && r[0] == m.tag && r[1] == '\n' && r[|r| - 2] == '\n' && r[|r| - 1] == '\n' && r[2..] == m.body
      && (m.tag == '+' || m.tag == '-' || m.tag == '%')
  {
  }

  lemma BlankAlready(slots: seq<Slot>, k: nat)
    requires k < |slots|
    ensures slots[k].tag == '%' ==> slots[k := Removed(slots[k])] == slots
  {
    hide Log, Record, Offset;
  }

  lemma StillIndexed(idx: seq<IndexEntry>, slots: seq<Slot>, k: nat)
    requires k < |slots| && Indexes(idx, slots) && forall i :: 0 <= i < |slots| ==> SlotOk(slots[i])
    ensures var s := slots[k := Removed(slots[k])]; Indexes(idx, s) && forall i :: 0 <= i < |s| ==> SlotOk(s[i])
  {
    BlankInPlace(slots, k);
    hide Log, Record, Offset;
  }

  /** Were the entry appended, as a system does that appends whatever is written to a
      file opened for appending, the next record would not be where its entry says. */
  lemma AppendedEntryMisplaced(idx: seq<IndexEntry>, slots: seq<Slot>, k: nat, mark: int, next: Slot)
    requires Indexes(idx, slots) && k < |slots|
    ensures var longer := idx + [idx[k].(lastMark := mark)] + [IndexEntry(|Log(slots)|, 0)];
      longer[|slots|].offset < Offset(slots + [next], |slots|) && !Indexes(longer, slots + [next])
  {
    RecordAt(slots, k);
    SplitAt(slots, k + 1);
    assert (slots + [next])[..|slots|] == slots;
  }

  lemma SplitAt(slots: seq<Slot>, k: nat)
    requires k <= |slots|
    ensures Offset(slots, k) <= |Log(slots)|
  {
    if k < |slots| { RecordAt(slots, k); }
    assert slots[..|slots|] == slots;
  }

  lemma TagAt(slots: seq<Slot>, k: nat)
    requires k < |slots|
    ensures Offset(slots, k) < |Log(slots)| && Log(slots)[Offset(slots, k)] == slots[k].tag
  {
    RecordAt(slots, k);
    assert Log(slots)[Offset(slots, k)..Offset(slots, k + 1)][0] == Record(slots[k])[0];
    hide Log;
  }

  lemma RemovedRecord(m: Slot)
    ensures |Record(m)| > 0 && Record(Removed(m)) == Record(m)[0 := '%'] && Removed(m).body == m.body
  {
  }

  lemma OneByte(a: string, r: string, b: string)
    requires r != ""
    ensures (a + r + b)[|a| := '%'] == a + r[0 := '%'] + b
  {
  }

  lemma {:induction false} SameLengths(a: seq<Slot>, b: seq<Slot>)
    requires |a| == |b| && forall i :: 0 <= i < |a| ==> |a[i].body| == |b[i].body|
    ensures |Log(a)| == |Log(b)|
  {
    if a != [] { SameLengths(a[..|a| - 1], b[..|b| - 1]); }
  }

  lemma {:induction false} FieldsEndLines(h: Header)
    ensures Fields(h) != "" ==> Fields(h)[|Fields(h)| - 1] == '\n'
    ensures h != [] ==> Fields(h) != ""
  {
    if h != [] { FieldsEndLines(h[1..]); }
  }

  class Jnl {
    const version: int
    var log: string
    var idx: seq<IndexEntry>
    var nbPatches: nat
    ghost var slots: seq<Slot>

    ghost predicate Valid()
      reads this
    {
      && nbPatches == |slots|
      && log == Log(slots)
      && Indexes(idx, slots)
      && forall i :: 0 <= i < |slots| ==> SlotOk(slots[i])
    }

    /** `jnl_new_empty`: no file of that name exists yet. */
    constructor (startVersion: int)
      ensures Valid() && slots == [] && nbPatches == 0 && version == startVersion
    {
      version, log, idx, nbPatches, slots := startVersion, "", [], 0, [];
    }

    /** `jnl_offset_size`. */
    method OffsetSize(index: nat) returns (offset: nat, size: nat)
      requires Valid() && index < nbPatches
      ensures offset == Offset(slots, index) && offset + size == Offset(slots, index + 1)
      ensures offset + size <= |log| && log[offset..offset + size] == Record(slots[index])
    {
      RecordAt(slots, index);
      offset := idx[index].offset;
      var end := if index < nbPatches - 1 then idx[index + 1].offset else |log|;
      assert end > offset;
      size := end - offset;
    }

    /** Appends one record and its index entry. */
    method Append(ghost slot: Slot, record: string)
      requires Valid() && SlotOk(slot) && slot.mark == 0 && record == Record(slot)
      modifies this
      ensures Valid() && slots == old(slots) + [slot] && nbPatches == old(nbPatches) + 1
    {
      assert slots[..|slots|] == slots;
      idx := idx + [IndexEntry(|log|, 0)];
      log := log + record;
      nbPatches := nbPatches + 1;
      slots := slots + [slot];
      assert forall i :: 0 <= i < |slots| ==> slots[..i] == old(slots)[..i];
      assert slots[..|slots| - 1] == old(slots);
    }

    /** `jnl_patch`. */
    method Patch(action: Action, header: Header) returns (v: int)
      requires Valid()
      modifies this
      ensures Valid() && slots == old(slots) + [PatchSlot(action, header)]
      ensures |slots| == nbPatches == old(nbPatches) + 1 && v == version + nbPatches - 1
    {
      FieldsEndLines(header);
      var text := HeaderDump(header);
      Append(PatchSlot(action, header), [ActionTag(action), '\n'] + text);
      v := version + nbPatches - 1;
    }

    /** `jnl_patch_blank`. */
    method PatchBlank() returns (v: int)
      requires Valid()
      modifies this
      ensures Valid() && slots == old(slots) + [BLANK_SLOT]
      ensures |slots| == nbPatches == old(nbPatches) + 1 && v == version + nbPatches - 1
    {
      Append(BLANK_SLOT, "%\n\n");
      v := version + nbPatches - 1;
    }

    /** `jnl_mark_del`: only an addition can be removed; twice is harmless. */
    method MarkDel(toDel: int) returns (ok: bool)
      requires Valid() && version <= toDel < version + nbPatches
      modifies this
      ensures Valid() && |slots| == nbPatches == old(nbPatches)
      ensures ok <==> old(slots)[toDel - version].tag != '-'
      ensures slots == if ok then old(slots)[toDel - version := Removed(old(slots)[toDel - version])] else old(slots)
    {
      hide Log, Record, Removed, Indexes, SlotOk, Offset;
      var k := toDel - version;
      var offset, size := OffsetSize(k);
      StillIndexed(idx, slots, k);
      BlankInPlace(slots, k);
      ShapeAt(slots[k]);
      BlankAlready(slots, k);
      var tag := log[offset];
      assert tag == slots[k].tag by { TagAt(slots, k); }
      if tag == '%' { return true; }
      if tag != '+' { return false; }
      log := log[offset := '%'];
      slots := slots[k := Removed(slots[k])];
      return true;
    }

    /** `jnl_replace_last_mark`. */
    method ReplaceLastMark(index: nat, newLastMark: int) returns (prev: int)
      requires Valid() && index < nbPatches
      modifies this
      ensures Valid() && |slots| == nbPatches == old(nbPatches) && prev == old(slots)[index].mark
      ensures slots == old(slots)[index := old(slots)[index].(mark := newLastMark)]
    {
      prev := idx[index].lastMark;
      idx := idx[index := idx[index].(lastMark := newLastMark)];
      MarkKeepsLog(slots, index, newLastMark);
      slots := slots[index := slots[index].(mark := newLastMark)];
    }

    /** `jnl_read`: its own format errors cannot occur on a journal it wrote; one of
        `header_parse` stays set beside the fields read before it. */
    method Read(index: nat) returns (entry: Entry, ok: bool)
      requires Valid() && index < nbPatches
      ensures entry == EntryOf(slots[index]) && ok == Readable(slots[index])
    {
      hide Log, Record, Indexes, SlotOk, Offset, Readable, EntryOf;
      var offset, size := OffsetSize(index);
      entry, ok := ReadRecord(log[offset..offset + size], slots[index]);
    }
  }

  /** What `jnl_read` makes of the bytes of one record. */
  method ReadRecord(buf: string, ghost m: Slot) returns (entry: Entry, ok: bool)
    requires SlotOk(m) && buf == Record(m)
    ensures entry == EntryOf(m) && ok == Readable(m)
  {
    hide Record, SlotOk, Parsed;
    ShapeAt(m);
    var size := |buf|;
    entry, ok := Blank, true;
    if size < 3 { return Blank, false; }
    if buf[1] != '\n' || buf[size - 2] != '\n' || buf[size - 1] != '\n' { return Blank, false; }
    if buf[0] != '+' && buf[0] != '%' && buf[0] != '-' { return Blank, false; }
    if buf[0] != '%' {
      var header, used, parsed := HeaderParse([], buf[2..]);
      assert [] + Parsed(m.body).fields == Parsed(m.body).fields;
      entry := Live(if buf[0] == '-' then Rem else Add, header);
      ok := parsed;
    }
  }

  lemma {:induction false} LogIgnoresMarks(a: seq<Slot>, b: seq<Slot>)
    requires |a| == |b| && forall i :: 0 <= i < |a| ==> a[i].tag == b[i].tag && a[i].body == b[i].body
    ensures Log(a) == Log(b)
  {
    if a != [] { LogIgnoresMarks(a[..|a| - 1], b[..|b| - 1]); }
  }

  lemma MarkKeepsLog(slots: seq<Slot>, k: nat, mark: int)
    requires k < |slots|
    ensures var s := slots[k := slots[k].(mark := mark)];
            && Log(s) == Log(slots)
            && forall i {:trigger Offset(s, i)} :: 0 <= i <= |s| ==> Offset(s, i) == Offset(slots, i)
  {
    var s := slots[k := slots[k].(mark := mark)];
    LogIgnoresMarks(s, slots);
    forall i {:trigger Offset(s, i)} | 0 <= i <= |s| ensures Offset(s, i) == Offset(slots, i) {
      LogIgnoresMarks(s[..i], slots[..i]);
    }
  }

  /** What is read back of a patch: the header itself when it is normal. */
  function Stored(h: Header): Header { Parsed(Dumped(h)).fields }

  lemma PatchReadsBack(a: Action, h: Header)
    ensures EntryOf(PatchSlot(a, h)) == Live(a, Stored(h))
    ensures EntryOf(BLANK_SLOT) == Blank
    ensures Normal(h) <==> Stored(h) == h
    ensures Normal(h) ==> Readable(PatchSlot(a, h))
  {
    hide Parsed;
    RoundTrip(h);
  }

  /** A blanked record reads as blank, without error, whatever text it has; the same
      text unblanked is an error when a name has no value. */
  lemma BlankedReads(s: Slot)
    ensures Readable(Removed(s)) && EntryOf(Removed(s)) == Blank
    ensures s.tag != '%' && s.body == "x\n\n" ==> !Readable(s)
  {
    var t := "x\n\n";
    assert t[1..] == "\n\n" && t[2..] == "\n";
    assert Scan(EndOfName, t[1..]) == Some(0) && Scan(EndOfName, t) == Some(1) && Scan(EndOfValue, t[2..]) == Some(0);
    assert FieldAt(t) == BadField;
  }

  // ----- whole histories of one journal -----

  datatype Op = Write(action: Action, header: Header) | Skip | Delete(index: nat)

  /** The records after the operations; deleting what cannot be deleted changes nothing. */
  function Replayed(ops: seq<Op>): seq<Slot> {
    if ops == [] then [] else
      var s := Replayed(ops[..|ops| - 1]);
      match ops[|ops| - 1]
      case Write(a, h) => s + [PatchSlot(a, h)]
      case Skip => s + [BLANK_SLOT]
      case Delete(i) => if i < |s| && s[i].tag != '-' then s[i := Removed(s[i])] else s
  }

  /** The operations that append something, in order. */
  function Appended(ops: seq<Op>): seq<Op> {
    if ops == [] then [] else
      var w := Appended(ops[..|ops| - 1]);
      if ops[|ops| - 1].Delete? then w else w + [ops[|ops| - 1]]
  }

  /** Index `i` was deleted at some point after it was written. */
  ghost predicate Deleted(ops: seq<Op>, i: nat) {
    exists k :: 0 <= k < |ops| && ops[k] == Delete(i) && i < |Appended(ops[..k])|
  }

  lemma DeletedGrows(ops: seq<Op>, i: nat)
    requires ops != []
    ensures Deleted(ops, i) <==>
      Deleted(ops[..|ops| - 1], i) || (ops[|ops| - 1] == Delete(i) && i < |Appended(ops[..|ops| - 1])|)
  {
    var p := ops[..|ops| - 1];
    assert forall k :: 0 <= k < |p| ==> p[..k] == ops[..k];
    if Deleted(ops, i) {
      var k :| 0 <= k < |ops| && ops[k] == Delete(i) && i < |Appended(ops[..k])|;
      if k < |p| { assert p[k] == Delete(i) && i < |Appended(p[..k])|; }
    }
    if Deleted(p, i) {
      var k :| 0 <= k < |p| && p[k] == Delete(i) && i < |Appended(p[..k])|;
      assert ops[k] == Delete(i) && i < |Appended(ops[..k])|;
    }
  }

  /** What an index reads, given what was written there. */
  function Expected(w: Op, deleted: bool): Entry {
    match w
    case Write(a, h) => if a == Add && deleted then Blank else Live(a, Stored(h))
    case _ => Blank
  }

  predicate IsRem(w: Op) { w.Write? && w.action == Rem }

  /** What index `i` reads after any history: the action and header written
      there, unless it is an addition deleted since, or was written blank. */
  lemma {:induction false} ReadsHistory(ops: seq<Op>)
    ensures |Replayed(ops)| == |Appended(ops)|
    ensures forall i :: 0 <= i < |Replayed(ops)| ==>
      EntryOf(Replayed(ops)[i]) == Expected(Appended(ops)[i], Deleted(ops, i))
    ensures forall i :: 0 <= i < |Replayed(ops)| ==> (Replayed(ops)[i].tag == '-' <==> IsRem(Appended(ops)[i]))
    ensures forall i: nat :: Deleted(ops, i) ==> i < |Appended(ops)|
  {
    hide Stored, Parsed, Dumped;
    if ops != [] {
      var p, o := ops[..|ops| - 1], ops[|ops| - 1];
      ReadsHistory(p);
      forall i: nat ensures Deleted(ops, i) <==> Deleted(p, i) || (o == Delete(i) && i < |Appended(p)|) { DeletedGrows(ops, i); }
      if o.Write? { PatchReadsBack(o.action, o.header); }
    }
  }

  /** The operations run on a journal: it holds their records. */
  method Replay(ops: seq<Op>) returns (j: Jnl)
    ensures j.Valid() && fresh(j) && j.slots == Replayed(ops)
  {
    hide Record, Log, PatchSlot, Removed;
    j := new Jnl(1);
    for k := 0 to |ops|
      invariant j.Valid() && fresh(j) && j.version == 1 && j.slots == Replayed(ops[..k])
    {
      assert ops[..k + 1][..k] == ops[..k];
      match ops[k] {
        case Write(a, h) => var v := j.Patch(a, h);
        case Skip => var v := j.PatchBlank();
        case Delete(i) => if i < j.nbPatches { var ok := j.MarkDel(1 + i); }
      }
    }
    assert ops[..|ops|] == ops;
  }
}
