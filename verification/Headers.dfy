/** Message headers (lib/header.c): an ordered list of fields, printed one per
    line and parsed back from folded text.  A C string is a `string`; reading
    past its end, or at an embedded NUL, yields the terminator. */
module Headers {

  datatype Option<+T> = None | Some(value: T)

  datatype Field = Field(name: string, value: string)

  type Header = seq<Field>

  const NUL: char := '\0'

  // ----- character classes of the C locale -----

  predicate IsBlank(c: char) { c == ' ' || c == '\t' }

  predicate IsEol(c: char) { c == '\n' || c == '\r' }

  predicate IsSpace(c: char) {
    IsBlank(c) || IsEol(c) || c == '\U{0B}' || c == '\U{0C}'
  }

  predicate IsDigit(c: char) { '0' <= c <= '9' }

  function ToLower(c: char): char {
    if 'A' <= c <= 'Z' then ((c as int) + 32) as char else c
  }

  function Lower(s: string): (r: string)
    ensures |r| == |s|
    ensures forall i :: 0 <= i < |s| ==> r[i] == ToLower(s[i])
  {
    seq(|s|, i requires 0 <= i < |s| => ToLower(s[i]))
  }

  /** The letters of the alphabet change, and nothing else. */
  lemma LowersLetters()
    ensures Lower("ABCDEFGHIJKLMNOPQRSTUVWXYZ") == "abcdefghijklmnopqrstuvwxyz"
    ensures forall c :: ToLower(c) != c ==> 'A' <= c <= 'Z'
  {
  }

  /** The character a C pointer to the start of `s`, moved by `i`, reads. */
  function CharAt(s: string, i: nat): char { if i < |s| then s[i] else NUL }

  // ----- white space folding, as `parse` does it -----

  /** White space runs become one blank, leading ones disappear. */
  function Squeeze(s: string): string
  {
    if s == "" then "" else
      var p := Squeeze(s[..|s| - 1]);
      var c := s[|s| - 1];
      if !IsSpace(c) then p + [c]
      else if p == "" || p[|p| - 1] == ' ' then p
      else p + " "
  }

  function Trim(s: string): string {
    if s != "" && s[|s| - 1] == ' ' then s[..|s| - 1] else s
  }

  function Compact(s: string): string { Trim(Squeeze(s)) }

  /** The maximal runs of characters that are not white space. */
  function Words(s: string): seq<string>
  {
    if s == "" then [] else
      var w := Words(s[..|s| - 1]);
      var c := s[|s| - 1];
      if IsSpace(c) then w
      else if w == [] || |s| == 1 || IsSpace(s[|s| - 2]) then w + [[c]]
      else w[..|w| - 1] + [w[|w| - 1] + [c]]
  }

  predicate Single(s: string) {
    && (forall i :: 0 <= i < |s| && IsSpace(s[i]) ==> s[i] == ' ')
    && (forall i :: 0 <= i < |s| - 1 && s[i] == ' ' ==> s[i + 1] != ' ')
    && (s != "" ==> s[0] != ' ')
  }

  predicate IsCompact(s: string) {
    Single(s) && (s != "" ==> s[|s| - 1] != ' ')
  }

  lemma {:induction false} SqueezeSingle(s: string)
    ensures Single(Squeeze(s))
  {
    if s != "" { SqueezeSingle(s[..|s| - 1]); }
  }

  lemma {:induction false} SqueezeFixes(s: string)
    requires Single(s)
    ensures Squeeze(s) == s
  {
    if s != "" {
      var t := s[..|s| - 1];
      assert Single(t);
      SqueezeFixes(t);
      assert s == t + [s[|s| - 1]];
    }
  }

  lemma {:induction false} SqueezeWords(s: string)
    ensures Words(Squeeze(s)) == Words(s)
    ensures Squeeze(s) != "" ==> Words(s) != []
    ensures s != "" && Squeeze(s) != "" ==> (IsSpace(s[|s| - 1]) <==> Squeeze(s)[|Squeeze(s)| - 1] == ' ')
  {
    if s != "" {
      var t := s[..|s| - 1];
      SqueezeWords(t);
      var p, c := Squeeze(t), s[|s| - 1];
      var q := Squeeze(s);
      if q != p {
        assert q[..|q| - 1] == p;
      }
    }
  }

  /** Folding keeps the words, separated by single blanks, and changes
      nothing in text that is already folded. */
  lemma CompactFolds(s: string)
    ensures IsCompact(Compact(s))
    ensures Words(Compact(s)) == Words(s)
    ensures IsCompact(s) <==> Compact(s) == s
  {
    SqueezeSingle(s);
    SqueezeWords(s);
    if IsCompact(s) { SqueezeFixes(s); }
  }

  lemma {:induction false} CompactChars(s: string)
    requires NoNul(s)
    ensures ValueChars(Squeeze(s)) && ValueChars(Compact(s))
    ensures NameChars(s) ==> NameChars(Squeeze(s)) && NameChars(Compact(s))
  {
    if s != "" {
      assert NameChars(s) ==> NameChars(s[..|s| - 1]);
      CompactChars(s[..|s| - 1]);
    }
  }

  // ----- scanning one name or one value -----

  datatype Stop = EndOfName | EndOfValue

  /** `is_end_of_name` and `is_end_of_value` at the start of `s`. */
  predicate Stops(k: Stop, s: string) {
    match k
    case EndOfName => CharAt(s, 0) == ':' || IsEol(CharAt(s, 0))
    case EndOfValue => IsEol(CharAt(s, 0)) && !IsBlank(CharAt(s, 1))
  }

  /** Position of the first delimiter, unless the string ends before it. */
  function Scan(k: Stop, s: string): (r: Option<nat>)
    ensures r.Some? ==> r.value < |s|
  {
    if Stops(k, s) then Some(0)
    else if CharAt(s, 0) == NUL then None
    else
      match Scan(k, s[1..])
      case None => None
      case Some(n) => Some(n + 1)
  }

  datatype FieldResult = NoField | BadField | Got(field: Field, used: nat)

  /** `parse_field` on the text at the start of `s`. */
  function FieldAt(s: string): (r: FieldResult)
    ensures r.Got? ==> 0 < r.used <= |s|
  {
    match Scan(EndOfName, s)
    case None => BadField
    case Some(n) =>
      if n == 0 then NoField
      else
        var rest := s[n + 1..];
        match Scan(EndOfValue, rest)
        case None => BadField
        case Some(m) =>
          if m == 0 then BadField
          else Got(Field(Lower(Compact(s[..n])), Compact(rest[..m])), n + m + 2)
  }

  datatype ParseResult = ParseResult(fields: Header, used: nat, ok: bool)

  /** `header_parse`: fields up to a blank line, an error or the end. */
  function Parsed(s: string): (r: ParseResult)
    ensures r.used <= |s|
    decreases |s|
  {
    if CharAt(s, 0) == NUL then ParseResult([], 0, true)
    else
      match FieldAt(s)
      case BadField => ParseResult([], 0, false)
      case NoField => ParseResult([], 0, true)
      case Got(f, n) =>
        var r := Parsed(s[n..]);
        ParseResult([f] + r.fields, n + r.used, r.ok)
  }

  function FieldText(f: Field): string { f.name + ": " + f.value + "\n" }

  function Fields(h: Header): string {
    if h == [] then "" else FieldText(h[0]) + Fields(h[1..])
  }

  /** `header_dump` and `header_write`. */
  function Dumped(h: Header): string { Fields(h) + "\n" }

  // ----- the loops of lib/header.c -----

  /** `parse`: one token up to the delimiter, folded on the way. */
  method Parse(msg: string, start: nat, k: Stop) returns (token: string, used: nat, ok: bool)
    requires start <= |msg|
    ensures ok <==> Scan(k, msg[start..]).Some?
    ensures ok ==> used == Scan(k, msg[start..]).value && token == Compact(msg[start..start + used])
  {
    hide Stops, Scan, Squeeze, IsSpace;
    var src, vb, remSpace := start, "", true;
    ghost var all := Scan(k, msg[start..]);
    assert msg[start..start] == "" && Squeeze("") == "" by { SqueezeEmpty(); }
    while !Stops(k, msg[src..]) && CharAt(msg[src..], 0) != NUL
      invariant start <= src <= |msg|
      invariant vb == Squeeze(msg[start..src])
      invariant remSpace == (vb == "" || vb[|vb| - 1] == ' ')
      invariant all == (match Scan(k, msg[src..]) case None => None case Some(n) => Some(n + src - start))
      decreases |msg| - src
    {
      var c := msg[src];
      SqueezeMore(msg, start, src);
      ScanMore(k, msg, src);
      if IsSpace(c) {
        if !remSpace {
          remSpace := true;
          vb := vb + " ";
        }
      } else {
        remSpace := false;
        vb := vb + [c];
      }
      src := src + 1;
    }
    used := src - start;
    ok := Stops(k, msg[src..]);
    ScanEnd(k, msg, src);
    SqueezeSingle(msg[start..src]);
    token := TrimTail(vb);
  }

  lemma SqueezeEmpty()
    ensures Squeeze("") == ""
  {
  }

  lemma SqueezeMore(msg: string, start: nat, src: nat)
    requires start <= src < |msg|
    ensures var p, c := Squeeze(msg[start..src]), msg[src];
      Squeeze(msg[start..src + 1]) == if !IsSpace(c) then p + [c] else if p == "" || p[|p| - 1] == ' ' then p else p + " "
    ensures !IsSpace(msg[src]) ==> msg[src] != ' '
  {
    assert msg[start..src + 1][..src - start] == msg[start..src];
  }

  lemma ScanMore(k: Stop, msg: string, src: nat)
    requires src < |msg| && !Stops(k, msg[src..]) && CharAt(msg[src..], 0) != NUL
    ensures Scan(k, msg[src..]) == match Scan(k, msg[src + 1..]) case None => None case Some(n) => Some(n + 1)
  {
    assert msg[src..][1..] == msg[src + 1..];
  }

  lemma ScanEnd(k: Stop, msg: string, src: nat)
    requires src <= |msg| && (Stops(k, msg[src..]) || CharAt(msg[src..], 0) == NUL)
    ensures Scan(k, msg[src..]) == if Stops(k, msg[src..]) then Some(0) else None
  {
  }

  /** The end of `parse`: at most one blank to take away. */
  method TrimTail(vb: string) returns (token: string)
    requires Single(vb)
    ensures token == Trim(vb)
  {
    token := vb;
    while token != "" && IsSpace(token[|token| - 1])
      invariant token == vb || token == Trim(vb)
      invariant token != "" && IsSpace(token[|token| - 1]) ==> token == vb
      decreases |token|
    {
      assert |token| > 1;  // varbuf_chop never empties the buffer
      token := token[..|token| - 1];
    }
  }

  /** `parse_field`. */
  method ParseField(msg: string, start: nat) returns (r: FieldResult)
    requires start <= |msg|
    ensures r == FieldAt(msg[start..])
  {
    hide Scan, Compact, Lower;
    var name, n, ok := Parse(msg, start, EndOfName);
    if !ok { return BadField; }
    if n == 0 { return NoField; }
    assert msg[start..start + n] == msg[start..][..n];
    assert msg[start + n + 1..] == msg[start..][n + 1..];
    var value, m, ok' := Parse(msg, start + n + 1, EndOfValue);
    if !ok' || m == 0 { return BadField; }
    assert msg[start + n + 1..start + n + 1 + m] == msg[start..][n + 1..][..m];
    return Got(Field(Lower(name), value), n + m + 2);
  }

  /** `header_parse`, adding to the fields already there. */
  method HeaderParse(h: Header, msg: string) returns (h': Header, used: nat, ok: bool)
    ensures h' == h + Parsed(msg).fields && used == Parsed(msg).used && ok == Parsed(msg).ok
  {
    hide FieldAt;
    h', used, ok := h, 0, true;
    assert msg[0..] == msg;
    while used < |msg| && msg[used] != NUL
      invariant used <= |msg|
      invariant h' + Parsed(msg[used..]).fields == h + Parsed(msg).fields
      invariant used + Parsed(msg[used..]).used == Parsed(msg).used
      invariant Parsed(msg[used..]).ok == Parsed(msg).ok
      invariant ok
      decreases |msg| - used
    {
      var r := ParseField(msg, used);
      if r.BadField? { ok := false; break; }
      if r.NoField? { break; }
      assert msg[used..][r.used..] == msg[used + r.used..];
      h' := h' + [r.field];
      used := used + r.used;
    }
  }

  /** `header_dump`. */
  method HeaderDump(h: Header) returns (vb: string)
    ensures vb == Dumped(h)
  {
    vb := "";
    for i := 0 to |h|
      invariant vb + Fields(h[i..]) == Fields(h)
    {
      assert h[i..][1..] == h[i + 1..];
      vb := vb + (h[i].name + ": " + h[i].value + "\n");
    }
    vb := vb + "\n";
  }

  // ----- round trip -----

  predicate NoNul(s: string) { forall i :: 0 <= i < |s| ==> s[i] != NUL }

  predicate ValueChars(s: string) { NoNul(s) && forall i :: 0 <= i < |s| ==> !IsEol(s[i]) }

  predicate NameChars(s: string) { ValueChars(s) && forall i :: 0 <= i < |s| ==> s[i] != ':' }

  /** What every parsed field satisfies. */
  predicate Tidy(f: Field) {
    && IsCompact(f.name) && IsCompact(f.value)
    && Lower(f.name) == f.name
    && NameChars(f.name) && ValueChars(f.value)
  }

  predicate Normal(h: Header) {
    forall i :: 0 <= i < |h| ==> Tidy(h[i]) && h[i].name != ""
  }

  lemma {:induction false} ScanName(name: string, rest: string)
    requires NameChars(name)
    ensures Scan(EndOfName, name + ":" + rest) == Some(|name|)
  {
    if name != "" {
      ScanName(name[1..], rest);
      assert (name + ":" + rest)[1..] == name[1..] + ":" + rest;
      assert (name + ":" + rest)[0] == name[0];
    }
  }

  lemma {:induction false} ScanValue(value: string, rest: string)
    requires ValueChars(value)
    requires !IsBlank(CharAt(rest, 0))
    ensures Scan(EndOfValue, value + "\n" + rest) == Some(|value|)
  {
    var s := value + "\n" + rest;
    if value != "" {
      ScanValue(value[1..], rest);
      assert s[1..] == value[1..] + "\n" + rest;
      assert s[0] == value[0];
    } else {
      assert s == "\n" + rest;
      assert CharAt(s, 1) == CharAt(rest, 0);
    }
  }

  lemma {:induction false} SqueezeLeadingBlank(s: string)
    ensures Squeeze(" " + s) == Squeeze(s)
  {
    if s == "" {
      assert " " + s == " ";
      assert " "[..0] == "";
    } else {
      SqueezeLeadingBlank(s[..|s| - 1]);
      assert (" " + s)[..|s|] == " " + s[..|s| - 1];
    }
  }

  lemma FieldTextSplits(name: string, value: string, rest: string)
    ensures var s := FieldText(Field(name, value)) + rest;
            var tail := " " + value + "\n" + rest;
            && s == name + ":" + tail
            && s[..|name|] == name && s[|name| + 1..] == tail
            && tail[..1 + |value|] == " " + value
            && s[|FieldText(Field(name, value))|..] == rest
  {
  }

  /** A tidy field with a name, followed by anything that does not continue
      its value, is parsed back. */
  lemma ReadsBackField(f: Field, rest: string)
    requires Tidy(f) && f.name != ""
    requires !IsBlank(CharAt(rest, 0))
    ensures FieldAt(FieldText(f) + rest) == Got(f, |FieldText(f)|)
  {
    hide Squeeze, IsCompact, Lower, Scan, Trim, Words, NameChars;
    var tail := " " + f.value + "\n" + rest;
    FieldTextSplits(f.name, f.value, rest);
    ScanName(f.name, tail);
    ScanValue(" " + f.value, rest);
    SqueezeLeadingBlank(f.value);
    CompactFolds(f.name);
    CompactFolds(f.value);
  }

  lemma ParsesField(f: Field, rest: string)
    requires Tidy(f) && f.name != ""
    requires !IsBlank(CharAt(rest, 0))
    ensures !IsBlank(CharAt(FieldText(f) + rest, 0))
    ensures var p, r := Parsed(FieldText(f) + rest), Parsed(rest);
            p.fields == [f] + r.fields && p.used == |FieldText(f)| + r.used && p.ok == r.ok
  {
    hide FieldAt;
    ReadsBackField(f, rest);
    FieldTextSplits(f.name, f.value, rest);
    assert (FieldText(f) + rest)[0] == f.name[0];
  }

  lemma {:induction false} ParsesPrefix(h: Header, rest: string)
    requires Normal(h)
    requires !IsBlank(CharAt(rest, 0))
    ensures !IsBlank(CharAt(Fields(h) + rest, 0))
    ensures var p, r := Parsed(Fields(h) + rest), Parsed(rest);
            p.fields == h + r.fields && p.used == |Fields(h)| + r.used && p.ok == r.ok
  {
    hide FieldAt, Tidy, Parsed, FieldText;
    if h == [] {
      assert Fields(h) + rest == rest;
    } else {
      var t := h[1..];
      ParsesPrefix(t, rest);
      ParsesField(h[0], Fields(t) + rest);
      assert Fields(h) + rest == FieldText(h[0]) + (Fields(t) + rest);
      assert h + Parsed(rest).fields == [h[0]] + (t + Parsed(rest).fields);
    }
  }

  lemma {:induction false} ScannedHas(k: Stop, s: string)
    requires Scan(k, s).Some?
    ensures NoNul(s[..Scan(k, s).value])
    ensures k.EndOfName? ==> NameChars(s[..Scan(k, s).value])
  {
    var n := Scan(k, s).value;
    if n > 0 {
      ScannedHas(k, s[1..]);
      assert s[..n] == [s[0]] + s[1..][..n - 1];
    }
  }

  lemma ParsedFieldTidy(s: string)
    requires FieldAt(s).Got?
    ensures Tidy(FieldAt(s).field)
  {
    var n := Scan(EndOfName, s).value;
    var rest := s[n + 1..];
    var m := Scan(EndOfValue, rest).value;
    ScannedHas(EndOfName, s);
    ScannedHas(EndOfValue, rest);
    CompactFolds(s[..n]);
    CompactFolds(rest[..m]);
    CompactChars(s[..n]);
    CompactChars(rest[..m]);
    LowerKeeps(Compact(s[..n]));
  }

  lemma LowerKeeps(s: string)
    requires IsCompact(s) && NameChars(s)
    ensures IsCompact(Lower(s)) && NameChars(Lower(s)) && Lower(Lower(s)) == Lower(s)
  {
    var t := Lower(s);
    assert forall i :: 0 <= i < |s| ==> (IsSpace(t[i]) <==> IsSpace(s[i])) && (t[i] == ' ' <==> s[i] == ' ');
  }

  lemma {:induction false} ParsedTidy(s: string)
    ensures forall i :: 0 <= i < |Parsed(s).fields| ==> Tidy(Parsed(s).fields[i])
    decreases |s|
  {
    if CharAt(s, 0) != NUL && FieldAt(s).Got? {
      ParsedFieldTidy(s);
      ParsedTidy(s[FieldAt(s).used..]);
    }
  }

  lemma NamelessStops(f: Field, rest: string)
    requires f.name == ""
    ensures Parsed(FieldText(f) + rest).fields == []
    ensures !IsBlank(CharAt(FieldText(f) + rest, 0))
  {
    assert (FieldText(f) + rest)[0] == ':';
  }

  lemma {:induction false} FieldsSplit(a: Header, b: Header)
    ensures Fields(a + b) == Fields(a) + Fields(b)
  {
    if a == [] {
      assert a + b == b;
    } else {
      FieldsSplit(a[1..], b);
      assert (a + b)[1..] == a[1..] + b;
    }
  }

  lemma NamelessCuts(h: Header, k: nat)
    requires k < |h| && Normal(h[..k]) && h[k].name == ""
    ensures |Parsed(Dumped(h)).fields| == k
  {
    hide FieldAt, Tidy, Parsed, FieldText;
    var a, f, b := h[..k], h[k], h[k + 1..];
    assert h == a + ([f] + b);
    FieldsSplit(a, [f] + b);
    assert ([f] + b)[1..] == b;
    var rest := FieldText(f) + (Fields(b) + "\n");
    assert Dumped(h) == Fields(a) + rest;
    NamelessStops(f, Fields(b) + "\n");
    ParsesPrefix(a, rest);
  }

  /** The header read back is the header printed exactly when every name is
      non-empty and every name and value is already folded.  Nothing is left
      over but the blank line. */
  lemma RoundTrip(h: Header)
    ensures Parsed(Dumped(h)).fields == h <==> Normal(h)
    ensures Normal(h) ==> Parsed(Dumped(h)) == ParseResult(h, |Fields(h)|, true)
  {
    hide FieldAt, Tidy, FieldText;
    if Normal(h) {
      ParsesPrefix(h, "\n");
      BlankLineParses();
      assert h + [] == h;
    } else if Parsed(Dumped(h)).fields == h {
      ParsedTidy(Dumped(h));
      FirstNameless(h);
      var k :| 0 <= k < |h| && h[k].name == "" && forall i :: 0 <= i < k ==> h[i].name != "";
      NamelessCuts(h, k);
      assert false;
    }
  }

  lemma BlankLineParses()
    ensures Parsed("\n") == ParseResult([], 0, true)
  {
    assert Scan(EndOfName, "\n") == Some(0);
  }

  lemma {:induction false} FirstNameless(h: Header)
    requires exists i :: 0 <= i < |h| && h[i].name == ""
    ensures exists k :: 0 <= k < |h| && h[k].name == "" && forall i :: 0 <= i < k ==> h[i].name != ""
  {
    if h[0].name == "" {
    } else {
      FirstNameless(h[1..]);
      var k :| 0 <= k < |h[1..]| && h[1..][k].name == "" && forall i :: 0 <= i < k ==> h[1..][i].name != "";
      assert forall i :: 0 < i < |h| ==> h[i] == h[1..][i - 1];
      assert h[k + 1].name == "" && forall i :: 0 <= i < k + 1 ==> h[i].name != "";
    }
  }

  /** Parsing arbitrary folded text, printing the result and parsing again
      changes nothing exactly when no parsed name is empty. */
  lemma Redump(s: string)
    ensures var h := Parsed(s).fields;
            Parsed(Dumped(h)).fields == h <==> forall i :: 0 <= i < |h| ==> h[i].name != ""
  {
    ParsedTidy(s);
    RoundTrip(Parsed(s).fields);
  }

  /** A name made of white space only is parsed, but does not survive. */
  lemma BlankNameLost()
    ensures Parsed(" : x\n\n").fields == [Field("", "x")]
    ensures Parsed(Dumped([Field("", "x")])).fields == []
  {
    var s := " : x\n\n";
    assert FieldAt(s) == Got(Field("", "x"), 5) by { BlankNameField(); }
    assert s[5..] == "\n";
    BlankLineParses();
    hide FieldAt;
    NamelessStops(Field("", "x"), "\n");
    assert [Field("", "x")][1..] == [];
    assert Dumped([Field("", "x")]) == FieldText(Field("", "x")) + "\n";
  }

  lemma BlankNameField()
    ensures FieldAt(" : x\n\n") == Got(Field("", "x"), 5)
  {
    var s := " : x\n\n";
    assert Scan(EndOfName, s) == Some(1) by { assert s[1..] == ": x\n\n"; }
    assert Compact(s[..1]) == "" by { SqueezeLeadingBlank(""); SqueezeEmpty(); assert s[..1] == " " + ""; }
    var rest := s[2..];
    assert rest == " x" + "\n" + "\n";
    ScanValue(" x", "\n");
    assert Compact(rest[..2]) == "x" by {
      SqueezeLeadingBlank("x");
      assert rest[..2] == " " + "x";
      SqueezeFixes("x");
    }
  }

  // ----- values on several lines -----

  datatype Line = Line(text: string, eol: char)

  /** The lines of one value: each but the first starts with a blank. */
  predicate Continues(ls: seq<Line>) {
    && ls != []
    && (forall i :: 0 <= i < |ls| ==> ValueChars(ls[i].text) && IsEol(ls[i].eol))
    && (forall i :: 0 < i < |ls| ==> ls[i].text != "" && IsBlank(ls[i].text[0]))
  }

  function OnLines(ls: seq<Line>): string { if ls == [] then "" else ls[0].text + [ls[0].eol] + OnLines(ls[1..]) }

  function Joined(ls: seq<Line>): string { if ls == [] then "" else ls[0].text + Joined(ls[1..]) }

  /** A line end stops the value unless a blank follows. */
  lemma {:induction false} ScanLine(text: string, eol: char, tail: string)
    requires ValueChars(text) && IsEol(eol)
    ensures Scan(EndOfValue, text + [eol] + tail) ==
            if !IsBlank(CharAt(tail, 0)) then Some(|text|)
            else match Scan(EndOfValue, tail) case None => None case Some(n) => Some(|text| + 1 + n)
  {
    var s := text + [eol] + tail;
    if text != "" {
      ScanLine(text[1..], eol, tail);
      assert s[1..] == text[1..] + [eol] + tail && s[0] == text[0];
    } else {
      assert s[1..] == tail && CharAt(s, 1) == CharAt(tail, 0);
    }
  }

  lemma {:induction false} ScanLines(ls: seq<Line>, rest: string)
    requires Continues(ls) && !IsBlank(CharAt(rest, 0))
    ensures |OnLines(ls)| > 0 && Scan(EndOfValue, OnLines(ls) + rest) == Some(|OnLines(ls)| - 1)
  {
    hide Scan, ValueChars;
    var t := ls[1..];
    ScanLine(ls[0].text, ls[0].eol, OnLines(t) + rest);
    assert OnLines(ls) + rest == ls[0].text + [ls[0].eol] + (OnLines(t) + rest);
    if t == [] {
      assert OnLines(t) + rest == rest;
    } else {
      assert Continues(t);
      ScanLines(t, rest);
      assert (OnLines(t) + rest)[0] == t[0].text[0];
    }
  }

  /** White space before white space is not seen. */
  lemma {:induction false} SqueezeTwice(a: string, e: char, b: string)
    requires IsSpace(e) && b != "" && IsSpace(b[0])
    ensures Squeeze(a + [e] + b) == Squeeze(a + b)
  {
    hide Squeeze, IsSpace;
    var b', c := b[..|b| - 1], b[|b| - 1];
    SqueezeNext(a + [e] + b', c);
    SqueezeNext(a + b', c);
    assert a + [e] + b' + [c] == a + [e] + b && a + b' + [c] == a + b;
    if |b| == 1 {
      SqueezeNext(a, e);
      assert a + [e] + b' == a + [e] && a + b' == a;
    } else {
      SqueezeTwice(a, e, b');
    }
  }

  lemma {:induction false} SqueezeLines(a: string, ls: seq<Line>)
    requires Continues(ls)
    ensures |OnLines(ls)| > 0 && Squeeze(a + OnLines(ls)[..|OnLines(ls)| - 1]) == Squeeze(a + Joined(ls))
    decreases ls
  {
    hide Squeeze, ValueChars;
    var l, t := ls[0], ls[1..];
    if t == [] {
      LastLine(l);
      assert ls == [l];
    } else {
      assert Continues(t);
      SqueezeLines(a + l.text + [l.eol], t);
      Regroup(a, l.text, [l.eol], OnLines(t), Joined(t));
      assert Joined(t)[0] == t[0].text[0];
      SqueezeTwice(a + l.text, l.eol, Joined(t));
    }
  }

  lemma LastLine(l: Line)
    ensures OnLines([l]) == l.text + [l.eol] && OnLines([l])[..|l.text|] == l.text == Joined([l])
  {
  }

  lemma Regroup(a: string, text: string, e: string, b: string, c: string)
    ensures a + (text + c) == a + text + c
    ensures b != "" ==> a + (text + e + b)[..|text + e + b| - 1] == a + text + e + b[..|b| - 1]
  {
  }

  /** A value goes on over every line end that a blank follows, and is read as the joined lines are. */
  lemma Unfolds(name: string, ls: seq<Line>, rest: string)
    requires name != "" && NameChars(name) && Continues(ls) && !IsBlank(CharAt(rest, 0))
    ensures FieldAt(name + ":" + OnLines(ls) + rest) ==
            if |OnLines(ls)| == 1 then BadField
            else Got(Field(Lower(Compact(name)), Compact(Joined(ls))), |name| + 1 + |OnLines(ls)|)
  {
    hide Scan, Squeeze, Lower, NameChars, Continues;
    var tail := OnLines(ls) + rest;
    var s := name + ":" + OnLines(ls) + rest;
    ScanName(name, tail);
    assert s == name + ":" + tail && s[..|name|] == name && s[|name| + 1..] == tail;
    ScanLines(ls, rest);
    SqueezeLines("", ls);
    assert "" + Joined(ls) == Joined(ls) && "" + OnLines(ls)[..|OnLines(ls)| - 1] == tail[..|OnLines(ls)| - 1];
  }

  /** So a tidy field is read back however its value is cut into lines before blanks. */
  lemma UnfoldsField(f: Field, ls: seq<Line>, rest: string)
    requires Tidy(f) && f.name != "" && Continues(ls) && Joined(ls) == " " + f.value && !IsBlank(CharAt(rest, 0))
    ensures FieldAt(f.name + ":" + OnLines(ls) + rest) == Got(f, |f.name| + 1 + |OnLines(ls)|)
  {
    hide Scan, Squeeze, IsCompact, Lower, Words;
    Unfolds(f.name, ls, rest);
    SqueezeLeadingBlank(f.value);
    CompactFolds(f.name);
    CompactFolds(f.value);
    LineCount(ls);
  }

  lemma {:induction false} LineCount(ls: seq<Line>)
    ensures |OnLines(ls)| == |Joined(ls)| + |ls|
  {
    if ls != [] { LineCount(ls[1..]); }
  }

  /** Two lines, the second after a blank or a tab. */
  lemma TwoLines(blank: char)
    requires IsBlank(blank)
    ensures Parsed("a: b\n" + [blank] + "c\n\n").fields == [Field("a", "b c")]
  {
    hide Lower, Squeeze, Trim, Scan, FieldAt;
    var first, second := Line(" b", '\n'), Line([blank] + "c", '\n');
    var ls, s := [first, second], "a: b\n" + [blank] + "c\n\n";
    OfTwo(first, second);
    assert s == "a" + ":" + OnLines(ls) + "\n";
    Unfolds("a", ls, "\n");
    TwoWords(blank);
    assert Joined(ls) == " b" + [blank] + "c";
    assert FieldAt(s) == Got(Field("a", "b c"), 8);
    assert s[8..] == "\n" && s[0] == 'a';
    BlankLineParses();
  }

  lemma OfTwo(a: Line, b: Line)
    ensures OnLines([a, b]) == a.text + [a.eol] + (b.text + [b.eol]) && Joined([a, b]) == a.text + b.text
  {
    assert [a, b][1..] == [b] && [b][1..] == [];
    assert OnLines([b]) == b.text + [b.eol] && Joined([b]) == b.text;
  }

  lemma TwoWords(blank: char)
    requires IsBlank(blank)
    ensures Compact(" b" + [blank] + "c") == "b c" && Lower(Compact("a")) == "a"
  {
    SqueezeEmpty();
    SqueezeNext("", 'a');
    SqueezeNext("", ' ');
    SqueezeNext(" ", 'b');
    SqueezeNext(" b", blank);
    SqueezeNext(" b" + [blank], 'c');
    hide Squeeze;
    assert "" + "a" == "a" && "" + " " == " " && " " + "b" == " b" && " b" + [blank] + ['c'] == " b" + [blank] + "c";
  }

  lemma SqueezeNext(s: string, c: char)
    ensures var p := Squeeze(s); Squeeze(s + [c]) == if !IsSpace(c) then p + [c] else if p == "" || p[|p| - 1] == ' ' then p else p + " "
  {
    assert (s + [c])[..|s|] == s;
  }

  /** Not so over a carriage return and a line feed: the first ends the value, the second the header. */
  lemma CarriageReturnEnds(f: Field, rest: string)
    requires Tidy(f) && f.name != ""
    ensures Parsed(f.name + ": " + f.value + "\r\n" + rest).fields == [f]
  {
    hide Scan, FieldAt, Tidy;
    var ls, s := [Line(" " + f.value, '\r')], f.name + ": " + f.value + "\r\n" + rest;
    assert ls[1..] == [];
    assert OnLines(ls) == " " + f.value + "\r" && Joined(ls) == " " + f.value;
    assert s == f.name + ":" + OnLines(ls) + ("\n" + rest);
    assert Continues(ls) && s[0] != NUL by { TidyChars(f); }
    UnfoldsField(f, ls, "\n" + rest);
    var used := |f.name| + 1 + |OnLines(ls)|;
    assert s[used..] == "\n" + rest;
    LineFeedEnds(rest);
  }

  lemma TidyChars(f: Field)
    requires Tidy(f) && f.name != ""
    ensures ValueChars(" " + f.value) && f.name[0] != NUL
  {
  }

  lemma LineFeedEnds(rest: string)
    ensures Parsed("\n" + rest).fields == []
  {
    assert ("\n" + rest)[0] == '\n';
  }

  // ----- numbers in fields -----

  function DigitOf(d: nat): char
    requires d < 10
  {
    ((d + '0' as int) as char)
  }

  /** Decimal print of a natural number. */
  function Decimal(n: nat): string {
    if n < 10 then [DigitOf(n)] else Decimal(n / 10) + [DigitOf(n % 10)]
  }

  /** `mdir_version2str`. */
  function VersionToString(v: int): string {
    if v < 0 then "-" + Decimal(-v) else Decimal(v)
  }

  function DigitRun(s: string): nat {
    if s != "" && IsDigit(s[0]) then 1 + DigitRun(s[1..]) else 0
  }

  function Value(s: string): int {
    if s == "" then 0 else 10 * Value(s[..|s| - 1]) + (s[|s| - 1] as int - '0' as int)
  }

  function SkipSpaces(s: string): string {
    if s != "" && IsSpace(s[0]) then SkipSpaces(s[1..]) else s
  }

  function Leading(s: string): Option<int>
  {
    var n := DigitRun(s);
    if n == 0 || n > |s| then None else Some(Value(s[..n]))
  }

  /** `mdir_str2version`: a decimal number at the start of the text, whatever follows. */
  function StringToVersion(s: string): Option<int> {
    var t := SkipSpaces(s);
    if t != "" && t[0] == '-' then
      match Leading(t[1..])
      case None => None
      case Some(n) => Some(-n)
    else if t != "" && t[0] == '+' then Leading(t[1..])
    else Leading(t)
  }

  lemma {:induction false} DecimalValue(n: nat)
    ensures Decimal(n) != "" && Value(Decimal(n)) == n
    ensures forall i :: 0 <= i < |Decimal(n)| ==> IsDigit(Decimal(n)[i])
  {
    var s := Decimal(n);
    if n < 10 {
      assert s[..0] == "";
    } else {
      DecimalValue(n / 10);
      assert s[..|s| - 1] == Decimal(n / 10);
    }
  }

  lemma {:induction false} AllDigits(s: string)
    requires forall i :: 0 <= i < |s| ==> IsDigit(s[i])
    ensures DigitRun(s) == |s|
  {
    if s != "" { AllDigits(s[1..]); }
  }

  /** A printed version is read back. */
  lemma VersionReadsBack(v: int)
    ensures StringToVersion(VersionToString(v)) == Some(v)
  {
    hide Decimal, DigitRun, Value, SkipSpaces, Leading;
    var n: nat := if v < 0 then -v else v;
    DecimalValue(n);
    PlainReads(Decimal(n));
  }

  lemma PlainReads(s: string)
    requires s != "" && forall i :: 0 <= i < |s| ==> IsDigit(s[i])
    ensures Leading(s) == Some(Value(s)) && s[0] != '-' && s[0] != '+'
    ensures SkipSpaces(s) == s && SkipSpaces("-" + s) == "-" + s && ("-" + s)[1..] == s
  {
    hide Value;
    AllDigits(s);
    assert s[..|s|] == s;
    hide DigitRun;
    assert ("-" + s)[0] == '-';
  }

  // ----- queries on headers -----

  const SC_TYPE: string := "sc-type"
  const SC_TARGET: string := "sc-target"
  const SC_LOCALID: string := "sc-localid"
  const SC_DIR_TYPE: string := "dir"
  const SC_MARK_TYPE: string := "mark"

  predicate SameName(a: string, b: string) { Lower(a) == Lower(b) }

  /** Value of the first field of that name (`header_find` from the start). */
  function Find(h: Header, name: string): Option<string> {
    if h == [] then None
    else if SameName(h[0].name, name) then Some(h[0].value)
    else Find(h[1..], name)
  }

  predicate HasType(h: Header, t: string) { Find(h, SC_TYPE) == Some(t) }

  predicate IsDirectory(h: Header) { HasType(h, SC_DIR_TYPE) }

  function Number(o: Option<string>): Option<int> {
    if o.Some? then StringToVersion(o.value) else None
  }

  /** `header_target`; `None` is its error. */
  function Target(h: Header): Option<int> { Number(Find(h, SC_TARGET)) }

  /** `is_mark_for`: 0 when the header is no mark, or targets nothing readable. */
  function MarkTarget(h: Header): int {
    if HasType(h, SC_MARK_TYPE) && Target(h).Some? then Target(h).value else 0
  }

  /** The local version a received patch was tagged with. */
  function LocalId(h: Header): Option<int> { Number(Find(h, SC_LOCALID)) }

  function LocalTag(local: int): Field { Field(SC_LOCALID, VersionToString(local)) }

  lemma {:induction false} FindAppended(h: Header, f: Field, name: string)
    ensures Find(h + [f], name) ==
            if Find(h, name).Some? then Find(h, name)
            else if SameName(f.name, name) then Some(f.value) else None
  {
    if h == [] {
      assert h + [f] == [f];
      assert [f][1..] == [];
    } else {
      FindAppended(h[1..], f, name);
      assert (h + [f])[1..] == h[1..] + [f];
    }
  }

  /** Tagging a header with a local version changes nothing else that is read from it. */
  lemma TagKeeps(h: Header, local: int)
    ensures var t := h + [LocalTag(local)];
            && Target(t) == Target(h) && MarkTarget(t) == MarkTarget(h)
            && IsDirectory(t) == IsDirectory(h) && HasType(t, SC_MARK_TYPE) == HasType(h, SC_MARK_TYPE)
            && LocalId(t) == (if Find(h, SC_LOCALID).Some? then LocalId(h) else Some(local))
  {
    var f := LocalTag(local);
    assert Lower(SC_LOCALID)[3] == 'l' && Lower(SC_TYPE)[3] == 't' && Lower(SC_TARGET)[3] == 't';
    FindAppended(h, f, SC_TARGET);
    FindAppended(h, f, SC_TYPE);
    FindAppended(h, f, SC_LOCALID);
    VersionReadsBack(local);
  }

  // ----- what is read from a header, by its fields -----

  /** The field at `i` is the first of this name, given in lower case. */
  predicate FirstField(h: Header, name: string, i: int) {
    0 <= i < |h| && Lower(h[i].name) == name && forall k :: 0 <= k < i ==> Lower(h[k].name) != name
  }

  lemma {:induction false} FindsFirst(h: Header, name: string)
    requires Lower(name) == name
    ensures forall i :: FirstField(h, name, i) ==> Find(h, name) == Some(h[i].value)
    ensures Find(h, name).None? <==> forall k :: 0 <= k < |h| ==> Lower(h[k].name) != name
    ensures Find(h, name).Some? <==> exists i :: FirstField(h, name, i)
  {
    hide Lower;
    if h != [] {
      var t := h[1..];
      FindsFirst(t, name);
      assert forall i :: 0 <= i < |t| ==> h[i + 1] == t[i];
      if Lower(h[0].name) == name {
        assert FirstField(h, name, 0);
      } else {
        forall i ensures FirstField(h, name, i) <==> FirstField(t, name, i - 1) { LaterField(h, name, i); }
        forall i ensures FirstField(t, name, i) <==> FirstField(h, name, i + 1) { LaterField(h, name, i + 1); }
        assert forall k :: 0 < k < |h| ==> h[k] == t[k - 1];
      }
    }
  }

  lemma LaterField(h: Header, name: string, i: int)
    requires h != [] && Lower(h[0].name) != name
    ensures FirstField(h, name, i) <==> FirstField(h[1..], name, i - 1)
  {
    hide Lower;
    var t := h[1..];
    assert forall k :: 0 <= k < |t| ==> h[k + 1] == t[k];
    if FirstField(t, name, i - 1) {
      forall k | 0 <= k < i ensures Lower(h[k].name) != name { if k > 0 { assert h[k] == t[k - 1]; } }
    }
    if FirstField(h, name, i) {
      assert i > 0;
      forall k | 0 <= k < i - 1 ensures Lower(t[k].name) != name { assert h[k + 1] == t[k]; }
    }
  }

  lemma LowerNames()
    ensures Lower("sc-type") == "sc-type" && Lower("sc-target") == "sc-target" && Lower("sc-localid") == "sc-localid"
  {
  }

  /** The first "sc-type" says `t`. */
  ghost predicate Says(h: Header, t: string) { exists i :: FirstField(h, "sc-type", i) && h[i].value == t }

  /** The first "sc-target" is version `v`. */
  ghost predicate Aims(h: Header, v: int) { exists k :: FirstField(h, "sc-target", k) && h[k].value == VersionToString(v) }

  /** Directories and marks are told by the first "sc-type", whatever other fields there are. */
  lemma TypesByField(h: Header)
    ensures IsDirectory(h) <==> Says(h, "dir")
    ensures HasType(h, SC_MARK_TYPE) <==> Says(h, "mark")
  {
    hide Find, Lower, FirstField;
    LowerNames();
    FindsFirst(h, "sc-type");
  }

  /** What a header targets, and which versions it marks. */
  lemma TargetsByField(h: Header)
    ensures forall v :: Aims(h, v) ==> Target(h) == Some(v)
    ensures (forall k :: 0 <= k < |h| ==> Lower(h[k].name) != "sc-target") ==> Target(h).None?
    ensures !Says(h, "mark") ==> MarkTarget(h) == 0
    ensures Says(h, "mark") ==> forall v :: Aims(h, v) ==> MarkTarget(h) == v
    ensures Target(h).None? ==> MarkTarget(h) == 0
  {
    hide Find, Lower, FirstField, VersionToString, StringToVersion;
    LowerNames();
    FindsFirst(h, "sc-target");
    TypesByField(h);
    forall v { VersionReadsBack(v); }
  }

  lemma LocalIdByField(h: Header, i: int, n: int)
    requires FirstField(h, "sc-localid", i) && h[i].value == VersionToString(n)
    ensures LocalId(h) == Some(n)
  {
    hide Find, Lower, FirstField, VersionToString, StringToVersion;
    LowerNames();
    FindsFirst(h, "sc-localid");
    VersionReadsBack(n);
  }

  predicate AllSpaces(s: string) { forall i :: 0 <= i < |s| ==> IsSpace(s[i]) }

  /** A number is read behind white space and a sign, up to the first character
      that is no digit; without a digit there is none. */
  lemma ReadsNumber(spaces: string, n: int, rest: string)
    requires n >= 0 && AllSpaces(spaces) && !IsDigit(CharAt(rest, 0))
    ensures StringToVersion(spaces + Decimal(n) + rest) == Some(n)
    ensures StringToVersion(spaces + "+" + Decimal(n) + rest) == Some(n)
    ensures StringToVersion(spaces + "-" + Decimal(n) + rest) == Some(-n)
    ensures !IsSpace(CharAt(rest, 0)) && CharAt(rest, 0) != '-' && CharAt(rest, 0) != '+' ==> StringToVersion(spaces + rest).None?
    ensures StringToVersion(spaces + "-" + rest).None? && StringToVersion(spaces + "+" + rest).None?
  {
    hide Decimal, SkipSpaces, Leading, IsSpace;
    assert !IsSpace('-') && !IsSpace('+') && forall c :: IsDigit(c) ==> !IsSpace(c) by { NoSpaces(); }
    var d := Decimal(n);
    DecimalValue(n);
    LeadingDigits(d, rest);
    LeadingDigits("", rest);
    assert "" + rest == rest;
    Skips(spaces, d + rest);
    Skips(spaces, "+" + (d + rest));
    Skips(spaces, "-" + (d + rest));
    Skips(spaces, "-" + rest);
    Skips(spaces, "+" + rest);
    Behind(spaces, "", d, rest);
    Behind(spaces, "+", d, rest);
    Behind(spaces, "-", d, rest);
    if !IsSpace(CharAt(rest, 0)) { Skips(spaces, rest); }
  }

  lemma NoSpaces()
    ensures !IsSpace('-') && !IsSpace('+') && forall c :: IsDigit(c) ==> !IsSpace(c)
  {
  }

  lemma Behind(spaces: string, sign: string, d: string, rest: string)
    ensures spaces + sign + d + rest == spaces + (sign + (d + rest)) && (sign + (d + rest))[|sign|..] == d + rest
    ensures spaces + d + rest == spaces + (d + rest) && spaces + sign + rest == spaces + (sign + rest) && (sign + rest)[|sign|..] == rest
  {
  }

  lemma LeadingDigits(d: string, rest: string)
    requires !IsDigit(CharAt(rest, 0)) && forall i :: 0 <= i < |d| ==> IsDigit(d[i])
    ensures Leading(d + rest) == if d == "" then None else Some(Value(d))
  {
    hide Value;
    RunOf(d, rest);
    assert (d + rest)[..|d|] == d;
  }

  lemma {:induction false} RunOf(d: string, rest: string)
    requires !IsDigit(CharAt(rest, 0)) && forall i :: 0 <= i < |d| ==> IsDigit(d[i])
    ensures DigitRun(d + rest) == |d|
  {
    if d == "" {
      assert d + rest == rest;
    } else {
      RunOf(d[1..], rest);
      assert (d + rest)[1..] == d[1..] + rest && (d + rest)[0] == d[0];
    }
  }

  lemma {:induction false} Skips(spaces: string, s: string)
    requires AllSpaces(spaces) && !IsSpace(CharAt(s, 0))
    ensures SkipSpaces(spaces + s) == s
  {
    hide IsSpace;
    if spaces == "" {
      assert spaces + s == s;
    } else {
      Skips(spaces[1..], s);
      assert (spaces + s)[1..] == spaces[1..] + s && (spaces + s)[0] == spaces[0];
    }
  }
}
