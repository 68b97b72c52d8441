/** The base64 encoder of sendmail/forwarder.c and the decoder of
    smtpd/parse.c, on bytes. */
module Base64 {
  type Byte = x: int | 0 <= x < 256
  type Sextet = x: int | 0 <= x < 64

  const PAD: Byte := 61
  const CR: Byte := 13
  const LF: Byte := 10

  // ----- the two tables -----

  /** The letter of a value. */
  function Letter(x: Sextet): (c: Byte)
    ensures c < 123 && c != PAD && c > LF && c != CR
  {
    if x < 26 then 65 + x
    else if x < 52 then 97 + (x - 26)
    else if x < 62 then 48 + (x - 52)
    else if x == 62 then 43
    else 47
  }

  /** The value in the decoder's table, which has 123 entries, 0 where nothing is said. */
  function Entry(c: Byte): Sextet {
    if 65 <= c < 91 then c - 65
    else if 97 <= c < 123 then c - 97 + 26
    else if 48 <= c < 58 then c - 48 + 52
    else if c == 43 then 62
    else if c == 47 then 63
    else 0
  }

  lemma TablesAgree(x: Sextet)
    ensures Entry(Letter(x)) == x
    ensures x == 0 <==> Letter(x) == 65
  {
  }

  /** The alphabet of section 6.8 of RFC 2045. */
  lemma Alphabet()
    ensures seq(26, i requires 0 <= i < 26 => Letter(i) as char) == "ABCDEFGHIJKLMNOPQRSTUVWXYZ"
    ensures seq(26, i requires 0 <= i < 26 => Letter(26 + i) as char) == "abcdefghijklmnopqrstuvwxyz"
    ensures seq(10, i requires 0 <= i < 10 => Letter(52 + i) as char) == "0123456789"
    ensures Letter(62) as char == '+' && Letter(63) as char == '/'
  {
  }

  /** A byte has a value if and only if it is a letter. */
  lemma LettersOnly(c: Byte)
    ensures Entry(c) != 0 || c == 65 <==> Letter(Entry(c)) == c
    ensures (exists x: Sextet :: Letter(x) == c) <==> Letter(Entry(c)) == c
  {
    if x: Sextet :| Letter(x) == c { TablesAgree(x); }
  }

  // ----- encoder -----

  /** The four characters for a group of one to three bytes; the missing ones are read as 0. */
  function Group(b: seq<Byte>): (g: seq<Byte>)
    requires 1 <= |b| <= 3
    ensures |g| == 4
  {
    var b1: Byte := if |b| > 1 then b[1] else 0;
    var b2: Byte := if |b| > 2 then b[2] else 0;
    [Letter(b[0] / 4),
     Letter((b[0] % 4) * 16 + b1 / 16),
     if |b| > 1 then Letter((b1 % 16) * 4 + b2 / 64) else PAD,
     if |b| == 3 then Letter(b2 % 64) else PAD]
  }

  /** "f", "fo" and "foo": the bits of missing bytes are 0. */
  lemma ShortGroups()
    ensures Group([102]) == [90, 103, PAD, PAD] && Group([102, 111]) == [90, 109, 56, PAD] && Group([102, 111, 111]) == [90, 109, 57, 118]
  {
  }

  function First(b: seq<Byte>): seq<Byte> { if |b| < 3 then b else b[..3] }

  function Rest(b: seq<Byte>): (r: seq<Byte>)
    ensures b != [] ==> |r| < |b|
  { if |b| < 3 then [] else b[3..] }

  /** What is written for the bytes still to read, with the width counter at `width`. */
  function Encoded(b: seq<Byte>, width: nat): seq<Byte>
    decreases |b|
  {
    if b == [] then []
    else if width + 4 >= 76 then [CR, LF] + Group(First(b)) + Encoded(Rest(b), 0)
    else Group(First(b)) + Encoded(Rest(b), width + 4)
  }

  lemma EncodedStep(b: seq<Byte>, width: nat)
    ensures Encoded([], width) == []
    ensures b != [] ==> 1 <= |First(b)| <= 3
    ensures b != [] && width + 4 >= 76 ==> Encoded(b, width) == [CR, LF] + Group(First(b)) + Encoded(Rest(b), 0)
    ensures b != [] && width + 4 < 76 ==> Encoded(b, width) == Group(First(b)) + Encoded(Rest(b), width + 4)
  {
    hide Group;
  }

  /** The read and encode loop: a short read ends it. */
  method SendFile(file: seq<Byte>) returns (out: seq<Byte>)
    ensures out == Encoded(file, 0)
  {
    hide Group, First, Encoded;
    out := [];
    var width, left := 0, file;
    while left != []
      invariant Encoded(file, 0) == out + Encoded(left, width)
      decreases |left|
    {
      var inbuf := First(left);
      EncodedStep(left, width);
      width := width + 4;
      if width >= 76 {
        out := out + [CR, LF];
        width := 0;
      }
      out := out + Group(inbuf);
      left := Rest(left);
    }
    EncodedStep(left, width);
  }

  // ----- lines -----

  /** No line is longer than 76, `col` characters being on the first already. */
  predicate LinesFit(s: seq<Byte>, col: nat) {
    if s == [] then true
    else if |s| > 1 && s[0] == CR && s[1] == LF then LinesFit(s[2..], 0)
    else col < 76 && LinesFit(s[1..], col + 1)
  }

  lemma GroupFits(b: seq<Byte>, s: seq<Byte>, col: nat)
    requires 1 <= |b| <= 3 && col <= 72
    ensures LinesFit(Group(b) + s, col) <==> LinesFit(s, col + 4)
  {
    var g := Group(b);
    assert forall i :: 0 <= i < 4 ==> g[i] != CR;
    hide Group, Letter;
    assert (g + s)[1..] == g[1..] + s;
    assert (g[1..] + s)[1..] == g[2..] + s;
    assert (g[2..] + s)[1..] == g[3..] + s;
    assert (g[3..] + s)[1..] == s;
    assert LinesFit(g[3..] + s, col + 3) <==> LinesFit(s, col + 4);
    assert LinesFit(g[2..] + s, col + 2) <==> LinesFit(g[3..] + s, col + 3);
    assert LinesFit(g[1..] + s, col + 1) <==> LinesFit(g[2..] + s, col + 2);
  }

  /** The counter is up to one group behind the column. */
  lemma {:induction false} EncodedFits(b: seq<Byte>, width: nat, col: nat)
    requires width % 4 == 0 && width < 76 && col <= width + 4
    ensures LinesFit(Encoded(b, width), col)
    decreases |b|
  {
    if b != [] {
      hide LinesFit, Group;
      if width + 4 >= 76 {
        EncodedFits(Rest(b), 0, 4);
        GroupFits(First(b), Encoded(Rest(b), 0), 0);
        LineBreak(Group(First(b)) + Encoded(Rest(b), 0), col);
        assert [CR, LF] + Group(First(b)) + Encoded(Rest(b), 0) == [CR, LF] + (Group(First(b)) + Encoded(Rest(b), 0));
      } else {
        EncodedFits(Rest(b), width + 4, col + 4);
        GroupFits(First(b), Encoded(Rest(b), width + 4), col);
      }
    } else {
      assert LinesFit([], col);
    }
  }

  lemma LineBreak(s: seq<Byte>, col: nat)
    ensures LinesFit([CR, LF] + s, col) <==> LinesFit(s, 0)
  {
    assert ([CR, LF] + s)[2..] == s;
  }

  // ----- decoder -----

  datatype Decoder = Decoder(vals: seq<Sextet>, pads: nat, out: seq<Byte>, failed: bool)

  /** A character the decoder passes over. */
  predicate Ignored(c: Byte) { c != PAD && Entry(c) == 0 && c != 65 }

  /** The bytes of a full group, each cut to 8 bits; a padding takes one away. */
  function Output(vals: seq<Sextet>, pads: nat): seq<Byte>
    requires pads <= 2 && |vals| + pads == 4
  {
    var v: seq<int> := vals;
    var first: Byte := v[0] * 4 + v[1] / 16;
    if pads == 2 then [first]
    else
      var second: Byte := (v[1] % 16) * 16 + v[2] / 4;
      if pads == 1 then [first, second]
      else
        var third: Byte := (v[2] % 4) * 64 + v[3];
        [first, second, third]
  }

  predicate Between(d: Decoder) { d.pads <= 2 && |d.vals| + d.pads < 4 }

  /** One turn of the loop. */
  function Fed(d: Decoder, c: Byte): (r: Decoder)
    requires Between(d) && !d.failed
    ensures !r.failed ==> Between(r)
  {
    if c == PAD && d.pads == 2 then d.(failed := true)
    else if c != PAD && !Ignored(c) && d.pads > 0 then d.(failed := true)
    else
      var vals := if c == PAD || Ignored(c) then d.vals else d.vals + [Entry(c)];
      var pads := if c == PAD then d.pads + 1 else d.pads;
      if |vals| + pads < 4 then Decoder(vals, pads, d.out, false)
      else Decoder([], pads, d.out + Output(vals, pads), false)
  }

  function Decoded(d: Decoder, s: seq<Byte>): Decoder
    requires !d.failed ==> Between(d)
    decreases |s|
  {
    if d.failed || s == [] then d else Decoded(Fed(d, s[0]), s[1..])
  }

  const START: Decoder := Decoder([], 0, [], false)

  method DecodeBase64(msg: seq<Byte>) returns (out: seq<Byte>, failed: bool)
    ensures var d := Decoded(START, msg); out == d.out && failed == d.failed
  {
    var vals: seq<Sextet>, pads: nat := [], 0;
    out := [];
    for i := 0 to |msg|
      invariant pads <= 2 && |vals| + pads < 4
      invariant Decoded(START, msg) == Decoded(Decoder(vals, pads, out, false), msg[i..])
    {
      assert msg[i..][1..] == msg[i + 1..];
      ghost var d := Decoder(vals, pads, out, false);
      var c := msg[i];
      if c == PAD {
        if pads == 2 {
          assert Fed(d, c).failed;
          return out, true;
        }
        pads := pads + 1;
      } else if c > 123 {
      } else {
        var val := Entry(c);
        if val != 0 || c == 65 {
          if pads > 0 {
            assert Fed(d, c).failed;
            return out, true;
          }
          vals := vals + [val];
        }
      }
      if |vals| + pads >= 4 {
        out := out + Output(vals, pads);
        vals := [];
      }
      assert Fed(d, c) == Decoder(vals, pads, out, false);
    }
    failed := false;
  }

  // ----- round trip -----

  lemma Passed(d: Decoder, c: Byte, s: seq<Byte>)
    requires !d.failed && Between(d) && Ignored(c)
    ensures Decoded(d, [c] + s) == Decoded(d, s)
  {
    assert ([c] + s)[1..] == s;
  }

  /** A letter adds its value; the fourth in a row completes a group. */
  lemma Fills(d: Decoder, x: Sextet, s: seq<Byte>)
    requires !d.failed && Between(d) && d.pads == 0
    ensures var vals := d.vals + [x];
      Decoded(d, [Letter(x)] + s) == Decoded(if |vals| < 4 then d.(vals := vals) else Decoder([], 0, d.out + Output(vals, 0), false), s)
  {
    TablesAgree(x);
    assert ([Letter(x)] + s)[1..] == s;
    assert Fed(d, Letter(x)).out == if |d.vals| < 3 then d.out else d.out + Output(d.vals + [x], 0);
  }

  lemma FillsTwo(out: seq<Byte>, w: Sextet, x: Sextet, s: seq<Byte>)
    ensures Decoded(Decoder([], 0, out, false), [Letter(w), Letter(x)] + s) == Decoded(Decoder([w, x], 0, out, false), s)
  {
    hide Letter, Decoded;
    Fills(Decoder([], 0, out, false), w, [Letter(x)] + s);
    Fills(Decoder([w], 0, out, false), x, s);
    assert [Letter(w), Letter(x)] + s == [Letter(w)] + ([Letter(x)] + s);
    assert [w] + [x] == [w, x] && [] + [w] == [w];
  }

  lemma FillsFour(out: seq<Byte>, w: Sextet, x: Sextet, y: Sextet, z: Sextet, s: seq<Byte>)
    ensures Decoded(Decoder([], 0, out, false), [Letter(w), Letter(x), Letter(y), Letter(z)] + s)
      == Decoded(Decoder([], 0, out + Output([w, x, y, z], 0), false), s)
  {
    hide Letter, Decoded, Output;
    FillsTwo(out, w, x, [Letter(y), Letter(z)] + s);
    Fills(Decoder([w, x], 0, out, false), y, [Letter(z)] + s);
    Fills(Decoder([w, x, y], 0, out, false), z, s);
    assert [Letter(w), Letter(x), Letter(y), Letter(z)] + s == [Letter(w), Letter(x)] + ([Letter(y), Letter(z)] + s);
    assert [Letter(y), Letter(z)] + s == [Letter(y)] + ([Letter(z)] + s);
    assert [w, x] + [y] == [w, x, y] && [w, x, y] + [z] == [w, x, y, z];
  }

  /** Four values of 6 bits make the three bytes they were cut from. */
  lemma Regrouped(b0: Byte, b1: Byte, b2: Byte)
    ensures var w: Sextet, x: Sextet, y: Sextet, z: Sextet := b0 / 4, (b0 % 4) * 16 + b1 / 16, (b1 % 16) * 4 + b2 / 64, b2 % 64;
      Output([w, x, y, z], 0) == [b0, b1, b2] && Group([b0, b1, b2]) == [Letter(w), Letter(x), Letter(y), Letter(z)]
  {
    hide Letter;
    Cuts(b0, b1);
    CutsNext(b1, b2);
  }

  lemma Cuts(b0: Byte, b1: Byte)
    ensures var x := (b0 % 4) * 16 + b1 / 16; 0 <= x < 64 && x / 16 == b0 % 4 && x % 16 == b1 / 16
  {
  }

  lemma CutsNext(b1: Byte, b2: Byte)
    ensures var y := (b1 % 16) * 4 + b2 / 64; 0 <= y < 64 && y / 4 == b1 % 16 && y % 4 == b2 / 64
  {
  }

  /** Three bytes go through four letters and come out. */
  lemma WholeGroup(out: seq<Byte>, b: seq<Byte>, s: seq<Byte>)
    requires |b| == 3
    ensures Decoded(Decoder([], 0, out, false), Group(b) + s) == Decoded(Decoder([], 0, out + b, false), s)
  {
    hide Letter, Decoded, Output;
    var w: Sextet, x: Sextet, y: Sextet, z: Sextet := b[0] / 4, (b[0] % 4) * 16 + b[1] / 16, (b[1] % 16) * 4 + b[2] / 64, b[2] % 64;
    FillsFour(out, w, x, y, z, s);
    Regrouped(b[0], b[1], b[2]);
    assert b == [b[0], b[1], b[2]];
  }

  /** One or two bytes, the rest padding. */
  lemma LastGroup(out: seq<Byte>, b: seq<Byte>)
    requires 1 <= |b| <= 2
    ensures Decoded(Decoder([], 0, out, false), Group(b)) == Decoder([], 3 - |b|, out + b, false)
  {
    if |b| == 1 { OneByte(out, b[0]); assert b == [b[0]]; }
    else { TwoBytes(out, b[0], b[1]); assert b == [b[0], b[1]]; }
  }

  lemma OneByte(out: seq<Byte>, b0: Byte)
    ensures Decoded(Decoder([], 0, out, false), Group([b0])) == Decoder([], 2, out + [b0], false)
  {
    hide Letter, Entry;
    var w: Sextet, x: Sextet := b0 / 4, (b0 % 4) * 16;
    var d := Decoder([w, x], 0, out, false);
    FillsTwo(out, w, x, [PAD, PAD]);
    assert Group([b0]) == [Letter(w), Letter(x)] + [PAD, PAD];
    Padding(d);
    assert Output([w, x], 2) == [b0];
  }

  /** Two paddings after two values. */
  lemma Padding(d: Decoder)
    requires !d.failed && d.pads == 0 && |d.vals| == 2
    ensures Decoded(d, [PAD, PAD]) == Decoder([], 2, d.out + Output(d.vals, 2), false)
  {
    hide Output, Entry;
    assert [PAD, PAD][1..] == [PAD] && [PAD][1..] == [];
    var e := Fed(d, PAD);
    assert e == d.(pads := 1);
    assert Decoded(e, [PAD]) == Decoded(Fed(e, PAD), []);
  }

  lemma TwoBytes(out: seq<Byte>, b0: Byte, b1: Byte)
    ensures Decoded(Decoder([], 0, out, false), Group([b0, b1])) == Decoder([], 1, out + [b0, b1], false)
  {
    hide Letter, Entry;
    var w: Sextet, x: Sextet, y: Sextet := b0 / 4, (b0 % 4) * 16 + b1 / 16, (b1 % 16) * 4;
    FillsTwo(out, w, x, [Letter(y), PAD]);
    assert Group([b0, b1]) == [Letter(w), Letter(x)] + [Letter(y), PAD];
    Fills(Decoder([w, x], 0, out, false), y, [PAD]);
    assert [Letter(y)] + [PAD] == [Letter(y), PAD] && [w, x] + [y] == [w, x, y];
    var d := Decoder([w, x, y], 0, out, false);
    assert Output([w, x, y], 1) == [b0, b1] by {
      Cuts(b0, b1);
      CutsNext(b1, 0);
    }
    assert Fed(d, PAD) == Decoder([], 1, out + [b0, b1], false);
    assert Decoded(d, [PAD]) == Decoded(Fed(d, PAD), []) by { assert [PAD][1..] == []; }
  }

  lemma Unbroken(d: Decoder, s: seq<Byte>)
    requires !d.failed && Between(d)
    ensures Decoded(d, [CR, LF] + s) == Decoded(d, s)
  {
    Passed(d, CR, [LF] + s);
    Passed(d, LF, s);
    assert [CR, LF] + s == [CR] + ([LF] + s);
  }

  /** Whatever was out already, and wherever the lines are broken. */
  lemma {:induction false} DecodesRest(out: seq<Byte>, b: seq<Byte>, width: nat)
    ensures var d := Decoded(Decoder([], 0, out, false), Encoded(b, width));
      !d.failed && d.out == out + b && d.vals == []
    decreases |b|
  {
    if b != [] {
      hide Decoded, Group, Letter;
      var first, rest := First(b), Rest(b);
      var next := if width + 4 >= 76 then 0 else width + 4;
      var body := Group(first) + Encoded(rest, next);
      assert Encoded(b, width) == if width + 4 >= 76 then [CR, LF] + body else body by {
        assert [CR, LF] + Group(first) + Encoded(rest, 0) == [CR, LF] + (Group(first) + Encoded(rest, 0));
      }
      var d := Decoder([], 0, out, false);
      Unbroken(d, body);
      if |b| < 3 {
        LastGroup(out, b);
        assert body == Group(b);
      } else {
        WholeGroup(out, first, Encoded(rest, next));
        DecodesRest(out + first, rest, next);
        assert out + first + rest == out + b by { assert first + rest == b; }
      }
    } else {
      assert out + b == out;
    }
  }

  /** The characters that count. */
  function Counted(s: seq<Byte>): seq<Byte> {
    if s == [] then [] else (if Ignored(s[0]) then [] else [s[0]]) + Counted(s[1..])
  }

  /** Line breaks and other noise may stand anywhere. */
  lemma {:induction false} NoiseIgnored(d: Decoder, s: seq<Byte>)
    requires !d.failed ==> Between(d)
    ensures Decoded(d, s) == Decoded(d, Counted(s))
    decreases |s|
  {
    if s != [] && !d.failed {
      if Ignored(s[0]) {
        Passed(d, s[0], s[1..]);
        assert [s[0]] + s[1..] == s;
        assert Counted(s) == Counted(s[1..]) by { assert [] + Counted(s[1..]) == Counted(s[1..]); }
        NoiseIgnored(d, s[1..]);
      } else {
        NoiseIgnored(Fed(d, s[0]), s[1..]);
        assert Counted(s)[1..] == Counted(s[1..]);
      }
    }
  }

  /** The paddings stand from `k` on, at most two of them. */
  predicate PaddedFrom(s: seq<Byte>, k: int) {
    0 <= k <= |s| && |s| - k <= 2 && forall i :: 0 <= i < |s| ==> (s[i] == PAD <==> i >= k)
  }

  lemma {:induction false} AcceptsFrom(d: Decoder, s: seq<Byte>)
    requires !d.failed && Between(d) && forall i :: 0 <= i < |s| ==> !Ignored(s[i])
    ensures d.pads > 0 ==> (!Decoded(d, s).failed <==> d.pads + |s| <= 2 && PaddedFrom(s, 0))
    ensures d.pads == 0 ==> (!Decoded(d, s).failed <==> exists k :: PaddedFrom(s, k))
    decreases |s|
  {
    if s == [] {
      assert PaddedFrom(s, 0);
    } else {
      var e := Fed(d, s[0]);
      hide Output, Ignored;
      assert forall i :: 0 <= i < |s| - 1 ==> s[1..][i] == s[i + 1];
      if !e.failed {
        AcceptsFrom(e, s[1..]);
      }
      assert forall i :: 1 <= i < |s| ==> s[i] == s[1..][i - 1];
      forall k ensures k > 0 && s[0] != PAD ==> (PaddedFrom(s, k) <==> PaddedFrom(s[1..], k - 1)) {}
      assert s[0] != PAD ==> !PaddedFrom(s, 0);
      assert s[0] == PAD ==> (PaddedFrom(s, 0) <==> PaddedFrom(s[1..], 0) && |s| <= 2);
      assert s[0] == PAD ==> forall k :: PaddedFrom(s, k) ==> k == 0;
      if s[0] != PAD && exists k :: PaddedFrom(s[1..], k) {
        var k :| PaddedFrom(s[1..], k);
        assert PaddedFrom(s, k + 1);
      }
    }
  }

  /** A text is accepted if and only if its paddings, two at most, come last. */
  lemma Accepts(s: seq<Byte>)
    ensures !Decoded(START, s).failed <==> exists k :: PaddedFrom(Counted(s), k)
  {
    NoiseIgnored(START, s);
    CountedCounts(s);
    AcceptsFrom(START, Counted(s));
  }

  lemma {:induction false} CountedCounts(s: seq<Byte>)
    ensures forall i :: 0 <= i < |Counted(s)| ==> !Ignored(Counted(s)[i])
  {
    if s != [] { CountedCounts(s[1..]); }
  }

  /** Decoding what the encoder wrote gives the file back, for every file. */
  lemma RoundTrip(file: seq<Byte>)
    ensures var d := Decoded(START, Encoded(file, 0)); !d.failed && d.out == file && d.vals == []
    ensures LinesFit(Encoded(file, 0), 0)
  {
    DecodesRest([], file, 0);
    EncodedFits(file, 0, 0);
  }
}
