/** The application/x-www-form-urlencoded parser of the WHATWG URL Standard
    (section 5.1), the `URLSearchParams` accessors the verifier uses, and the
    `encodeURIComponent` escaping of ECMAScript (section 19.2.6.5) that the
    redirect page uses to build a query string. */
module FormUrlEncoded {
  import opened Base
  import Hex

  const Amp: byte := 0x26
  const Eq: byte := 0x3D
  const Plus: byte := 0x2B
  const Space: byte := 0x20
  const Percent: byte := 0x25
  const Question: byte := 0x3F
  const NumberSign: byte := 0x23

  /** One name/value pair of a parsed query, in input order. */
  datatype Entry = Entry(name: Text, value: Text)

  // ---------------------------------------------------------------------
  // Splitting on a separator

  /** The inverse of `Split`: pieces glued back with the separator between them. */
  function Join(pieces: seq<Text>, sep: byte): Text
    requires |pieces| >= 1
  {
    if |pieces| == 1 then pieces[0] else pieces[0] + [sep] + Join(pieces[1..], sep)
  }

  /** Strictly splits on every occurrence of `sep`: `n` separators give `n + 1`
      pieces, empty ones included. */
  function Split(s: Text, sep: byte): (pieces: seq<Text>)
    ensures |pieces| >= 1
    ensures forall i :: 0 <= i < |pieces| ==> sep !in pieces[i]
    ensures Join(pieces, sep) == s
  {
    if s == [] then [[]]
    else
      var rest := Split(s[1..], sep);
      if s[0] == sep then
        assert s == [sep] + s[1..];
        [[]] + rest
      else
        var r := [[s[0]] + rest[0]] + rest[1..];
        assert s == [s[0]] + s[1..];
        assert |rest| > 1 ==> Join(rest, sep) == rest[0] + [sep] + Join(rest[1..], sep);
        assert |r| > 1 ==> r[1..] == rest[1..];
        r
  }

  lemma {:induction false} SplitNoSeparator(p: Text, sep: byte)
    requires sep !in p
    ensures Split(p, sep) == [p]
  {
    if p != [] {
      SplitNoSeparator(p[1..], sep);
      assert p == [p[0]] + p[1..];
    }
  }

  lemma {:induction false} SplitAfterPiece(p: Text, sep: byte, r: Text)
    requires sep !in p
    ensures Split(p + [sep] + r, sep) == [p] + Split(r, sep)
  {
    if p == [] {
      assert ([] + [sep] + r)[1..] == r;
    } else {
      assert (p + [sep] + r)[1..] == p[1..] + [sep] + r;
      SplitAfterPiece(p[1..], sep, r);
      assert p == [p[0]] + p[1..];
    }
  }

  /** Splitting undoes joining when no piece holds the separator. */
  lemma {:induction false} SplitJoin(pieces: seq<Text>, sep: byte)
    requires |pieces| >= 1
    requires forall i :: 0 <= i < |pieces| ==> sep !in pieces[i]
    ensures Split(Join(pieces, sep), sep) == pieces
  {
    if |pieces| == 1 {
      SplitNoSeparator(pieces[0], sep);
    } else {
      SplitAfterPiece(pieces[0], sep, Join(pieces[1..], sep));
      SplitJoin(pieces[1..], sep);
      assert pieces == [pieces[0]] + pieces[1..];
    }
  }

  /** The first position of `b` in `s`. */
  function IndexOf(s: Text, b: byte): (r: Option<nat>)
    ensures r.None? <==> b !in s
    ensures r.Some? ==> r.value < |s| && s[r.value] == b && b !in s[..r.value]
  {
    if s == [] then None
    else if s[0] == b then Some(0)
    else match IndexOf(s[1..], b)
      case None => None
      case Some(i) =>
        assert s[..i + 1] == [s[0]] + s[1..][..i];
        Some(i + 1)
  }

  lemma IndexOfAfterPiece(p: Text, b: byte, q: Text)
    requires b !in p
    ensures IndexOf(p + [b] + q, b) == Some(|p|)
  {
    var s := p + [b] + q;
    assert s[|p|] == b;
    assert forall k :: 0 <= k < |p| ==> s[k] == p[k];
  }

  // ---------------------------------------------------------------------
  // Percent-decoding and percent-encoding

  /** Step 3.4 of the parser: every `+` becomes a space. */
  function ReplacePlus(s: Text): (r: Text)
    ensures |r| == |s|
    ensures Plus !in r
    ensures forall i :: 0 <= i < |s| ==> r[i] == (if s[i] == Plus then Space else s[i])
  {
    if s == [] then [] else [if s[0] == Plus then Space else s[0]] + ReplacePlus(s[1..])
  }

  /** Percent-decoding of the URL Standard (section 1.3): `%` followed by two hex
      digits becomes the byte they spell; any other `%` stays as it is. */
  function PercentDecode(s: Text): (r: Text)
    ensures |r| <= |s|
  {
    if s == [] then []
    else if s[0] == Percent && |s| >= 3 && Hex.IsHexDigit(s[1]) && Hex.IsHexDigit(s[2]) then
      [16 * Hex.DigitValue(s[1]) + Hex.DigitValue(s[2])] + PercentDecode(s[3..])
    else [s[0]] + PercentDecode(s[1..])
  }

  /** A name or value as the parser outputs it. */
  function DecodeComponent(s: Text): Text {
    PercentDecode(ReplacePlus(s))
  }

  /** The bytes `encodeURIComponent` leaves alone:
      `A-Z a-z 0-9 - _ . ! ~ * ' ( )`. */
  predicate IsUnreserved(b: byte) {
    (0x41 <= b <= 0x5A) || (0x61 <= b <= 0x7A) || (0x30 <= b <= 0x39)
    || b == 0x2D || b == 0x5F || b == 0x2E || b == 0x21 || b == 0x7E
    || b == 0x2A || b == 0x27 || b == 0x28 || b == 0x29
  }

  /** The bytes that can appear in the output of `encodeURIComponent`. */
  predicate IsEncodedByte(b: byte) {
    IsUnreserved(b) || b == Percent || Hex.IsHexDigit(b)
  }

  function EncodeByte(b: byte): (r: Text)
    ensures forall i :: 0 <= i < |r| ==> IsEncodedByte(r[i])
  {
    if IsUnreserved(b) then [b] else [Percent, Hex.UpperDigit(b / 16), Hex.UpperDigit(b % 16)]
  }

  /** `encodeURIComponent` on the UTF-8 bytes of a string: unreserved bytes are
      copied, every other byte becomes `%XY` with uppercase hex digits. */
  function EncodeUriComponent(s: Text): (r: Text)
    ensures |s| <= |r| <= 3 * |s|
    ensures forall i :: 0 <= i < |r| ==> IsEncodedByte(r[i])
  {
    if s == [] then []
    else
      var r := EncodeByte(s[0]) + EncodeUriComponent(s[1..]);
      assert forall i :: 0 <= i < |r| ==>
        r[i] == (if i < |EncodeByte(s[0])| then EncodeByte(s[0])[i]
                 else EncodeUriComponent(s[1..])[i - |EncodeByte(s[0])|]);
      r
  }

  /** Percent-decoding undoes `encodeURIComponent`. */
  lemma {:induction false} DecodeEncode(s: Text)
    ensures PercentDecode(EncodeUriComponent(s)) == s
  {
    if s != [] {
      var head := EncodeByte(s[0]);
      var tail := EncodeUriComponent(s[1..]);
      assert EncodeUriComponent(s) == head + tail;
      DecodeEncode(s[1..]);
      if IsUnreserved(s[0]) {
        assert (head + tail)[1..] == tail;
      } else {
        Hex.DigitRoundTrip(s[0] / 16);
        Hex.DigitRoundTrip(s[0] % 16);
        assert (head + tail)[3..] == tail;
      }
      assert s == [s[0]] + s[1..];
    }
  }

  lemma ReplacePlusIdentity(s: Text)
    requires Plus !in s
    ensures ReplacePlus(s) == s
  {
  }

  /** Reading back a component written by `encodeURIComponent` restores it. */
  lemma DecodeComponentEncode(s: Text)
    ensures DecodeComponent(EncodeUriComponent(s)) == s
  {
    var e := EncodeUriComponent(s);
    ReplacePlusIdentity(e);
    DecodeEncode(s);
  }

  // ---------------------------------------------------------------------
  // The parser

  /** Steps 3.2 to 3.5 for one non-empty byte sequence: the name runs up to the
      first `=`, the value is the rest (empty when there is no `=`). */
  function ParsePair(bytes: Text): (e: Entry)
  {
    match IndexOf(bytes, Eq)
    case Some(i) => Entry(DecodeComponent(bytes[..i]), DecodeComponent(bytes[i + 1..]))
    case None => Entry(DecodeComponent(bytes), [])
  }

  /** Step 3: empty sequences are skipped, the others parsed in order. */
  function ParseSequences(pieces: seq<Text>): (entries: seq<Entry>)
    ensures |entries| <= |pieces|
  {
    if pieces == [] then []
    else if pieces[0] == [] then ParseSequences(pieces[1..])
    else [ParsePair(pieces[0])] + ParseSequences(pieces[1..])
  }

  /** application/x-www-form-urlencoded parsing of a byte string. */
  function Parse(input: Text): seq<Entry> {
    ParseSequences(Split(input, Amp))
  }

  /** `new URLSearchParams(init)` for a string `init`: one leading `?` is
      dropped, then the rest is parsed. */
  function SearchParams(init: Text): seq<Entry> {
    if |init| > 0 && init[0] == Question then Parse(init[1..]) else Parse(init)
  }

  // ---------------------------------------------------------------------
  // URLSearchParams accessors

  /** The entries carrying `name`, in order. */
  function OnlyName(s: seq<Entry>, name: Text): (r: seq<Entry>)
    ensures forall i :: 0 <= i < |r| ==> r[i].name == name
  {
    if s == [] then []
    else (if s[0].name == name then [s[0]] else []) + OnlyName(s[1..], name)
  }

  lemma {:induction false} OnlyNameAppend(a: seq<Entry>, b: seq<Entry>, name: Text)
    ensures OnlyName(a + b, name) == OnlyName(a, name) + OnlyName(b, name)
  {
    if a != [] {
      assert (a + b)[1..] == a[1..] + b;
      OnlyNameAppend(a[1..], b, name);
    } else {
      assert a + b == b;
    }
  }

  lemma OnlyNameSingle(e: Entry, name: Text)
    ensures OnlyName([e], name) == if e.name == name then [e] else []
  {
    assert [e][1..] == [];
  }

  /** `get` reads the first entry of the name's entries. */
  lemma {:induction false} GetOnlyName(entries: seq<Entry>, name: Text)
    ensures Get(entries, name)
         == if OnlyName(entries, name) == [] then None else Some(OnlyName(entries, name)[0].value)
  {
    if entries != [] {
      GetOnlyName(entries[1..], name);
    }
  }

  /** `URLSearchParams.get`: the value of the FIRST entry with the name. */
  function Get(entries: seq<Entry>, name: Text): (r: Option<Text>)
    ensures r.None? <==> forall i :: 0 <= i < |entries| ==> entries[i].name != name
    ensures r.Some? ==> exists i :: 0 <= i < |entries| && entries[i] == Entry(name, r.value)
                                  && forall j :: 0 <= j < i ==> entries[j].name != name
  {
    if entries == [] then None
    else if entries[0].name == name then Some(entries[0].value)
    else
      var r := Get(entries[1..], name);
      assert r.Some? ==> exists i :: 0 <= i < |entries| && entries[i] == Entry(name, r.value)
                                    && forall j :: 0 <= j < i ==> entries[j].name != name
      by {
        if r.Some? {
          var k :| 0 <= k < |entries[1..]| && entries[1..][k] == Entry(name, r.value)
                   && forall j :: 0 <= j < k ==> entries[1..][j].name != name;
          assert entries[k + 1] == Entry(name, r.value);
        }
      }
      r
  }

  /** `URLSearchParams.delete`: EVERY entry with the name goes, the others keep
      their order and multiplicity. */
  function Delete(entries: seq<Entry>, name: Text): (r: seq<Entry>)
    ensures forall i :: 0 <= i < |r| ==> r[i].name != name
    ensures forall e :: multiset(r)[e] == if e.name == name then 0 else multiset(entries)[e]
    ensures forall m :: m != name ==> OnlyName(r, m) == OnlyName(entries, m)
  {
    if entries == [] then []
    else
      var head := if entries[0].name == name then [] else [entries[0]];
      var tail := Delete(entries[1..], name);
      assert entries == [entries[0]] + entries[1..];
      DeleteStep(entries, name, head, tail);
      head + tail
  }

  lemma DeleteStep(entries: seq<Entry>, name: Text, head: seq<Entry>, tail: seq<Entry>)
    requires entries != []
    requires head == if entries[0].name == name then [] else [entries[0]]
    requires forall m :: m != name ==> OnlyName(tail, m) == OnlyName(entries[1..], m)
    ensures forall m :: m != name ==> OnlyName(head + tail, m) == OnlyName(entries, m)
  {
    forall m | m != name
      ensures OnlyName(head + tail, m) == OnlyName(entries, m)
    {
      OnlyNameAppend(head, tail, m);
      OnlyNameSingle(entries[0], m);
    }
  }

  lemma DeleteKeepsOthers(entries: seq<Entry>, name: Text, other: Text)
    requires other != name
    ensures Get(Delete(entries, name), other) == Get(entries, other)
  {
    if entries != [] {
      var d, tail := Delete(entries, name), Delete(entries[1..], name);
      DeleteKeepsOthers(entries[1..], name, other);
      if entries[0].name == name {
        assert d == tail;
      } else {
        assert d == [entries[0]] + tail;
        assert d[1..] == tail;
      }
    }
  }

  // ---------------------------------------------------------------------
  // Order independence of `get` when names determine entries

  /** Every two entries with the same name are the same entry: no name carries
      two different values. */
  ghost predicate NamesDetermine(m: multiset<Entry>) {
    forall x, y :: x in m && y in m && x.name == y.name ==> x == y
  }

  lemma GetPermutation(a: seq<Entry>, b: seq<Entry>, name: Text)
    requires multiset(a) == multiset(b)
    requires NamesDetermine(multiset(a))
    ensures Get(a, name) == Get(b, name)
  {
    var ra, rb := Get(a, name), Get(b, name);
    if ra.Some? {
      var i :| 0 <= i < |a| && a[i] == Entry(name, ra.value);
      assert a[i] in multiset(b);
      assert a[i] in b;
      var j :| 0 <= j < |b| && b[j] == Entry(name, rb.value);
      assert b[j] in multiset(a);
    } else {
      forall j | 0 <= j < |b|
        ensures b[j].name != name
      {
        assert b[j] in multiset(a);
        assert b[j] in a;
      }
    }
  }

  // ---------------------------------------------------------------------
  // Building a query string with encodeURIComponent

  /** `name=value` with both halves escaped by `encodeURIComponent`. */
  function EncodePair(e: Entry): Text {
    EncodeUriComponent(e.name) + [Eq] + EncodeUriComponent(e.value)
  }

  function EncodePairs(entries: seq<Entry>): (r: seq<Text>)
    ensures |r| == |entries|
    ensures forall i :: 0 <= i < |r| ==> r[i] == EncodePair(entries[i])
  {
    if entries == [] then [] else [EncodePair(entries[0])] + EncodePairs(entries[1..])
  }

  /** A query string whose names and values are escaped by `encodeURIComponent`
      and whose pairs are joined by `&`. */
  function EncodeQuery(entries: seq<Entry>): Text {
    if entries == [] then [] else Join(EncodePairs(entries), Amp)
  }

  lemma EncodedHasNo(s: Text, b: byte)
    requires b == Amp || b == Eq || b == Plus || b == NumberSign || b == Question
    ensures b !in EncodeUriComponent(s)
  {
    var e := EncodeUriComponent(s);
    forall i | 0 <= i < |e|
      ensures e[i] != b
    {
      assert IsEncodedByte(e[i]);
    }
  }

  lemma ParsePairEncoded(e: Entry)
    ensures EncodePair(e) != []
    ensures ParsePair(EncodePair(e)) == e
  {
    var n, v := EncodeUriComponent(e.name), EncodeUriComponent(e.value);
    EncodedHasNo(e.name, Eq);
    IndexOfAfterPiece(n, Eq, v);
    var p := n + [Eq] + v;
    assert p[..|n|] == n;
    assert p[|n| + 1..] == v;
    DecodeComponentEncode(e.name);
    DecodeComponentEncode(e.value);
  }

  lemma {:induction false} ParseSequencesEncoded(entries: seq<Entry>)
    ensures ParseSequences(EncodePairs(entries)) == entries
  {
    if entries != [] {
      var ps := EncodePairs(entries);
      ParsePairEncoded(entries[0]);
      assert ps[0] == EncodePair(entries[0]);
      assert ps[1..] == EncodePairs(entries[1..]);
      ParseSequencesEncoded(entries[1..]);
      ParseSequencesStep(ps);
      assert entries == [entries[0]] + entries[1..];
    }
  }

  lemma ParseSequencesStep(pieces: seq<Text>)
    requires pieces != [] && pieces[0] != []
    ensures ParseSequences(pieces) == [ParsePair(pieces[0])] + ParseSequences(pieces[1..])
  {
  }

  /** Parsing recovers exactly the entries an `encodeURIComponent`-built query
      string was made from: names, values, order and duplicates. */
  lemma ParseEncodeQuery(entries: seq<Entry>)
    ensures Parse(EncodeQuery(entries)) == entries
  {
    if entries != [] {
      var ps := EncodePairs(entries);
      forall i | 0 <= i < |ps|
        ensures Amp !in ps[i]
      {
        EncodedHasNo(entries[i].name, Amp);
        EncodedHasNo(entries[i].value, Amp);
      }
      SplitJoin(ps, Amp);
      ParseSequencesEncoded(entries);
    }
  }

  /** `new URLSearchParams` recovers an `encodeURIComponent`-built query
      string's entries, with or without a leading `?`. */
  lemma SearchParamsEncodeQuery(entries: seq<Entry>)
    ensures SearchParams(EncodeQuery(entries)) == entries
    ensures SearchParams([Question] + EncodeQuery(entries)) == entries
  {
    var q := EncodeQuery(entries);
    ParseEncodeQuery(entries);
    assert ([Question] + q)[1..] == q;
    if entries != [] {
      var ps := EncodePairs(entries);
      EncodedHasNo(entries[0].name, Question);
      assert ps[0] == EncodeUriComponent(entries[0].name) + [Eq] + EncodeUriComponent(entries[0].value);
      assert q[0] == ps[0][0] by {
        if |ps| > 1 {
          assert q == ps[0] + [Amp] + Join(ps[1..], Amp);
        }
      }
      assert q[0] != Question;
    }
  }
}
