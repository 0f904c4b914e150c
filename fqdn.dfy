/** Domain names in the length-prefixed label format of section 3.1 of
    RFC 1035: every label as one length octet followed by its octets, the
    name closed by the zero-length root label. No compression pointers. */
module Fqdn {
  import opened Wrappers
  import opened Bytes

  /** Longest label a length octet may announce (section 2.3.4 of RFC 1035). */
  const MaxLabelLength: nat := 63

  /** A label length a length octet can announce: 1 to 63. */
  predicate LengthOk(l: string) {
    1 <= |l| <= MaxLabelLength
  }

  /** A label the wire format can carry. */
  predicate Encodable(l: string) {
    LengthOk(l) && IsOctets(l)
  }

  predicate AllEncodable(labels: seq<string>) {
    forall i | 0 <= i < |labels| :: Encodable(labels[i])
  }

  predicate DotFree(s: string) {
    forall i | 0 <= i < |s| :: s[i] != '.'
  }

  /** A label that can also be written in dotted text. */
  predicate ValidLabel(l: string) {
    Encodable(l) && DotFree(l)
  }

  predicate ValidLabels(labels: seq<string>) {
    forall i | 0 <= i < |labels| :: ValidLabel(labels[i])
  }

  // ---------------------------------------------------------------------
  // Text form

  /** The segments between the dots of a text, empty ones included. */
  function Split(s: string): (r: seq<string>)
    ensures |r| >= 1
  {
    if s == [] then [""]
    else
      var rest := Split(s[1..]);
      if s[0] == '.' then [""] + rest else [[s[0]] + rest[0]] + rest[1..]
  }

  /** Every label followed by a dot: `mydomain.example.com.`. */
  function Dotted(labels: seq<string>): (r: string)
    ensures |r| >= |labels|
    ensures labels != [] ==> r[|r| - 1] == '.'
  {
    if labels == [] then [] else labels[0] + "." + Dotted(labels[1..])
  }

  /** The absolute text `readFqdn` returns: the root alone is `.`. */
  function NameText(labels: seq<string>): string {
    if labels == [] then "." else Dotted(labels)
  }

  /** The segments that stand for labels: a final empty segment, left by
      a trailing dot, is dropped. */
  function LabelSegments(segments: seq<string>): seq<string>
    requires |segments| >= 1
  {
    if segments[|segments| - 1] == "" then segments[..|segments| - 1] else segments
  }

  predicate LengthsOk(labels: seq<string>) {
    forall i | 0 <= i < |labels| :: LengthOk(labels[i])
  }

  /** The validation and splitting `writeFqdn` performs on its argument:
      not empty, a trailing dot allowed, every other segment a label of 1
      to 63 octets. */
  function ParseFqdn(name: string): Result<seq<string>>
    requires IsOctets(name)
  {
    if name == "" then Failure(BadDataTypeCast)
    else if LengthsOk(LabelSegments(Split(name))) then Success(LabelSegments(Split(name)))
    else Failure(BadDataTypeCast)
  }

  /** A text ending in a dot stays as it is; otherwise the root's dot is added. */
  function Absolute(name: string): string {
    if name != "" && name[|name| - 1] == '.' then name else name + "."
  }

  // ---------------------------------------------------------------------
  // Wire form

  function EncodeLabels(labels: seq<string>): seq<Byte>
    requires AllEncodable(labels)
  {
    if labels == [] then []
    else [|labels[0]|] + Octets(labels[0]) + EncodeLabels(labels[1..])
  }

  /** The labels, each behind its length octet, then the root's zero octet. */
  function EncodeName(labels: seq<string>): seq<Byte>
    requires AllEncodable(labels)
  {
    EncodeLabels(labels) + [0]
  }

  /** A name read from `buf`: its labels and the offset just past its root octet. */
  datatype Decoded = Decoded(labels: seq<string>, end: nat)

  /** Reads one name starting at `pos`: a missing length octet, a length
      above 63 or a label running past the end is BadDataTypeCast. */
  function DecodeFrom(buf: seq<Byte>, pos: nat): Result<Decoded>
    decreases |buf| - pos
  {
    if pos >= |buf| then Failure(BadDataTypeCast)
    else if buf[pos] == 0 then Success(Decoded([], pos + 1))
    else if buf[pos] > MaxLabelLength || pos + 1 + buf[pos] > |buf| then Failure(BadDataTypeCast)
    else
      var first := Chars(buf[pos + 1..pos + 1 + buf[pos]]);
      Prefixed([first], DecodeFrom(buf, pos + 1 + buf[pos]))
  }

  /** `labels` put in front of a decoded name; failures pass through. */
  function Prefixed(labels: seq<string>, r: Result<Decoded>): Result<Decoded> {
    match r
    case Failure(e) => Failure(e)
    case Success(d) => Success(Decoded(labels + d.labels, d.end))
  }

  // ---------------------------------------------------------------------
  // Lemmas: text form

  lemma {:induction false} DottedAppend(a: seq<string>, b: seq<string>)
    ensures Dotted(a + b) == Dotted(a) + Dotted(b)
  {
    if a == [] {
      assert a + b == b;
    } else {
      assert (a + b)[0] == a[0];
      assert (a + b)[1..] == a[1..] + b;
      DottedAppend(a[1..], b);
      calc {
        Dotted(a + b);
        a[0] + "." + Dotted(a[1..] + b);
        a[0] + "." + (Dotted(a[1..]) + Dotted(b));
        (a[0] + "." + Dotted(a[1..])) + Dotted(b);
      }
    }
  }

  lemma DottedSnoc(labels: seq<string>, l: string)
    ensures Dotted(labels + [l]) == Dotted(labels) + (l + ".")
  {
    DottedAppend(labels, [l]);
    assert Dotted([l]) == l + "." + Dotted([]);
    assert l + "." + [] == l + ".";
  }

  lemma {:induction false} SplitCons(l: string, t: string)
    requires DotFree(l)
    ensures Split(l + "." + t) == [l] + Split(t)
  {
    if l == [] {
      assert ("." + t)[1..] == t;
    } else {
      assert (l + "." + t)[1..] == l[1..] + "." + t;
      SplitCons(l[1..], t);
      assert [l[0]] + l[1..] == l;
    }
  }

  /** Splitting the dotted text of dot-free labels gives them back, with
      the empty segment after the final dot. */
  lemma {:induction false} SplitDotted(labels: seq<string>)
    requires forall i | 0 <= i < |labels| :: DotFree(labels[i])
    ensures Split(Dotted(labels)) == labels + [""]
  {
    if labels != [] {
      var rest := Dotted(labels[1..]);
      assert Dotted(labels) == labels[0] + "." + rest;
      SplitCons(labels[0], rest);
      SplitDotted(labels[1..]);
      assert [labels[0]] + (labels[1..] + [""]) == labels + [""];
    }
  }

  /** Joining the segments of a text, each with a dot after it, gives the
      text and one more dot. */
  lemma {:induction false} DottedSplit(s: string)
    ensures Dotted(Split(s)) == s + "."
  {
    if s != [] {
      var rest := Split(s[1..]);
      var segs := Split(s);
      DottedSplit(s[1..]);
      if s[0] == '.' {
        assert segs == [""] + rest;
        assert segs[1..] == rest;
        assert Dotted(segs) == "" + "." + Dotted(rest);
        assert s == "." + s[1..];
      } else {
        assert segs == [[s[0]] + rest[0]] + rest[1..];
        DottedGlue(s[0], rest, s[1..]);
        assert s == [s[0]] + s[1..];
      }
    }
  }

  /** A character glued to the front of the first segment is glued to the
      front of the dotted text. */
  lemma DottedGlue(c: char, rest: seq<string>, t: string)
    requires rest != [] && Dotted(rest) == t + "."
    ensures Dotted([[c] + rest[0]] + rest[1..]) == [c] + t + "."
  {
    var segs := [[c] + rest[0]] + rest[1..];
    assert segs[0] == [c] + rest[0] && segs[1..] == rest[1..];
    GlueFront(c, rest[0], Dotted(rest[1..]), t);
  }

  lemma GlueFront(c: char, x: string, y: string, z: string)
    requires x + "." + y == z + "."
    ensures [c] + x + "." + y == [c] + z + "."
  {
    assert [c] + x + "." + y == [c] + (x + "." + y);
  }

  lemma {:induction false} SplitAppendDot(s: string)
    ensures Split(s + ".") == Split(s) + [""]
  {
    if s == [] {
      assert "."[1..] == [];
    } else {
      assert (s + ".")[1..] == s[1..] + ".";
      SplitAppendDot(s[1..]);
    }
  }

  /** The segments of a text hold no dot, and only octets when the text does. */
  lemma {:induction false} SplitSegments(s: string)
    ensures forall k | 0 <= k < |Split(s)| :: DotFree(Split(s)[k])
    ensures IsOctets(s) ==> forall k | 0 <= k < |Split(s)| :: IsOctets(Split(s)[k])
  {
    if s != [] {
      SplitSegments(s[1..]);
      var rest := Split(s[1..]);
      if s[0] != '.' {
        assert forall k | 0 < k < |Split(s)| :: Split(s)[k] == rest[k];
      }
    }
  }

  /** What `writeFqdn` accepts it splits into one or more valid labels
      whose dotted text is the argument, with or without its final dot. */
  lemma ParseFqdnSound(name: string)
    requires IsOctets(name) && ParseFqdn(name).Success?
    ensures var labels := ParseFqdn(name).value;
      labels != [] && ValidLabels(labels) &&
      Dotted(labels) == Absolute(name)
  {
    var labels := LabelSegments(Split(name));
    assert ParseFqdn(name).value == labels && LengthsOk(labels);
    LabelSegmentsText(name);
    SplitSegments(name);
    forall i | 0 <= i < |labels|
      ensures ValidLabel(labels[i])
    {
      assert labels[i] == Split(name)[i];
    }
  }

  /** The label segments of a non-empty text, each followed by a dot,
      spell its absolute form. */
  lemma LabelSegmentsText(name: string)
    requires name != ""
    ensures Dotted(LabelSegments(Split(name))) == Absolute(name)
    ensures LabelSegments(Split(name)) != []
  {
    var segments := Split(name);
    var n := |segments|;
    var init, last := segments[..n - 1], segments[n - 1];
    SegmentsText(name);
    if last == "" {
      assert Dotted(init) == name;
      TrailingDotText(name, init);
      assert LabelSegments(segments) == init;
    } else {
      LastSegmentDotFree(name);
      LastSegmentEnd(name, Dotted(init), last);
      DottedSplit(name);
      assert LabelSegments(segments) == segments;
    }
  }

  /** A text that is dotted labels with nothing after the last dot is
      already absolute. */
  lemma TrailingDotText(name: string, init: seq<string>)
    requires name != "" && Dotted(init) == name
    ensures init != [] && Dotted(init) == Absolute(name)
  {
  }

  lemma LastSegmentDotFree(name: string)
    ensures DotFree(Split(name)[|Split(name)| - 1])
  {
    SplitSegments(name);
  }

  /** The segments but the last, each followed by a dot, then the last
      segment, spell the text. */
  lemma SegmentsText(name: string)
    ensures var segments := Split(name); var n := |segments|;
      Dotted(segments[..n - 1]) + segments[n - 1] == name
  {
    var segments := Split(name);
    var n := |segments|;
    var init, last := segments[..n - 1], segments[n - 1];
    assert segments == init + [last];
    DottedSplit(name);
    DottedSnoc(init, last);
    assert Dotted(init) + (last + ".") == Dotted(init) + last + ".";
    AppendCancel(Dotted(init) + last, name, ".");
  }

  /** A non-empty last segment is where the text ends, so the text does
      not end in a dot. */
  lemma LastSegmentEnd(name: string, front: string, last: string)
    requires last != "" && DotFree(last) && front + last == name
    ensures name != "" && name[|name| - 1] != '.' && Absolute(name) == name + "."
  {
    assert name[|name| - 1] == last[|last| - 1];
  }

  lemma AppendCancel<T>(a: seq<T>, b: seq<T>, c: seq<T>)
    requires a + c == b + c
    ensures a == b
  {
    assert a == (a + c)[..|a|];
    assert b == (b + c)[..|b|];
  }

  /** Every non-empty sequence of valid labels is accepted in both of its
      spellings, with and without the final dot, and yields those labels. */
  lemma ParseFqdnComplete(labels: seq<string>)
    requires labels != [] && ValidLabels(labels)
    ensures var d := Dotted(labels);
      IsOctets(d) && ParseFqdn(d) == Success(labels) &&
      IsOctets(d[..|d| - 1]) && ParseFqdn(d[..|d| - 1]) == Success(labels)
  {
    DottedOctets(labels);
    SplitDotted(labels);
    assert LengthsOk(labels);
    ParseWithDot(labels);
    ParseWithoutDot(labels);
  }

  lemma ParseWithDot(labels: seq<string>)
    requires labels != [] && LengthsOk(labels)
    requires IsOctets(Dotted(labels)) && Split(Dotted(labels)) == labels + [""]
    ensures ParseFqdn(Dotted(labels)) == Success(labels)
  {
    assert (labels + [""])[..|labels|] == labels;
  }

  lemma ParseWithoutDot(labels: seq<string>)
    requires labels != [] && LengthsOk(labels)
    requires IsOctets(Dotted(labels)) && Split(Dotted(labels)) == labels + [""]
    ensures var d := Dotted(labels);
      IsOctets(d[..|d| - 1]) && ParseFqdn(d[..|d| - 1]) == Success(labels)
  {
    var d := Dotted(labels);
    var s := d[..|d| - 1];
    assert s + "." == d;
    SplitAppendDot(s);
    AppendCancel(Split(s), labels, [""]);
    assert labels[|labels| - 1] != "";
    assert s != "" by {
      assert |d| >= |labels[0]| + 1;
    }
  }

  lemma {:induction false} DottedOctets(labels: seq<string>)
    requires forall i | 0 <= i < |labels| :: IsOctets(labels[i])
    ensures IsOctets(Dotted(labels))
  {
    if labels != [] {
      DottedOctets(labels[1..]);
    }
  }

  /** The dotted text of valid labels starts with a first octet and never
      has two dots in a row. */
  lemma {:induction false} DottedShape(labels: seq<string>)
    requires labels != [] && ValidLabels(labels)
    ensures Dotted(labels)[0] != '.'
    ensures forall i | 0 <= i < |Dotted(labels)| - 1 :: !(Dotted(labels)[i] == '.' && Dotted(labels)[i + 1] == '.')
  {
    var l, d, rest := labels[0], Dotted(labels), Dotted(labels[1..]);
    assert d == l + "." + rest;
    if labels[1..] != [] {
      DottedShape(labels[1..]);
    }
    forall i | 0 <= i < |d| - 1
      ensures !(d[i] == '.' && d[i + 1] == '.')
    {
      if i < |l| {
        assert d[i] == l[i];
      } else if i == |l| {
        assert d[i + 1] == rest[0];
      } else {
        assert d[i] == rest[i - |l| - 1] && d[i + 1] == rest[i - |l|];
      }
    }
  }

  /** A name `writeFqdn` accepts is non-empty, does not start with a dot
      and never has two dots in a row. */
  lemma AcceptedShape(name: string)
    requires IsOctets(name) && ParseFqdn(name).Success?
    ensures name != "" && name[0] != '.'
    ensures forall i | 0 <= i < |name| - 1 :: !(name[i] == '.' && name[i + 1] == '.')
  {
    var labels := ParseFqdn(name).value;
    ParseFqdnSound(name);
    DottedShape(labels);
    var d := Dotted(labels);
    assert name == d[..|name|];
  }

  lemma RejectsEmptyLabels(name: string, i: nat)
    requires IsOctets(name)
    requires name == "" || name[0] == '.' || (i + 1 < |name| && name[i] == '.' && name[i + 1] == '.')
    ensures ParseFqdn(name) == Failure(BadDataTypeCast)
  {
    if ParseFqdn(name).Success? {
      AcceptedShape(name);
    }
  }

  // ---------------------------------------------------------------------
  // Lemmas: wire form

  lemma ValidLabelsEncodable(labels: seq<string>)
    requires ValidLabels(labels)
    ensures AllEncodable(labels)
  {
    forall i | 0 <= i < |labels|
      ensures Encodable(labels[i])
    {
      assert ValidLabel(labels[i]);
    }
  }

  lemma {:induction false} EncodeLabelsAppend(a: seq<string>, b: seq<string>)
    requires AllEncodable(a) && AllEncodable(b)
    ensures AllEncodable(a + b) && EncodeLabels(a + b) == EncodeLabels(a) + EncodeLabels(b)
  {
    if a == [] {
      assert a + b == b;
    } else {
      assert (a + b)[0] == a[0];
      assert (a + b)[1..] == a[1..] + b;
      EncodeLabelsAppend(a[1..], b);
      calc {
        EncodeLabels(a + b);
        [|a[0]|] + Octets(a[0]) + EncodeLabels(a[1..] + b);
        [|a[0]|] + Octets(a[0]) + (EncodeLabels(a[1..]) + EncodeLabels(b));
        ([|a[0]|] + Octets(a[0]) + EncodeLabels(a[1..])) + EncodeLabels(b);
      }
    }
  }

  lemma EncodeLabelsSnoc(labels: seq<string>, l: string)
    requires AllEncodable(labels) && Encodable(l)
    ensures AllEncodable(labels + [l])
    ensures EncodeLabels(labels + [l]) == EncodeLabels(labels) + [|l|] + Octets(l)
  {
    assert EncodeLabels([l]) == [|l|] + Octets(l) + EncodeLabels([]);
    EncodeLabelsAppend(labels, [l]);
  }

  /** The encoding of a non-empty label list, taken apart. */
  lemma EncodeNameCons(labels: seq<string>)
    requires AllEncodable(labels) && labels != []
    ensures AllEncodable(labels[1..])
    ensures var l, e, e' := labels[0], EncodeName(labels), EncodeName(labels[1..]);
      e == [|l|] + Octets(l) + e' && |e| == 1 + |l| + |e'| &&
      e[0] == |l| && e[1..1 + |l|] == Octets(l) && e[1 + |l|..] == e'
  {
    var l, e' := labels[0], EncodeName(labels[1..]);
    assert EncodeName(labels) == [|l|] + Octets(l) + EncodeLabels(labels[1..]) + [0];
    assert EncodeName(labels) == [|l|] + Octets(l) + e';
  }

  lemma SliceOfSlice(buf: seq<Byte>, pos: nat, e: seq<Byte>, a: nat, b: nat)
    requires pos + |e| <= |buf| && buf[pos..pos + |e|] == e && a <= b <= |e|
    ensures buf[pos + a..pos + b] == e[a..b]
  {
    forall i | 0 <= i < b - a
      ensures buf[pos + a..pos + b][i] == e[a..b][i]
    {
      assert buf[pos + a + i] == buf[pos..pos + |e|][a + i];
    }
  }

  /** One label of `DecodeFrom`: a length octet that fits puts the label
      in front of the rest of the name. */
  lemma DecodeLabel(buf: seq<Byte>, pos: nat)
    requires pos < |buf| && 0 < buf[pos] <= MaxLabelLength && pos + 1 + buf[pos] <= |buf|
    ensures var next := pos + 1 + buf[pos];
      DecodeFrom(buf, pos) == Prefixed([Chars(buf[pos + 1..next])], DecodeFrom(buf, next))
  {
  }

  /** The first label of an encoded name, found where the name sits in a
      buffer: its length octet, its text, and the encoding of the rest. */
  lemma EncodedFirstLabel(labels: seq<string>, buf: seq<Byte>, pos: nat)
    requires AllEncodable(labels) && labels != []
    requires pos + |EncodeName(labels)| <= |buf|
    requires buf[pos..pos + |EncodeName(labels)|] == EncodeName(labels)
    ensures var l, e' := labels[0], EncodeName(labels[1..]);
      var next := pos + 1 + |l|;
      AllEncodable(labels[1..]) &&
      buf[pos] == |l| && Chars(buf[pos + 1..next]) == l &&
      next + |e'| == pos + |EncodeName(labels)| &&
      buf[next..next + |e'|] == e'
  {
    var l, e := labels[0], EncodeName(labels);
    EncodeNameCons(labels);
    assert buf[pos] == e[0];
    SliceOfSlice(buf, pos, e, 1, 1 + |l|);
    SliceOfSlice(buf, pos, e, 1 + |l|, |e|);
    CharsOctets(l);
  }

  lemma PrefixedLabel(x: Result<Decoded>, y: Result<Decoded>, l: string, labels: seq<string>, end: nat)
    requires labels != [] && l == labels[0]
    requires x == Prefixed([l], y) && y == Success(Decoded(labels[1..], end))
    ensures x == Success(Decoded(labels, end))
  {
    assert [l] + labels[1..] == labels;
  }

  /** A name is read back from its encoding wherever it sits in a buffer,
      consuming exactly the encoding, whatever follows. */
  lemma {:induction false} DecodeEncoded(labels: seq<string>, buf: seq<Byte>, pos: nat)
    requires AllEncodable(labels)
    requires pos + |EncodeName(labels)| <= |buf|
    requires buf[pos..pos + |EncodeName(labels)|] == EncodeName(labels)
    ensures DecodeFrom(buf, pos) == Success(Decoded(labels, pos + |EncodeName(labels)|))
  {
    if labels == [] {
      assert buf[pos] == EncodeName(labels)[0] == 0;
    } else {
      var next := pos + 1 + |labels[0]|;
      EncodedFirstLabel(labels, buf, pos);
      DecodeLabel(buf, pos);
      DecodeEncoded(labels[1..], buf, next);
      PrefixedLabel(DecodeFrom(buf, pos), DecodeFrom(buf, next), labels[0], labels, pos + |EncodeName(labels)|);
    }
  }

  lemma EncodableFront(l: string, rest: seq<string>)
    requires Encodable(l) && AllEncodable(rest)
    ensures AllEncodable([l] + rest)
  {
    var labels := [l] + rest;
    forall i | 0 <= i < |labels|
      ensures Encodable(labels[i])
    {
      if i > 0 {
        assert labels[i] == rest[i - 1];
      }
    }
  }

  /** A label read from the buffer, put in front of an encoded rest, is
      encoded by exactly the octets it was read from. */
  lemma EncodedLabelFront(buf: seq<Byte>, pos: nat, rest: seq<string>, end: nat)
    requires pos < |buf| && 0 < buf[pos] <= MaxLabelLength
    requires pos + 1 + buf[pos] < end <= |buf|
    requires AllEncodable(rest) && buf[pos + 1 + buf[pos]..end] == EncodeName(rest)
    ensures var labels := [Chars(buf[pos + 1..pos + 1 + buf[pos]])] + rest;
      AllEncodable(labels) && buf[pos..end] == EncodeName(labels)
  {
    var next := pos + 1 + buf[pos];
    var l := Chars(buf[pos + 1..next]);
    OctetsChars(buf[pos + 1..next]);
    EncodableFront(l, rest);
    EncodeFront(l, rest);
    assert buf[pos..end] == buf[pos..pos + 1] + buf[pos + 1..end];
    assert buf[pos + 1..end] == buf[pos + 1..next] + buf[next..end];
    assert buf[pos..pos + 1] == [|l|];
    assert [|l|] + (Octets(l) + EncodeName(rest)) == [|l|] + Octets(l) + EncodeName(rest);
  }

  lemma EncodeFront(l: string, rest: seq<string>)
    requires Encodable(l) && AllEncodable(rest) && AllEncodable([l] + rest)
    ensures EncodeName([l] + rest) == [|l|] + Octets(l) + EncodeName(rest)
  {
    var labels := [l] + rest;
    assert labels[0] == l && labels[1..] == rest;
    EncodeNameCons(labels);
  }

  /** Whatever is read is exactly the encoding of what was read: the
      consumed octets are those of one name and nothing more. */
  lemma {:induction false} DecodeExact(buf: seq<Byte>, pos: nat)
    requires DecodeFrom(buf, pos).Success?
    decreases |buf| - pos
    ensures var d := DecodeFrom(buf, pos).value;
      AllEncodable(d.labels) && pos < d.end <= |buf| &&
      buf[pos..d.end] == EncodeName(d.labels)
  {
    if buf[pos] != 0 {
      var next := pos + 1 + buf[pos];
      DecodeLabel(buf, pos);
      DecodeExact(buf, next);
      var d' := DecodeFrom(buf, next).value;
      EncodedLabelFront(buf, pos, d'.labels, d'.end);
      assert DecodeFrom(buf, pos).value == Decoded([Chars(buf[pos + 1..next])] + d'.labels, d'.end);
    }
  }

  /** Every proper prefix of an encoded name fails to decode: truncation
      is always detected. */
  lemma {:induction false} DecodeTruncated(labels: seq<string>, buf: seq<Byte>, pos: nat)
    requires AllEncodable(labels)
    requires pos <= |buf| < pos + |EncodeName(labels)|
    requires buf[pos..] == EncodeName(labels)[..|buf| - pos]
    ensures DecodeFrom(buf, pos) == Failure(BadDataTypeCast)
  {
    if pos < |buf| && labels != [] {
      var l := labels[0];
      var e := EncodeName(labels);
      var next := pos + 1 + |l|;
      assert e == [|l|] + Octets(l) + EncodeName(labels[1..]);
      assert buf[pos] == e[0] == |l|;
      if next <= |buf| {
        var e' := EncodeName(labels[1..]);
        assert buf[next..] == e'[..|buf| - next] by {
          assert buf[next..] == buf[pos..][1 + |l|..];
          assert e[1 + |l|..] == e';
        }
        DecodeTruncated(labels[1..], buf, next);
      }
    }
  }

  /** Two names written back to back are read back one after the other,
      the second starting where the first one's consumed length ends. */
  lemma PackedNames(a: seq<string>, b: seq<string>)
    requires AllEncodable(a) && AllEncodable(b)
    ensures var buf := EncodeName(a) + EncodeName(b);
      DecodeFrom(buf, 0) == Success(Decoded(a, |EncodeName(a)|)) &&
      DecodeFrom(buf, |EncodeName(a)|) == Success(Decoded(b, |buf|))
  {
    var ea, eb := EncodeName(a), EncodeName(b);
    DecodeAtFront(a, eb);
    assert (ea + eb)[|ea|..|ea| + |eb|] == eb;
    DecodeEncoded(b, ea + eb, |ea|);
  }

  /** The text of a name always ends with the root's dot. */
  lemma NameTextAbsolute(labels: seq<string>)
    ensures var t := NameText(labels); |t| >= 1 && t[|t| - 1] == '.'
  {
  }

  /** Writing a name `writeFqdn` accepts and reading it back yields its
      absolute text and consumes exactly what was written. */
  lemma FqdnRoundTrip(name: string, rest: seq<Byte>)
    requires IsOctets(name) && ParseFqdn(name).Success?
    ensures var labels := ParseFqdn(name).value;
      AllEncodable(labels) &&
      DecodeFrom(EncodeName(labels) + rest, 0) == Success(Decoded(labels, |EncodeName(labels)|)) &&
      NameText(labels) == Absolute(name)
  {
    var labels := ParseFqdn(name).value;
    ParseFqdnSound(name);
    ValidLabelsEncodable(labels);
    DecodeAtFront(labels, rest);
  }

  /** An encoded name at the front of a buffer is read back whole. */
  lemma DecodeAtFront(labels: seq<string>, rest: seq<Byte>)
    requires AllEncodable(labels)
    ensures DecodeFrom(EncodeName(labels) + rest, 0) == Success(Decoded(labels, |EncodeName(labels)|))
  {
    var e := EncodeName(labels);
    assert (e + rest)[0..|e|] == e;
    DecodeEncoded(labels, e + rest, 0);
  }
}
