/** Writing header fields (to_header, message_headers::to_string) and reading them back. */
module HeaderEncoding {
  import opened Characters
  import opened Parsing
  import opened FieldFolding
  import opened Headers
  import opened HeaderFold
  import FL = FieldLines

  datatype HeaderLine = HeaderLine(name: string, value: string)

  /** header_field::to_header */
  function ToHeader(h: HeaderLine): string {
    h.name + ": " + h.value + CRLF
  }

  function HeadersText(hs: seq<HeaderLine>): string {
    if hs == [] then "" else ToHeader(hs[0]) + HeadersText(hs[1..])
  }

  lemma {:induction false} HeadersTextAppend(hs: seq<HeaderLine>, h: HeaderLine)
    ensures HeadersText(hs + [h]) == HeadersText(hs) + ToHeader(h)
  {
    hide ToHeader;
    if hs == [] {
      assert hs + [h] == [h];
    } else {
      HeadersTextAppend(hs[1..], h);
      assert (hs + [h])[1..] == hs[1..] + [h];
      assert HeadersText(hs + [h]) == ToHeader(hs[0]) + (HeadersText(hs[1..]) + ToHeader(h));
    }
  }

  /** A header that is not changed by being written and read. */
  ghost predicate IsPlain(h: HeaderLine) {
    && All(FL.IsNameChar, h.name)
    && All(NotEndOfLine, h.value) && (h.value != [] ==> !IsBlank(h.value[0]))
  }

  function AsSource(h: HeaderLine): Source {
    Source(h.name, [Segment(" ", h.value, true)])
  }

  function AsSources(hs: seq<HeaderLine>): (fs: seq<Source>)
    ensures |fs| == |hs| && forall i :: 0 <= i < |hs| ==> fs[i] == AsSource(hs[i])
  {
    if hs == [] then [] else [AsSource(hs[0])] + AsSources(hs[1..])
  }

  /** What a receiver makes of the headers `hs`. */
  function FoldOf(hs: seq<HeaderLine>): Fields {
    AddSources(Headers.FRESH, AsSources(hs)).fields
  }

  function TextSize(hs: seq<HeaderLine>): nat {
    if hs == [] then 0 else |hs[0].name| + |hs[0].value| + TextSize(hs[1..])
  }

  ghost predicate HeadersFit(l: Limits, hs: seq<HeaderLine>) {
    && l.maxWs >= 1
    && (forall i :: 0 <= i < |hs| ==> IsPlain(hs[i]) && |ToHeader(hs[i])| <= l.maxLine)
    && TextSize(hs) <= l.maxHeaderLength
    && |FoldOf(hs)| <= l.maxHeaderNumber
  }

  lemma HeaderIsSource(l: Limits, h: HeaderLine)
    ensures Text(AsSource(h)) == ToHeader(h)
    ensures BlankCount(AsSource(h).lines) == 1
    ensures LowerName(AsSource(h)) == Lowercase(h.name) && FieldValue(AsSource(h)) == h.value
    ensures IsPlain(h) ==> IsSource(l, AsSource(h))
  {
    var gs := [Segment(" ", h.value, true)];
    assert gs[1..] == [];
    assert SegmentsText(gs[1..]) == "";
    assert SegmentsText(gs) == " " + h.value + CRLF;
  }

  lemma {:induction false} HeadersAreSources(l: Limits, hs: seq<HeaderLine>)
    ensures BlockText(AsSources(hs)) == HeadersText(hs)
    ensures TotalSize(AsSources(hs)) == TextSize(hs)
    ensures (forall i :: 0 <= i < |hs| ==> IsPlain(hs[i])) ==> AreSources(l, AsSources(hs))
  {
    if hs != [] {
      HeaderIsSource(l, hs[0]);
      HeadersAreSources(l, hs[1..]);
      assert AsSources(hs)[1..] == AsSources(hs[1..]);
    }
  }

  /** Headers that were written are read back, up to the blank line behind them. */
  lemma HeadersRoundTrip(l: Limits, hs: seq<HeaderLine>, more: string)
    requires HeadersFit(l, hs)
    ensures Parse(l, Headers.FRESH, HeadersText(hs) + (CRLF + more))
         == Parsed(Block(FoldOf(hs), FL.FRESH, true, TextSize(hs)), more, Done)
  {
    hide Parse, AddSources, Fits;
    var fs := AsSources(hs);
    HeadersAreSources(l, hs);
    forall i | 0 <= i < |fs|
      ensures BlankCount(fs[i].lines) <= l.maxWs && |Text(fs[i])| <= l.maxLine
    {
      HeaderIsSource(l, hs[i]);
    }
    AddSourcesGrows(Headers.FRESH, fs);
    FitsInTotal(l, Headers.FRESH, fs);
    BlockParses(l, Headers.FRESH, fs, true, more);
  }

  // ---------------------------------------------------------------------------------
  // to_string, whose enumeration order is that of an unordered_map
  // ---------------------------------------------------------------------------------

  ghost predicate IsEnumeration(names: seq<string>, fields: Fields) {
    && (forall i, j :: 0 <= i < j < |names| ==> names[i] != names[j])
    && (forall name :: name in names <==> name in fields)
  }

  function Enumerated(names: seq<string>, fields: Fields): (hs: seq<HeaderLine>)
    requires forall i :: 0 <= i < |names| ==> names[i] in fields
    ensures |hs| == |names| && forall i :: 0 <= i < |hs| ==> hs[i] == HeaderLine(names[i], fields[names[i]])
  {
    if names == [] then []
    else [HeaderLine(names[0], fields[names[0]])] + Enumerated(names[1..], fields)
  }

  lemma {:induction false} EnumeratedValues(names: seq<string>, fields: Fields, name: string)
    requires forall i :: 0 <= i < |names| ==> names[i] in fields && Lowercase(names[i]) == names[i]
    requires forall i, j :: 0 <= i < j < |names| ==> names[i] != names[j]
    ensures ValuesOf(name, AsSources(Enumerated(names, fields)))
         == if name in names then [fields[name]] else []
  {
    if names != [] {
      var hs := Enumerated(names, fields);
      var fs := AsSources(hs);
      assert hs[1..] == Enumerated(names[1..], fields);
      assert fs[1..] == AsSources(hs[1..]);
      EnumeratedValues(names[1..], fields, name);
      assert name in names <==> name == names[0] || name in names[1..];
    }
  }

  lemma EnumeratedAt(names: seq<string>, fields: Fields, name: string)
    requires IsEnumeration(names, fields)
    requires forall n :: n in names ==> Lowercase(n) == n
    ensures var read := FoldOf(Enumerated(names, fields));
            (name in read <==> name in fields) && (name in read ==> read[name] == fields[name])
  {
    hide AddSources, ValuesOf;
    EnumeratedValues(names, fields, name);
    FieldsAreJoinedValues(AsSources(Enumerated(names, fields)), name);
  }

  lemma EnumeratedFold(names: seq<string>, fields: Fields)
    requires IsEnumeration(names, fields)
    requires forall n :: n in names ==> Lowercase(n) == n
    ensures FoldOf(Enumerated(names, fields)) == fields
  {
    hide FoldOf;
    var read := FoldOf(Enumerated(names, fields));
    forall name: string
      ensures name in read <==> name in fields
      ensures name in read ==> read[name] == fields[name]
    {
      EnumeratedAt(names, fields, name);
    }
  }

  /** For every enumeration order, parsing to_string and a blank line gives the fields back. */
  lemma ToStringRoundTrip(l: Limits, names: seq<string>, fields: Fields, more: string)
    requires IsEnumeration(names, fields)
    requires forall n :: n in names ==> Lowercase(n) == n
    requires HeadersFit(l, Enumerated(names, fields))
    ensures var p := Parse(l, Headers.FRESH, HeadersText(Enumerated(names, fields)) + (CRLF + more));
            p.out.Done? && p.rest == more && p.s.fields == fields
  {
    hide Parse, FoldOf, HeadersText, HeadersFit;
    HeadersRoundTrip(l, Enumerated(names, fields), more);
    EnumeratedFold(names, fields);
  }
}
