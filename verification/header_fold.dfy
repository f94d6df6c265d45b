/**
  A header block as a fold over its fields: what a block of lines parses to, that
  nothing else is accepted, and how fields of the same name are combined (section 3.2.2
  of RFC 7230).
 */
module HeaderFold {
  import opened Characters
  import opened Parsing
  import opened FieldFolding
  import opened Headers
  import FL = FieldLines

  /** A field as it is written. */
  datatype Source = Source(name: string, lines: seq<Segment>)

  ghost predicate IsSource(l: Limits, f: Source) {
    All(FL.IsNameChar, f.name) && AreSegments(l, f.lines)
  }

  function Text(f: Source): string { FieldText(f.name, f.lines) }

  function BlockText(fs: seq<Source>): string {
    if fs == [] then "" else Text(fs[0]) + BlockText(fs[1..])
  }

  ghost predicate AreSources(l: Limits, fs: seq<Source>) {
    fs == [] || (IsSource(l, fs[0]) && AreSources(l, fs[1..]))
  }

  function LowerName(f: Source): string { Lowercase(f.name) }

  function FieldValue(f: Source): string {
    if f.lines == [] then [] else Unfolded(f.lines)
  }

  function AddSource(h: Block, f: Source): Block {
    Block(Add(h.fields, LowerName(f), FieldValue(f)), FL.FRESH, h.valid,
          h.length + |LowerName(f)| + |FieldValue(f)|)
  }

  function AddSources(h: Block, fs: seq<Source>): Block
    decreases |fs|
  {
    if fs == [] then h else AddSources(AddSource(h, fs[0]), fs[1..])
  }

  /** Whether every field is within the limits, and so is the block after each of them. */
  predicate Fits(l: Limits, h: Block, fs: seq<Source>)
    decreases |fs|
  {
    fs == [] ||
    (&& BlankCount(fs[0].lines) <= l.maxWs && |Text(fs[0])| <= l.maxLine
     && !Exceeds(l, AddSource(h, fs[0]))
     && Fits(l, AddSource(h, fs[0]), fs[1..]))
  }

  /** Whether `s` may follow a complete field: it must not look like a continuation. */
  predicate NotBlank(s: string) { s != [] ==> !IsBlank(s[0]) }

  lemma TextStart(l: Limits, f: Source)
    requires IsSource(l, f)
    ensures Text(f) != [] && !IsBlank(Text(f)[0]) && !IsEndOfLine(Text(f)[0])
  {
    assert Text(f)[0] == if f.name == [] then ':' else f.name[0];
  }

  /** The loop of parse over one field. */
  lemma OneField(l: Limits, h: Block, f: Source, more: string)
    requires h.field == FL.FRESH && IsSource(l, f) && NotBlank(more)
    ensures var p := Parse(l, h, Text(f) + more);
            if BlankCount(f.lines) <= l.maxWs && |Text(f)| <= l.maxLine && !Exceeds(l, AddSource(h, f))
            then p == Parse(l, AddSource(h, f), more)
            else p.out.Error?
  {
    hide FL.Parse;
    TextStart(l, f);
    FoldedField(l, f.name, f.lines, more);
    assert (Text(f) + more)[0] == Text(f)[0];
    var q := FL.Parse(l, FL.FRESH, Text(f) + more);
    assert q.out.Done? ==> AddField(h, q.s) == AddSource(h, f);
  }

  /**
    Main result: a block of fields and a blank line is accepted if and only if the
    fields fit the limits, and then the fields read are the fold of the fields written.
   */
  lemma {:induction false} BlockParses(l: Limits, h: Block, fs: seq<Source>, cr: bool, more: string)
    requires h.field == FL.FRESH && AreSources(l, fs)
    ensures var p := Parse(l, h, BlockText(fs) + (LineEnd(cr) + more));
            if Fits(l, h, fs)
            then p == Parsed(AddSources(h, fs).(valid := true), more, Done)
            else p.out.Error?
    decreases |fs|
  {
    var end := LineEnd(cr) + more;
    if fs == [] {
      assert BlockText(fs) + end == end;
      assert end[|LineEnd(cr)|..] == more;
      assert cr ==> end[1..][1..] == more;
    } else {
      hide Parse;
      var tail := BlockText(fs[1..]) + end;
      assert BlockText(fs) + end == Text(fs[0]) + tail;
      if fs[1..] == [] {
        assert tail == end;
      } else {
        TextStart(l, fs[1]);
        assert tail[0] == Text(fs[1])[0];
      }
      OneField(l, h, fs[0], tail);
      BlockParses(l, AddSource(h, fs[0]), fs[1..], cr, more);
    }
  }

  /** The loop of parse, run backwards over one field. */
  lemma FirstField(l: Limits, h: Block, inp: string) returns (f: Source, tail: string)
    requires h.field == FL.FRESH && Parse(l, h, inp).out.Done? && !IsEndOfLine(inp[0])
    ensures IsSource(l, f) && inp == Text(f) + tail && |tail| < |inp|
    ensures BlankCount(f.lines) <= l.maxWs && |Text(f)| <= l.maxLine && !Exceeds(l, AddSource(h, f))
    ensures Parse(l, h, inp) == Parse(l, AddSource(h, f), tail)
  {
    hide FL.Parse;
    var p := FL.Parse(l, FL.FRESH, inp);
    tail := p.rest;
    var name, lines := AcceptedField(l, inp);
    f := Source(name, lines);
    NoBlankFollows(l, FL.FRESH, inp);
    FoldedField(l, name, lines, tail);
    assert AddField(h, p.s) == AddSource(h, f);
  }

  lemma Unread(l: Limits, h: Block, inp: string) returns (cr: bool)
    requires h.field == FL.FRESH && Parse(l, h, inp).out.Done? && IsEndOfLine(inp[0])
    ensures inp == LineEnd(cr) + Parse(l, h, inp).rest
    ensures Parse(l, h, inp).s == h.(valid := true)
  {
    cr := inp[0] == '\r';
  }

  lemma Cons(l: Limits, h: Block, f: Source, gs: seq<Source>) returns (fs: seq<Source>)
    requires IsSource(l, f) && BlankCount(f.lines) <= l.maxWs && |Text(f)| <= l.maxLine
    requires !Exceeds(l, AddSource(h, f))
    requires AreSources(l, gs) && Fits(l, AddSource(h, f), gs)
    ensures AreSources(l, fs) && Fits(l, h, fs)
    ensures BlockText(fs) == Text(f) + BlockText(gs)
    ensures AddSources(h, fs) == AddSources(AddSource(h, f), gs)
  {
    fs := [f] + gs;
    assert fs[1..] == gs;
  }

  /** The converse: every accepted block consists of fields that fit and a blank line. */
  lemma {:induction false} AcceptedBlock(l: Limits, h: Block, inp: string) returns (fs: seq<Source>, cr: bool)
    requires h.field == FL.FRESH && Parse(l, h, inp).out.Done?
    ensures AreSources(l, fs) && Fits(l, h, fs)
    ensures inp == BlockText(fs) + (LineEnd(cr) + Parse(l, h, inp).rest)
    ensures Parse(l, h, inp).s == AddSources(h, fs).(valid := true)
    decreases |inp|
  {
    assert inp != [];
    if IsEndOfLine(inp[0]) {
      cr := Unread(l, h, inp);
      fs := [];
      assert BlockText(fs) + inp == inp;
    } else {
      hide *;
      var f, tail := FirstField(l, h, inp);
      var gs;
      gs, cr := AcceptedBlock(l, AddSource(h, f), tail);
      fs := Cons(l, h, f, gs);
      Associate(Text(f), BlockText(gs), LineEnd(cr) + Parse(l, h, inp).rest);
    }
  }

  lemma Associate(a: string, b: string, c: string)
    ensures a + b + c == a + (b + c)
  {
  }

  // ---------------------------------------------------------------------------------
  // How the fields of a block are combined
  // ---------------------------------------------------------------------------------

  /** The values written under the lower-case name `name`, in order of arrival. */
  function ValuesOf(name: string, fs: seq<Source>): seq<string> {
    if fs == [] then []
    else (if LowerName(fs[0]) == name then [FieldValue(fs[0])] else []) + ValuesOf(name, fs[1..])
  }

  /** Values behind a value, each with the separator in front. */
  function Appended(value: string, separator: char, values: seq<string>): string
    decreases |values|
  {
    if values == [] then value
    else Appended(value + [separator] + values[0], separator, values[1..])
  }

  function Joined(values: seq<string>, separator: char): string
    requires values != []
  {
    if |values| == 1 then values[0] else values[0] + [separator] + Joined(values[1..], separator)
  }

  lemma {:induction false} AppendedIsJoined(value: string, separator: char, values: seq<string>)
    ensures Appended(value, separator, values) == Joined([value] + values, separator)
    decreases |values|
  {
    if values != [] {
      var first := value + [separator] + values[0];
      AppendedIsJoined(first, separator, values[1..]);
      AppendedIsJoined(values[0], separator, values[1..]);
      assert ([value] + values)[1..] == values == [values[0]] + values[1..];
      JoinedFirst(value + [separator], values[0], values[1..], separator);
    }
  }

  lemma JoinedFirst(prefix: string, first: string, values: seq<string>, separator: char)
    ensures Joined([prefix + first] + values, separator) == prefix + Joined([first] + values, separator)
  {
    if values != [] {
      assert ([prefix + first] + values)[1..] == values == ([first] + values)[1..];
      assert (prefix + first) + [separator] + Joined(values, separator)
          == prefix + (first + [separator] + Joined(values, separator));
    }
  }

  lemma {:induction false} FoldAt(h: Block, fs: seq<Source>, name: string)
    ensures var values := ValuesOf(name, fs);
            var fields := AddSources(h, fs).fields;
            if name in h.fields
            then name in fields && fields[name] == Appended(h.fields[name], Separator(name), values)
            else if values == [] then name !in fields
            else name in fields && fields[name] == Appended(values[0], Separator(name), values[1..])
    decreases |fs|
  {
    if fs != [] {
      FoldAt(AddSource(h, fs[0]), fs[1..], name);
      var values := ValuesOf(name, fs);
      var later := ValuesOf(name, fs[1..]);
      assert LowerName(fs[0]) == name ==> values[0] == FieldValue(fs[0]) && values[1..] == later;
      assert LowerName(fs[0]) != name ==> values == later;
    }
  }

  /**
    Main result: after an accepted block a name is a field exactly if it was written, and
    its value is the values written under it, joined in order of arrival: by ';' if the
    name has "cookie" in it, by ',' if not.
   */
  lemma FieldsAreJoinedValues(fs: seq<Source>, name: string)
    ensures var values := ValuesOf(name, fs);
            var fields := AddSources(Headers.FRESH, fs).fields;
            && (name in fields <==> values != [])
            && (name in fields ==> fields[name] == Joined(values, if exists i :: ReadsAt(name, i, "cookie") then ';' else ','))
  {
    ContainsExactly(name, "cookie");
    FoldAt(Headers.FRESH, fs, name);
    var values := ValuesOf(name, fs);
    if values != [] {
      AppendedIsJoined(values[0], Separator(name), values[1..]);
      assert [values[0]] + values[1..] == values;
    }
  }

  lemma NamesOfCookies()
    ensures ReadsAt("cookie", 0, "cookie") && ReadsAt("set-cookie", 4, "cookie")
    ensures forall i :: !ReadsAt("accept", i, "cookie") && !ReadsAt("via", i, "cookie")
  {
    forall i
      ensures !ReadsAt("accept", i, "cookie")
    {
      if 0 <= i <= 0 {
        assert "accept"[i..i + 6][0] == 'a';
      }
    }
  }

  /** Cookies are joined by ';', other values by ','. */
  lemma JoinedByName(fs: seq<Source>, name: string)
    requires ValuesOf(name, fs) != []
    ensures var fields := AddSources(Headers.FRESH, fs).fields;
            var values := ValuesOf(name, fs);
            && name in fields
            && (name == "cookie" || name == "set-cookie" ==> fields[name] == Joined(values, ';'))
            && (name == "accept" || name == "via" ==> fields[name] == Joined(values, ','))
  {
    hide ValuesOf, AddSources, Joined, ReadsAt;
    NamesOfCookies();
    FieldsAreJoinedValues(fs, name);
  }

  /** Fields of different names may be interleaved in any way. */
  lemma InterleavingIsIrrelevant(fs: seq<Source>, gs: seq<Source>)
    requires forall name :: ValuesOf(name, fs) == ValuesOf(name, gs)
    ensures AddSources(Headers.FRESH, fs).fields == AddSources(Headers.FRESH, gs).fields
  {
    var a, b := AddSources(Headers.FRESH, fs).fields, AddSources(Headers.FRESH, gs).fields;
    forall name: string
      ensures name in a <==> name in b
      ensures name in a ==> a[name] == b[name]
    {
      FieldsAreJoinedValues(fs, name);
      FieldsAreJoinedValues(gs, name);
    }
  }

  // ---------------------------------------------------------------------------------
  // Limits that can be checked without replaying the fold
  // ---------------------------------------------------------------------------------

  function TotalSize(fs: seq<Source>): nat {
    if fs == [] then 0 else |LowerName(fs[0])| + |FieldValue(fs[0])| + TotalSize(fs[1..])
  }

  lemma {:induction false} AddSourcesGrows(h: Block, fs: seq<Source>)
    ensures AddSources(h, fs).length == h.length + TotalSize(fs)
    ensures h.fields.Keys <= AddSources(h, fs).fields.Keys
    ensures |h.fields| <= |AddSources(h, fs).fields|
    ensures AddSources(h, fs).valid == h.valid && (h.field == FL.FRESH ==> AddSources(h, fs).field == FL.FRESH)
    decreases |fs|
  {
    if fs != [] {
      var h' := AddSource(h, fs[0]);
      AddSourcesGrows(h', fs[1..]);
      assert h.fields.Keys <= h'.fields.Keys;
      assert h'.fields.Keys == h.fields.Keys + {LowerName(fs[0])};
      assert |h.fields.Keys| <= |h'.fields.Keys|;
    }
  }

  /** A block fits if each line does and the whole block does. */
  lemma {:induction false} FitsInTotal(l: Limits, h: Block, fs: seq<Source>)
    requires forall i :: 0 <= i < |fs| ==> BlankCount(fs[i].lines) <= l.maxWs && |Text(fs[i])| <= l.maxLine
    requires h.length + TotalSize(fs) <= l.maxHeaderLength
    requires |AddSources(h, fs).fields| <= l.maxHeaderNumber
    ensures Fits(l, h, fs)
    decreases |fs|
  {
    if fs != [] {
      var h' := AddSource(h, fs[0]);
      AddSourcesGrows(h', fs[1..]);
      FitsInTotal(l, h', fs[1..]);
    }
  }
}
