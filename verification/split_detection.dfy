/**
  Detection of an empty line among the headers of a response, which would end them early
  (are_headers_split), and why it is enough.
 */
module SplitDetection {
  import opened Characters
  import opened Numbers
  import opened HeaderEncoding
  import opened MessageEncoding
  import opened ResponseRoundTrip
  import Lines = ResponseLineRoundTrip
  import RL = RequestLines

  /** Whether the line that ends at `i` is followed by an empty line. */
  predicate SplitAt(s: string, i: nat) {
    && i < |s| && s[i] == '\n'
    && ((i + 1 < |s| && s[i + 1] == '\n') || (i + 2 < |s| && s[i + 1] == '\r' && s[i + 2] == '\n'))
  }

  ghost predicate IsSplit(s: string) {
    exists i: nat :: SplitAt(s, i)
  }

  /** are_headers_split, with the last two characters kept in variables. */
  method AreHeadersSplit(headers: string) returns (split: bool)
    ensures split <==> IsSplit(headers)
  {
    var prev, pprev := '0', '0';
    var i := 0;
    while i < |headers|
      invariant 0 <= i <= |headers|
      invariant prev == if i > 0 then headers[i - 1] else '0'
      invariant pprev == if i > 1 then headers[i - 2] else '0'
      invariant !IsSplit(headers[..i])
    {
      var c := headers[i];
      if c == '\n' {
        if prev == '\n' {
          assert SplitAt(headers, i - 1);
          return true;
        } else if prev == '\r' && pprev == '\n' {
          assert SplitAt(headers, i - 2);
          return true;
        }
      }
      ghost var seen := headers[..i + 1];
      forall j: nat
        ensures !SplitAt(seen, j)
      {
        assert !SplitAt(headers[..i], j);
      }
      pprev, prev := prev, c;
      i := i + 1;
    }
    assert headers[..i] == headers;
    return false;
  }

  /** Whole lines, none of them empty. */
  ghost predicate AreLines(s: string) {
    && s != [] && !IsEndOfLine(s[0]) && s[|s| - 1] == '\n'
    && !IsSplit(s)
  }

  lemma OneLine(text: string)
    requires text != [] && All(NotEndOfLine, text)
    ensures AreLines(text + CRLF)
  {
    forall i: nat
      ensures !SplitAt(text + CRLF, i)
    {
      if i < |text| {
        assert NotEndOfLine(text[i]);
      }
    }
  }

  lemma StatusLineIsOneLine(line: Lines.Parts)
    requires !IsEndOfLine(line.major) && !IsEndOfLine(line.minor) && All(NotEndOfLine, line.reason)
    ensures AreLines(Lines.Encode(line))
  {
    var digits := ToDec(line.status);
    assert All(NotEndOfLine, digits) by {
      assert forall i :: 0 <= i < |digits| ==> IsDigitOf(10, digits[i]);
    }
    hide ToDec, AreLines;
    var version := RL.HttpVersion(line.major, line.minor);
    assert All(NotEndOfLine, version);
    OneLine(version + " " + digits + " " + line.reason);
  }

  lemma ContentLengthIsOneLine(n: nat)
    ensures AreLines(ToHeader(ContentLengthHeader(n)))
  {
    var digits := ToDec(n);
    assert All(NotEndOfLine, digits) by {
      assert forall i :: 0 <= i < |digits| ==> IsDigitOf(10, digits[i]);
    }
    hide ToDec, AreLines;
    OneLine(HEADER_CONTENT_LENGTH + ": " + digits);
  }

  // ---------------------------------------------------------------------------------
  // Why the test of is_valid is enough, and when
  // ---------------------------------------------------------------------------------

  /** A message whose only empty line is its last. */
  ghost predicate EndsOnce(message: string) {
    forall i: nat :: SplitAt(message, i) <==> i == |message| - 3
  }

  predicate StartsWithLineEnd(s: string) {
    s != "" && (s[0] == '\n' || (s[0] == '\r' && |s| > 1 && s[1] == '\n'))
  }

  predicate EndsInLineEnd(s: string) { s != "" && s[|s| - 1] == '\n' }

  /** Where lines `a`, any text `h` without an empty line, and lines `c`, if any, have one. */
  lemma SplitBetween(a: string, h: string, c: string, i: nat)
    requires AreLines(a) && !IsSplit(h) && (c == "" || AreLines(c))
    requires !StartsWithLineEnd(h)
    ensures var m := a + h + c + CRLF;
            SplitAt(m, i) ==> i == |m| - 3
  {
    var m := a + h + c + CRLF;
    assert m[|a| + |h| + |c|..] == CRLF;
    assert forall j :: 0 <= j < |a| ==> m[j] == a[j];
    assert forall j :: 0 <= j < |h| ==> m[|a| + j] == h[j];
    assert forall j :: 0 <= j < |c| ==> m[|a| + |h| + j] == c[j];
    if i < |a| {
      assert !SplitAt(a, i);
    } else if i < |a| + |h| {
      assert !SplitAt(h, i - |a|);
    } else if i < |a| + |h| + |c| {
      assert !SplitAt(c, i - |a| - |h|);
    }
  }

  lemma SplitAtEnd(a: string, h: string, c: string)
    requires AreLines(a) && (c == "" || AreLines(c))
    ensures var m := a + h + c + CRLF;
            SplitAt(m, |m| - 3) <==> c != "" || h == "" || EndsInLineEnd(h)
  {
    var m := a + h + c + CRLF;
    assert m[|a| + |h| + |c|..] == CRLF;
    assert m[|m| - 3] == if c != "" then c[|c| - 1] else if h != "" then h[|h| - 1] else a[|a| - 1];
  }

  lemma SplitAtStart(a: string, h: string, c: string)
    requires AreLines(a) && StartsWithLineEnd(h)
    ensures SplitAt(a + h + c + CRLF, |a| - 1)
  {
  }

  /**
    Main result: exactly when a response that is_valid accepts ends its header in one
    place, the very end of the message. Its header string must not start with a line
    end, and it must end in one unless message adds a content length behind it.
   */
  lemma ValidResponseEndsOnceExactly(line: Lines.Parts, headers: string, contentLength: nat)
    requires !IsSplit(headers)
    requires !IsEndOfLine(line.major) && !IsEndOfLine(line.minor) && All(NotEndOfLine, line.reason)
    ensures EndsOnce(MessageText(line, headers, contentLength)) <==>
            && !StartsWithLineEnd(headers)
            && (headers == "" || EndsInLineEnd(headers) || AddsLength(line, headers))
  {
    hide Lines.Encode, ToHeader, AddsLength, AreLines;
    var a := Lines.Encode(line);
    var c := if AddsLength(line, headers) then ToHeader(ContentLengthHeader(contentLength)) else "";
    StatusLineIsOneLine(line);
    ContentLengthIsOneLine(contentLength);
    LinesNonempty(ToHeader(ContentLengthHeader(contentLength)));
    LinesNonempty(a);
    var m := a + headers + c + CRLF;
    assert MessageText(line, headers, contentLength) == m;
    SplitAtEnd(a, headers, c);
    if StartsWithLineEnd(headers) {
      SplitAtStart(a, headers, c);
    } else {
      forall i: nat
        ensures SplitAt(m, i) ==> i == |m| - 3
      {
        SplitBetween(a, headers, c, i);
      }
    }
  }

  lemma LinesNonempty(s: string)
    requires AreLines(s)
    ensures s != ""
  {
  }
}
