/**
  What the headers of a message say about its framing (sections 3.3.2, 3.3.3 and 5.4 of
  RFC 7230, section 5.1.1 of RFC 7231), in terms of the fields and their letters.
 */
module Framing {
  import opened Characters
  import opened Parsing
  import opened Numbers
  import opened HeaderFold
  import opened HeaderEncoding
  import Headers

  /** The value of a field, blank if there is none. */
  function ValueOf(fields: Headers.Fields, name: string): string {
    if name in fields then fields[name] else ""
  }

  /** Whether a value reads `word` from some letter on, in any case. */
  ghost predicate Reads(value: string, word: string) {
    exists i :: ReadsAt(Lowercase(value), i, word)
  }

  /** A message in chunks: any transfer encoding but identity. */
  ghost predicate InChunks(fields: Headers.Fields) {
    ValueOf(fields, "transfer-encoding") != "" && !Reads(ValueOf(fields, "transfer-encoding"), "identity")
  }

  ghost predicate AsksToContinue(fields: Headers.Fields) {
    Reads(ValueOf(fields, "expect"), "100-continue")
  }

  /** The announced length of a body: 0 without a field, -1 if it is no number or too large. */
  ghost function Announced(fields: Headers.Fields): int {
    var value := ValueOf(fields, "content-length");
    if value == "" then 0
    else if (forall i :: 0 <= i < |value| ==> value[i] in "0123456789") && DecimalValue(value) <= 9223372036854775807
    then DecimalValue(value)
    else -1
  }

  /** The value of decimal digits. */
  function DecimalValue(digits: string): int {
    if digits == "" then 0
    else 10 * DecimalValue(digits[..|digits| - 1]) + (digits[|digits| - 1] as int - '0' as int)
  }

  // ---------------------------------------------------------------------------------
  // The decisions of the library
  // ---------------------------------------------------------------------------------

  /** Main result for is_chunked. */
  lemma IsChunkedExactly(fields: Headers.Fields)
    ensures Headers.IsChunked(fields) <==> InChunks(fields)
  {
    ContainsExactly(Lowercase(ValueOf(fields, "transfer-encoding")), "identity");
  }

  /** Main result for expect_continue. */
  lemma ExpectsContinueExactly(fields: Headers.Fields)
    ensures Headers.ExpectsContinue(fields) <==> AsksToContinue(fields)
  {
    ContainsExactly(Lowercase(ValueOf(fields, "expect")), "100-continue");
  }

  lemma {:induction false} DecimalValueIsValue(digits: string)
    requires forall i :: 0 <= i < |digits| ==> IsDigitOf(10, digits[i])
    ensures DecimalValue(digits) == Value(digits, 10)
  {
    if digits != [] {
      DecimalValueIsValue(digits[..|digits| - 1]);
    }
  }

  /** Main result for content_length. */
  lemma ContentLengthExactly(fields: Headers.Fields)
    ensures Headers.ContentLength(fields) == Announced(fields)
  {
    var value := ValueOf(fields, "content-length");
    FromTextRejects(value, 10);
    assert forall c: char :: IsDigitOf(10, c) <==> c in "0123456789";
    if forall i :: 0 <= i < |value| ==> IsDigitOf(10, value[i]) {
      DecimalValueIsValue(value);
    }
    hide Value, DecimalValue;
  }

  // ---------------------------------------------------------------------------------
  // Header lists
  // ---------------------------------------------------------------------------------

  /** The header with a name that no other has, in any case. */
  ghost predicate OnlyHeader(hs: seq<HeaderLine>, i: nat, name: string) {
    && i < |hs| && Lowercase(hs[i].name) == name
    && forall j :: 0 <= j < |hs| && j != i ==> Lowercase(hs[j].name) != name
  }

  lemma {:induction false} OnlyValue(hs: seq<HeaderLine>, i: nat, name: string)
    requires OnlyHeader(hs, i, name)
    ensures ValuesOf(name, AsSources(hs)) == [hs[i].value]
  {
    assert AsSources(hs)[1..] == AsSources(hs[1..]);
    if i == 0 {
      NoneOf(hs[1..], name);
    } else {
      OnlyValue(hs[1..], i - 1, name);
    }
  }

  lemma {:induction false} NoneOf(hs: seq<HeaderLine>, name: string)
    requires forall j :: 0 <= j < |hs| ==> Lowercase(hs[j].name) != name
    ensures ValuesOf(name, AsSources(hs)) == []
  {
    if hs != [] {
      assert AsSources(hs)[1..] == AsSources(hs[1..]);
      NoneOf(hs[1..], name);
    }
  }

  /** A header whose name no other has is a field with its value. */
  lemma OnlyHeaderIsField(hs: seq<HeaderLine>, i: nat, name: string)
    requires OnlyHeader(hs, i, name)
    ensures ValueOf(FoldOf(hs), name) == hs[i].value
  {
    OnlyValue(hs, i, name);
    FieldsAreJoinedValues(AsSources(hs), name);
  }

  lemma NoHeaderIsNoField(hs: seq<HeaderLine>, name: string)
    requires forall j :: 0 <= j < |hs| ==> Lowercase(hs[j].name) != name
    ensures ValueOf(FoldOf(hs), name) == ""
  {
    NoneOf(hs, name);
    FieldsAreJoinedValues(AsSources(hs), name);
  }

  /** "Transfer-Encoding: chunked", in any case, announces chunks, and identity does not. */
  lemma ChunkedHeaderAnnouncesChunks(hs: seq<HeaderLine>, i: nat)
    requires OnlyHeader(hs, i, "transfer-encoding")
    ensures Lowercase(hs[i].value) == "chunked" ==> InChunks(FoldOf(hs)) && Headers.IsChunked(FoldOf(hs))
    ensures Lowercase(hs[i].value) == "identity" ==> !InChunks(FoldOf(hs)) && !Headers.IsChunked(FoldOf(hs))
  {
    OnlyHeaderIsField(hs, i, "transfer-encoding");
    IsChunkedExactly(FoldOf(hs));
    var value := hs[i].value;
    if Lowercase(value) == "identity" {
      assert ReadsAt(Lowercase(value), 0, "identity");
    }
  }

  lemma WithoutTransferEncoding(hs: seq<HeaderLine>)
    requires forall j :: 0 <= j < |hs| ==> Lowercase(hs[j].name) != "transfer-encoding"
    ensures !Headers.IsChunked(FoldOf(hs))
  {
    NoHeaderIsNoField(hs, "transfer-encoding");
    IsChunkedExactly(FoldOf(hs));
  }
}
