/** The parts of encoding that requests and responses share: headers and bodies. */
module MessageEncoding {
  import opened Characters
  import opened Parsing
  import opened Numbers
  import opened HeaderFold
  import opened HeaderEncoding
  import opened ChunkRoundTrip
  import Headers
  import Chunks
  import opened Framing

  const HEADER_CONTENT_LENGTH: string := "Content-Length"
  const HEADER_TRANSFER_ENCODING: string := "Transfer-Encoding"

  /** header_field::content_length, as a header */
  function ContentLengthHeader(n: nat): HeaderLine {
    HeaderLine(HEADER_CONTENT_LENGTH, ToDec(n))
  }

  /** Whether message adds a content length: the header string names neither field. */
  predicate AddsContentLength(text: string) {
    !Contains(text, HEADER_CONTENT_LENGTH) && !Contains(text, HEADER_TRANSFER_ENCODING)
  }

  /** A chunk as it is sent. */
  datatype Piece = Piece(data: string, extension: string)

  /** A message body: in one piece, or in chunks. */
  datatype Body =
    | Sized(data: string)
    | Chunked(pieces: seq<Piece>, extension: string, trailers: seq<HeaderLine>)

  function PiecesText(pieces: seq<Piece>): string {
    if pieces == [] then "" else ChunkText(pieces[0].data, pieces[0].extension) + PiecesText(pieces[1..])
  }

  function PiecesData(pieces: seq<Piece>): string {
    if pieces == [] then "" else pieces[0].data + PiecesData(pieces[1..])
  }

  function BodyText(b: Body): string {
    match b
    case Sized(data) => data
    case Chunked(pieces, extension, trailers) =>
      PiecesText(pieces) + LastChunkText(extension, HeadersText(trailers))
  }

  function BodyData(b: Body): string {
    match b
    case Sized(data) => data
    case Chunked(pieces, _, _) => PiecesData(pieces)
  }

  /** The content length that message is called with. */
  function BodyLength(b: Body): nat {
    if b.Sized? then |b.data| else 0
  }

  /** What an application can see at a time: a message, of which it sees an `H`, or a chunk. */
  datatype Report<+H> =
    | Head(head: H)
    | Part(data: string, extension: string)
    | End(extension: string, trailers: Headers.Fields)

  function ChunkOf<H>(c: Chunks.Chunk): Report<H> {
    if c.IsLast() then End(c.header.extension, c.trailers.fields) else Part(c.data, c.header.extension)
  }

  function PieceReports<H>(pieces: seq<Piece>): seq<Report<H>> {
    if pieces == [] then [] else [Part(pieces[0].data, pieces[0].extension)] + PieceReports(pieces[1..])
  }

  /** The reports that a body in chunks should give where chunks are reported. */
  function ChunkReports<H>(b: Body): seq<Report<H>>
    requires b.Chunked?
  {
    PieceReports(b.pieces) + [End(b.extension, FoldOf(b.trailers))]
  }

  ghost predicate PiecesFit(l: Limits, pieces: seq<Piece>) {
    pieces == [] ||
    (pieces[0].data != [] && HeaderFits(l, |pieces[0].data|, pieces[0].extension) && PiecesFit(l, pieces[1..]))
  }

  /** What the headers, as a receiver reads them, must say of the body. */
  ghost predicate BodyFits(l: Limits, fields: Headers.Fields, b: Body) {
    match b
    case Sized(data) =>
      !InChunks(fields) && ValueOf(fields, "content-length") != "" && Announced(fields) == |data|
    case Chunked(pieces, extension, trailers) =>
      && InChunks(fields)
      && PiecesFit(l, pieces)
      && HeaderFits(l, 0, extension) && HeadersFit(l, trailers)
  }

  /** The library finds that the headers say so. */
  lemma BodyIsFound(l: Limits, fields: Headers.Fields, b: Body)
    requires BodyFits(l, fields, b)
    ensures Headers.IsChunked(fields) <==> b.Chunked?
    ensures b.Sized? ==>
              Headers.Find(fields, Headers.LC_CONTENT_LENGTH) != [] && Headers.ContentLength(fields) == |b.data|
  {
    IsChunkedExactly(fields);
    ContentLengthExactly(fields);
    hide InChunks, Announced, Headers.ContentLength, Headers.IsChunked;
  }

  lemma {:induction false} ValuesOfAppend(name: string, hs: seq<HeaderLine>, h: HeaderLine)
    ensures ValuesOf(name, AsSources(hs + [h])) ==
            ValuesOf(name, AsSources(hs)) + if Lowercase(h.name) == name then [h.value] else []
  {
    var all := hs + [h];
    assert AsSources(all)[1..] == AsSources(all[1..]);
    if hs == [] {
      assert all == [h];
    } else {
      assert AsSources(hs)[1..] == AsSources(hs[1..]);
      ValuesOfAppend(name, hs[1..], h);
      assert all[1..] == hs[1..] + [h];
    }
  }

  lemma ContentLengthName()
    ensures Lowercase(HEADER_CONTENT_LENGTH) == "content-length"
  {
  }

  /**
    The content length that message adds is the one the receiver reads, if no header
    has that name in another spelling and the length is one that a long can hold.
   */
  lemma AddedContentLength(hs: seq<HeaderLine>, n: nat)
    requires forall i :: 0 <= i < |hs| ==> Lowercase(hs[i].name) != "content-length"
    ensures var fields := FoldOf(hs + [ContentLengthHeader(n)]);
            && ValueOf(fields, "content-length") == ToDec(n)
            && Headers.ContentLength(fields) == if n <= LONG_MAX then n else -1
  {
    hide FromText, ToText, AddSources;
    ContentLengthName();
    OnlyHeaderIsField(hs + [ContentLengthHeader(n)], |hs|, "content-length");
    TextRoundTrip(n, 10);
  }

  /** Any other field is read as if the content length had not been added. */
  lemma OtherFieldsAreKept(hs: seq<HeaderLine>, n: nat, name: string)
    requires name != "content-length"
    ensures ValueOf(FoldOf(hs + [ContentLengthHeader(n)]), name) == ValueOf(FoldOf(hs), name)
  {
    hide FromText, ToText, AddSources;
    ContentLengthName();
    ValuesOfAppend(name, hs, ContentLengthHeader(n));
    assert ValuesOf(name, AsSources(hs)) + [] == ValuesOf(name, AsSources(hs));
    FieldsAreJoinedValues(AsSources(hs), name);
    FieldsAreJoinedValues(AsSources(hs + [ContentLengthHeader(n)]), name);
  }
}
