/** What the encoders write, letter by letter. */
module WireFormat {
  import opened Characters
  import opened Parsing
  import opened Numbers
  import opened HeaderEncoding
  import opened ChunkRoundTrip
  import opened MessageEncoding
  import FL = FieldLines
  import Grammar = RequestLineGrammar
  import Lines = ResponseLineRoundTrip
  import Requests = RequestRoundTrip
  import Responses = ResponseRoundTrip

  /** The digits of numbers, with their values. */
  lemma DigitsAreListed(i: nat)
    requires i < 16
    ensures DigitChar(i) == "0123456789abcdef"[i]
    ensures DigitValue("0123456789abcdef"[i]) == i && DigitValue("0123456789ABCDEF"[i]) == i
  {
  }

  /** Numbers are written with the most significant digit first. */
  lemma NumbersAreWritten()
    ensures ToDec(0) == "0" && ToDec(1024) == "1024" && ToHex(1024) == "400" && ToHex(31) == "1f"
  {
    assert ToDec(1) == "1" && ToDec(10) == "10" && ToDec(102) == "102";
    assert ToHex(4) == "4" && ToHex(64) == "40" && ToHex(1) == "1";
  }

  /** The characters of header names and of URIs, listed. */
  lemma ReadCharactersAreListed(c: char)
    ensures FL.IsNameChar(c) <==> c in "ABCDEFGHIJKLMNOPQRSTUVWXYZ" || c in "abcdefghijklmnopqrstuvwxyz" || c == '-'
    ensures Grammar.IsUriChar(c) <==> c !in " \t\r\n"
  {
    ClassesAreListed(c);
  }

  lemma RequestLineIsWritten(line: Grammar.Parts)
    ensures Grammar.Encode(line) == line.verb + " " + line.uri + " HTTP/" + [line.major, '.', line.minor] + "\r\n"
  {
  }

  lemma ResponseLineIsWritten(line: Lines.Parts)
    ensures Lines.Encode(line) ==
            "HTTP/" + [line.major, '.', line.minor] + " " + ToDec(line.status) + " " + line.reason + "\r\n"
  {
  }

  lemma HeaderIsWritten(h: HeaderLine)
    ensures ToHeader(h) == h.name + ": " + h.value + "\r\n"
  {
  }

  lemma ChunksAreWritten(data: string, extension: string, trailers: string)
    ensures var ext := if extension == "" then "" else "; " + extension;
            && ChunkText(data, extension) == ToHex(|data|) + ext + "\r\n" + data + "\r\n"
            && LastChunkText(extension, trailers) == "0" + ext + "\r\n" + trailers + "\r\n"
  {
  }

  /** Whether a header string names the length of the body or an encoding. */
  ghost predicate NamesFraming(headers: string) {
    || (exists i :: ReadsAt(headers, i, "Content-Length"))
    || (exists i :: ReadsAt(headers, i, "Transfer-Encoding"))
  }

  /** Main result for message of a request: a content length is added unless the headers name one or an encoding. */
  lemma RequestIsWritten(line: Grammar.Parts, headers: string, n: nat)
    ensures Requests.MessageText(line, headers, n) ==
            Grammar.Encode(line) + headers
            + (if NamesFraming(headers) then "" else "Content-Length: " + ToDec(n) + "\r\n")
            + "\r\n"
  {
    ContainsExactly(headers, "Content-Length");
    ContainsExactly(headers, "Transfer-Encoding");
    hide ToDec, Grammar.Encode;
  }

  /** Main result for message of a response: the same, and not for a status that permits no content. */
  lemma ResponseIsWritten(line: Lines.Parts, headers: string, n: nat)
    ensures Responses.MessageText(line, headers, n) ==
            Lines.Encode(line) + headers
            + (if NamesFraming(headers) || line.status < 200 || line.status == 204 || line.status == 304 then ""
               else "Content-Length: " + ToDec(n) + "\r\n")
            + "\r\n"
  {
    ContainsExactly(headers, "Content-Length");
    ContainsExactly(headers, "Transfer-Encoding");
    hide ToDec, Lines.Encode;
  }
}
