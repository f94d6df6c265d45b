/** The classes chunk_header and rx_chunk, run against their automata. */
module ChunkParsers {
  import opened Characters
  import opened Parsing
  import opened HeaderParsers
  import Chunks
  import Headers

  class ChunkHeader {
    const limits: Limits
    var size: nat
    var length: nat
    var ws: nat
    var hexSize: string
    var extension: string
    var state: Chunks.State
    var sizeRead: bool
    var valid: bool

    function Value(): Chunks.Header
      reads this
    {
      Chunks.Header(size, length, ws, hexSize, extension, state, sizeRead, valid)
    }

    constructor (limits: Limits)
      ensures this.limits == limits && Value() == Chunks.FRESH_HEADER
    {
      this.limits := limits;
      size, length, ws, hexSize, extension := 0, 0, 0, [], [];
      state, sizeRead, valid := Chunks.State.SizeLs, false, false;
    }

    method Clear()
      modifies this
      ensures Value() == Chunks.FRESH_HEADER
    {
      size, length, ws, hexSize, extension := 0, 0, 0, [], [];
      state, sizeRead, valid := Chunks.State.SizeLs, false, false;
    }

    /** The SIZE case, which SIZE_LS falls through to. */
    method ParseSizeChar(c: char) returns (ok: bool)
      modifies this
      ensures Stepped(Value(), ok) == Chunks.SizeStep(limits, old(Value()), c)
    {
      ok := true;
      if IsHexDigit(c) {
        hexSize := hexSize + [c];
        if |hexSize| > Chunks.MAX_SIZE_DIGITS {
          state := Chunks.State.ErrorSize;
          return false;
        }
      } else if IsEndOfLine(c) || c == ';' {
        size := Chunks.SizeOf(hexSize);
        sizeRead := true;
        if size > limits.maxChunk {
          state := Chunks.State.ErrorSize;
          return false;
        }
        if c == ';' {
          ws := 0;
          state := Chunks.State.ExtensionLs;
        } else if c == '\r' {
          state := Chunks.State.Lf;
        } else if limits.strictCrlf {
          return false;
        } else {
          state := Chunks.State.Valid;
        }
      } else {
        return false;
      }
    }

    /** The EXTENSION case, which EXTENSION_LS falls through to. */
    method ParseExtensionChar(c: char) returns (ok: bool)
      modifies this
      ensures Stepped(Value(), ok) == Chunks.ExtensionStep(limits, old(Value()), c)
    {
      ok := true;
      if !IsEndOfLine(c) {
        extension := extension + [c];
        state := Chunks.State.Extension;
      } else if c == '\r' {
        state := Chunks.State.Lf;
      } else if limits.strictCrlf {
        state := Chunks.State.ErrorCrlf;
        ok := false;
      } else {
        state := Chunks.State.Valid;
      }
    }

    method ParseChar(c: char) returns (ok: bool)
      modifies this
      ensures Stepped(Value(), ok) == Chunks.Step(limits, old(Value()), c)
    {
      hide Chunks.SizeOf;
      ok := true;
      length := length + 1;
      if length > limits.maxLine {
        state := Chunks.State.ErrorLength;
      }
      match state
      case SizeLs =>
        if IsBlank(c) {
          ws := ws + 1;
          if ws > limits.maxWs {
            state := Chunks.State.ErrorWs;
            return false;
          }
        } else {
          state := Chunks.State.Size;
          ok := ParseSizeChar(c);
        }
      case Size => ok := ParseSizeChar(c);
      case ExtensionLs =>
        if IsBlank(c) {
          ws := ws + 1;
          if ws > limits.maxWs { return false; }
        } else {
          state := Chunks.State.Extension;
          ok := ParseExtensionChar(c);
        }
      case Extension => ok := ParseExtensionChar(c);
      case Lf =>
        if c == '\n' { state := Chunks.State.Valid; } else { return false; }
      case _ => return false;
    }

    method Parse(buffer: string, iter: nat) returns (ok: bool, next: nat)
      requires iter <= |buffer|
      modifies this
      ensures iter <= next <= |buffer|
      ensures var p := Chunks.ParseHeader(limits, old(Value()), buffer[iter..]);
              Value() == p.s && buffer[next..] == p.rest && ok == p.out.Done?
    {
      hide Chunks.Step, Chunks.HeaderInvariant;
      next := iter;
      while next != |buffer| && !state.Valid?
        invariant iter <= next <= |buffer|
        invariant Chunks.ParseHeader(limits, old(Value()), buffer[iter..])
               == Chunks.ParseHeader(limits, Value(), buffer[next..])
        decreases |buffer| - next
      {
        var c := buffer[next];
        assert buffer[next..][1..] == buffer[next + 1..];
        next := next + 1;
        var parsed := ParseChar(c);
        if !parsed { return false, next; }
      }
      valid := state.Valid?;
      return valid, next;
    }
  }

  class RxChunk {
    const limits: Limits
    const header: ChunkHeader
    const trailers: MessageHeaders
    var data: string
    var valid: bool

    ghost predicate Valid()
      reads this, header, trailers, trailers.field
    {
      && header.limits == limits && trailers.limits == limits
      && trailers.Valid() && Chunks.Invariant(limits, Value())
    }

    function Value(): Chunks.Chunk
      reads this, header, trailers, trailers.field
    {
      Chunks.Chunk(header.Value(), data, trailers.Value(), valid)
    }

    constructor (limits: Limits)
      ensures this.limits == limits && Valid() && Value() == Chunks.FRESH
      ensures fresh(header) && fresh(trailers) && fresh(trailers.field)
    {
      this.limits := limits;
      header := new ChunkHeader(limits);
      trailers := new MessageHeaders(limits);
      data, valid := [], false;
    }

    predicate IsLast()
      reads header
    {
      header.size == 0
    }

    method Clear()
      requires Valid()
      modifies this, header, trailers, trailers.field
      ensures Valid() && Value() == Chunks.FRESH
    {
      header.Clear();
      data := [];
      trailers.Clear();
      valid := false;
    }

    /** The CRLF behind the data of the chunk. */
    method ParseDataEnd(buffer: string, iter: nat) returns (ok: bool, next: nat)
      requires iter < |buffer|
      modifies this`valid
      ensures iter <= next <= |buffer|
      ensures var p := Chunks.ParseDataEnd(limits, old(Value()), buffer[iter..]);
              Value() == p.s && buffer[next..] == p.rest && ok == p.out.Done?
    {
      next := iter;
      if buffer[next] == '\r' {
        assert buffer[next..][1..] == buffer[next + 1..];
        next := next + 1;
      } else if limits.strictCrlf {
        return false, next;
      }
      if next == |buffer| || buffer[next] != '\n' { return false, next; }
      assert buffer[next..][1..] == buffer[next + 1..];
      next := next + 1;
      valid := true;
      return true, next;
    }

    /** The data of the chunk and the CRLF behind it. */
    method ParseData(buffer: string, iter: nat) returns (ok: bool, next: nat)
      requires iter <= |buffer| && |data| <= header.size
      modifies this
      ensures iter <= next <= |buffer|
      ensures var p := Chunks.ParseData(limits, old(Value()), buffer[iter..]);
              Value() == p.s && buffer[next..] == p.rest && ok == p.out.Done?
    {
      hide Chunks.ParseDataEnd;
      var required := header.size - |data|;
      var rxSize := |buffer| - iter;
      if rxSize > required {
        next := iter + required;
        assert buffer[iter..][..required] == buffer[iter..next];
        assert buffer[iter..][required..] == buffer[next..];
        data := data + buffer[iter..next];
        ok, next := ParseDataEnd(buffer, next);
      } else {
        data := data + buffer[iter..];
        ok, next := false, |buffer|;
      }
    }

    method Parse(buffer: string, iter: nat) returns (ok: bool, next: nat)
      requires Valid() && !valid && iter <= |buffer|
      modifies this, header, trailers, trailers.field
      ensures Valid() && iter <= next <= |buffer|
      ensures var p := Chunks.Parse(limits, old(Value()), buffer[iter..]);
              Value() == p.s && buffer[next..] == p.rest && ok == p.out.Done?
    {
      hide Chunks.ParseHeader, Chunks.ParseData, Headers.Parse;
      next := iter;
      if !header.valid {
        ok, next := header.Parse(buffer, next);
        if !ok { return false, next; }
      }
      // trailers take the place of data behind a chunk of size zero
      if IsLast() {
        ok, next := trailers.Parse(buffer, next);
        if !ok { return false, next; }
        valid := true;
      } else {
        ok, next := ParseData(buffer, next);
      }
      assert Value() == Chunks.Parse(limits, old(Value()), buffer[iter..]).s;
    }
  }
}
