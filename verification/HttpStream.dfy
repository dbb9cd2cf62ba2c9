/** The client's side of a socket and the buffered reader of a chunked body. */
module HttpStream {
  import opened Wrappers
  import opened Bytes
  import opened Text
  import opened HttpSyntax
  import Utf8

  /**
   * `incoming` is everything the peer has sent that was not read yet; `closed` says that
   * nothing will follow it. How many bytes a read returns is not up to the reader.
   */
  class Stream {
    var incoming: bytes
    var closed: bool

    constructor ()
      ensures incoming == [] && !closed
    {
      incoming, closed := [], false;
    }

    /** End of file is an empty read; a read that would wait forever fails as `Short`. */
    method Read(limit: nat) returns (r: Result<bytes, HttpError>)
      requires limit > 0
      modifies this`incoming
      ensures r.Ok? ==> r.value + incoming == old(incoming) && |r.value| <= limit
      ensures r.Ok? ==> (r.value == [] <==> old(incoming) == []) && (r.value == [] ==> closed)
      ensures r.Err? ==> r.error == Short && old(incoming) == incoming == [] && !closed
    {
      if incoming == [] {
        r := if closed then Ok([]) else Err(Short);
      } else {
        var n :| 1 <= n <= limit && n <= |incoming|;
        r := Ok(incoming[..n]);
        incoming := incoming[n..];
      }
    }

    method ReadExact(length: nat) returns (r: Result<bytes, HttpError>)
      modifies this`incoming
      ensures length <= |old(incoming)| ==>
        r == Ok(old(incoming)[..length]) && incoming == old(incoming)[length..]
      ensures length > |old(incoming)| ==> r == Err(Short)
    {
      var data: bytes := [];
      while |data| < length
        invariant |data| <= length
        invariant data + incoming == old(incoming)
        decreases length - |data|
      {
        var part := Read(length - |data|);
        if part.Err? {
          return Err(Short);
        }
        if part.value == [] {
          return Err(Short);
        }
        data := data + part.value;
      }
      r := Ok(data);
    }

    method ReadToEnd() returns (r: Result<bytes, HttpError>)
      modifies this`incoming
      ensures r == if closed then Ok(old(incoming)) else Err(Short)
      ensures incoming == []
    {
      var data: bytes := [];
      while true
        invariant data + incoming == old(incoming)
        decreases |incoming|
      {
        var part := Read(8192);
        if part.Err? {
          return Err(Short);
        }
        if part.value == [] {
          assert data + [] == data;
          return Ok(data);
        }
        data := data + part.value;
      }
    }
  }

  /** Reads first what arrived together with the headers, then the socket. */
  class ResponseBodyReader {
    const stream: Stream
    const initial: bytes
    var position: nat

    constructor (stream: Stream, initial: bytes)
      ensures this.stream == stream && this.initial == initial && position == 0
    {
      this.stream, this.initial, position := stream, initial, 0;
    }

    ghost predicate Valid()
      reads this`position
    {
      position <= |initial|
    }

    /** Every byte still to be read, wherever it is. */
    ghost function Ahead(): bytes
      reads this`position, stream`incoming
      requires Valid()
    {
      initial[position..] + stream.incoming
    }

    method ReadByte() returns (r: Result<byte, HttpError>)
      requires Valid()
      modifies this`position, stream`incoming
      ensures Valid()
      ensures old(Ahead()) == [] ==> r == Err(Short)
      ensures old(Ahead()) != [] ==> r == Ok(old(Ahead())[0]) && Ahead() == old(Ahead())[1..]
    {
      if position < |initial| {
        r := Ok(initial[position]);
        position := position + 1;
        return;
      }
      var one := stream.ReadExact(1);
      r := if one.Ok? then Ok(one.value[0]) else Err(one.error);
    }

    method ReadLine() returns (r: Result<bytes, HttpError>)
      requires Valid()
      modifies this`position, stream`incoming
      ensures Valid()
      ensures match TakeLine(old(Ahead()))
              case Ok((line, rest)) => r == Ok(line) && Ahead() == rest
              case Err(e) => r == Err(e)
    {
      var line: bytes := [];
      PrependNothing(TakeLine(Ahead()));
      hide Prepend;
      while true
        invariant Valid()
        invariant TakeLine(old(Ahead())) == Prepend(line, TakeLine(Ahead()))
        decreases |Ahead()|
      {
        TakeLineUnfold(Ahead(), line);
        ghost var ahead := Ahead();
        var b := ReadByte();
        if b.Err? {
          return Err(b.error);
        }
        if b.value == CR {
          var next := ReadByte();
          if next.Err? {
            return Err(next.error);
          }
          if next.value != LF {
            return Err(Malformed);
          }
          return Ok(line);
        }
        line := line + [b.value];
      }
    }

    method ReadExactInto(destination: bytes, length: nat) returns (r: Result<bytes, HttpError>)
      requires Valid()
      modifies this`position, stream`incoming
      ensures Valid()
      ensures length <= |old(Ahead())| ==>
        r == Ok(destination + old(Ahead())[..length]) && Ahead() == old(Ahead())[length..]
      ensures length > |old(Ahead())| ==> r == Err(Short)
    {
      ghost var ahead := Ahead();
      var available := |initial| - position;
      var fromInitial := if available < length then available else length;
      var filled := destination + initial[position..position + fromInitial];
      position := position + fromInitial;
      if length <= |ahead| {
        var taken, tail := initial[old(position)..position], stream.incoming[..length - fromInitial];
        assert ahead[..length] == taken + tail;
        assert ahead[length..] == initial[position..] + stream.incoming[length - fromInitial..];
        Assoc(destination, taken, tail);
      }
      var tail := stream.ReadExact(length - fromInitial);
      r := if tail.Ok? then Ok(filled + tail.value) else Err(tail.error);
    }
  }

  lemma PrependNothing(r: Result<(bytes, bytes), HttpError>)
    ensures Prepend([], r) == r
  {
    if r.Ok? {
      assert [] + r.value.0 == r.value.0;
    }
  }

  /** One step of `TakeLine` with `line` already read. */
  lemma {:induction false} TakeLineUnfold(ahead: bytes, line: bytes)
    ensures
      var r := Prepend(line, TakeLine(ahead));
      if ahead == [] then r == Err(Short)
      else if ahead[0] != CR then r == Prepend(line + [ahead[0]], TakeLine(ahead[1..]))
      else if |ahead| == 1 then r == Err(Short)
      else if ahead[1] != LF then r == Err(Malformed)
      else r == Ok((line, ahead[1..][1..]))
  {
    if ahead != [] {
      PrependTwice(line, [ahead[0]], TakeLine(ahead[1..]));
      assert line + [] == line;
    }
  }

  lemma PrependTwice(a: bytes, b: bytes, r: Result<(bytes, bytes), HttpError>)
    ensures Prepend(a, Prepend(b, r)) == Prepend(a + b, r)
  {
    if r.Ok? {
      Assoc(a, b, r.value.0);
    }
  }

  /** `tail` is what remains of `whole` after some prefix. */
  ghost predicate IsSuffix(tail: bytes, whole: bytes) {
    |tail| <= |whole| && tail == whole[|whole| - |tail|..]
  }

  /**
   * Decodes a chunked body split in any way between `initial` and the socket, which may
   * deliver it in any fragments: the outcome is the one of the bytes read as a whole.
   */
  method DecodeChunked(stream: Stream, initial: bytes) returns (r: Result<bytes, HttpError>)
    modifies stream`incoming
    ensures match DecodeChunks(initial + old(stream.incoming))
            case Ok((data, rest)) => r == Ok(data) && IsSuffix(stream.incoming, rest)
            case Err(e) => r == Err(e)
  {
    var reader := new ResponseBodyReader(stream, initial);
    var decoded: bytes := [];
    ghost var whole := DecodeChunks(reader.Ahead());
    assert reader.Ahead() == initial + old(stream.incoming);
    PrependNothing(whole);
    hide Prepend, DecodeChunks, TakeLine, ChunkSize, SkipTrailers, TakeTerminator;
    while true
      invariant reader.Valid()
      invariant whole == Prepend(decoded, DecodeChunks(reader.Ahead()))
      decreases |reader.Ahead()|
    {
      DecodeChunksUnfold(reader.Ahead(), decoded);
      var sizeLine := reader.ReadLine();
      if sizeLine.Err? {
        return Err(sizeLine.error);
      }
      var size := ChunkSize(sizeLine.value);
      if size.Err? {
        return Err(size.error);
      }
      if size.value == 0 {
        var done := ReadTrailers(reader);
        return if done.Ok? then Ok(decoded) else Err(done.error);
      }
      ghost var rest := reader.Ahead();
      var more := reader.ReadExactInto(decoded, size.value);
      if more.Err? {
        return Err(more.error);
      }
      var terminated := ReadTerminator(reader);
      if terminated.Err? {
        return Err(terminated.error);
      }
      decoded := more.value;
    }
  }

  /** One step of `DecodeChunks` with `decoded` already read. */
  lemma {:induction false} DecodeChunksUnfold(ahead: bytes, decoded: bytes)
    ensures
      var r := Prepend(decoded, DecodeChunks(ahead));
      match TakeLine(ahead)
      case Err(e) => r == Err(e)
      case Ok((line, rest)) =>
        |rest| < |ahead| &&
        match ChunkSize(line)
        case Err(e) => r == Err(e)
        case Ok(size) =>
          if size == 0 then
            match SkipTrailers(rest)
            case Err(e) => r == Err(e)
            case Ok(after) => r == Ok((decoded, after))
          else if |rest| < size then r == Err(Short)
          else
            match TakeTerminator(rest[size..])
            case Err(e) => r == Err(e)
            case Ok(after) => |after| < |ahead| && r == Prepend(decoded + rest[..size], DecodeChunks(after))
  {
    hide TakeLine, ChunkSize, SkipTrailers, TakeTerminator;
    assert decoded + [] == decoded;
    var line := TakeLine(ahead);
    if line.Ok? {
      var rest := line.value.1;
      var size := ChunkSize(line.value.0);
      if size.Ok? && 0 < size.value <= |rest| {
        var after := TakeTerminator(rest[size.value..]);
        if after.Ok? {
          PrependTwice(decoded, rest[..size.value], DecodeChunks(after.value));
        }
      }
    }
  }

  method ReadTrailers(reader: ResponseBodyReader) returns (r: Result<(), HttpError>)
    requires reader.Valid()
    modifies reader`position, reader.stream`incoming
    ensures reader.Valid()
    ensures match SkipTrailers(old(reader.Ahead()))
            case Ok(rest) => r == Ok(()) && reader.Ahead() == rest
            case Err(e) => r == Err(e)
  {
    while true
      invariant reader.Valid()
      invariant SkipTrailers(old(reader.Ahead())) == SkipTrailers(reader.Ahead())
      decreases |reader.Ahead()|
    {
      var line := reader.ReadLine();
      if line.Err? {
        return Err(line.error);
      }
      if line.value == [] {
        return Ok(());
      }
    }
  }

  method ReadTerminator(reader: ResponseBodyReader) returns (r: Result<(), HttpError>)
    requires reader.Valid()
    modifies reader`position, reader.stream`incoming
    ensures reader.Valid()
    ensures match TakeTerminator(old(reader.Ahead()))
            case Ok(rest) => r == Ok(()) && reader.Ahead() == rest
            case Err(e) => r == Err(e)
  {
    var first := reader.ReadByte();
    if first.Err? {
      return Err(first.error);
    }
    if first.value != CR {
      return Err(Malformed);
    }
    var second := reader.ReadByte();
    if second.Err? {
      return Err(second.error);
    }
    return if second.value == LF then Ok(()) else Err(Malformed);
  }
}
