/** The HxByteRLE decoder as a loop over a read cursor into the compressed stream
    and a write cursor into an output array of exactly the declared length.
    Every read and every write is preceded by the check that keeps it in bounds,
    and the result is the one the reference `RleSpec.Decode` describes. */
module RleDecoder {
  import opened Results
  import opened Bytes
  import opened Tokens
  import opened RleSpec

  method Decode(input: seq<byte>, count: int) returns (r: Decoded)
    ensures r == RleSpec.Decode(input, count)
    ensures r.Ok? ==> |r.value| == count
  {
    if count <= 0 {
      return Err(InvalidOutputLength(count));
    }
    var output := new byte[count];
    var failure, put := DecodeInto(input, output);
    if failure.Some? {
      return Err(failure.value);
    }
    if put != count {
      return Err(OutputSizeMismatch(count, put));
    }
    assert output[..put] == output[..];
    return Ok(output[..]);
  }

  /** The decoding loop: expands `input` into `output`, token by token, and
      reports either the error that stopped it or how many bytes it wrote. */
  method DecodeInto(input: seq<byte>, output: array<byte>) returns (failure: Option<DecodeError>, put: nat)
    modifies output
    ensures failure.Some? ==> Expand(input, output.Length) == Err(failure.value)
    ensures failure.None? ==> put <= output.Length && Expand(input, output.Length) == Ok(output[..put])
  {
    var get: nat := 0;
    put := 0;
    var room: nat := output.Length;  // output space still free
    StartOfStream(input, room, output[..put]);
    while get < |input|
      invariant get <= |input|
      invariant put + room == output.Length
      invariant Expand(input, output.Length) == Prepend(output[..put], Expand(input[get..], room))
      decreases |input| - get
    {
      var stop;
      stop, get, put, room := Advance(input, output, get, put, room);
      if stop.Some? {
        return stop, put;
      }
    }
    ExhaustedAt(input, room, output[..put]);
    return None, put;
  }

  /** One pass of the decoding loop: decodes the token at `get` and moves both
      cursors past it, keeping the loop's invariant, or reports the error that
      stops the loop. */
  method Advance(input: seq<byte>, output: array<byte>, get: nat, put: nat, room: nat)
    returns (stop: Option<DecodeError>, get': nat, put': nat, room': nat)
    requires get < |input| && put + room == output.Length
    requires Expand(input, output.Length) == Prepend(output[..put], Expand(input[get..], room))
    modifies output
    ensures stop.Some? ==> Expand(input, output.Length) == Err(stop.value)
    ensures stop.None? ==> get < get' <= |input| && put' + room' == output.Length
    ensures stop.None? ==>
              Expand(input, output.Length) == Prepend(output[..put'], Expand(input[get'..], room'))
  {
    stop, get', put', room' := DecodeToken(input, get, output, put, room, output[..put]);
  }

  /** Nothing decoded yet: the whole stream's expansion is still ahead. */
  lemma StartOfStream(input: seq<byte>, room: nat, done: seq<byte>)
    requires done == []
    ensures Expand(input, room) == Prepend(done, Expand(input[0..], room))
  {
    assert input[0..] == input;
    PrependEmpty(Expand(input, room));
  }

  /** Decodes the one token at read position `get` into `output` at write
      position `put`, with `room` bytes of the output still free. It fails, with
      the error the reference reports there, when the token's payload is cut
      short or its run does not fit; otherwise it says where the next token
      starts, where the write cursor moved and how much room is left, and the
      output so far followed by the rest of the stream's expansion is what it
      was before. */
  method DecodeToken(input: seq<byte>, get: nat, output: array<byte>, put: nat, room: nat,
                     ghost done: seq<byte>)
    returns (failure: Option<DecodeError>, next: nat, put': nat, after: nat)
    requires get < |input| && put + room == output.Length && output[..put] == done
    modifies output
    ensures failure.Some? ==> Prepend(done, Expand(input[get..], room)) == Err(failure.value)
    ensures failure.None? ==> get < next <= |input| && put <= put' && put' + after == output.Length
    ensures failure.None? ==>
              Prepend(done, Expand(input[get..], room)) ==
                Prepend(output[..put'], Expand(input[next..], after))
  {
    var c := input[get];
    var n := RunLength(c);
    // where the next token starts: after n literal bytes, or after one fill byte
    next := if HighBit(c) then get + 1 + n else get + 2;
    failure := TokenFault(input, get, room, next);
    if failure.Some? {
      return failure, next, put, room;
    }
    put', after := put + n, room - n;
    if HighBit(c) {
      LiteralToken(input, get, output, put, room, n, next, put', after, done);
    } else {
      FillToken(input, get, output, put, room, n, next, put', after, done);
    }
  }

  /** The two checks made before a token at `get` is decoded: that its payload
      ends by `next`, inside the stream, and that its run fits in `room`. Either
      failing is the error the reference reports for the rest of the stream. */
  method TokenFault(input: seq<byte>, get: nat, room: nat, next: nat) returns (failure: Option<DecodeError>)
    requires get < |input|
    requires next == if HighBit(input[get]) then get + 1 + RunLength(input[get]) else get + 2
    ensures failure.Some? ==> Expand(input[get..], room) == Err(failure.value)
    ensures failure.None? <==> next <= |input| && RunLength(input[get]) <= room
  {
    if |input| < next {
      TruncatedAt(input, get, room, []);
      PrependEmpty(Expand(input[get..], room));
      return Some(TruncatedInput);
    }
    if room < RunLength(input[get]) {
      OverflowAt(input, get, room, []);
      PrependEmpty(Expand(input[get..], room));
      return Some(OutputOverflow);
    }
    return None;
  }

  /** Decodes a complete literal run of `n` bytes at `get` that fits in `room`. */
  method LiteralToken(input: seq<byte>, get: nat, output: array<byte>, put: nat, room: nat, n: nat,
                      next: nat, put': nat, after: nat, ghost done: seq<byte>)
    requires get < |input| && HighBit(input[get]) && n == RunLength(input[get])
    requires next == get + 1 + n && next <= |input| && n + after == room
    requires put + room == output.Length && output[..put] == done && put' == put + n
    modifies output
    ensures Prepend(done, Expand(input[get..], room)) ==
              Prepend(output[..put'], Expand(input[next..], after))
  {
    WriteLiteral(output, put, input[get + 1..next], n, put', done);
    LiteralStep(input, get, n, room, done, next, after);
  }

  /** Decodes a complete fill run of `n` bytes at `get` that fits in `room`. */
  method FillToken(input: seq<byte>, get: nat, output: array<byte>, put: nat, room: nat, n: nat,
                   next: nat, put': nat, after: nat, ghost done: seq<byte>)
    requires get + 1 < |input| && !HighBit(input[get]) && n == RunLength(input[get])
    requires next == get + 2 && n + after == room
    requires put + room == output.Length && output[..put] == done && put' == put + n
    modifies output
    ensures Prepend(done, Expand(input[get..], room)) ==
              Prepend(output[..put'], Expand(input[next..], after))
  {
    WriteFill(output, put, input[get + 1], n, put', done);
    FillStep(input, get, n, room, done, next, after);
  }

  /** Copies a literal run into `output` from index `at` up to `end`; nothing
      before `at` changes. */
  method WriteLiteral(output: array<byte>, at: nat, data: seq<byte>, n: nat, end: nat,
                      ghost before: seq<byte>)
    requires |data| == n && at + n == end <= output.Length && output[..at] == before
    modifies output
    ensures output[..end] == before + data
  {
    var k := 0;
    while k < |data|
      invariant k <= |data|
      invariant output[..at + k] == before + data[..k]
    {
      output[at + k] := data[k];
      k := k + 1;
    }
  }

  /** Writes `n` copies of `v` into `output` from index `at` up to `end`;
      nothing before `at` changes. */
  method WriteFill(output: array<byte>, at: nat, v: byte, n: nat, end: nat, ghost before: seq<byte>)
    requires at + n == end <= output.Length && output[..at] == before
    modifies output
    ensures output[..end] == before + Repeat(v, n)
  {
    var k := 0;
    while k < n
      invariant k <= n
      invariant output[..at + k] == before + Repeat(v, k)
    {
      output[at + k] := v;
      k := k + 1;
    }
  }
}
