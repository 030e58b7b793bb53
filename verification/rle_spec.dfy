/** The HxByteRLE decoder as a pure function: the corrected reference every
    implementation is compared with.

    It does what the three implementations in the repository do on a well-formed
    stream and, where they overrun, hang or stay silent, fails with one of four
    explicit errors: a declared length that is not positive, a token whose payload
    is cut short, a token that would write past the declared length, and a stream
    that ends having produced fewer bytes than declared. */
module RleSpec {
  import opened Results
  import opened Bytes
  import opened Tokens

  datatype DecodeError =
    | InvalidOutputLength(declared: int)
    | TruncatedInput
    | OutputOverflow
    | OutputSizeMismatch(expected: nat, produced: nat)

  type Decoded = Result<seq<byte>, DecodeError>

  /** `prefix` placed in front of a successful expansion; errors pass through. */
  function Prepend(prefix: seq<byte>, r: Decoded): Decoded {
    match r
    case Ok(s) => Ok(prefix + s)
    case Err(e) => Err(e)
  }

  /** Expands a stream token by token into at most `room` bytes.
      Each token is checked for a complete payload first and for room second. */
  function Expand(input: seq<byte>, room: nat): (r: Decoded)
    ensures r.Ok? ==> |r.value| <= room
    ensures r.Err? ==> r.error == TruncatedInput || r.error == OutputOverflow
    decreases |input|
  {
    if |input| == 0 then Ok([])
    else
      match NextToken(input)
      case None => Err(TruncatedInput)
      case Some(t) =>
        var run := Expansion(t);
        if room < |run| then Err(OutputOverflow)
        else Prepend(run, Expand(input[|Wire(t)|..], room - |run|))
  }

  /** Decodes `input` into exactly `count` bytes. */
  function Decode(input: seq<byte>, count: int): (r: Decoded)
    ensures count <= 0 <==> r == Err(InvalidOutputLength(count))
    ensures r.Ok? ==> |r.value| == count
    ensures r.Err? && r.error.OutputSizeMismatch? ==>
              r.error.expected == count && r.error.produced < count
  {
    if count <= 0 then Err(InvalidOutputLength(count))
    else
      match Expand(input, count)
      case Err(e) => Err(e)
      case Ok(out) =>
        if |out| == count then Ok(out) else Err(OutputSizeMismatch(count, |out|))
  }

  // ---------------------------------------------------------------------------
  // The reference against the token reading of a stream

  /** One token of a stream: its expansion goes in front of the rest's. */
  lemma ExpandStep(input: seq<byte>, room: nat, t: Token, after: nat)
    requires |input| > 0 && NextToken(input) == Some(t)
    requires |Expansion(t)| + after == room
    ensures Expand(input, room) == Prepend(Expansion(t), Expand(input[|Wire(t)|..], after))
  {
  }

  /** A token at `get` whose payload runs past the end of the stream stops
      expansion with `TruncatedInput`, whatever was produced before. */
  lemma TruncatedAt(input: seq<byte>, get: nat, room: nat, done: seq<byte>)
    requires get < |input|
    requires if HighBit(input[get]) then |input| - (get + 1) < RunLength(input[get])
             else |input| - (get + 1) < 1
    ensures Prepend(done, Expand(input[get..], room)) == Err(TruncatedInput)
  {
    assert input[get..][0] == input[get];
  }

  /** A complete token at `get` longer than the free `room` stops expansion with
      `OutputOverflow`. */
  lemma OverflowAt(input: seq<byte>, get: nat, room: nat, done: seq<byte>)
    requires get < |input|
    requires if HighBit(input[get]) then |input| - (get + 1) >= RunLength(input[get])
             else |input| - (get + 1) >= 1
    requires room < RunLength(input[get])
    ensures Prepend(done, Expand(input[get..], room)) == Err(OutputOverflow)
  {
    var rest := input[get..];
    assert rest[0] == input[get];
    var t := NextToken(rest).value;
    assert |Expansion(t)| == RunLength(input[get]);
  }

  /** Once the stream is consumed, expansion has produced exactly `done`. */
  lemma ExhaustedAt(input: seq<byte>, room: nat, done: seq<byte>)
    ensures Prepend(done, Expand(input[|input|..], room)) == Ok(done)
  {
    assert input[|input|..] == [];
    assert done + [] == done;
  }

  /** The decoder's literal step: with `done` produced so far, a complete literal
      run of `n` bytes at `get` that fits in `room` appends those bytes. */
  lemma LiteralStep(input: seq<byte>, get: nat, n: nat, room: nat, done: seq<byte>,
                    next: nat, after: nat)
    requires get < |input| && HighBit(input[get]) && n == RunLength(input[get])
    requires next == get + 1 + n && next <= |input| && n + after == room
    ensures Prepend(done, Expand(input[get..], room)) ==
              Prepend(done + input[get + 1..next], Expand(input[next..], after))
  {
    var data := input[get + 1..next];
    assert input[get..] == Wire(Literal(data)) + input[next..];
    ExpandWire(Literal(data), input[next..], room, after);
    PrependAssoc(done, data, Expand(input[next..], after));
  }

  /** The decoder's fill step: with `done` produced so far, a complete fill run
      at `get` whose length fits in `room` appends that many copies of its byte. */
  lemma FillStep(input: seq<byte>, get: nat, n: nat, room: nat, done: seq<byte>,
                 next: nat, after: nat)
    requires get + 1 < |input| && !HighBit(input[get]) && n == RunLength(input[get])
    requires next == get + 2 && n + after == room
    ensures Prepend(done, Expand(input[get..], room)) ==
              Prepend(done + Repeat(input[get + 1], n), Expand(input[next..], after))
  {
    var v := input[get + 1];
    assert input[get..] == Wire(Fill(n, v)) + input[next..];
    ExpandWire(Fill(n, v), input[next..], room, after);
    PrependAssoc(done, Repeat(v, n), Expand(input[next..], after));
  }

  /** A stream expands successfully exactly when it splits into complete tokens
      whose expansions fit in `room`; the result is then their concatenation. */
  lemma {:induction false} ExpandMatchesTokens(input: seq<byte>, room: nat)
    ensures Expand(input, room).Ok? <==>
              Parse(input).Some? && |ExpandAll(Parse(input).value)| <= room
    ensures Expand(input, room).Ok? ==> Expand(input, room).value == ExpandAll(Parse(input).value)
    ensures Expand(input, room) == Err(TruncatedInput) ==> Parse(input).None?
    decreases |input|
  {
    if |input| > 0 && NextToken(input).Some? {
      var t := NextToken(input).value;
      var run := Expansion(t);
      var tail := input[|Wire(t)|..];
      ParseStep(input, t, |Wire(t)|);
      if room >= |run| {
        ExpandStep(input, room, t, room - |run|);
        ExpandMatchesTokens(tail, room - |run|);
      } else {
        assert Expand(input, room) == Err(OutputOverflow);
      }
    }
  }

  /** `Decode` succeeds exactly on streams of complete tokens whose expansions add
      up to the declared, positive length, and returns their concatenation. */
  lemma DecodeMatchesTokens(input: seq<byte>, count: int)
    ensures Decode(input, count).Ok? <==>
              count > 0 && Parse(input).Some? && |ExpandAll(Parse(input).value)| == count
    ensures Decode(input, count).Ok? ==> Decode(input, count).value == ExpandAll(Parse(input).value)
    ensures count > 0 && Parse(input).None? ==>
              Decode(input, count) == Err(TruncatedInput) || Decode(input, count) == Err(OutputOverflow)
    ensures Decode(input, count) == Err(TruncatedInput) ==> Parse(input).None?
  {
    if count > 0 {
      ExpandMatchesTokens(input, count);
    }
  }

  /** A stream built from well-formed tokens decodes to the concatenation of their
      expansions when the declared length is that concatenation's length. */
  lemma RoundTrip(ts: seq<Token>)
    requires AllWellFormed(ts)
    requires |ExpandAll(ts)| > 0
    ensures Decode(Serialize(ts), |ExpandAll(ts)|) == Ok(ExpandAll(ts))
  {
    ParseSerialize(ts);
    DecodeMatchesTokens(Serialize(ts), |ExpandAll(ts)|);
  }

  /** The wire bytes of well-formed tokens, followed by anything, expand to the
      tokens' expansions followed by the expansion of what comes after, in the
      room those expansions leave. */
  lemma {:induction false} ExpandSerialized(ts: seq<Token>, b: seq<byte>, room: nat, after: nat)
    requires AllWellFormed(ts)
    requires |ExpandAll(ts)| + after == room
    ensures Expand(Serialize(ts) + b, room) == Prepend(ExpandAll(ts), Expand(b, after))
    decreases |ts|
  {
    if |ts| == 0 {
      assert Serialize(ts) + b == b;
      PrependEmpty(Expand(b, room));
    } else {
      var t := ts[0];
      var tail := Serialize(ts[1..]) + b;
      var headRoom: nat := room - |Expansion(t)|;
      assert Serialize(ts) + b == Wire(t) + tail;
      ExpandWire(t, tail, room, headRoom);
      ExpandSerialized(ts[1..], b, headRoom, after);
      PrependAssoc(Expansion(t), ExpandAll(ts[1..]), Expand(b, after));
    }
  }

  /** The wire bytes of one token in front of anything expand to the token's
      expansion in front of the expansion of what follows. */
  lemma ExpandWire(t: Token, tail: seq<byte>, room: nat, after: nat)
    requires WellFormed(t) && |Expansion(t)| + after == room
    ensures Expand(Wire(t) + tail, room) == Prepend(Expansion(t), Expand(tail, after))
  {
    NextTokenOfWire(t, tail);
    assert (Wire(t) + tail)[|Wire(t)|..] == tail;
    ExpandStep(Wire(t) + tail, room, t, after);
  }

  /** Expanding a concatenation of complete token streams expands each in turn:
      the expansion of the first part is placed in front of the second's. */
  lemma ExpandConcat(a: seq<byte>, b: seq<byte>, room: nat, after: nat)
    requires Parse(a).Some?
    requires |ExpandAll(Parse(a).value)| + after == room
    ensures Expand(a + b, room) == Prepend(ExpandAll(Parse(a).value), Expand(b, after))
  {
    ExpandSerialized(Parse(a).value, b, room, after);
  }

  lemma PrependEmpty(r: Decoded)
    ensures Prepend([], r) == r
  {
    match r
    case Ok(s) => assert [] + s == s;
    case Err(_) =>
  }

  lemma PrependAssoc(p: seq<byte>, q: seq<byte>, r: Decoded)
    ensures Prepend(p, Prepend(q, r)) == Prepend(p + q, r)
  {
    match r
    case Ok(s) => assert p + (q + s) == (p + q) + s;
    case Err(_) =>
  }

  /** Zero-length runs are legal no-ops: the empty literal `0x80` consumes only
      its control byte, and the empty fill `0x00 v` consumes both of its bytes. */
  lemma ZeroRunsAreNoOps(rest: seq<byte>, v: byte, room: nat)
    ensures Expand([0x80] + rest, room) == Expand(rest, room)
    ensures Expand([0x00, v] + rest, room) == Expand(rest, room)
  {
    NextTokenOfWire(Literal([]), rest);
    assert Wire(Literal([])) == [0x80];
    assert ([0x80] + rest)[1..] == rest;
    assert Expand([0x80] + rest, room) == Prepend([], Expand(rest, room));
    PrependEmpty(Expand(rest, room));
    NextTokenOfWire(Fill(0, v), rest);
    assert Wire(Fill(0, v)) == [0x00, v];
    assert ([0x00, v] + rest)[2..] == rest;
  }

  /** The terminator the repository's test encoder appends to every stream,
      `0x00 '\n'`, leaves the decoded bytes unchanged. */
  lemma TestTerminatorIsHarmless(input: seq<byte>, count: int)
    requires Parse(input).Some?
    ensures Decode(input + [0x00, 0x0A], count) == Decode(input, count)
  {
    if count > 0 {
      var e := ExpandAll(Parse(input).value);
      if |e| <= count {
        var after: nat := count - |e|;
        TerminatorAfter(input, count, after);
      } else {
        TerminatorKeepsOverflow(input, count);
      }
    }
  }

  /** The expansion with and without the terminator, when the tokens fit. */
  lemma TerminatorAfter(input: seq<byte>, room: nat, after: nat)
    requires Parse(input).Some?
    requires |ExpandAll(Parse(input).value)| + after == room
    ensures Expand(input + [0x00, 0x0A], room) == Expand(input, room)
  {
    var e := ExpandAll(Parse(input).value);
    ExpandConcat(input, [0x00, 0x0A], room, after);
    ZeroRunsAreNoOps([], 0x0A, after);
    assert [0x00, 0x0A] + [] == [0x00, 0x0A];
    ExpandConcat(input, [], room, after);
    assert input + [] == input;
  }

  /** A stream whose tokens overflow `room` still overflows with anything appended. */
  lemma {:induction false} TerminatorKeepsOverflow(input: seq<byte>, count: nat)
    requires Parse(input).Some?
    requires |ExpandAll(Parse(input).value)| > count
    ensures Expand(input + [0x00, 0x0A], count) == Err(OutputOverflow)
    ensures Expand(input, count) == Err(OutputOverflow)
    decreases |input|
  {
    var t := NextToken(input).value;
    var w := |Wire(t)|;
    var rest := Parse(input[w..]).value;
    var n := |Expansion(t)|;
    assert Parse(input).value == [t] + rest;
    assert ([t] + rest)[1..] == rest;
    assert ExpandAll(Parse(input).value) == Expansion(t) + ExpandAll(rest);
    assert input == Wire(t) + input[w..];
    assert input + [0x00, 0x0A] == Wire(t) + (input[w..] + [0x00, 0x0A]);
    NextTokenOfWire(t, input[w..] + [0x00, 0x0A]);
    assert (input + [0x00, 0x0A])[w..] == input[w..] + [0x00, 0x0A];
    if n <= count {
      TerminatorKeepsOverflow(input[w..], count - n);
    }
  }

  /** Declaring one byte more than a stream encodes is an error reporting both
      lengths; it never pads the output. */
  lemma OneByteShortIsMismatch(input: seq<byte>, count: int)
    requires Decode(input, count).Ok?
    ensures Decode(input, count + 1) == Err(OutputSizeMismatch(count + 1, count))
  {
    DecodeMatchesTokens(input, count);
    DecodeMatchesTokens(input, count + 1);
    ExpandMatchesTokens(input, count + 1);
  }
}
