/** The pure-Python `byterle_decoder` the package falls back on when its compiled
    extension cannot be imported, exactly as written: a read cursor `get` into
    the stream, a write cursor `put` into a zeroed `uint8` buffer of `count`
    bytes, slice assignments with numpy's clamping and broadcasting, and a final
    `assert put == count`. Nothing in it checks a run against the end of the
    stream or of the buffer; the lemmas below show what that amounts to. */
module PyFallback {
  import opened Results
  import opened Bytes
  import opened Tokens
  import opened Numpy
  import RleSpec

  /** The exceptions the decoder lets escape. */
  datatype PyError =
    | NegativeDimensions   // `ValueError` from `numpy.zeros` with a negative count
    | BroadcastMismatch    // `ValueError` from a slice assignment of the wrong width
    | IndexOutOfRange      // `IndexError` reading a fill byte past the end
    | AssertionFailed      // the closing `assert put == count`

  datatype Outcome = Returned(value: seq<byte>) | Raised(error: PyError)

  /** The decoder's cursors: where it reads next, where it writes next, and the
      output buffer. */
  datatype Cursors = Cursors(get: nat, put: nat, output: seq<byte>)

  /** `byterle_decoder(data, count)`. */
  function ByteRleDecoder(data: seq<byte>, count: int): (r: Outcome)
    ensures count < 0 <==> r == Raised(NegativeDimensions)
    ensures r.Returned? ==> |r.value| == count
  {
    if count < 0 then Raised(NegativeDimensions)
    else Loop(data, count, Cursors(0, 0, Zeros(count)))
  }

  /** One pass of the loop body at a read position inside the stream. A literal
      run copies `input_data[get:get+n]` into `output[put:put+n]`; a fill run
      writes the byte after the control byte into `output[put:put+n]`. Both
      cursors then advance by the full announced amounts, whatever the slices
      selected. */
  function Step(input: seq<byte>, count: nat, c: Cursors): (r: Result<Cursors, PyError>)
    requires c.get < |input| && |c.output| == count
    ensures r.Ok? ==> |r.value.output| == count
    ensures r.Ok? ==> r.value.get > c.get && r.value.put == c.put + RunLength(input[c.get])
    ensures r.Err? ==> r.error == BroadcastMismatch || r.error == IndexOutOfRange
  {
    var numbytes := input[c.get];
    var get := c.get + 1;
    if HighBit(numbytes) then
      var n := Low7(numbytes);
      match SetSlice(c.output, c.put, c.put + n, Slice(input, get, get + n))
      case None => Err(BroadcastMismatch)
      case Some(o) => Ok(Cursors(get + n, c.put + n, o))
    else
      var n := numbytes as nat;
      if get >= |input| then Err(IndexOutOfRange)
      else
        // a single element broadcasts over any slice
        var o := SetSlice(c.output, c.put, c.put + n, [input[get]]).value;
        Ok(Cursors(get + 1, c.put + n, o))
  }

  /** `while get < len(input_data)`, then `assert put == count`. */
  function Loop(input: seq<byte>, count: nat, c: Cursors): (r: Outcome)
    requires |c.output| == count
    ensures r.Returned? ==> |r.value| == count
    ensures r != Raised(NegativeDimensions)
    decreases |input| - c.get
  {
    if c.get >= |input| then
      if c.put == count then Returned(c.output) else Raised(AssertionFailed)
    else
      match Step(input, count, c)
      case Err(e) => Raised(e)
      case Ok(c') => Loop(input, count, c')
  }

  // ---------------------------------------------------------------------------
  // Stepping through complete tokens

  /** Once the write cursor is past the end of the buffer it never comes back, so
      the closing assertion fails if nothing else does first. */
  lemma {:induction false} PastTheEndNeverReturns(input: seq<byte>, count: nat, c: Cursors)
    requires |c.output| == count && c.put > count
    ensures !Loop(input, count, c).Returned?
    decreases |input| - c.get
  {
    if c.get < |input| {
      match Step(input, count, c)
      case Err(_) =>
      case Ok(c') => PastTheEndNeverReturns(input, count, c');
    }
  }

  /** A loop pass that succeeds hands over to the next. */
  lemma LoopStep(input: seq<byte>, count: nat, c: Cursors, c': Cursors)
    requires c.get < |input| && |c.output| == count && Step(input, count, c) == Ok(c')
    ensures Loop(input, count, c) == Loop(input, count, c')
  {
  }

  /** A complete literal at `get` whose run fits in the free `room` is copied
      right after the bytes `done` already produced. */
  lemma LiteralFits(input: seq<byte>, count: nat, get: nat, done: seq<byte>, room: nat, data: seq<byte>,
                    next: nat, done': seq<byte>, after: nat)
    requires get < |input| && NextToken(input[get..]) == Some(Literal(data))
    requires |done| + room == count && |data| + after == room
    requires next == get + 1 + |data| && done' == done + data
    ensures next <= |input|
    ensures Step(input, count, Cursors(get, |done|, done + Zeros(room))) ==
              Ok(Cursors(next, |done'|, done' + Zeros(after)))
  {
    var s := input[get..];
    var n := |data|;
    assert s[0] == input[get];
    assert Slice(input, get + 1, get + 1 + n) == data by {
      SliceOfDrop(input, get, 1, 1 + n);
    }
    WriteAfter(done, room, data, data, after);
  }

  /** A complete fill run at `get` whose run fits in the free `room` is written
      right after the bytes `done` already produced. */
  lemma FillFits(input: seq<byte>, count: nat, get: nat, done: seq<byte>, room: nat, n: nat, v: byte,
                 next: nat, done': seq<byte>, after: nat)
    requires get < |input| && NextToken(input[get..]) == Some(Fill(n, v))
    requires |done| + room == count && n + after == room
    requires next == get + 2 && done' == done + Repeat(v, n)
    ensures next <= |input|
    ensures Step(input, count, Cursors(get, |done|, done + Zeros(room))) ==
              Ok(Cursors(next, |done'|, done' + Zeros(after)))
  {
    var s := input[get..];
    assert s[0] == input[get] && s[1] == input[get + 1];
    WriteAfter(done, room, Repeat(v, n), [v], after);
  }

  /** A complete token at `get` whose run fits in the free `room` is written
      right after the bytes `done` already produced. */
  lemma TokenFits(input: seq<byte>, count: nat, get: nat, done: seq<byte>, room: nat, t: Token,
                  next: nat, done': seq<byte>, after: nat)
    requires get < |input| && NextToken(input[get..]) == Some(t)
    requires |done| + room == count && |Expansion(t)| + after == room
    requires next == get + |Wire(t)| && done' == done + Expansion(t)
    ensures next <= |input|
    ensures Step(input, count, Cursors(get, |done|, done + Zeros(room))) ==
              Ok(Cursors(next, |done'|, done' + Zeros(after)))
  {
    match t
    case Literal(data) => LiteralFits(input, count, get, done, room, data, next, done', after);
    case Fill(n, v) => FillFits(input, count, get, done, room, n, v, next, done', after);
  }

  /** The loop passes a complete token at `get` that fits in the free `room`. */
  lemma FitStep(input: seq<byte>, count: nat, get: nat, done: seq<byte>, room: nat, t: Token,
                next: nat, done': seq<byte>, after: nat)
    requires get < |input| && NextToken(input[get..]) == Some(t)
    requires |done| + room == count && |Expansion(t)| + after == room
    requires next == get + |Wire(t)| && done' == done + Expansion(t)
    ensures Loop(input, count, Cursors(get, |done|, done + Zeros(room))) ==
              Loop(input, count, Cursors(next, |done'|, done' + Zeros(after)))
  {
    TokenFits(input, count, get, done, room, t, next, done', after);
    LoopStep(input, count, Cursors(get, |done|, done + Zeros(room)),
             Cursors(next, |done'|, done' + Zeros(after)));
  }

  /** A complete token at `get` whose run does not fit in the free `room` makes
      the decoder fail, one way or another. */
  lemma TokenOverflows(input: seq<byte>, count: nat, get: nat, done: seq<byte>, room: nat, t: Token)
    requires get < |input| && NextToken(input[get..]) == Some(t)
    requires |done| + room == count && room < |Expansion(t)|
    ensures !Loop(input, count, Cursors(get, |done|, done + Zeros(room))).Returned?
  {
    var c := Cursors(get, |done|, done + Zeros(room));
    assert input[get..][0] == input[get];
    match Step(input, count, c)
    case Err(_) =>
    case Ok(c') => PastTheEndNeverReturns(input, count, c');
  }

  /** On a stream of complete tokens whose runs fit in the free `room`, the
      decoder returns their concatenation after `done` when they fill it
      exactly, and fails its closing assertion when they fall short. */
  lemma {:induction false} OnFittingTokens(input: seq<byte>, count: nat, get: nat, done: seq<byte>,
                                           room: nat, ts: seq<Token>)
    requires get <= |input| && Parse(input[get..]) == Some(ts)
    requires |done| + room == count && |ExpandAll(ts)| <= room
    ensures Loop(input, count, Cursors(get, |done|, done + Zeros(room))) ==
              if |ExpandAll(ts)| == room then Returned(done + ExpandAll(ts)) else Raised(AssertionFailed)
    decreases |input| - get
  {
    var s := input[get..];
    if get == |input| {
      assert s == [];
      if room == 0 {
        assert done + Zeros(room) == done;
      }
    } else {
      var t, next, rest := SplitHead(input, get, ts);
      var after: nat := room - |Expansion(t)|;
      var done' := done + Expansion(t);
      FitStep(input, count, get, done, room, t, next, done', after);
      OnFittingTokens(input, count, next, done', after, rest);
      AppendAssoc(done, Expansion(t), ExpandAll(rest));
    }
  }

  /** On a stream of complete tokens whose runs overflow the free `room`, the
      decoder never returns. */
  lemma {:induction false} OverflowingTokens(input: seq<byte>, count: nat, get: nat, done: seq<byte>,
                                             room: nat, ts: seq<Token>)
    requires get <= |input| && Parse(input[get..]) == Some(ts)
    requires |done| + room == count && |ExpandAll(ts)| > room
    ensures !Loop(input, count, Cursors(get, |done|, done + Zeros(room))).Returned?
    decreases |input| - get
  {
    if get < |input| {
      var t, next, rest := SplitHead(input, get, ts);
      if |Expansion(t)| <= room {
        var after: nat := room - |Expansion(t)|;
        FitStep(input, count, get, done, room, t, next, done + Expansion(t), after);
        OverflowingTokens(input, count, next, done + Expansion(t), after, rest);
      } else {
        TokenOverflows(input, count, get, done, room, t);
      }
    }
  }

  /** On a stream that splits into complete tokens, the decoder returns exactly
      the bytes they stand for when those are `count` bytes, fails its closing
      assertion when they are fewer, and does not return when they are more. */
  lemma OnCompleteStreams(input: seq<byte>, count: int, ts: seq<Token>)
    requires Parse(input) == Some(ts) && count >= 0
    ensures ByteRleDecoder(input, count).Returned? <==> |ExpandAll(ts)| == count
    ensures |ExpandAll(ts)| == count ==> ByteRleDecoder(input, count) == Returned(ExpandAll(ts))
    ensures |ExpandAll(ts)| < count ==> ByteRleDecoder(input, count) == Raised(AssertionFailed)
  {
    var done: seq<byte> := [];
    StartOfStream(input, count, done, ExpandAll(ts));
    if |ExpandAll(ts)| <= count {
      OnFittingTokens(input, count, 0, done, count, ts);
    } else {
      OverflowingTokens(input, count, 0, done, count, ts);
    }
  }

  /** The decoder starts at the head of the stream with nothing produced. */
  lemma StartOfStream(input: seq<byte>, count: nat, done: seq<byte>, out: seq<byte>)
    requires done == []
    ensures input[0..] == input && done + out == out
    ensures ByteRleDecoder(input, count) == Loop(input, count, Cursors(0, |done|, done + Zeros(count)))
  {
    assert done + Zeros(count) == Zeros(count);
  }

  /** Wherever the reference decoder succeeds, the fallback returns the same bytes. */
  lemma AcceptsReference(input: seq<byte>, count: int)
    requires RleSpec.Decode(input, count).Ok?
    ensures ByteRleDecoder(input, count) == Returned(RleSpec.Decode(input, count).value)
  {
    RleSpec.DecodeMatchesTokens(input, count);
    OnCompleteStreams(input, count, Parse(input).value);
  }

  /** On a stream of complete tokens and a positive count, the fallback returns
      exactly when the reference decoder succeeds, and returns the same bytes. */
  lemma AgreesOnCompleteStreams(input: seq<byte>, count: int)
    requires Parse(input).Some? && count > 0
    ensures ByteRleDecoder(input, count).Returned? <==> RleSpec.Decode(input, count).Ok?
    ensures ByteRleDecoder(input, count).Returned? ==>
              ByteRleDecoder(input, count).value == RleSpec.Decode(input, count).value
  {
    RleSpec.DecodeMatchesTokens(input, count);
    OnCompleteStreams(input, count, Parse(input).value);
  }

  // ---------------------------------------------------------------------------
  // Streams cut short

  /** A stream that ends in a literal control byte announcing two or more bytes
      followed by only one of them, after complete tokens. */
  predicate EndsInShortLiteral(input: seq<byte>) {
    |input| >= 2 && HighBit(input[|input| - 2]) && RunLength(input[|input| - 2]) >= 2 &&
    Parse(input[..|input| - 2]).Some?
  }

  /** What such a stream stands for to the fallback: the complete tokens' bytes,
      then the one payload byte broadcast over the whole announced run. */
  function ShortLiteralOutput(input: seq<byte>): seq<byte>
    requires EndsInShortLiteral(input)
  {
    ExpandAll(Parse(input[..|input| - 2]).value) +
    Repeat(input[|input| - 1], RunLength(input[|input| - 2]))
  }

  /** A stream cut short in its first token ends in a short literal only if it
      is that literal's two bytes, and then stands for its one byte repeated. */
  lemma ShortLiteralIsLast(s: seq<byte>)
    requires |s| > 0 && NextToken(s).None? && EndsInShortLiteral(s)
    ensures |s| == 2
    ensures ShortLiteralOutput(s) == Repeat(s[1], RunLength(s[0]))
  {
    if |s| > 2 {
      NextTokenExtends(s[..|s| - 2], s);
    }
    assert s[..0] == [];
  }

  /** A short literal at the end of a stream whose first token `t` is complete
      lies wholly after that token. */
  lemma ShortLiteralAfterToken(s: seq<byte>, t: Token, next: nat)
    requires |s| > 0 && NextToken(s) == Some(t) && next == |Wire(t)|
    requires EndsInShortLiteral(s)
    ensures next <= |s| - 2
  {
    if 2 < |s| {
      NextTokenExtends(s[..|s| - 2], s);
    }
  }

  /** Past a complete first token `t`, a stream ends in a short literal exactly
      when the rest does, and stands for `t`'s bytes in front of the rest's. */
  lemma ShortLiteralShift(s: seq<byte>, t: Token, next: nat)
    requires |s| > 0 && NextToken(s) == Some(t) && next == |Wire(t)|
    ensures next <= |s|
    ensures EndsInShortLiteral(s) <==> EndsInShortLiteral(s[next..])
    ensures EndsInShortLiteral(s) ==>
              ShortLiteralOutput(s) == Expansion(t) + ShortLiteralOutput(s[next..])
  {
    if EndsInShortLiteral(s) {
      ShortLiteralAfterToken(s, t, next);
    }
    if next <= |s| - 2 {
      ShortLiteralTail(s, t, next);
    }
  }

  /** `ShortLiteralShift` where the stream goes on for two bytes or more after `t`. */
  lemma ShortLiteralTail(s: seq<byte>, t: Token, next: nat)
    requires |s| > 0 && NextToken(s) == Some(t) && next == |Wire(t)| && next <= |s| - 2
    ensures EndsInShortLiteral(s) <==> EndsInShortLiteral(s[next..])
    ensures EndsInShortLiteral(s) ==>
              ShortLiteralOutput(s) == Expansion(t) + ShortLiteralOutput(s[next..])
  {
    var len := |s|;
    var tail, p, p', a, b := s[next..], s[..len - 2], s[next..len - 2], s[len - 2], s[len - 1];
    TailEnds(s, next, tail, p', a, b);
    ShortLiteralParts(s, p, a, b);
    ShortLiteralParts(tail, p', a, b);
    PrefixAfterToken(s, t, next, p, p');
    if Parse(p').Some? {
      AppendAssoc(Expansion(t), ExpandAll(Parse(p').value), Repeat(b, RunLength(a)));
    }
  }

  /** A stream's last two bytes, and those before them, as seen from a suffix
      holding all three parts. */
  lemma TailEnds(s: seq<byte>, next: nat, tail: seq<byte>, p': seq<byte>, a: byte, b: byte)
    requires next <= |s| - 2 && tail == s[next..]
    requires p' == s[next..|s| - 2] && a == s[|s| - 2] && b == s[|s| - 1]
    ensures |tail| >= 2 && p' == tail[..|tail| - 2] && a == tail[|tail| - 2] && b == tail[|tail| - 1]
  {
  }

  /** `EndsInShortLiteral` and `ShortLiteralOutput` in terms of a stream's
      parts: the bytes `p` before the last two, and the last two `a` and `b`. */
  lemma ShortLiteralParts(x: seq<byte>, p: seq<byte>, a: byte, b: byte)
    requires |x| >= 2 && p == x[..|x| - 2] && a == x[|x| - 2] && b == x[|x| - 1]
    ensures EndsInShortLiteral(x) <==> HighBit(a) && RunLength(a) >= 2 && Parse(p).Some?
    ensures EndsInShortLiteral(x) ==> ShortLiteralOutput(x) == ExpandAll(Parse(p).value) + Repeat(b, RunLength(a))
  {
  }

  /** The bytes of a stream before its last two, past a complete first token
      `t`, parse exactly when they do with `t` in front. */
  lemma PrefixAfterToken(s: seq<byte>, t: Token, next: nat, p: seq<byte>, p': seq<byte>)
    requires |s| > 0 && NextToken(s) == Some(t) && next == |Wire(t)| && next <= |s| - 2
    requires p == s[..|s| - 2] && p' == s[next..|s| - 2]
    ensures Parse(p).Some? <==> Parse(p').Some?
    ensures Parse(p').Some? ==> ExpandAll(Parse(p).value) == Expansion(t) + ExpandAll(Parse(p').value)
  {
    NextTokenOfPrefix(p, s);
    ParseStep(p, t, next);
    assert p[next..] == p';
  }

  /** A two-byte literal at `get` whose announced run fills the free `room`
      broadcasts its one byte over that run and ends the stream. */
  lemma BroadcastToEnd(input: seq<byte>, count: nat, get: nat, done: seq<byte>, room: nat)
    requires get + 2 == |input| && HighBit(input[get]) && RunLength(input[get]) == room >= 2
    requires |done| + room == count
    ensures Loop(input, count, Cursors(get, |done|, done + Zeros(room))) ==
              Returned(done + Repeat(input[get + 1], room))
  {
    var v := input[get + 1];
    assert Slice(input, get + 1, get + 1 + room) == [v];
    WriteAfter(done, room, Repeat(v, room), [v], 0);
    assert (done + Repeat(v, room)) + Zeros(0) == done + Repeat(v, room);
  }

  /** A stream whose first token is cut short makes the decoder return only when
      that token is a short literal filling the free `room` exactly, and then
      with its one byte broadcast over the run. */
  lemma CutHere(input: seq<byte>, count: nat, get: nat, done: seq<byte>, room: nat)
    requires get < |input| && NextToken(input[get..]).None? && |done| + room == count
    ensures Loop(input, count, Cursors(get, |done|, done + Zeros(room))).Returned? <==>
              EndsInShortLiteral(input[get..]) && |ShortLiteralOutput(input[get..])| == room
    ensures Loop(input, count, Cursors(get, |done|, done + Zeros(room))).Returned? ==>
              Loop(input, count, Cursors(get, |done|, done + Zeros(room))).value ==
              done + ShortLiteralOutput(input[get..])
  {
    var s := input[get..];
    assert s[0] == input[get];
    if EndsInShortLiteral(s) {
      ShortLiteralIsLast(s);
    }
    if HighBit(input[get]) && RunLength(input[get]) == room && |s| == 2 {
      BroadcastToEnd(input, count, get, done, room);
    }
  }

  /** Past a complete first token, a stream cut short later on is handled as the
      rest of it is, after that token's run. */
  lemma {:induction false} OnCutTokens(input: seq<byte>, count: nat, get: nat, done: seq<byte>, room: nat)
    requires get < |input| && Parse(input[get..]).None? && |done| + room == count
    ensures Loop(input, count, Cursors(get, |done|, done + Zeros(room))).Returned? <==>
              EndsInShortLiteral(input[get..]) && |ShortLiteralOutput(input[get..])| == room
    ensures Loop(input, count, Cursors(get, |done|, done + Zeros(room))).Returned? ==>
              Loop(input, count, Cursors(get, |done|, done + Zeros(room))).value ==
              done + ShortLiteralOutput(input[get..])
    decreases |input| - get
  {
    var s := input[get..];
    match NextToken(s)
    case None =>
      CutHere(input, count, get, done, room);
    case Some(t) =>
      var next := get + |Wire(t)|;
      ShortLiteralShift(s, t, |Wire(t)|);
      ParseStep(s, t, |Wire(t)|);
      assert s[|Wire(t)|..] == input[next..];
      if |Expansion(t)| <= room {
        var after: nat := room - |Expansion(t)|;
        FitStep(input, count, get, done, room, t, next, done + Expansion(t), after);
        OnCutTokens(input, count, next, done + Expansion(t), after);
        if EndsInShortLiteral(s) {
          AppendAssoc(done, Expansion(t), ShortLiteralOutput(input[next..]));
        }
      } else {
        TokenOverflows(input, count, get, done, room, t);
      }
  }

  /** On a stream whose last token is cut short, the decoder returns only when
      the stream ends in a short literal whose broadcast run completes `count`
      bytes, and then returns that broadcast. */
  lemma OnCutStreams(input: seq<byte>, count: int)
    requires Parse(input).None? && count >= 0
    ensures ByteRleDecoder(input, count).Returned? <==>
              EndsInShortLiteral(input) && |ShortLiteralOutput(input)| == count
    ensures ByteRleDecoder(input, count).Returned? ==>
              ByteRleDecoder(input, count).value == ShortLiteralOutput(input)
  {
    var done: seq<byte> := [];
    assert input[0..] == input;
    assert done + Zeros(count) == Zeros(count);
    OnCutTokens(input, count, 0, done, count);
    if EndsInShortLiteral(input) {
      assert done + ShortLiteralOutput(input) == ShortLiteralOutput(input);
    }
  }

  // ---------------------------------------------------------------------------
  // Consequences on particular streams

  /** Asking for one byte more than a stream of complete tokens stands for trips
      the closing assertion. */
  lemma OneByteMoreFailsAssertion(input: seq<byte>, count: int)
    requires Parse(input).Some? && ByteRleDecoder(input, count).Returned?
    ensures ByteRleDecoder(input, count + 1) == Raised(AssertionFailed)
  {
    OnCompleteStreams(input, count, Parse(input).value);
    OnCompleteStreams(input, count + 1, Parse(input).value);
  }

  /** A literal announcing two or more bytes with only one present is broadcast
      over the whole run, where the reference decoder reports the truncation:
      `[0x83, 0x41]` with a count of 3 decodes to `AAA`. */
  lemma BroadcastsShortLiteral(c: byte, v: byte)
    requires HighBit(c) && RunLength(c) >= 2
    ensures ByteRleDecoder([c, v], RunLength(c)) == Returned(Repeat(v, RunLength(c)))
    ensures RleSpec.Decode([c, v], RunLength(c)) == Err(RleSpec.TruncatedInput)
  {
    var input, n := [c, v], RunLength(c);
    assert input[..0] == [];
    assert Parse(input[..0]) == Some([]);
    assert ShortLiteralOutput(input) == [] + Repeat(v, n);
    OnCutStreams(input, n);
    RleSpec.DecodeMatchesTokens(input, n);
  }

  /** A literal cut short by more than one byte raises, where the reference
      decoder reports the truncation. */
  lemma ShortLiteralMismatches(c: byte, data: seq<byte>)
    requires HighBit(c) && 2 <= |data| < RunLength(c)
    ensures ByteRleDecoder([c] + data, RunLength(c)) == Raised(BroadcastMismatch)
    ensures RleSpec.Decode([c] + data, RunLength(c)) == Err(RleSpec.TruncatedInput)
  {
    var input, n := [c] + data, RunLength(c);
    assert input[0] == c;
    assert |Slice(input, 1, 1 + n)| == |data|;
    assert Step(input, n, Cursors(0, 0, Zeros(n))) == Err(BroadcastMismatch);
    RleSpec.DecodeMatchesTokens(input, n);
  }

  /** A fill run without its byte raises, where the reference decoder reports
      the truncation. */
  lemma MissingFillByteRaises(c: byte, count: nat)
    requires !HighBit(c)
    ensures ByteRleDecoder([c], count) == Raised(IndexOutOfRange)
    ensures count > 0 ==> RleSpec.Decode([c], count) == Err(RleSpec.TruncatedInput)
  {
    var input: seq<byte> := [c];
    assert Step(input, count, Cursors(0, 0, Zeros(count))) == Err(IndexOutOfRange);
    RleSpec.DecodeMatchesTokens(input, count);
  }

  // ---------------------------------------------------------------------------
  // A count of zero

  /** A literal of two or more bytes: wider than any slice of an empty buffer,
      and not a single element numpy could broadcast. */
  predicate Wide(t: Token) {
    t.Literal? && |t.data| >= 2
  }

  /** Some token of `ts` is a wide literal. */
  predicate AnyWide(ts: seq<Token>) {
    |ts| > 0 && (Wide(ts[0]) || AnyWide(ts[1..]))
  }

  /** The same, said of positions: some `ts[k]` is a wide literal. */
  lemma {:induction false} AnyWideAt(ts: seq<Token>)
    ensures AnyWide(ts) <==> exists k | 0 <= k < |ts| :: Wide(ts[k])
  {
    if |ts| > 0 {
      AnyWideAt(ts[1..]);
      if exists k | 0 <= k < |ts| :: Wide(ts[k]) {
        var k :| 0 <= k < |ts| && Wide(ts[k]);
        if k > 0 {
          assert ts[1..][k - 1] == ts[k];
        }
      }
      if exists k | 0 <= k < |ts[1..]| :: Wide(ts[1..][k]) {
        var k :| 0 <= k < |ts[1..]| && Wide(ts[1..][k]);
        assert ts[k + 1] == ts[1..][k];
      }
    }
  }

  /** Into an empty buffer every slice is empty: a complete literal at `get`
      raises the broadcast `ValueError` when it has two or more bytes, and
      otherwise writes nothing while the write cursor moves on by its length. */
  lemma ZeroCountLiteral(input: seq<byte>, get: nat, put: nat, data: seq<byte>)
    requires get < |input| && NextToken(input[get..]) == Some(Literal(data))
    ensures get + 1 + |data| <= |input|
    ensures Step(input, 0, Cursors(get, put, [])) ==
              if |data| >= 2 then Err(BroadcastMismatch) else Ok(Cursors(get + 1 + |data|, put + |data|, []))
  {
    var s := input[get..];
    assert s[0] == input[get];
    assert Slice(input, get + 1, get + 1 + |data|) == data by {
      SliceOfDrop(input, get, 1, 1 + |data|);
    }
  }

  /** A complete fill run at `get` broadcasts its byte over an empty slice of an
      empty buffer: nothing is written, and the write cursor moves on by `n`. */
  lemma ZeroCountFill(input: seq<byte>, get: nat, put: nat, n: nat, v: byte)
    requires get < |input| && NextToken(input[get..]) == Some(Fill(n, v))
    ensures get + 2 <= |input|
    ensures Step(input, 0, Cursors(get, put, [])) == Ok(Cursors(get + 2, put + n, []))
  {
    var s := input[get..];
    assert s[0] == input[get] && s[1] == input[get + 1];
    assert !HighBit(input[get]) && RunLength(input[get]) == n;
    var empty: seq<byte> := [];
    var o := SetSlice(empty, put, put + n, [input[get + 1]]).value;
    assert |o| == 0;
    assert o == empty;
  }

  /** A complete token at `get`, into an empty buffer: a wide literal raises,
      any other token writes nothing while the write cursor moves on by its run. */
  lemma ZeroCountStep(input: seq<byte>, get: nat, put: nat, t: Token, next: nat)
    requires get < |input| && NextToken(input[get..]) == Some(t)
    requires next == get + |Wire(t)|
    ensures Wide(t) ==> Step(input, 0, Cursors(get, put, [])) == Err(BroadcastMismatch)
    ensures !Wide(t) ==> Step(input, 0, Cursors(get, put, [])) == Ok(Cursors(next, put + |Expansion(t)|, []))
  {
    var empty: seq<byte> := [];
    var moved := Cursors(next, put + |Expansion(t)|, empty);
    match t
    case Literal(data) =>
      assert moved == Cursors(get + 1 + |data|, put + |data|, empty);
      assert Wide(t) <==> |data| >= 2;
      ZeroCountLiteral(input, get, put, data);
    case Fill(n, v) =>
      assert moved == Cursors(get + 2, put + n, empty) && !Wide(t);
      ZeroCountFill(input, get, put, n, v);
  }

  /** The same one pass, seen from the loop: a wide literal ends it with the
      broadcast `ValueError`, and any other token hands over to the next pass. */
  lemma ZeroCountPass(input: seq<byte>, get: nat, put: nat, t: Token, next: nat)
    requires get < |input| && NextToken(input[get..]) == Some(t)
    requires next == get + |Wire(t)|
    ensures Wide(t) ==> Loop(input, 0, Cursors(get, put, [])) == Raised(BroadcastMismatch)
    ensures !Wide(t) ==> Loop(input, 0, Cursors(get, put, [])) ==
                           Loop(input, 0, Cursors(next, put + |Expansion(t)|, []))
  {
    ZeroCountStep(input, get, put, t, next);
    if !Wide(t) {
      LoopStep(input, 0, Cursors(get, put, []), Cursors(next, put + |Expansion(t)|, []));
    }
  }

  /** With a count of zero, a stream of complete tokens raises the broadcast
      `ValueError` when it holds a wide literal, and otherwise returns the empty
      buffer when no run has been announced at all and fails the closing
      assertion when one has. */
  lemma {:induction false} ZeroCountTokens(input: seq<byte>, get: nat, put: nat, ts: seq<Token>)
    requires get <= |input| && Parse(input[get..]) == Some(ts)
    ensures Loop(input, 0, Cursors(get, put, [])) ==
              if AnyWide(ts) then Raised(BroadcastMismatch)
              else if put + |ExpandAll(ts)| == 0 then Returned([])
              else Raised(AssertionFailed)
    decreases |input| - get
  {
    if get == |input| {
      assert input[get..] == [] && ts == [] && !AnyWide(ts);
    } else {
      var t, next, rest := SplitHead(input, get, ts);
      ZeroCountPass(input, get, put, t, next);
      if !Wide(t) {
        var put' := put + |Expansion(t)|;
        ZeroCountTokens(input, next, put', rest);
        assert ts[1..] == rest;
        assert put + |ExpandAll(ts)| == put' + |ExpandAll(rest)|;
      }
    }
  }

  /** A count of zero is not rejected as such. On a stream of complete tokens
      the decoder returns the empty buffer exactly when all its runs are empty
      (the empty stream among them); otherwise it does not return: a literal of
      two or more bytes raises the broadcast `ValueError`, and any other run
      fails the closing assertion. The reference decoder rejects the declared
      length whatever the stream. */
  lemma AcceptsZeroCount(input: seq<byte>)
    requires Parse(input).Some?
    ensures ByteRleDecoder(input, 0).Returned? <==> ExpandAll(Parse(input).value) == []
    ensures ByteRleDecoder(input, 0).Returned? ==> ByteRleDecoder(input, 0) == Returned([])
    ensures ByteRleDecoder(input, 0) ==
              if AnyWide(Parse(input).value) then Raised(BroadcastMismatch)
              else if ExpandAll(Parse(input).value) == [] then Returned([])
              else Raised(AssertionFailed)
    ensures RleSpec.Decode(input, 0) == Err(RleSpec.InvalidOutputLength(0))
  {
    OnCompleteStreams(input, 0, Parse(input).value);
    assert input[0..] == input;
    ZeroCountTokens(input, 0, 0, Parse(input).value);
  }

  /** The outcomes at a count of zero on two one-token streams: a fill of one
      byte fails the closing assertion, a literal of two bytes raises. */
  lemma ZeroCountExamples()
    ensures ByteRleDecoder([0x01, 0x41], 0) == Raised(AssertionFailed)
    ensures ByteRleDecoder([0x82, 0x41, 0x42], 0) == Raised(BroadcastMismatch)
  {
    var fill: seq<byte> := [0x01, 0x41];
    var lit: seq<byte> := [0x82, 0x41, 0x42];
    var empty: seq<byte> := [];
    assert Zeros(0) == empty;
    assert |SetSlice(empty, 0, 1, [0x41]).value| == 0;
    assert Step(fill, 0, Cursors(0, 0, empty)) == Ok(Cursors(2, 1, empty));
    assert Slice(lit, 1, 3) == [0x41, 0x42];
    assert SetSlice(empty, 0, 2, [0x41, 0x42]).None?;
    assert Step(lit, 0, Cursors(0, 0, empty)) == Err(BroadcastMismatch);
  }

  /** The stream `[0x83, 0x41]` with a count of 3: `AAA`, where the reference
      reports the truncated literal. */
  lemma BroadcastExample()
    ensures ByteRleDecoder([0x83, 0x41], 3) == Returned([0x41, 0x41, 0x41])
    ensures RleSpec.Decode([0x83, 0x41], 3) == Err(RleSpec.TruncatedInput)
  {
    assert HighBit(0x83) && RunLength(0x83) == 3;
    BroadcastsShortLiteral(0x83, 0x41);
    assert Repeat(0x41, 3) == [0x41, 0x41, 0x41];
  }
}
