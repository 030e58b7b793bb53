/** The older pure-Python `byterle_decoder` of the package's first layout, exactly
    as written: the same cursors and numpy slice assignments as the current
    fallback, but driven by two flags, `count` and `repeat`, so that a control
    byte and its payload are handled in separate passes of the loop. The loop
    can therefore stop between the two, and a stream that ends with a control
    byte is accepted as if that byte were not there. */
module FlagFallback {
  import opened Results
  import opened Bytes
  import opened Tokens
  import opened Numpy
  import PyFallback
  import RleSpec

  type PyError = PyFallback.PyError
  type Outcome = PyFallback.Outcome

  /** What the loop expects next: `count` set means a control byte; otherwise
      `repeat` set means the payload of a literal run of `no` bytes, and unset
      the one byte of a fill run of `no` bytes. */
  datatype Phase =
    | AwaitControl
    | AwaitLiteral(no: nat)
    | AwaitFill(no: nat)

  datatype State = State(i: nat, j: nat, phase: Phase, output: seq<byte>)

  /** The passes a phase can still take at the same read position: a literal
      of length zero moves back to `AwaitControl` without advancing `i`. */
  function Rank(p: Phase): nat {
    if p.AwaitLiteral? then 1 else 0
  }

  /** `byterle_decoder(data, output_size)`. */
  function ByteRleDecoder(data: seq<byte>, outputSize: int): (r: Outcome)
    ensures outputSize < 0 <==> r == PyFallback.Raised(PyFallback.NegativeDimensions)
    ensures r.Returned? ==> |r.value| == outputSize
  {
    if outputSize < 0 then PyFallback.Raised(PyFallback.NegativeDimensions)
    else Loop(data, outputSize, State(0, 0, AwaitControl, Zeros(outputSize)))
  }

  /** One pass of the loop body at a read position inside the stream. */
  function Step(input: seq<byte>, size: nat, s: State): (r: Result<State, PyError>)
    requires s.i < |input| && |s.output| == size
    ensures r.Ok? ==> |r.value.output| == size
    ensures r.Ok? ==> r.value.i > s.i || (r.value.i == s.i && Rank(r.value.phase) < Rank(s.phase))
    ensures r.Err? ==> r.error == PyFallback.BroadcastMismatch
  {
    match s.phase
    case AwaitControl =>
      var no := input[s.i];
      if no > 127 then Ok(State(s.i + 1, s.j, AwaitLiteral(Low7(no)), s.output))
      else Ok(State(s.i + 1, s.j, AwaitFill(no as nat), s.output))
    case AwaitLiteral(no) =>
      (match SetSlice(s.output, s.j, s.j + no, Slice(input, s.i, s.i + no))
       case None => Err(PyFallback.BroadcastMismatch)
       case Some(o) => Ok(State(s.i + no, s.j + no, AwaitControl, o)))
    case AwaitFill(no) =>
      var o := SetSlice(s.output, s.j, s.j + no, [input[s.i]]).value;
      Ok(State(s.i + 1, s.j + no, AwaitControl, o))
  }

  /** `while i < len(input_data)`, then `assert j == output_size`. */
  function Loop(input: seq<byte>, size: nat, s: State): (r: Outcome)
    requires |s.output| == size
    ensures r.Returned? ==> |r.value| == size
    ensures r != PyFallback.Raised(PyFallback.NegativeDimensions)
    decreases |input| - s.i, Rank(s.phase)
  {
    if s.i >= |input| then
      if s.j == size then PyFallback.Returned(s.output) else PyFallback.Raised(PyFallback.AssertionFailed)
    else
      match Step(input, size, s)
      case Err(e) => PyFallback.Raised(e)
      case Ok(s') => Loop(input, size, s')
  }

  /** `hxbyterle_decode(output_size, data)`: the decoder, then
      `assert len(output) == output_size`. */
  function HxByteRleDecode(outputSize: int, data: seq<byte>): (r: Outcome)
    ensures r.Returned? ==> |r.value| == outputSize
  {
    match ByteRleDecoder(data, outputSize)
    case Raised(e) => PyFallback.Raised(e)
    case Returned(o) => if |o| == outputSize then PyFallback.Returned(o) else PyFallback.Raised(PyFallback.AssertionFailed)
  }

  /** The wrapper's own assertion never fails: it returns what the decoder does. */
  lemma WrapperAssertionHolds(outputSize: int, data: seq<byte>)
    ensures HxByteRleDecode(outputSize, data) == ByteRleDecoder(data, outputSize)
  {
  }

  // ---------------------------------------------------------------------------
  // Against the current fallback

  /** Walking the stream by announced run lengths from `get` ends on a control
      byte that is the stream's last byte and announces a payload: the current
      fallback goes on to read that payload, this decoder stops. */
  predicate DanglingFrom(input: seq<byte>, get: nat)
    decreases |input| - get
  {
    get < |input| &&
    if get == |input| - 1 then input[get] != 0x80
    else DanglingFrom(input, get + Advance(input[get]))
  }

  /** Before the last byte, the walk goes on from where the control byte says. */
  lemma DanglingStep(input: seq<byte>, get: nat, next: nat)
    requires get < |input| - 1 && next == get + Advance(input[get])
    ensures DanglingFrom(input, get) == DanglingFrom(input, next)
  {
  }

  /** How far both Python decoders move the read cursor for a control byte and
      the payload it announces, whether or not that payload is there. */
  function Advance(c: byte): (n: nat)
    ensures n > 0
  {
    1 + (if HighBit(c) then RunLength(c) else 1)
  }

  /** This loop carried on from where one pass of the current fallback leaves
      its cursors, or that pass's exception. */
  function Resume(input: seq<byte>, size: nat, pass: Result<PyFallback.Cursors, PyError>): Outcome
    requires pass.Ok? ==> |pass.value.output| == size
  {
    match pass
    case Err(e) => PyFallback.Raised(e)
    case Ok(cur) => Loop(input, size, State(cur.get, cur.put, AwaitControl, cur.output))
  }

  /** A control byte followed by at least one more byte takes two passes of this
      loop, which do exactly what one pass of the current fallback does. */
  lemma TokenPass(input: seq<byte>, size: nat, i: nat, j: nat, out: seq<byte>)
    requires i + 1 < |input| && |out| == size
    ensures Loop(input, size, State(i, j, AwaitControl, out)) ==
              Resume(input, size, PyFallback.Step(input, size, PyFallback.Cursors(i, j, out)))
  {
    var n := RunLength(input[i]);
    if HighBit(input[i]) {
      ControlPass(input, size, i, j, out, AwaitLiteral(n));
      LiteralPass(input, size, i, j, out, n);
    } else {
      ControlPass(input, size, i, j, out, AwaitFill(n));
      FillPass(input, size, i, j, out, n);
    }
  }

  /** The pass over a control byte only records what comes next. */
  lemma ControlPass(input: seq<byte>, size: nat, i: nat, j: nat, out: seq<byte>, p: Phase)
    requires i < |input| && |out| == size
    requires p == if HighBit(input[i]) then AwaitLiteral(RunLength(input[i])) else AwaitFill(RunLength(input[i]))
    ensures Loop(input, size, State(i, j, AwaitControl, out)) == Loop(input, size, State(i + 1, j, p, out))
  {
  }

  /** The pass over a literal's payload is the current fallback's literal branch. */
  lemma LiteralPass(input: seq<byte>, size: nat, i: nat, j: nat, out: seq<byte>, n: nat)
    requires i + 1 < |input| && |out| == size && HighBit(input[i]) && n == RunLength(input[i])
    ensures Loop(input, size, State(i + 1, j, AwaitLiteral(n), out)) ==
              Resume(input, size, PyFallback.Step(input, size, PyFallback.Cursors(i, j, out)))
  {
  }

  /** The pass over a fill run's byte is the current fallback's fill branch. */
  lemma FillPass(input: seq<byte>, size: nat, i: nat, j: nat, out: seq<byte>, n: nat)
    requires i + 1 < |input| && |out| == size && !HighBit(input[i]) && n == RunLength(input[i])
    ensures Loop(input, size, State(i + 1, j, AwaitFill(n), out)) ==
              Resume(input, size, PyFallback.Step(input, size, PyFallback.Cursors(i, j, out)))
  {
  }

  /** A lone `0x80` at the end of the stream, a literal of length zero, changes
      nothing in either decoder. */
  lemma EmptyLiteralLast(input: seq<byte>, size: nat, j: nat, out: seq<byte>)
    requires |input| > 0 && input[|input| - 1] == 0x80 && |out| == size
    ensures Loop(input, size, State(|input| - 1, j, AwaitControl, out)) ==
              PyFallback.Loop(input, size, PyFallback.Cursors(|input| - 1, j, out))
  {
    var a := Min(j, |out|);
    assert out[..a] + [] + out[a..] == out;
  }

  /** From any read position at which the stream does not end in a dangling
      control byte, this decoder and the current fallback give the same outcome. */
  lemma {:induction false} Simulation(input: seq<byte>, size: nat, i: nat, j: nat, out: seq<byte>)
    requires |out| == size && !DanglingFrom(input, i)
    ensures Loop(input, size, State(i, j, AwaitControl, out)) ==
              PyFallback.Loop(input, size, PyFallback.Cursors(i, j, out))
    decreases |input| - i
  {
    if i == |input| - 1 {
      EmptyLiteralLast(input, size, j, out);
    } else if i < |input| - 1 {
      TokenPass(input, size, i, j, out);
      match PyFallback.Step(input, size, PyFallback.Cursors(i, j, out))
      case Err(_) =>
      case Ok(c) =>
        assert c.get == i + Advance(input[i]);
        Simulation(input, size, c.get, c.put, c.output);
    }
  }

  /** The first of a stream's complete tokens at `get` ends where its control
      byte says; when it is the stream's only byte it is an empty literal. */
  lemma CompleteHead(input: seq<byte>, get: nat, ts: seq<Token>) returns (next: nat, rest: seq<Token>)
    requires get < |input| && Parse(input[get..]) == Some(ts)
    ensures next == get + Advance(input[get])
    ensures next <= |input| && Parse(input[next..]) == Some(rest)
    ensures get == |input| - 1 ==> input[get] == 0x80
  {
    var t;
    t, next, rest := SplitHead(input, get, ts);
    assert input[get..][0] == input[get];
    NextTokenWidth(input[get..]);
  }

  /** A stream of complete tokens never ends in a dangling control byte. */
  lemma {:induction false} CompleteIsNotDangling(input: seq<byte>, get: nat, ts: seq<Token>)
    requires get <= |input| && Parse(input[get..]) == Some(ts)
    ensures !DanglingFrom(input, get)
    decreases |input| - get
  {
    if get < |input| {
      var next, rest := CompleteHead(input, get, ts);
      if get < |input| - 1 {
        CompleteIsNotDangling(input, next, rest);
        DanglingStep(input, get, next);
      } else {
        assert input[get] == 0x80;
      }
    }
  }

  /** Away from a dangling control byte the two Python decoders agree on every
      stream and every size. */
  lemma AgreesWithFallback(input: seq<byte>, outputSize: int)
    requires !DanglingFrom(input, 0)
    ensures ByteRleDecoder(input, outputSize) == PyFallback.ByteRleDecoder(input, outputSize)
  {
    if outputSize >= 0 {
      Simulation(input, outputSize, 0, 0, Zeros(outputSize));
    }
  }

  /** In particular they agree on every stream of complete tokens. */
  lemma AgreesOnCompleteStreams(input: seq<byte>, outputSize: int)
    requires Parse(input).Some?
    ensures ByteRleDecoder(input, outputSize) == PyFallback.ByteRleDecoder(input, outputSize)
  {
    assert input[0..] == input;
    CompleteIsNotDangling(input, 0, Parse(input).value);
    AgreesWithFallback(input, outputSize);
  }

  // ---------------------------------------------------------------------------
  // A dangling control byte

  /** Where a complete token starts, the current fallback reads it the same
      whatever follows the stream. */
  lemma StepIgnoresSuffix(input: seq<byte>, b: seq<byte>, size: nat, c: PyFallback.Cursors)
    requires c.get < |input| && |c.output| == size && NextToken(input[c.get..]).Some?
    ensures PyFallback.Step(input + b, size, c) == PyFallback.Step(input, size, c)
  {
    var s := input[c.get..];
    assert s[0] == input[c.get] == (input + b)[c.get];
    var n := RunLength(input[c.get]);
    if HighBit(input[c.get]) {
      LiteralIgnoresSuffix(input, b, size, c, n);
    } else {
      assert (input + b)[c.get + 1] == input[c.get + 1];
    }
  }

  /** `StepIgnoresSuffix` for a complete literal: its payload slice is the same. */
  lemma LiteralIgnoresSuffix(input: seq<byte>, b: seq<byte>, size: nat, c: PyFallback.Cursors, n: nat)
    requires c.get + 1 + n <= |input| && |c.output| == size
    requires (input + b)[c.get] == input[c.get] && HighBit(input[c.get]) && n == RunLength(input[c.get])
    ensures PyFallback.Step(input + b, size, c) == PyFallback.Step(input, size, c)
  {
    assert Slice(input + b, c.get + 1, c.get + 1 + n) == Slice(input, c.get + 1, c.get + 1 + n);
  }

  /** After complete tokens, one more control byte is read and then the loop
      stops, so the stream decodes as if that byte were not there. */
  lemma {:induction false} IgnoresDanglingControl(input: seq<byte>, c: byte, size: nat, i: nat, j: nat,
                                                  out: seq<byte>, ts: seq<Token>)
    requires i <= |input| && Parse(input[i..]) == Some(ts) && |out| == size
    ensures Loop(input + [c], size, State(i, j, AwaitControl, out)) ==
              PyFallback.Loop(input, size, PyFallback.Cursors(i, j, out))
    decreases |input| - i
  {
    var longer := input + [c];
    if i == |input| {
      assert longer[i] == c;
    } else {
      var t, next, rest := SplitHead(input, i, ts);
      var cur := PyFallback.Cursors(i, j, out);
      TokenPass(longer, size, i, j, out);
      StepIgnoresSuffix(input, [c], size, cur);
      match PyFallback.Step(input, size, cur)
      case Err(_) =>
      case Ok(c') =>
        assert input[i..][0] == input[i];
        assert c'.get == next;
        IgnoresDanglingControl(input, c, size, next, c'.put, c'.output, rest);
        PyFallback.LoopStep(input, size, cur, c');
    }
  }

  /** A control byte appended to a stream of complete tokens is ignored: the
      older decoder returns what the current one returns without it, where the
      reference decoder reports the missing payload. */
  lemma DanglingControlIgnored(input: seq<byte>, c: byte, outputSize: int)
    requires Parse(input).Some? && c != 0x80
    requires outputSize == |ExpandAll(Parse(input).value)| > 0
    ensures ByteRleDecoder(input + [c], outputSize) == PyFallback.Returned(ExpandAll(Parse(input).value))
    ensures RleSpec.Decode(input + [c], outputSize) == Err(RleSpec.TruncatedInput)
  {
    assert input[0..] == input;
    IgnoresDanglingControl(input, c, outputSize, 0, 0, Zeros(outputSize), Parse(input).value);
    PyFallback.OnCompleteStreams(input, outputSize, Parse(input).value);
    RleSpec.ExpandConcat(input, [c], outputSize, 0);
  }

  /** The stream `[0x02, 0x41, 0x05]` with a size of 2: `AA`, the trailing
      `0x05` dropped, where the reference reports the missing fill byte. */
  lemma DanglingExample()
    ensures ByteRleDecoder([0x02, 0x41, 0x05], 2) == PyFallback.Returned([0x41, 0x41])
    ensures RleSpec.Decode([0x02, 0x41, 0x05], 2) == Err(RleSpec.TruncatedInput)
  {
    var p: seq<byte> := [0x02, 0x41];
    var ts := [Fill(2, 0x41)];
    ParseSerialize(ts);
    assert Serialize(ts) == Wire(Fill(2, 0x41)) + Serialize([]) == p;
    assert Repeat(0x41, 2) == [0x41, 0x41];
    assert ExpandAll(ts) == Repeat(0x41, 2) + ExpandAll([]) == [0x41, 0x41];
    assert p + [0x05] == [0x02, 0x41, 0x05];
    DanglingControlIgnored(p, 0x05, 2);
  }
}
