/** The compiled `decoders.byterle_decoder` extension, exactly as written: the
    flag-driven state machine of the older Python variant over raw C buffers.

    It trusts the stream: a literal's payload is copied without checking the
    end of the input, every run is written without checking the end of the
    output buffer, a literal of length zero never leaves its state, and the
    array handed back is as long as the write cursor got, whatever size was
    asked for.

    The input is the buffer `PyArg_ParseTuple`'s `s#` hands over: the bytes
    object's contents, followed by the NUL byte CPython keeps after every
    bytes object, so `input[input_size]` reads `0x00`. Reads past that byte
    and writes past the output buffer are undefined behaviour in C++; here
    they stop the run with a `Fault` naming the first index touched. */
module CppDecoder {
  import opened Results
  import opened Bytes
  import opened Tokens
  import RleSpec

  datatype Fault =
    | ReadOutOfBounds(index: nat)   // `input[index]` past the NUL at `input_size`
    | WriteOutOfBounds(index: nat)  // `output[index]` past `output_size`

  /** The loop's variables: the read and write cursors `i` and `j`, the two
      flags, the latest control byte `no`, and the `output` buffer. */
  datatype Machine = Machine(i: nat, j: nat, count: bool, repeat: bool, no: byte, output: seq<byte>)

  /** How a run of the loop ends: the loop condition fails and the first `j`
      bytes of the buffer are returned, a buffer is overrun, or the bound on
      passes is used up. */
  datatype Outcome = Finished(value: seq<byte>) | Crashed(fault: Fault) | OutOfFuel

  function Max(a: nat, b: nat): nat {
    if a < b then b else a
  }

  // ---------------------------------------------------------------------------
  // The three buffer helpers

  /** `buffer` with `value` written over it from index `start`. */
  function Overwrite(buffer: seq<byte>, start: nat, value: seq<byte>): (r: seq<byte>)
    requires start + |value| <= |buffer|
    ensures |r| == |buffer|
  {
    buffer[..start] + value + buffer[start + |value|..]
  }

  /** `Overwrite` changes exactly the positions it writes. */
  lemma OverwriteElements(buffer: seq<byte>, start: nat, value: seq<byte>)
    requires start + |value| <= |buffer|
    ensures forall k | 0 <= k < |buffer| && !(start <= k < start + |value|) ::
              Overwrite(buffer, start, value)[k] == buffer[k]
    ensures forall k | 0 <= k < |value| :: Overwrite(buffer, start, value)[start + k] == value[k]
  {
  }

  /** The byte at index `k` of the input buffer: the stream's byte, or the
      NUL terminator at index `|input|`. */
  function At(input: seq<byte>, k: nat): byte
    requires k <= |input|
  {
    if k < |input| then input[k] else 0
  }

  /** What `get_multiple(input, value, start, end)` reads: `input[start..end]`
      of the NUL-terminated buffer, or a fault at the first index past the
      terminator; an empty range reads nothing, wherever it lies. */
  function Read(input: seq<byte>, start: nat, end: nat): (r: Result<seq<byte>, Fault>)
    requires start <= end
    ensures r.Ok? <==> end <= |input| + 1 || start == end
    ensures r.Ok? ==> |r.value| == end - start
    ensures r.Ok? ==> forall k | start <= k < end :: k <= |input| && r.value[k - start] == At(input, k)
    ensures r.Err? ==> r.error == ReadOutOfBounds(Max(start, |input| + 1))
  {
    if end <= |input| then Ok(input[start..end])
    else if start == end then Ok([])
    else if end == |input| + 1 then Ok(input[start..] + [0])
    else Err(ReadOutOfBounds(Max(start, |input| + 1)))
  }

  /** What `set_multiple_diff` and `set_multiple_same` leave in a buffer:
      `value` written from `start`, or a fault at the first index past it; an
      empty value writes nothing, wherever it goes. */
  function Write(buffer: seq<byte>, start: nat, value: seq<byte>): (r: Result<seq<byte>, Fault>)
    ensures r.Ok? <==> start + |value| <= |buffer| || |value| == 0
    ensures r.Ok? ==> |r.value| == |buffer|
    ensures r.Err? ==> r.error == WriteOutOfBounds(Max(start, |buffer|))
  {
    if start + |value| <= |buffer| then Ok(Overwrite(buffer, start, value))
    else if |value| == 0 then Ok(buffer)
    else Err(WriteOutOfBounds(Max(start, |buffer|)))
  }

  /** `get_multiple`: copies `input[i + start]` into `value[i]` for each `i`
      below `end - start`. */
  method GetMultiple(input: seq<byte>, start: nat, end: nat) returns (r: Result<seq<byte>, Fault>)
    requires start <= end
    ensures r == Read(input, start, end)
  {
    var value: seq<byte> := [];
    var i: nat := 0;
    while i < end - start
      invariant i <= end - start && (i > 0 ==> start + i <= |input| + 1)
      invariant |value| == i && forall k | 0 <= k < i :: start + k <= |input| && value[k] == At(input, start + k)
    {
      if i + start > |input| {
        return Err(ReadOutOfBounds(i + start));
      }
      value := value + [At(input, i + start)];
      i := i + 1;
    }
    if start == end {
      assert value == [];
    } else if end <= |input| {
      assert value == input[start..end];
    } else {
      assert value == input[start..] + [0];
    }
    return Ok(value);
  }

  /** `set_multiple_diff`: writes `value[i]` to `output[i + start]` for each `i`
      below `end - start`. */
  method SetMultipleDiff(output: seq<byte>, value: seq<byte>, start: nat, end: nat)
    returns (r: Result<seq<byte>, Fault>)
    requires start <= end && |value| == end - start
    ensures r == Write(output, start, value)
  {
    var buffer := output;
    var i: nat := 0;
    while i < end - start
      invariant i <= end - start && (i > 0 ==> start + i <= |output|) && |buffer| == |output|
      invariant forall k | 0 <= k < |output| :: buffer[k] == if start <= k < start + i then value[k - start] else output[k]
    {
      if i + start >= |output| {
        return Err(WriteOutOfBounds(i + start));
      }
      buffer := buffer[i + start := value[i]];
      i := i + 1;
    }
    if start < end {
      OverwriteElements(output, start, value);
      assert buffer == Overwrite(output, start, value);
    } else if start <= |output| {
      assert buffer == Overwrite(output, start, value);
    } else {
      assert buffer == output;
    }
    return Ok(buffer);
  }

  /** `set_multiple_same`: writes `value` to `output[i]` for each `i` from
      `start` below `end`. */
  method SetMultipleSame(output: seq<byte>, value: byte, start: nat, end: nat)
    returns (r: Result<seq<byte>, Fault>)
    requires start <= end
    ensures r == Write(output, start, Repeat(value, end - start))
  {
    var buffer := output;
    var i: nat := start;
    while i < end
      invariant start <= i <= end && (i > start ==> i <= |output|) && |buffer| == |output|
      invariant forall k | 0 <= k < |output| :: buffer[k] == if start <= k < i then value else output[k]
    {
      if i >= |output| {
        return Err(WriteOutOfBounds(i));
      }
      buffer := buffer[i := value];
      i := i + 1;
    }
    if start < end {
      OverwriteElements(output, start, Repeat(value, end - start));
      assert buffer == Overwrite(output, start, Repeat(value, end - start));
    } else if start <= |output| {
      assert buffer == Overwrite(output, start, Repeat(value, end - start));
    } else {
      assert buffer == output;
    }
    return Ok(buffer);
  }

  // ---------------------------------------------------------------------------
  // The decoding loop

  /** A machine whose write cursor lies within its buffer of `size` bytes. */
  predicate Valid(size: nat, m: Machine) {
    |m.output| == size && m.j <= size
  }

  /** One pass of the `while (i < input_size)` body. */
  function Step(input: seq<byte>, size: nat, m: Machine): (r: Result<Machine, Fault>)
    requires m.i < |input| && Valid(size, m)
    ensures r.Ok? ==> Valid(size, r.value)
    ensures r.Ok? ==> r.value.i >= m.i
  {
    if m.count then
      var no := input[m.i];
      if no > 127 then Ok(m.(no := (no as int - 128) as byte, count := false, repeat := true, i := m.i + 1))
      else Ok(m.(no := no, count := false, repeat := false, i := m.i + 1))
    else if m.repeat then
      if m.no > 0 then
        match Read(input, m.i, m.i + m.no as nat)
        case Err(f) => Err(f)
        case Ok(value) =>
          match Write(m.output, m.j, value)
          case Err(f) => Err(f)
          case Ok(o) => Ok(m.(repeat := false, count := true, output := o, i := m.i + m.no as nat, j := m.j + m.no as nat))
      else Ok(m)
    else
      match Write(m.output, m.j, Repeat(input[m.i], m.no as nat))
      case Err(f) => Err(f)
      case Ok(o) => Ok(m.(output := o, i := m.i + 1, j := m.j + m.no as nat, count := true, repeat := false))
  }

  /** The loop, for at most `fuel` passes. */
  function Run(input: seq<byte>, size: nat, m: Machine, fuel: nat): (r: Outcome)
    requires Valid(size, m)
    ensures r.Finished? ==> |r.value| <= size
    decreases fuel
  {
    if m.i >= |input| then Finished(m.output[..m.j])
    else if fuel == 0 then OutOfFuel
    else
      match Step(input, size, m)
      case Err(f) => Crashed(f)
      case Ok(m') => Run(input, size, m', fuel - 1)
  }

  /** `byterle_decoder(input, output_size)`, with `buffer` standing for the
      uninitialised bytes `PyMem_New` returns. */
  function ByteRleDecode(input: seq<byte>, outputSize: nat, buffer: seq<byte>, fuel: nat): (r: Outcome)
    requires |buffer| == outputSize
    ensures r.Finished? ==> |r.value| <= outputSize
  {
    Run(input, outputSize, Machine(0, 0, true, false, 0, buffer), fuel)
  }

  // ---------------------------------------------------------------------------
  // The uninitialised buffer

  /** What `Overwrite` leaves up to the end of the bytes it writes. */
  lemma OverwritePrefix(buffer: seq<byte>, start: nat, value: seq<byte>)
    requires start + |value| <= |buffer|
    ensures Overwrite(buffer, start, value)[..start + |value|] == buffer[..start] + value
  {
  }

  /** Two machines that differ only in their buffers past the write cursor. */
  predicate AgreeUpToCursor(m1: Machine, m2: Machine) {
    m1.(output := m2.output) == m2 && |m1.output| == |m2.output| &&
    m1.j <= |m1.output| && m1.output[..m1.j] == m2.output[..m2.j]
  }

  /** One pass keeps two machines agreeing up to the write cursor, or faults in
      both the same way. */
  lemma StepAgrees(input: seq<byte>, size: nat, m1: Machine, m2: Machine)
    requires m1.i < |input| && Valid(size, m1) && Valid(size, m2) && AgreeUpToCursor(m1, m2)
    ensures Step(input, size, m1).Err? == Step(input, size, m2).Err?
    ensures Step(input, size, m1).Err? ==> Step(input, size, m1) == Step(input, size, m2)
    ensures Step(input, size, m1).Ok? ==> AgreeUpToCursor(Step(input, size, m1).value, Step(input, size, m2).value)
  {
    var n := m1.no as nat;
    if !m1.count && m1.j + n <= size {
      if !m1.repeat {
        OverwritePrefix(m1.output, m1.j, Repeat(input[m1.i], n));
        OverwritePrefix(m2.output, m2.j, Repeat(input[m1.i], n));
      } else if n > 0 && Read(input, m1.i, m1.i + n).Ok? {
        var value := Read(input, m1.i, m1.i + n).value;
        OverwritePrefix(m1.output, m1.j, value);
        OverwritePrefix(m2.output, m2.j, value);
      }
    }
  }

  /** The bytes `PyMem_New` leaves in the buffer never reach the result: the
      decoder gives the same outcome whatever they are. */
  lemma {:induction false} BufferNeverLeaks(input: seq<byte>, size: nat, m1: Machine, m2: Machine, fuel: nat)
    requires Valid(size, m1) && Valid(size, m2) && AgreeUpToCursor(m1, m2)
    ensures Run(input, size, m1, fuel) == Run(input, size, m2, fuel)
    decreases fuel
  {
    if m1.i < |input| && fuel > 0 {
      StepAgrees(input, size, m1, m2);
      if Step(input, size, m1).Ok? {
        BufferNeverLeaks(input, size, Step(input, size, m1).value, Step(input, size, m2).value, fuel - 1);
      }
    }
  }

  /** `BufferNeverLeaks` for a whole call. */
  lemma UninitialisedBufferIsInvisible(input: seq<byte>, outputSize: nat, b1: seq<byte>, b2: seq<byte>, fuel: nat)
    requires |b1| == outputSize && |b2| == outputSize
    ensures ByteRleDecode(input, outputSize, b1, fuel) == ByteRleDecode(input, outputSize, b2, fuel)
  {
    BufferNeverLeaks(input, outputSize, Machine(0, 0, true, false, 0, b1), Machine(0, 0, true, false, 0, b2), fuel);
  }

  // ---------------------------------------------------------------------------
  // Token by token

  /** An empty literal, `0x80`, read with more of the stream to come leaves the
      machine where it is for good: the loop never ends. */
  lemma {:induction false} Stalls(input: seq<byte>, size: nat, m: Machine, fuel: nat)
    requires Valid(size, m) && m.i < |input| && !m.count && m.repeat && m.no == 0
    ensures Step(input, size, m) == Ok(m)
    ensures Run(input, size, m, fuel) == OutOfFuel
    decreases fuel
  {
    if fuel > 0 {
      Stalls(input, size, m, fuel - 1);
    }
  }

  /** The machine between tokens: about to read a control byte at `get`, with
      `done` written in front of the buffer's remaining bytes `rest`. */
  function Boundary(get: nat, done: seq<byte>, rest: seq<byte>, no: byte): Machine {
    Machine(get, |done|, true, false, no, done + rest)
  }

  /** Writing a run right after `done` keeps the bytes after it. */
  lemma WriteAfterDone(done: seq<byte>, rest: seq<byte>, value: seq<byte>)
    requires |value| <= |rest|
    ensures Write(done + rest, |done|, value) == Ok((done + value) + rest[|value|..])
  {
    var buffer := done + rest;
    assert buffer[..|done|] == done;
    assert buffer[|done| + |value|..] == rest[|value|..];
  }

  /** No literal of length zero among the tokens. */
  predicate NoEmptyLiteral(ts: seq<Token>) {
    forall k | 0 <= k < |ts| :: ts[k] != Literal([])
  }

  /** A complete literal of `n > 0` bytes at `get` takes two passes: it is
      appended to `done` when it fits in `rest`, and overruns the buffer when
      it does not. */
  lemma LiteralPass(input: seq<byte>, size: nat, get: nat, done: seq<byte>, rest: seq<byte>, no: byte,
                    data: seq<byte>, fuel: nat)
    requires get < |input| && NextToken(input[get..]) == Some(Literal(data)) && |data| > 0
    requires |done| + |rest| == size
    ensures |data| <= |rest| ==>
              Run(input, size, Boundary(get, done, rest, no), fuel + 2) ==
              Run(input, size, Boundary(get + 1 + |data|, done + data, rest[|data|..], |data| as byte), fuel)
    ensures |data| > |rest| ==>
              Run(input, size, Boundary(get, done, rest, no), fuel + 2) == Crashed(WriteOutOfBounds(size))
    ensures Run(input, size, Boundary(get, done, rest, no), 1) == OutOfFuel
  {
    var s := input[get..];
    var n := |data|;
    assert s[0] == input[get];
    assert input[get + 1..get + 1 + n] == s[1..1 + n];
    var m1 := Machine(get + 1, |done|, false, true, n as byte, done + rest);
    assert Step(input, size, Boundary(get, done, rest, no)) == Ok(m1);
    if n <= |rest| {
      WriteAfterDone(done, rest, data);
      assert Step(input, size, m1) == Ok(Boundary(get + 1 + n, done + data, rest[n..], n as byte));
    }
  }

  /** A complete fill run of `n` bytes at `get` takes two passes: it is
      appended to `done` when it fits in `rest`, and overruns the buffer when
      it does not. */
  lemma FillPass(input: seq<byte>, size: nat, get: nat, done: seq<byte>, rest: seq<byte>, no: byte,
                 n: nat, v: byte, fuel: nat)
    requires get < |input| && NextToken(input[get..]) == Some(Fill(n, v))
    requires |done| + |rest| == size
    ensures n <= |rest| ==>
              Run(input, size, Boundary(get, done, rest, no), fuel + 2) ==
              Run(input, size, Boundary(get + 2, done + Repeat(v, n), rest[n..], n as byte), fuel)
    ensures n > |rest| ==>
              Run(input, size, Boundary(get, done, rest, no), fuel + 2) == Crashed(WriteOutOfBounds(size))
    ensures Run(input, size, Boundary(get, done, rest, no), 1) == OutOfFuel
  {
    var s := input[get..];
    assert s[0] == input[get] && s[1] == input[get + 1];
    var m1 := Machine(get + 1, |done|, false, false, n as byte, done + rest);
    assert Step(input, size, Boundary(get, done, rest, no)) == Ok(m1);
    if n <= |rest| {
      WriteAfterDone(done, rest, Repeat(v, n));
      assert Step(input, size, m1) == Ok(Boundary(get + 2, done + Repeat(v, n), rest[n..], n as byte));
    }
  }

  /** The machine after a token whose run fits: past its wire bytes, with
      its run written after `done`. */
  predicate After(get: nat, done: seq<byte>, rest: seq<byte>, t: Token,
                  next: nat, done': seq<byte>, rest': seq<byte>, no': byte)
    requires WellFormed(t)
  {
    next == get + |Wire(t)| && |Expansion(t)| <= |rest| && done' == done + Expansion(t) &&
    rest' == rest[|Expansion(t)|..] && no' as nat == |Expansion(t)|
  }

  /** A complete token other than an empty literal at `get` takes two passes:
      its run is appended to `done` when it fits in `rest`, and overruns the
      buffer when it does not. */
  lemma TokenPass(input: seq<byte>, size: nat, get: nat, done: seq<byte>, rest: seq<byte>, no: byte,
                  t: Token, next: nat, done': seq<byte>, rest': seq<byte>, no': byte, fuel: nat, total: nat)
    requires get < |input| && NextToken(input[get..]) == Some(t) && t != Literal([])
    requires |done| + |rest| == size && total == fuel + 2
    ensures After(get, done, rest, t, next, done', rest', no') ==>
              Run(input, size, Boundary(get, done, rest, no), total) ==
              Run(input, size, Boundary(next, done', rest', no'), fuel)
    ensures |Expansion(t)| > |rest| ==>
              Run(input, size, Boundary(get, done, rest, no), total) == Crashed(WriteOutOfBounds(size))
    ensures Run(input, size, Boundary(get, done, rest, no), 1) == OutOfFuel
  {
    match t
    case Literal(data) => LiteralPass(input, size, get, done, rest, no, data, fuel);
    case Fill(n, v) => FillPass(input, size, get, done, rest, no, n, v, fuel);
  }

  /** The first of the complete tokens between `get` and `stop`, read from the
      whole stream. */
  lemma HeadToken(input: seq<byte>, stop: nat, get: nat, ts: seq<Token>) returns (t: Token, next: nat, tail: seq<Token>)
    requires get < stop <= |input| && Parse(input[get..stop]) == Some(ts)
    ensures NextToken(input[get..]) == Some(t) && next == get + |Wire(t)| && next <= stop
    ensures Parse(input[next..stop]) == Some(tail) && |ts| > 0 && ts[0] == t && ts[1..] == tail
  {
    var sub := input[..stop];
    assert sub[get..] == input[get..stop];
    t, next, tail := SplitHead(sub, get, ts);
    assert sub[next..] == input[next..stop];
    assert input[get..stop] == input[get..][..stop - get];
    NextTokenExtends(input[get..stop], input[get..]);
    assert ([t] + tail)[1..] == tail;
  }

  /** `TokenPass` when what follows the token is known: a run that fits
      leads to the outcome the rest of the stream has. */
  lemma FitsThen(input: seq<byte>, size: nat, get: nat, done: seq<byte>, rest: seq<byte>, no: byte, t: Token,
                 next: nat, done': seq<byte>, rest': seq<byte>, no': byte, fuel: nat, total: nat, r: Outcome)
    requires get < |input| && NextToken(input[get..]) == Some(t) && t != Literal([])
    requires |done| + |rest| == size && After(get, done, rest, t, next, done', rest', no') && total == fuel + 2
    requires Run(input, size, Boundary(next, done', rest', no'), fuel) == r
    ensures Run(input, size, Boundary(get, done, rest, no), total) == r
  {
    TokenPass(input, size, get, done, rest, no, t, next, done', rest', no', fuel, total);
  }

  /** `TokenPass` when the rest of the stream overruns the buffer: so does
      the stream from this token on. */
  lemma OverrunsThen(input: seq<byte>, size: nat, get: nat, done: seq<byte>, rest: seq<byte>, no: byte, t: Token,
                     next: nat, done': seq<byte>, rest': seq<byte>, no': byte, fuel: nat, total: nat)
    requires get < |input| && NextToken(input[get..]) == Some(t) && t != Literal([])
    requires |done| + |rest| == size && total == fuel + 2
    requires |Expansion(t)| <= |rest| ==>
               After(get, done, rest, t, next, done', rest', no') &&
               Run(input, size, Boundary(next, done', rest', no'), fuel) == Crashed(WriteOutOfBounds(size))
    ensures Run(input, size, Boundary(get, done, rest, no), total) == Crashed(WriteOutOfBounds(size))
  {
    TokenPass(input, size, get, done, rest, no, t, next, done', rest', no', fuel, total);
  }

  /** `TokenPass` when the rest of the stream runs out of passes: so does the
      stream from this token on, with two passes fewer for the token itself. */
  lemma OutOfFuelThen(input: seq<byte>, size: nat, get: nat, done: seq<byte>, rest: seq<byte>, no: byte, t: Token,
                      next: nat, done': seq<byte>, rest': seq<byte>, no': byte, fuel: nat, less: nat)
    requires get < |input| && NextToken(input[get..]) == Some(t) && t != Literal([])
    requires |done| + |rest| == size && After(get, done, rest, t, next, done', rest', no')
    requires fuel >= 2 ==> less == fuel - 2 && Run(input, size, Boundary(next, done', rest', no'), less) == OutOfFuel
    ensures Run(input, size, Boundary(get, done, rest, no), fuel) == OutOfFuel
  {
    if fuel >= 2 {
      TokenPass(input, size, get, done, rest, no, t, next, done', rest', no', less, fuel);
    } else {
      TokenPass(input, size, get, done, rest, no, t, next, done', rest', no', 0, 2);
    }
  }

  /** `ts` are the tokens the stream holds one after another from `get` on. */
  predicate TokensAt(input: seq<byte>, get: nat, ts: seq<Token>)
    decreases |ts|
  {
    |ts| == 0 ||
    (get < |input| && NextToken(input[get..]) == Some(ts[0]) &&
     TokensAt(input, get + |Wire(ts[0])|, ts[1..]))
  }

  /** The wire bytes of the tokens `ts`. */
  function Span(ts: seq<Token>): (n: nat)
    requires AllWellFormed(ts)
    ensures n == |Serialize(ts)|
  {
    if |ts| == 0 then 0 else |Wire(ts[0])| + Span(ts[1..])
  }

  /** A token read at `get` in front of tokens read after it. */
  lemma {:induction false} TokensAtCons(input: seq<byte>, get: nat, ts: seq<Token>, next: nat)
    requires |ts| > 0 && get < |input| && NextToken(input[get..]) == Some(ts[0]) && next == get + |Wire(ts[0])|
    requires TokensAt(input, next, ts[1..])
    ensures TokensAt(input, get, ts)
  {
    TokensAtNext(input, get, ts, next);
  }

  /** The tokens after the first, read where its wire bytes end. */
  lemma {:induction false} TokensAtNext(input: seq<byte>, get: nat, ts: seq<Token>, next: nat)
    requires |ts| > 0 && WellFormed(ts[0]) && next == get + |Wire(ts[0])| && TokensAt(input, next, ts[1..])
    ensures TokensAt(input, get + |Wire(ts[0])|, ts[1..])
  {
    TokensAtMoved(input, next, get + |Wire(ts[0])|, ts[1..]);
  }

  /** `TokensAtNext` the other way round: the tokens after the first, at
      a position named for where it ends. */
  lemma {:induction false} TokensAtNamed(input: seq<byte>, get: nat, ts: seq<Token>, next: nat)
    requires |ts| > 0 && WellFormed(ts[0]) && next == get + |Wire(ts[0])|
    requires TokensAt(input, get + |Wire(ts[0])|, ts[1..])
    ensures TokensAt(input, next, ts[1..])
  {
    TokensAtMoved(input, get + |Wire(ts[0])|, next, ts[1..]);
  }

  /** `TokensAt` for a non-empty sequence, unfolded once. */
  lemma {:induction false} TokensAtUnfold(input: seq<byte>, get: nat, ts: seq<Token>)
    requires |ts| > 0 && TokensAt(input, get, ts)
    ensures get < |input| && NextToken(input[get..]) == Some(ts[0]) && WellFormed(ts[0])
    ensures TokensAt(input, get + |Wire(ts[0])|, ts[1..])
  {
  }

  /** `TokensAt` read at an equal position, stated apart so that provers need
      not match positions that are equal only by arithmetic. */
  lemma {:induction false} TokensAtMoved(input: seq<byte>, a: nat, b: nat, ts: seq<Token>)
    requires TokensAt(input, a, ts)
    requires a == b
    ensures TokensAt(input, b, ts)
  {
  }

  /** The tokens a span of the stream parses into lie there one after another. */
  lemma {:induction false} ParsedTokensAt(input: seq<byte>, get: nat, stop: nat, ts: seq<Token>)
    requires get <= stop <= |input| && Parse(input[get..stop]) == Some(ts)
    ensures TokensAt(input, get, ts)
    decreases stop - get
  {
    if get < stop {
      var t, next, tail := HeadToken(input, stop, get, ts);
      ParsedTokensAt(input, next, stop, tail);
      TokensAtCons(input, get, ts, next);
    }
  }

  /** ... and fill it exactly. */
  lemma ParsedSpan(input: seq<byte>, get: nat, stop: nat, ts: seq<Token>)
    requires get <= stop <= |input| && Parse(input[get..stop]) == Some(ts)
    ensures get + Span(ts) == stop
  {
  }

  /** The tokens after the first keep the properties of the whole, and the
      first token's wire bytes and run lead theirs. */
  lemma TailTokens(ts: seq<Token>)
    requires |ts| > 0 && NoEmptyLiteral(ts) && AllWellFormed(ts)
    ensures ts[0] != Literal([]) && WellFormed(ts[0])
    ensures NoEmptyLiteral(ts[1..]) && AllWellFormed(ts[1..])
    ensures Span(ts) == |Wire(ts[0])| + Span(ts[1..])
    ensures ExpandAll(ts) == Expansion(ts[0]) + ExpandAll(ts[1..])
  {
    assert forall k | 0 <= k < |ts[1..]| :: ts[1..][k] == ts[k + 1];
  }

  /** The first of the tokens at `get` and what follows it, with the machine
      after it when its run fits in `rest`. */
  lemma {:induction false} TokensAtHead(input: seq<byte>, get: nat, done: seq<byte>, rest: seq<byte>, ts: seq<Token>)
    returns (t: Token, tail: seq<Token>, next: nat, done': seq<byte>, rest': seq<byte>, no': byte)
    requires |ts| > 0 && TokensAt(input, get, ts) && NoEmptyLiteral(ts) && AllWellFormed(ts)
    ensures get < |input| && NextToken(input[get..]) == Some(t) && t != Literal([]) && WellFormed(t)
    ensures TokensAt(input, next, tail) && NoEmptyLiteral(tail) && AllWellFormed(tail) && |ts| == |tail| + 1
    ensures get + Span(ts) == next + Span(tail)
    ensures ExpandAll(ts) == Expansion(t) + ExpandAll(tail)
    ensures |Expansion(t)| <= |rest| ==> After(get, done, rest, t, next, done', rest', no')
    ensures |Expansion(t)| <= |rest| ==> |done'| + |rest'| == |done| + |rest|
  {
    t, tail := ts[0], ts[1..];
    next := get + |Wire(ts[0])|;
    TokensAtUnfold(input, get, ts);
    TokensAtNamed(input, get, ts, next);
    TailTokens(ts);
    done', no' := done + Expansion(t), |Expansion(t)| as byte;
    rest' := if |Expansion(t)| <= |rest| then rest[|Expansion(t)|..] else rest;
  }

  /** What the tokens leave behind when their runs fit in `rest`. */
  predicate Consumed(get: nat, done: seq<byte>, rest: seq<byte>, ts: seq<Token>,
                     stop: nat, done': seq<byte>, rest': seq<byte>)
    requires AllWellFormed(ts)
  {
    stop == get + Span(ts) && |ExpandAll(ts)| <= |rest| &&
    done' == done + ExpandAll(ts) && rest' == rest[|ExpandAll(ts)|..]
  }

  /** Consuming one token, then the rest of them, consumes them all. */
  lemma ConsumedCons(get: nat, done: seq<byte>, rest: seq<byte>, ts: seq<Token>, t: Token, tail: seq<Token>,
                     next: nat, done1: seq<byte>, rest1: seq<byte>, no1: byte,
                     stop: nat, done': seq<byte>, rest': seq<byte>)
    requires AllWellFormed(ts) && AllWellFormed(tail) && WellFormed(t)
    requires get + Span(ts) == next + Span(tail) && ExpandAll(ts) == Expansion(t) + ExpandAll(tail)
    requires After(get, done, rest, t, next, done1, rest1, no1)
    requires Consumed(next, done1, rest1, tail, stop, done', rest')
    ensures Consumed(get, done, rest, ts, stop, done', rest')
  {
    AppendAssoc(done, Expansion(t), ExpandAll(tail));
    DropDrop(rest, |Expansion(t)|, |ExpandAll(tail)|, |ExpandAll(ts)|);
  }

  /** Through tokens without empty literals whose runs fit in `rest`, the
      machine spends two passes per token and appends their runs to `done`. */
  lemma {:induction false} RunTokens(input: seq<byte>, size: nat, get: nat, done: seq<byte>,
                                     rest: seq<byte>, no: byte, ts: seq<Token>, fuel: nat, total: nat)
    returns (stop: nat, done': seq<byte>, rest': seq<byte>, no': byte)
    requires TokensAt(input, get, ts) && NoEmptyLiteral(ts) && AllWellFormed(ts)
    requires |done| + |rest| == size && |ExpandAll(ts)| <= |rest| && total == fuel + 2 * |ts|
    ensures Consumed(get, done, rest, ts, stop, done', rest')
    ensures Run(input, size, Boundary(get, done, rest, no), total) ==
            Run(input, size, Boundary(stop, done', rest', no'), fuel)
    decreases |ts|
  {
    if |ts| == 0 {
      stop, done', rest', no' := get, done, rest, no;
      assert done + ExpandAll(ts) == done && rest[|ExpandAll(ts)|..] == rest;
    } else {
      var t, tail, next, done1, rest1, no1 := TokensAtHead(input, get, done, rest, ts);
      var less := fuel + 2 * |tail|;
      stop, done', rest', no' := RunTokens(input, size, next, done1, rest1, no1, tail, fuel, less);
      ConsumedCons(get, done, rest, ts, t, tail, next, done1, rest1, no1, stop, done', rest');
      FitsThen(input, size, get, done, rest, no, t, next, done1, rest1, no1, less, total,
               Run(input, size, Boundary(stop, done', rest', no'), fuel));
    }
  }

  /** Through tokens without empty literals whose runs do not fit in `rest`,
      the machine overruns the buffer within two passes per token. */
  lemma {:induction false} RunTokensOverrun(input: seq<byte>, size: nat, get: nat, done: seq<byte>,
                                            rest: seq<byte>, no: byte, ts: seq<Token>, fuel: nat, total: nat)
    requires TokensAt(input, get, ts) && NoEmptyLiteral(ts) && AllWellFormed(ts)
    requires |done| + |rest| == size && |ExpandAll(ts)| > |rest| && total == fuel + 2 * |ts|
    ensures Run(input, size, Boundary(get, done, rest, no), total) == Crashed(WriteOutOfBounds(size))
    decreases |ts|
  {
    var t, tail, next, done1, rest1, no1 := TokensAtHead(input, get, done, rest, ts);
    var less := fuel + 2 * |tail|;
    if |Expansion(t)| <= |rest| {
      RunTokensOverrun(input, size, next, done1, rest1, no1, tail, fuel, less);
    }
    OverrunsThen(input, size, get, done, rest, no, t, next, done1, rest1, no1, less, total);
  }

  /** With fewer than two passes per token, the bound on passes runs out
      inside the tokens. */
  lemma {:induction false} RunTokensShort(input: seq<byte>, size: nat, get: nat, done: seq<byte>,
                                          rest: seq<byte>, no: byte, ts: seq<Token>, fuel: nat)
    requires TokensAt(input, get, ts) && NoEmptyLiteral(ts) && AllWellFormed(ts)
    requires |done| + |rest| == size && |ExpandAll(ts)| <= |rest| && fuel < 2 * |ts|
    ensures Run(input, size, Boundary(get, done, rest, no), fuel) == OutOfFuel
    decreases |ts|
  {
    var t, tail, next, done1, rest1, no1 := TokensAtHead(input, get, done, rest, ts);
    var less: nat := if fuel >= 2 then fuel - 2 else 0;
    if fuel >= 2 {
      RunTokensShort(input, size, next, done1, rest1, no1, tail, less);
    }
    OutOfFuelThen(input, size, get, done, rest, no, t, next, done1, rest1, no1, fuel, less);
  }

  // ---------------------------------------------------------------------------
  // Whole streams

  /** Each token other than an empty literal is at least two wire bytes. */
  lemma {:induction false} SpanBound(ts: seq<Token>)
    requires AllWellFormed(ts) && NoEmptyLiteral(ts)
    ensures 2 * |ts| <= Span(ts)
    decreases |ts|
  {
    if |ts| > 0 {
      assert ts[0] != Literal([]) && WellFormed(ts[0]);
      assert forall k | 0 <= k < |ts[1..]| :: ts[1..][k] == ts[k + 1];
      SpanBound(ts[1..]);
    }
  }

  /** The tokens the first `stop` bytes of a stream parse into lie there from
      the start, fill those bytes, and are at most half as many. */
  lemma PrefixTokens(input: seq<byte>, stop: nat, ts: seq<Token>)
    requires stop <= |input| && Parse(input[..stop]) == Some(ts) && NoEmptyLiteral(ts)
    ensures TokensAt(input, 0, ts) && AllWellFormed(ts) && Span(ts) == stop && 2 * |ts| <= stop
  {
    assert input[0..stop] == input[..stop];
    ParsedTokensAt(input, 0, stop, ts);
    ParsedSpan(input, 0, stop, ts);
    SpanBound(ts);
  }

  /** The machine `byterle_decoder` starts with, between tokens at the start. */
  lemma Start(buffer: seq<byte>)
    ensures Machine(0, 0, true, false, 0, buffer) == Boundary(0, [], buffer, 0)
  {
    assert [] + buffer == buffer;
  }

  /** Through complete tokens, without empty literals, whose runs fit in the
      buffer, the decoder reaches the end of them with their runs written,
      two passes per token. */
  lemma Prefix(input: seq<byte>, size: nat, buffer: seq<byte>, stop: nat, ts: seq<Token>, fuel: nat)
    returns (f: nat, rest: seq<byte>, no: byte)
    requires TokensAt(input, 0, ts) && AllWellFormed(ts) && NoEmptyLiteral(ts) && Span(ts) == stop
    requires |buffer| == size && |ExpandAll(ts)| <= size && 2 * |ts| <= fuel
    ensures f + 2 * |ts| == fuel && |ExpandAll(ts)| + |rest| == size
    ensures ByteRleDecode(input, size, buffer, fuel) == Run(input, size, Boundary(stop, ExpandAll(ts), rest, no), f)
  {
    Start(buffer);
    f := fuel - 2 * |ts|;
    var empty: seq<byte> := [];
    var stop', done';
    stop', done', rest, no := RunTokens(input, size, 0, empty, buffer, 0, ts, f, fuel);
    assert done' == ExpandAll(ts);
  }

  /** The reference decoder on complete tokens that fit, followed by a token
      it cannot read whole. */
  lemma ReferenceTruncated(p: seq<byte>, tail: seq<byte>, outputSize: nat, ts: seq<Token>)
    requires Parse(p) == Some(ts) && |ExpandAll(ts)| <= outputSize && outputSize > 0
    requires |tail| > 0 && NextToken(tail).None?
    ensures RleSpec.Decode(p + tail, outputSize) == Err(RleSpec.TruncatedInput)
  {
    RleSpec.ExpandConcat(p, tail, outputSize, outputSize - |ExpandAll(ts)|);
  }

  /** Once the read cursor is past the stream, the loop stops and hands back
      what was written. */
  lemma EndOfStream(input: seq<byte>, size: nat, get: nat, done: seq<byte>, rest: seq<byte>, no: byte, fuel: nat)
    requires |input| <= get && |done| + |rest| == size
    ensures Run(input, size, Boundary(get, done, rest, no), fuel) == Finished(done)
  {
    assert (done + rest)[..|done|] == done;
  }

  /** A control byte that ends the stream is read, and then the loop stops. */
  lemma LastControlByte(input: seq<byte>, size: nat, get: nat, done: seq<byte>, rest: seq<byte>, no: byte, fuel: nat)
    requires get + 1 == |input| && |done| + |rest| == size && fuel > 0
    ensures Run(input, size, Boundary(get, done, rest, no), fuel) == Finished(done)
  {
    var c := input[get];
    var m1 := if c > 127 then Machine(get + 1, |done|, false, true, (c as int - 128) as byte, done + rest)
              else Machine(get + 1, |done|, false, false, c, done + rest);
    assert Step(input, size, Boundary(get, done, rest, no)) == Ok(m1);
    assert (done + rest)[..|done|] == done;
  }

  /** An empty literal with more of the stream after it: the loop never ends. */
  lemma EmptyLiteralHangs(input: seq<byte>, size: nat, get: nat, done: seq<byte>, rest: seq<byte>, no: byte, fuel: nat)
    requires get + 1 < |input| && input[get] == 0x80 && |done| + |rest| == size
    ensures Run(input, size, Boundary(get, done, rest, no), fuel) == OutOfFuel
  {
    var m1 := Machine(get + 1, |done|, false, true, 0, done + rest);
    assert Step(input, size, Boundary(get, done, rest, no)) == Ok(m1);
    if fuel > 0 {
      Stalls(input, size, m1, fuel - 1);
    }
  }

  /** A literal whose payload the stream cuts short by two bytes or more,
      after at least one byte: its copy reads past the NUL terminator. */
  lemma LiteralPastInput(input: seq<byte>, size: nat, get: nat, done: seq<byte>, rest: seq<byte>, no: byte,
                         fuel: nat, end: nat)
    requires get + 1 < |input| && HighBit(input[get]) && |input| + 1 < get + 1 + RunLength(input[get])
    requires |done| + |rest| == size && fuel >= 2 && end == |input| + 1
    ensures Run(input, size, Boundary(get, done, rest, no), fuel) == Crashed(ReadOutOfBounds(end))
  {
    var n := RunLength(input[get]);
    var m1 := Machine(get + 1, |done|, false, true, n as byte, done + rest);
    assert Step(input, size, Boundary(get, done, rest, no)) == Ok(m1);
    assert Step(input, size, m1) == Err(ReadOutOfBounds(|input| + 1));
  }

  /** A literal whose payload the stream cuts short by exactly one byte: its
      copy takes the NUL terminator as the last byte, the read cursor lands
      past the terminator and the loop stops, having appended the payload
      and a `0x00` when they fit and overrun the buffer when they do not. */
  lemma LiteralReadsTerminator(input: seq<byte>, size: nat, get: nat, done: seq<byte>, rest: seq<byte>, no: byte,
                               fuel: nat)
    requires get + 1 < |input| && HighBit(input[get]) && |input| + 1 == get + 1 + RunLength(input[get])
    requires |done| + |rest| == size && fuel >= 2
    ensures RunLength(input[get]) <= |rest| ==>
              Run(input, size, Boundary(get, done, rest, no), fuel) == Finished(done + (input[get + 1..] + [0]))
    ensures RunLength(input[get]) > |rest| ==>
              Run(input, size, Boundary(get, done, rest, no), fuel) == Crashed(WriteOutOfBounds(size))
  {
    var n := RunLength(input[get]);
    var m1 := Machine(get + 1, |done|, false, true, n as byte, done + rest);
    assert Step(input, size, Boundary(get, done, rest, no)) == Ok(m1);
    var value := input[get + 1..] + [0];
    assert Read(input, get + 1, get + 1 + n) == Ok(value);
    if n <= |rest| {
      WriteAfterDone(done, rest, value);
      var m2 := Boundary(|input| + 1, done + value, rest[n..], n as byte);
      assert Step(input, size, m1) == Ok(m2);
      EndOfStream(input, size, |input| + 1, done + value, rest[n..], n as byte, fuel - 2);
    }
  }

  /** On a stream of complete tokens without empty literals, given a pass
      per input byte, the extension returns the bytes the tokens stand for
      when they fit in `outputSize`, however many fewer they are, and
      overruns its buffer when they do not fit. */
  lemma OnCompleteStreams(input: seq<byte>, outputSize: nat, buffer: seq<byte>, fuel: nat, ts: seq<Token>)
    requires Parse(input) == Some(ts) && NoEmptyLiteral(ts)
    requires |buffer| == outputSize && |input| <= fuel
    ensures |ExpandAll(ts)| <= outputSize ==>
              ByteRleDecode(input, outputSize, buffer, fuel) == Finished(ExpandAll(ts))
    ensures |ExpandAll(ts)| > outputSize ==>
              ByteRleDecode(input, outputSize, buffer, fuel) == Crashed(WriteOutOfBounds(outputSize))
  {
    assert input[..|input|] == input;
    PrefixTokens(input, |input|, ts);
    if |ExpandAll(ts)| <= outputSize {
      var f, rest, no := Prefix(input, outputSize, buffer, |input|, ts, fuel);
      EndOfStream(input, outputSize, |input|, ExpandAll(ts), rest, no, f);
    } else {
      Start(buffer);
      var empty: seq<byte> := [];
      RunTokensOverrun(input, outputSize, 0, empty, buffer, 0, ts, fuel - 2 * |ts|, fuel);
    }
  }

  /** Against the reference decoder, on complete streams without empty
      literals: the extension returns `outputSize` bytes exactly when the
      reference succeeds, and the same bytes; it overruns its buffer exactly
      when the reference reports an overflow; and where the reference reports
      too few bytes, the extension returns those few without complaint. */
  lemma AgreesOnCompleteStreams(input: seq<byte>, outputSize: nat, buffer: seq<byte>, fuel: nat)
    requires Parse(input).Some? && NoEmptyLiteral(Parse(input).value)
    requires outputSize > 0 && |buffer| == outputSize && |input| <= fuel
    ensures RleSpec.Decode(input, outputSize).Ok? <==>
              ByteRleDecode(input, outputSize, buffer, fuel).Finished? &&
              |ByteRleDecode(input, outputSize, buffer, fuel).value| == outputSize
    ensures RleSpec.Decode(input, outputSize).Ok? ==>
              ByteRleDecode(input, outputSize, buffer, fuel) == Finished(RleSpec.Decode(input, outputSize).value)
    ensures RleSpec.Decode(input, outputSize) == Err(RleSpec.OutputOverflow) <==>
              ByteRleDecode(input, outputSize, buffer, fuel) == Crashed(WriteOutOfBounds(outputSize))
    ensures RleSpec.Decode(input, outputSize).Err? && RleSpec.Decode(input, outputSize).error.OutputSizeMismatch? ==>
              ByteRleDecode(input, outputSize, buffer, fuel).Finished? &&
              |ByteRleDecode(input, outputSize, buffer, fuel).value| == RleSpec.Decode(input, outputSize).error.produced
  {
    RleSpec.ExpandMatchesTokens(input, outputSize);
    OnCompleteStreams(input, outputSize, buffer, fuel, Parse(input).value);
  }

  /** An empty literal followed by more of the stream, after complete tokens
      that fit: the extension never returns, however many passes it is given,
      where the reference decoder reads the byte as a run of nothing. */
  lemma HangsOnEmptyLiteral(p: seq<byte>, rest: seq<byte>, outputSize: nat, buffer: seq<byte>,
                            fuel: nat, ts: seq<Token>)
    requires Parse(p) == Some(ts) && NoEmptyLiteral(ts) && |ExpandAll(ts)| <= outputSize
    requires |rest| > 0 && |buffer| == outputSize
    ensures ByteRleDecode(p + [0x80] + rest, outputSize, buffer, fuel) == OutOfFuel
    ensures RleSpec.Decode(p + [0x80] + rest, outputSize) == RleSpec.Decode(p + rest, outputSize)
  {
    var input := p + [0x80] + rest;
    assert input[..|p|] == p && input[|p|] == 0x80;
    PrefixTokens(input, |p|, ts);
    if 2 * |ts| <= fuel {
      var f, rest', no := Prefix(input, outputSize, buffer, |p|, ts, fuel);
      EmptyLiteralHangs(input, outputSize, |p|, ExpandAll(ts), rest', no, f);
    } else {
      Start(buffer);
      var empty: seq<byte> := [];
      RunTokensShort(input, outputSize, 0, empty, buffer, 0, ts, fuel);
    }
    ReferenceSkipsEmptyLiteral(p, rest, outputSize, ts);
  }

  /** The reference decoder reads an empty literal after complete tokens
      that fit as a run of nothing. */
  lemma ReferenceSkipsEmptyLiteral(p: seq<byte>, rest: seq<byte>, outputSize: nat, ts: seq<Token>)
    requires Parse(p) == Some(ts) && |ExpandAll(ts)| <= outputSize
    ensures RleSpec.Decode(p + [0x80] + rest, outputSize) == RleSpec.Decode(p + rest, outputSize)
  {
    var after := outputSize - |ExpandAll(ts)|;
    AppendAssoc(p, [0x80], rest);
    RleSpec.ExpandConcat(p, [0x80] + rest, outputSize, after);
    RleSpec.ZeroRunsAreNoOps(rest, 0, after);
    RleSpec.ExpandConcat(p, rest, outputSize, after);
  }

  /** A control byte left dangling after complete tokens that fit is read
      and dropped: the extension returns what the tokens stand for, where the
      reference decoder reports the missing payload. */
  lemma DanglingControl(p: seq<byte>, c: byte, outputSize: nat, buffer: seq<byte>, fuel: nat, ts: seq<Token>)
    requires Parse(p) == Some(ts) && NoEmptyLiteral(ts) && |ExpandAll(ts)| <= outputSize
    requires |buffer| == outputSize && |p| + 1 <= fuel
    ensures ByteRleDecode(p + [c], outputSize, buffer, fuel) == Finished(ExpandAll(ts))
    ensures c != 0x80 && outputSize > 0 ==> RleSpec.Decode(p + [c], outputSize) == Err(RleSpec.TruncatedInput)
  {
    var input := p + [c];
    assert input[..|p|] == p;
    PrefixTokens(input, |p|, ts);
    var f, rest, no := Prefix(input, outputSize, buffer, |p|, ts, fuel);
    LastControlByte(input, outputSize, |p|, ExpandAll(ts), rest, no, f);
    if c != 0x80 && outputSize > 0 {
      ReferenceTruncated(p, [c], outputSize, ts);
    }
  }

  /** A literal cut short by two bytes or more, after at least one payload
      byte, following complete tokens that fit: the extension reads past the
      NUL terminator of its input, where the reference decoder reports the
      missing payload. */
  lemma ReadFault(p: seq<byte>, c: byte, data: seq<byte>, outputSize: nat, buffer: seq<byte>,
                  fuel: nat, ts: seq<Token>)
    requires Parse(p) == Some(ts) && NoEmptyLiteral(ts) && |ExpandAll(ts)| <= outputSize
    requires HighBit(c) && 0 < |data| && |data| + 1 < RunLength(c)
    requires |buffer| == outputSize && |p| + 1 + |data| <= fuel
    ensures ByteRleDecode(p + [c] + data, outputSize, buffer, fuel) ==
              Crashed(ReadOutOfBounds(|p| + 2 + |data|))
    ensures outputSize > 0 ==> RleSpec.Decode(p + [c] + data, outputSize) == Err(RleSpec.TruncatedInput)
  {
    var input := CutStream(p, c, data);
    CutLiteralCrashes(input, |p|, outputSize, buffer, fuel, ts, |p| + 2 + |data|);
    if outputSize > 0 {
      ReferenceCutLiteral(p, c, data, outputSize, ts);
    }
  }

  /** A literal cut short by exactly one byte, after at least one payload
      byte, following complete tokens that fit: the extension copies the NUL
      terminator as the literal's last byte and returns, where the reference
      decoder reports the missing payload. */
  lemma ReadsTerminator(p: seq<byte>, c: byte, data: seq<byte>, outputSize: nat, buffer: seq<byte>,
                        fuel: nat, ts: seq<Token>)
    requires Parse(p) == Some(ts) && NoEmptyLiteral(ts) && |ExpandAll(ts)| <= outputSize
    requires HighBit(c) && 0 < |data| && |data| + 1 == RunLength(c)
    requires |buffer| == outputSize && |p| + 1 + |data| <= fuel
    ensures |ExpandAll(ts)| + RunLength(c) <= outputSize ==>
              ByteRleDecode(p + [c] + data, outputSize, buffer, fuel) == Finished(ExpandAll(ts) + (data + [0]))
    ensures |ExpandAll(ts)| + RunLength(c) > outputSize ==>
              ByteRleDecode(p + [c] + data, outputSize, buffer, fuel) == Crashed(WriteOutOfBounds(outputSize))
    ensures outputSize > 0 ==> RleSpec.Decode(p + [c] + data, outputSize) == Err(RleSpec.TruncatedInput)
  {
    var input := CutStream(p, c, data);
    CutLiteralReadsTerminator(input, |p|, outputSize, buffer, fuel, ts);
    if outputSize > 0 {
      ReferenceCutLiteral(p, c, data, outputSize, ts);
    }
  }

  /** The stream `ReadFault` and `ReadsTerminator` build, with the prefix, the
      control byte and the payload where they sit in it. */
  lemma CutStream(p: seq<byte>, c: byte, data: seq<byte>) returns (input: seq<byte>)
    ensures input == p + [c] + data && |input| == |p| + 1 + |data|
    ensures input[..|p|] == p && input[|p|] == c && input[|p| + 1..] == data
  {
    input := p + [c] + data;
    assert input[..|p|] == p;
    assert input[|p| + 1..] == data;
  }

  /** `ReadFault` for the stream as a whole: complete tokens up to `stop`,
      then a literal the stream cuts short by two bytes or more. */
  lemma CutLiteralCrashes(input: seq<byte>, stop: nat, outputSize: nat, buffer: seq<byte>,
                          fuel: nat, ts: seq<Token>, end: nat)
    requires stop + 1 < |input| && Parse(input[..stop]) == Some(ts) && NoEmptyLiteral(ts)
    requires HighBit(input[stop]) && |input| + 1 < stop + 1 + RunLength(input[stop])
    requires |ExpandAll(ts)| <= outputSize && |buffer| == outputSize && |input| <= fuel && end == |input| + 1
    ensures ByteRleDecode(input, outputSize, buffer, fuel) == Crashed(ReadOutOfBounds(end))
  {
    PrefixTokens(input, stop, ts);
    var f, rest, no := Prefix(input, outputSize, buffer, stop, ts, fuel);
    LiteralPastInput(input, outputSize, stop, ExpandAll(ts), rest, no, f, end);
  }

  /** `ReadsTerminator` for the stream as a whole: complete tokens up to
      `stop`, then a literal the stream cuts short by exactly one byte. */
  lemma CutLiteralReadsTerminator(input: seq<byte>, stop: nat, outputSize: nat, buffer: seq<byte>,
                                  fuel: nat, ts: seq<Token>)
    requires stop + 1 < |input| && Parse(input[..stop]) == Some(ts) && NoEmptyLiteral(ts)
    requires HighBit(input[stop]) && |input| + 1 == stop + 1 + RunLength(input[stop])
    requires |ExpandAll(ts)| <= outputSize && |buffer| == outputSize && |input| <= fuel
    ensures |ExpandAll(ts)| + RunLength(input[stop]) <= outputSize ==>
              ByteRleDecode(input, outputSize, buffer, fuel) == Finished(ExpandAll(ts) + (input[stop + 1..] + [0]))
    ensures |ExpandAll(ts)| + RunLength(input[stop]) > outputSize ==>
              ByteRleDecode(input, outputSize, buffer, fuel) == Crashed(WriteOutOfBounds(outputSize))
  {
    PrefixTokens(input, stop, ts);
    var f, rest, no := Prefix(input, outputSize, buffer, stop, ts, fuel);
    LiteralReadsTerminator(input, outputSize, stop, ExpandAll(ts), rest, no, f);
  }

  /** The reference decoder on complete tokens that fit, followed by a
      literal whose payload is cut short. */
  lemma ReferenceCutLiteral(p: seq<byte>, c: byte, data: seq<byte>, outputSize: nat, ts: seq<Token>)
    requires Parse(p) == Some(ts) && |ExpandAll(ts)| <= outputSize && outputSize > 0
    requires HighBit(c) && |data| < RunLength(c)
    ensures RleSpec.Decode(p + [c] + data, outputSize) == Err(RleSpec.TruncatedInput)
  {
    var tail := [c] + data;
    assert tail[0] == c;
    assert NextToken(tail).None?;
    AppendAssoc(p, [c], data);
    ReferenceTruncated(p, tail, outputSize, ts);
  }

  // ---------------------------------------------------------------------------
  // The discrepancies on concrete streams

  /** The stream `[0x02, 0x41]`: one fill of two `A`s. */
  lemma TwoAs()
    ensures Parse([0x02, 0x41]) == Some([Fill(2, 0x41)])
    ensures NoEmptyLiteral([Fill(2, 0x41)])
    ensures ExpandAll([Fill(2, 0x41)]) == [0x41, 0x41]
  {
    var ts := [Fill(2, 0x41)];
    ParseSerialize(ts);
    assert Serialize(ts) == Wire(Fill(2, 0x41)) + Serialize([]);
    assert Repeat(0x41, 2) == [0x41, 0x41];
    assert ExpandAll(ts) == Repeat(0x41, 2) + ExpandAll([]);
  }

  /** A control byte left at the end is dropped: `[0x02, 0x41, 0x05]` with
      two bytes declared gives `AA`, where the reference reports truncation. */
  lemma DanglingControlExample(buffer: seq<byte>, fuel: nat)
    requires |buffer| == 2 && 3 <= fuel
    ensures ByteRleDecode([0x02, 0x41, 0x05], 2, buffer, fuel) == Finished([0x41, 0x41])
    ensures RleSpec.Decode([0x02, 0x41, 0x05], 2) == Err(RleSpec.TruncatedInput)
  {
    TwoAs();
    var p: seq<byte> := [0x02, 0x41];
    assert p + [0x05] == [0x02, 0x41, 0x05];
    DanglingControl([0x02, 0x41], 0x05, 2, buffer, fuel, [Fill(2, 0x41)]);
  }

  /** `[0x80, 0x01, 0x41]` never finishes, however many passes are allowed,
      where the reference skips the empty literal and decodes `A`. */
  lemma EmptyLiteralExample(buffer: seq<byte>, fuel: nat)
    requires |buffer| == 1
    ensures ByteRleDecode([0x80, 0x01, 0x41], 1, buffer, fuel) == OutOfFuel
    ensures RleSpec.Decode([0x80, 0x01, 0x41], 1) == Ok([0x41])
  {
    var p: seq<byte>, rest: seq<byte> := [], [0x01, 0x41];
    assert p + [0x80] + rest == [0x80, 0x01, 0x41];
    assert p + rest == rest;
    HangsOnEmptyLiteral(p, rest, 1, buffer, fuel, []);
    var ts := [Fill(1, 0x41)];
    assert Serialize(ts) == Wire(Fill(1, 0x41)) + Serialize([]) == rest;
    assert Repeat(0x41, 1) == [0x41];
    assert ExpandAll(ts) == Repeat(0x41, 1) + ExpandAll([]) == [0x41];
    RleSpec.RoundTrip(ts);
  }

  /** `[0x83, 0x41]` announces three literal bytes and holds one: the copy
      reads the NUL terminator `input[2]` and then `input[3]`, past it, where
      the reference reports truncation. */
  lemma ReadFaultExample(buffer: seq<byte>, fuel: nat)
    requires |buffer| == 3 && 2 <= fuel
    ensures ByteRleDecode([0x83, 0x41], 3, buffer, fuel) == Crashed(ReadOutOfBounds(3))
    ensures RleSpec.Decode([0x83, 0x41], 3) == Err(RleSpec.TruncatedInput)
  {
    var p: seq<byte> := [];
    assert p + [0x83] + [0x41] == [0x83, 0x41];
    ReadFault(p, 0x83, [0x41], 3, buffer, fuel, []);
  }

  /** `[0x82, 0x41]` announces two literal bytes and holds one: the copy takes
      the NUL terminator as the second, and the call returns `A` and `0x00`,
      where the reference reports truncation. */
  lemma TerminatorExample(buffer: seq<byte>, fuel: nat)
    requires |buffer| == 2 && 2 <= fuel
    ensures ByteRleDecode([0x82, 0x41], 2, buffer, fuel) == Finished([0x41, 0x00])
    ensures RleSpec.Decode([0x82, 0x41], 2) == Err(RleSpec.TruncatedInput)
  {
    var p: seq<byte> := [];
    assert p + [0x82] + [0x41] == [0x82, 0x41];
    ReadsTerminator(p, 0x82, [0x41], 2, buffer, fuel, []);
    assert ExpandAll([]) + ([0x41] + [0]) == [0x41, 0x00];
  }

  /** `[0x05, 0x41]` with two bytes declared writes `output[2]`, one past the
      buffer, where the reference reports the overflow. */
  lemma OverrunExample(buffer: seq<byte>, fuel: nat)
    requires |buffer| == 2 && 2 <= fuel
    ensures ByteRleDecode([0x05, 0x41], 2, buffer, fuel) == Crashed(WriteOutOfBounds(2))
    ensures RleSpec.Decode([0x05, 0x41], 2) == Err(RleSpec.OutputOverflow)
  {
    var ts := [Fill(5, 0x41)];
    ParseSerialize(ts);
    assert Serialize(ts) == Wire(Fill(5, 0x41)) + Serialize([]);
    assert ExpandAll(ts) == Repeat(0x41, 5) + ExpandAll([]);
    OnCompleteStreams([0x05, 0x41], 2, buffer, fuel, ts);
    AgreesOnCompleteStreams([0x05, 0x41], 2, buffer, fuel);
  }

  /** `[0x02, 0x41]` with three bytes declared hands back the two bytes it
      has, where the reference reports the size mismatch. */
  lemma ShortResultExample(buffer: seq<byte>, fuel: nat)
    requires |buffer| == 3 && 2 <= fuel
    ensures ByteRleDecode([0x02, 0x41], 3, buffer, fuel) == Finished([0x41, 0x41])
    ensures RleSpec.Decode([0x02, 0x41], 3) == Err(RleSpec.OutputSizeMismatch(3, 2))
  {
    TwoAs();
    OnCompleteStreams([0x02, 0x41], 3, buffer, fuel, [Fill(2, 0x41)]);
    RleSpec.RoundTrip([Fill(2, 0x41)]);
    RleSpec.OneByteShortIsMismatch([0x02, 0x41], 2);
  }
}
