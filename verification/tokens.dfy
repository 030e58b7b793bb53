/** The HxByteRLE wire format as a sequence of tokens.

    A stream has no header or trailer: it is a plain concatenation of tokens,
    each a control byte followed by its payload.
      - control byte 0x80-0xFF: literal run of `c & 0x7F` bytes copied verbatim;
      - control byte 0x00-0x7F: fill run, the one following byte repeated `c` times. */
module Tokens {
  import opened Results
  import opened Bytes

  /** The longest run a single control byte can announce. */
  const MaxRun: nat := 127

  datatype Token =
    | Literal(data: seq<byte>)
    | Fill(count: nat, value: byte)

  /** A token whose length fits in the seven bits of its control byte. */
  predicate WellFormed(t: Token) {
    match t
    case Literal(data) => |data| <= MaxRun
    case Fill(count, _) => count <= MaxRun
  }

  predicate AllWellFormed(ts: seq<Token>) {
    forall k | 0 <= k < |ts| :: WellFormed(ts[k])
  }

  /** The bytes one token stands for. */
  function Expansion(t: Token): seq<byte> {
    match t
    case Literal(data) => data
    case Fill(count, value) => Repeat(value, count)
  }

  /** The bytes a token sequence stands for: the concatenation of the expansions. */
  function ExpandAll(ts: seq<Token>): seq<byte> {
    if |ts| == 0 then [] else Expansion(ts[0]) + ExpandAll(ts[1..])
  }

  /** The wire bytes of one token: its control byte, then its payload. */
  function Wire(t: Token): (w: seq<byte>)
    requires WellFormed(t)
    ensures |w| == 1 + (if t.Literal? then |t.data| else 1)
    ensures HighBit(w[0]) <==> t.Literal?
    ensures RunLength(w[0]) == |Expansion(t)|
  {
    match t
    case Literal(data) => [(128 + |data|) as byte] + data
    case Fill(count, value) => [count as byte, value]
  }

  /** The wire bytes of a token sequence. */
  function Serialize(ts: seq<Token>): seq<byte>
    requires AllWellFormed(ts)
  {
    if |ts| == 0 then [] else Wire(ts[0]) + Serialize(ts[1..])
  }

  /** The token at the front of a non-empty stream, read from its control byte;
      `None` when the stream ends before the token's payload does. */
  function NextToken(input: seq<byte>): (r: Option<Token>)
    requires |input| > 0
    ensures r.None? <==>
              (HighBit(input[0]) && |input| - 1 < RunLength(input[0])) ||
              (!HighBit(input[0]) && |input| < 2)
    ensures r.Some? ==> WellFormed(r.value) && |Wire(r.value)| <= |input|
  {
    var c := input[0];
    var n := RunLength(c);
    if HighBit(c) then
      if |input| - 1 < n then None else Some(Literal(input[1..1 + n]))
    else if |input| < 2 then None
    else Some(Fill(n, input[1]))
  }

  /** The token read from the front of a stream is exactly what its wire bytes
      there say: reading consumes a prefix and re-serializing gives it back. */
  lemma NextTokenPrefix(input: seq<byte>)
    requires |input| > 0 && NextToken(input).Some?
    ensures input[..|Wire(NextToken(input).value)|] == Wire(NextToken(input).value)
  {
    var t := NextToken(input).value;
    var c := input[0];
    assert Wire(t)[0] == c;
    assert Wire(t)[1..] == input[1..|Wire(t)|];
  }

  /** A stream that starts with the wire bytes of a token reads back that token. */
  lemma NextTokenOfWire(t: Token, rest: seq<byte>)
    requires WellFormed(t)
    ensures NextToken(Wire(t) + rest) == Some(t)
  {
    var input := Wire(t) + rest;
    assert input[0] == Wire(t)[0];
    match t
    case Literal(data) =>
      assert input[1..1 + |data|] == data;
    case Fill(count, value) =>
      assert input[1] == value;
      assert RunLength(input[0]) == |Repeat(value, count)| == count;
  }

  /** A token read from a stream spans its control byte and the payload that
      byte announces: the run length for a literal, one byte for a fill. */
  lemma NextTokenWidth(input: seq<byte>)
    requires |input| > 0 && NextToken(input).Some?
    ensures |Wire(NextToken(input).value)| ==
              1 + (if HighBit(input[0]) then RunLength(input[0]) else 1)
  {
  }

  /** Reading a token looks no further than its wire bytes: a stream that
      starts with a readable token reads the same token however it goes on. */
  lemma NextTokenExtends(p: seq<byte>, s: seq<byte>)
    requires 0 < |p| <= |s| && p == s[..|p|] && NextToken(p).Some?
    ensures NextToken(s) == NextToken(p)
  {
    assert s[0] == p[0];
    var n := RunLength(p[0]);
    if HighBit(p[0]) {
      SliceOfPrefix(p, s, 1, 1 + n);
    } else {
      assert s[1] == p[1];
    }
  }

  /** Conversely, a stream's first token reads the same from any prefix that
      holds its wire bytes. */
  lemma NextTokenOfPrefix(p: seq<byte>, s: seq<byte>)
    requires 0 < |p| <= |s| && p == s[..|p|] && NextToken(s).Some?
    requires |Wire(NextToken(s).value)| <= |p|
    ensures NextToken(p) == NextToken(s)
  {
    assert s[0] == p[0];
    var n := RunLength(p[0]);
    if HighBit(p[0]) {
      SliceOfPrefix(p, s, 1, 1 + n);
    } else {
      assert s[1] == p[1];
    }
  }

  /** Splits a stream into tokens; `None` when the last token's payload is cut short. */
  function Parse(input: seq<byte>): (r: Option<seq<Token>>)
    ensures r.Some? ==> AllWellFormed(r.value)
    ensures r.Some? ==> Serialize(r.value) == input
    decreases |input|
  {
    if |input| == 0 then Some([])
    else
      match NextToken(input)
      case None => None
      case Some(t) =>
        var w := |Wire(t)|;
        match Parse(input[w..])
        case None => None
        case Some(rest) =>
          SerializeCons(input, t, rest);
          Some([t] + rest)
  }

  /** One well-formed token in front of well-formed tokens serializes to its
      wire bytes in front of theirs. */
  lemma {:induction false} SerializeHead(t: Token, rest: seq<Token>)
    requires WellFormed(t) && AllWellFormed(rest)
    ensures AllWellFormed([t] + rest) && Serialize([t] + rest) == Wire(t) + Serialize(rest)
  {
    var ts := [t] + rest;
    assert ts[0] == t && ts[1..] == rest;
    assert AllWellFormed(ts) by {
      forall k | 0 <= k < |ts|
        ensures WellFormed(ts[k])
      {
        if k > 0 {
          assert ts[k] == rest[k - 1];
        }
      }
    }
  }

  /** The token at the front of a stream, in front of tokens that serialize to
      the rest, serializes to the whole stream. */
  lemma {:induction false} SerializeCons(input: seq<byte>, t: Token, rest: seq<Token>)
    requires |input| > 0 && NextToken(input) == Some(t)
    requires AllWellFormed(rest) && Serialize(rest) == input[|Wire(t)|..]
    ensures AllWellFormed([t] + rest) && Serialize([t] + rest) == input
  {
    NextTokenPrefix(input);
    Rejoin(input, |Wire(t)|, Wire(t), Serialize(rest));
    SerializeHead(t, rest);
  }

  /** One token of a stream: it heads the parse of the whole. */
  lemma ParseStep(input: seq<byte>, t: Token, next: nat)
    requires |input| > 0 && NextToken(input) == Some(t) && next == |Wire(t)|
    ensures next <= |input|
    ensures Parse(input[next..]).None? ==> Parse(input).None?
    ensures Parse(input[next..]).Some? ==> Parse(input) == Some([t] + Parse(input[next..]).value)
    ensures Parse(input[next..]).Some? ==>
              ExpandAll([t] + Parse(input[next..]).value) == Expansion(t) + ExpandAll(Parse(input[next..]).value)
  {
    var tail := Parse(input[next..]);
    if tail.Some? {
      assert ([t] + tail.value)[1..] == tail.value;
    }
  }

  /** A stream at `get` that parses has a first token, whose wire bytes end at
      `next`, followed by a stream that parses into the remaining tokens. */
  lemma SplitHead(input: seq<byte>, get: nat, ts: seq<Token>) returns (t: Token, next: nat, rest: seq<Token>)
    requires get < |input| && Parse(input[get..]) == Some(ts)
    ensures NextToken(input[get..]) == Some(t) && next == get + |Wire(t)| && next <= |input|
    ensures Parse(input[next..]) == Some(rest) && ts == [t] + rest
    ensures ExpandAll(ts) == Expansion(t) + ExpandAll(rest)
  {
    var s := input[get..];
    t := NextToken(s).value;
    next := get + |Wire(t)|;
    ParseStep(s, t, |Wire(t)|);
    assert s[|Wire(t)|..] == input[next..];
    rest := Parse(input[next..]).value;
  }

  lemma {:induction false} ExpandAllAppend(a: seq<Token>, b: seq<Token>)
    ensures ExpandAll(a + b) == ExpandAll(a) + ExpandAll(b)
    decreases |a|
  {
    if |a| == 0 {
      assert a + b == b;
    } else {
      assert (a + b)[1..] == a[1..] + b;
      ExpandAllAppend(a[1..], b);
    }
  }

  /** The wire bytes of a token in front of a stream that parses add that
      token in front of its parse. */
  lemma ParseWire(t: Token, tail: seq<byte>, rest: seq<Token>)
    requires WellFormed(t) && Parse(tail) == Some(rest)
    ensures Parse(Wire(t) + tail) == Some([t] + rest)
  {
    var s := Wire(t) + tail;
    NextTokenOfWire(t, tail);
    assert s[|Wire(t)|..] == tail;
    ParseStep(s, t, |Wire(t)|);
  }

  /** Parsing inverts serialization: a stream built from well-formed tokens
      splits back into exactly those tokens. */
  lemma {:induction false} ParseSerialize(ts: seq<Token>)
    requires AllWellFormed(ts)
    ensures Parse(Serialize(ts)) == Some(ts)
    decreases |ts|
  {
    if |ts| > 0 {
      ParseSerialize(ts[1..]);
      ParseWire(ts[0], Serialize(ts[1..]), ts[1..]);
      assert ts == [ts[0]] + ts[1..];
    }
  }
}
