/** How an AmiraMesh data stream reaches the HxByteRLE decoder: the table of
    decoders keyed by the stream's declared format, and the item count the
    decoder is asked for, computed from the stream's shape and dimension.
    Reinterpreting and reshaping the decoded bytes is not modelled. */
module AmiraStream {
  import opened Results
  import opened Bytes
  import opened Tokens
  import RleSpec
  import PyFallback

  /** The first half of a table entry: what turns extracted bytes into items. */
  datatype Decoder =
    | FromBuffer     // `np.frombuffer`
    | ByteRle        // `hxbyterle_decode`, the selected `byterle_decoder`

  /** The second half: what recovers the bytes from the stream. */
  datatype Extractor =
    | Decompress     // `zlib.decompress`
    | RawBytes       // `hxraw_decode`, which hands the bytes back unchanged

  datatype Codec = Codec(decode: Decoder, extract: Extractor)

  /** `AmiraMeshDataStream.__decode_data__`, keyed by the stream's format, with
      `None` for a stream that declares none. */
  const DecodeData: map<Option<string>, Codec> :=
    map[Some("HxZip") := Codec(FromBuffer, Decompress),
        Some("HxByteRLE") := Codec(ByteRle, RawBytes),
        None := Codec(FromBuffer, RawBytes)]

  /** `AHDSStreamError("Data stream format ... not supported")`. */
  datatype StreamError = UnsupportedFormat(format: Option<string>)

  /** The table lookup `_decode` makes, with its `KeyError` turned into a
      stream error naming the format. */
  function CodecFor(format: Option<string>): (r: Result<Codec, StreamError>)
    ensures r.Ok? <==> format == None || format == Some("HxZip") || format == Some("HxByteRLE")
    ensures r.Err? ==> r.error == UnsupportedFormat(format)
    ensures r.Ok? ==> (r.value.decode == ByteRle <==> format == Some("HxByteRLE"))
    ensures r.Ok? ==> (r.value.extract == Decompress <==> format == Some("HxZip"))
  {
    if format in DecodeData then Ok(DecodeData[format]) else Err(UnsupportedFormat(format))
  }

  /** `self.shape`: a numpy array, list or tuple of extents, or a single extent. */
  datatype Shape = Extent(n: int) | Extents(ns: seq<int>)

  /** The extents as a list, as `_decode` first makes them. */
  function Axes(shape: Shape): seq<int> {
    match shape
    case Extent(n) => [n]
    case Extents(ns) => ns
  }

  /** `new_shape`: the extents, with the dimension appended as one more axis
      when each item holds more than one value. */
  function NewShape(shape: Shape, dimension: int): (r: seq<int>)
    ensures |r| == |Axes(shape)| + (if dimension > 1 then 1 else 0)
    ensures r[..|Axes(shape)|] == Axes(shape)
    ensures dimension > 1 ==> r[|Axes(shape)|] == dimension
  {
    if dimension > 1 then Axes(shape) + [dimension] else Axes(shape)
  }

  /** `np.prod` over a list of extents. */
  function Product(xs: seq<int>): int {
    if |xs| == 0 then 1 else xs[0] * Product(xs[1..])
  }

  /** `count=np.prod(new_shape)`: the number of values the decoder must produce. */
  function ItemCount(shape: Shape, dimension: int): int {
    Product(NewShape(shape, dimension))
  }

  /** What the binary branch of `_decode` does with a stream: the table picks
      the codec, and an HxByteRLE stream goes through `hxbyterle_decode` with
      the item count; the other codecs are foreign calls, recorded with the
      count they are given. */
  datatype Decoding = Decoded(outcome: PyFallback.Outcome) | Foreign(codec: Codec, count: int)

  function DecodeBinary(format: Option<string>, data: seq<byte>, shape: Shape, dimension: int)
    : (r: Result<Decoding, StreamError>)
    ensures r.Err? <==> CodecFor(format).Err?
    ensures r.Err? ==> r.error == UnsupportedFormat(format)
    ensures r.Ok? && r.value.Decoded? <==> format == Some("HxByteRLE")
    ensures r.Ok? && r.value.Foreign? ==> r.value.count == ItemCount(shape, dimension)
  {
    match CodecFor(format)
    case Err(e) => Err(e)
    case Ok(codec) =>
      if codec.decode == ByteRle then Ok(Decoded(PyFallback.ByteRleDecoder(data, ItemCount(shape, dimension))))
      else Ok(Foreign(codec, ItemCount(shape, dimension)))
  }

  // ---------------------------------------------------------------------------
  // The item count

  lemma {:induction false} ProductAppend(xs: seq<int>, x: int)
    ensures Product(xs + [x]) == Product(xs) * x
    decreases |xs|
  {
    if |xs| == 0 {
      assert [] + [x] == [x];
    } else {
      assert (xs + [x])[1..] == xs[1..] + [x];
      ProductAppend(xs[1..], x);
    }
  }

  /** The item count is the product of the extents, times the dimension when
      that is above one. */
  lemma ItemCountSplits(shape: Shape, dimension: int)
    ensures ItemCount(shape, dimension) == Product(Axes(shape)) * (if dimension > 1 then dimension else 1)
  {
    if dimension > 1 {
      ProductAppend(Axes(shape), dimension);
    }
  }

  /** Positive extents give a positive product. */
  lemma {:induction false} ProductPositive(xs: seq<int>)
    requires forall k | 0 <= k < |xs| :: xs[k] > 0
    ensures Product(xs) > 0
    decreases |xs|
  {
    if |xs| > 0 {
      assert forall k | 0 <= k < |xs[1..]| :: xs[1..][k] == xs[k + 1];
      ProductPositive(xs[1..]);
    }
  }

  /** One zero extent makes the product zero. */
  lemma {:induction false} ProductZero(xs: seq<int>, k: nat)
    requires k < |xs| && xs[k] == 0
    ensures Product(xs) == 0
    decreases |xs|
  {
    if k > 0 {
      assert xs[1..][k - 1] == xs[k];
      ProductZero(xs[1..], k - 1);
    }
  }

  /** A stream whose extents are all positive asks the decoder for a positive
      number of bytes, a length the reference decoder accepts. */
  lemma PositiveExtents(shape: Shape, dimension: int)
    requires forall k | 0 <= k < |Axes(shape)| :: Axes(shape)[k] > 0
    ensures ItemCount(shape, dimension) > 0
  {
    var r := NewShape(shape, dimension);
    assert forall k | 0 <= k < |r| :: r[k] > 0 by {
      forall k | 0 <= k < |r|
        ensures r[k] > 0
      {
        if k < |Axes(shape)| {
          assert r[..|Axes(shape)|][k] == r[k];
        }
      }
    }
    ProductPositive(r);
  }

  /** A stream with an empty axis asks for no bytes at all. */
  lemma EmptyAxis(shape: Shape, dimension: int, k: nat)
    requires k < |Axes(shape)| && Axes(shape)[k] == 0
    ensures ItemCount(shape, dimension) == 0
  {
    ItemCountSplits(shape, dimension);
    ProductZero(Axes(shape), k);
  }

  // ---------------------------------------------------------------------------
  // HxByteRLE streams

  /** An HxByteRLE stream of complete tokens whose shape has an empty axis:
      the fallback is asked for no bytes and returns an empty array exactly
      when every run in the stream is empty, while the reference decoder
      rejects the length. */
  lemma EmptyAxisStream(data: seq<byte>, shape: Shape, dimension: int, k: nat)
    requires Parse(data).Some? && k < |Axes(shape)| && Axes(shape)[k] == 0
    ensures DecodeBinary(Some("HxByteRLE"), data, shape, dimension).Ok?
    ensures DecodeBinary(Some("HxByteRLE"), data, shape, dimension).value.outcome.Returned? <==>
              ExpandAll(Parse(data).value) == []
    ensures DecodeBinary(Some("HxByteRLE"), data, shape, dimension).value.outcome.Returned? ==>
              DecodeBinary(Some("HxByteRLE"), data, shape, dimension).value.outcome.value == []
    ensures RleSpec.Decode(data, ItemCount(shape, dimension)) == Err(RleSpec.InvalidOutputLength(0))
  {
    EmptyAxis(shape, dimension, k);
    PyFallback.AcceptsZeroCount(data);
  }

  /** An HxByteRLE stream of complete tokens and positive extents decodes
      exactly when the reference decoder accepts it for the stream's item
      count, and to the same bytes. */
  lemma ByteRleStreamsMatchReference(data: seq<byte>, shape: Shape, dimension: int)
    requires Parse(data).Some?
    requires forall k | 0 <= k < |Axes(shape)| :: Axes(shape)[k] > 0
    ensures DecodeBinary(Some("HxByteRLE"), data, shape, dimension).Ok?
    ensures DecodeBinary(Some("HxByteRLE"), data, shape, dimension).value.outcome.Returned? <==>
              RleSpec.Decode(data, ItemCount(shape, dimension)).Ok?
    ensures DecodeBinary(Some("HxByteRLE"), data, shape, dimension).value.outcome.Returned? ==>
              DecodeBinary(Some("HxByteRLE"), data, shape, dimension).value.outcome.value ==
              RleSpec.Decode(data, ItemCount(shape, dimension)).value
  {
    PositiveExtents(shape, dimension);
    PyFallback.AgreesOnCompleteStreams(data, ItemCount(shape, dimension));
  }

  /** Round trip: the wire bytes of well-formed tokens, declared HxByteRLE with
      a shape holding as many items as the tokens stand for, decode back to
      those items. */
  lemma ByteRleStreamRoundTrip(ts: seq<Token>, shape: Shape, dimension: int)
    requires AllWellFormed(ts) && ItemCount(shape, dimension) == |ExpandAll(ts)|
    ensures DecodeBinary(Some("HxByteRLE"), Serialize(ts), shape, dimension) ==
              Ok(Decoded(PyFallback.Returned(ExpandAll(ts))))
  {
    ParseSerialize(ts);
    PyFallback.OnCompleteStreams(Serialize(ts), ItemCount(shape, dimension), ts);
  }
}
