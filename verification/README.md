# HxByteRLE decoding in ahds, modelled in Dafny

ahds reads Amira and AmiraMesh files. A binary data stream declared
`HxByteRLE` holds run-length encoded bytes, and the package decodes it with
`byterle_decoder`. The wire format is a plain concatenation of tokens:

- a control byte `c` with the high bit set is a literal: the next `c & 0x7F` bytes are copied as they are;
- a control byte `c` below `0x80` is a fill: the one byte after it is repeated `c` times.

The decoder is asked for `count` bytes. The repository holds three
implementations of it:

- the current pure-Python fallback, `src/ahds/data_stream.py`;
- the older flag-driven Python fallback, `ahds/data_stream.py`;
- the compiled extension, `src/decodersmodule.cpp`.

The model writes each one down as it is written. It adds a corrected
reference decoder and an imperative decoder proved equal to that reference,
and proves where each implementation agrees with the reference and where it
does not.

| module | file | what it is |
|---|---|---|
| `Results` | results.dfy | `Option` and `Result` |
| `Bytes` | bytes.dfy | the `byte` type, the control-byte masks, repeated bytes |
| `Tokens` | tokens.dfy | the wire format as tokens: reading, parsing, serializing |
| `Numpy` | numpy.dfy | Python slices and numpy slice assignment with broadcasting |
| `RleSpec` | rle_spec.dfy | the corrected reference decoder `RleSpec.Decode` |
| `RleDecoder` | rle_decoder.dfy | an array-and-loop decoder proved equal to `RleSpec.Decode` |
| `PyFallback` | py_fallback.dfy | the current Python `byterle_decoder`, as written |
| `FlagFallback` | py_flags.dfy | the older flag-driven Python `byterle_decoder` and `hxbyterle_decode`, as written |
| `CppDecoder` | cpp_decoder.dfy | the C++ `decoders_byterle_decode` and its three buffer helpers, as written |
| `AmiraStream` | amira_stream.dfy | the decoder table of `AmiraMeshDataStream` and the item count `_decode` asks for |

The reference decoder fails with one of four errors where the implementations
overrun, hang or stay silent:

- a declared length that is not positive;
- a token whose payload is cut short (`TruncatedInput`);
- a run that would write past the declared length (`OutputOverflow`);
- a stream that ends having produced too few bytes (`OutputSizeMismatch`).

## Model

| member | source | states |
|---|---|---|
| Bytes.RunLength | src/ahds/data_stream.py:156-160 | the run a control byte announces is its low seven bits for a literal and the whole byte for a fill, so never above 127 |
| Bytes.MasksAgree | src/ahds/data_stream.py:156-160 | `c & 0x80` is non-zero exactly when `c > 127`, and `c & 0x7F` is `c - 128` then, so the Python and C++ tests of a control byte agree |
| Bytes.Repeat | src/ahds/data_stream.py:168-169 | a fill of `n` copies of a byte has length `n` and holds that byte everywhere |
| Tokens.Wire | tests/test_05_data_streams.py:91-106 | a token's wire bytes: control byte, then payload; the high bit marks a literal and the run length is the expansion's length |
| Tokens.NextToken | src/ahds/data_stream.py:152-171 | reading the front token succeeds exactly when its payload is complete, and never reads past the stream |
| Tokens.NextTokenOfWire | src/ahds/data_stream.py:152-171 | a stream that starts with a token's wire bytes reads back that token, whatever follows |
| Tokens.NextTokenExtends | src/ahds/data_stream.py:152-171 | reading a token looks no further than its wire bytes |
| Tokens.Parse | src/ahds/data_stream.py:152-171 | a stream splits into complete tokens whose serialization is the stream itself |
| Tokens.ParseSerialize | tests/test_05_data_streams.py:73-109 | parsing inverts serialization: well-formed tokens come back unchanged |
| Tokens.ExpandAllAppend | src/ahds/data_stream.py:152-171 | the bytes of two token sequences in a row are the bytes of each in turn |
| Numpy.Width | src/ahds/data_stream.py:163 | how many elements `s[lo:hi]` selects: all of them inside the sequence, none past its end |
| Numpy.Slice | src/ahds/data_stream.py:163 | `input_data[get:nextget]` clamps both bounds to the input's length |
| Numpy.SliceElements | src/ahds/data_stream.py:163 | the selected elements are those from `lo` on |
| Numpy.SetSlice | src/ahds/data_stream.py:163-169 | `output[put:nextput] = src` succeeds exactly when the source is as wide as the clamped slice or has one element, and keeps the length |
| Numpy.SetSliceElements | src/ahds/data_stream.py:163-169 | a slice assignment writes the selected positions, from the source or broadcast from its one element, and nothing else |
| Numpy.Zeros | src/ahds/data_stream.py:149 | `np.zeros(count, dtype=np.uint8)` has `count` elements |
| Numpy.WriteAfter | src/ahds/data_stream.py:163-169 | a run written right after the bytes already produced, in a zeroed buffer, lands there and leaves the zeros after it |
| RleSpec.Expand | src/ahds/data_stream.py:152-171 | expansion into a bounded room yields at most that many bytes and fails only on a cut-short payload or an overflowing run |
| RleSpec.Decode | src/ahds/data_stream.py:135-175 | the corrected decoder: a positive count, and a result of exactly `count` bytes or one of the four errors |
| RleSpec.ExpandMatchesTokens | src/ahds/data_stream.py:152-171 | expansion succeeds exactly on streams that parse into tokens that fit, and yields their bytes; truncation means the stream does not parse |
| RleSpec.DecodeMatchesTokens | src/ahds/data_stream.py:152-175 | decoding succeeds exactly when the stream parses and its tokens stand for `count` bytes, and returns those bytes; other streams are truncated or overflow |
| RleSpec.RoundTrip | tests/test_05_data_streams.py:203-205 | serialized well-formed tokens decode back to the bytes they stand for |
| RleSpec.ExpandSerialized | src/ahds/data_stream.py:152-171 | the wire bytes of tokens, then anything, expand to the tokens' bytes in front of what follows |
| RleSpec.ExpandConcat | src/ahds/data_stream.py:152-171 | a complete stream followed by another expands as the first in front of the second |
| RleSpec.TruncatedAt | src/ahds/data_stream.py:156-170 | a token whose payload runs past the stream stops expansion with `TruncatedInput` |
| RleSpec.OverflowAt | src/ahds/data_stream.py:161-168 | a complete token longer than the free room stops expansion with `OutputOverflow` |
| RleSpec.LiteralStep | src/ahds/data_stream.py:156-166 | a complete literal that fits appends its payload to what was produced |
| RleSpec.FillStep | src/ahds/data_stream.py:167-171 | a complete fill that fits appends its repeated byte to what was produced |
| RleSpec.ZeroRunsAreNoOps | src/ahds/data_stream.py:156-171 | the empty literal `0x80` and an empty fill `0x00 v` consume their bytes and produce nothing |
| RleSpec.TestTerminatorIsHarmless | tests/test_05_data_streams.py:108 | the `0x00 '\n'` the test encoder appends never changes the decoded result |
| RleSpec.TerminatorAfter | tests/test_05_data_streams.py:108 | with the tokens fitting, the terminator leaves the expansion unchanged |
| RleSpec.TerminatorKeepsOverflow | tests/test_05_data_streams.py:108 | with the tokens overflowing, the stream overflows with or without the terminator |
| RleSpec.OneByteShortIsMismatch | tests/test_05_data_streams.py:214-216 | asking for one byte more than a stream encodes is an error naming both lengths |
| RleDecoder.Decode | src/ahds/data_stream.py:135-175 | the array-and-loop decoder returns exactly what `RleSpec.Decode` returns |
| RleDecoder.DecodeInto | src/ahds/data_stream.py:150-171 | the loop stops with the error expansion reports, or having written exactly the expansion |
| RleDecoder.Advance | src/ahds/data_stream.py:152-171 | one loop pass keeps "output so far, then the rest's expansion, is the whole expansion" |
| RleDecoder.DecodeToken | src/ahds/data_stream.py:152-171 | one token is decoded at the write cursor with both cursors moved past it, or the reference's error is reported |
| RleDecoder.TokenFault | src/ahds/data_stream.py:156-168 | the two checks the source lacks: the payload ends inside the stream and the run fits; failing either is the reference's error |
| RleDecoder.WriteLiteral | src/ahds/data_stream.py:163 | a literal copy puts the payload right after the bytes written so far |
| RleDecoder.WriteFill | src/ahds/data_stream.py:169 | a fill puts `n` copies of the byte right after the bytes written so far |
| PyFallback.ByteRleDecoder | src/ahds/data_stream.py:135-175 | a negative count raises from `np.zeros`, and a returned array is always `count` long |
| PyFallback.Step | src/ahds/data_stream.py:152-171 | one pass moves the write cursor by the full announced run, whatever the slices selected, and fails only by broadcast mismatch or a missing fill byte |
| PyFallback.Loop | src/ahds/data_stream.py:152-173 | the loop never raises the `np.zeros` error and returns `count` bytes |
| PyFallback.PastTheEndNeverReturns | src/ahds/data_stream.py:161-173 | once the write cursor is past `count` the closing assertion fails if nothing fails first |
| PyFallback.LiteralFits | src/ahds/data_stream.py:156-166 | a complete literal that fits is copied right after the bytes produced |
| PyFallback.FillFits | src/ahds/data_stream.py:167-171 | a complete fill that fits is written right after the bytes produced |
| PyFallback.TokenOverflows | src/ahds/data_stream.py:161-173 | a complete token that does not fit keeps the decoder from returning |
| PyFallback.OnFittingTokens | src/ahds/data_stream.py:152-173 | complete tokens that fit: the decoder returns their bytes when they fill `count`, and fails its assertion when they fall short |
| PyFallback.OverflowingTokens | src/ahds/data_stream.py:152-173 | complete tokens that overflow: the decoder never returns |
| PyFallback.OnCompleteStreams | src/ahds/data_stream.py:135-175 | on complete streams the fallback returns exactly when the tokens stand for `count` bytes, and returns those bytes |
| PyFallback.AcceptsReference | src/ahds/data_stream.py:135-175 | wherever the reference succeeds the fallback returns the same bytes |
| PyFallback.AgreesOnCompleteStreams | src/ahds/data_stream.py:135-175 | on complete streams with a positive count the fallback returns exactly when the reference succeeds, with the same bytes |
| PyFallback.ShortLiteralShift | src/ahds/data_stream.py:152-171 | past a complete first token, a stream ends in a short literal exactly when the rest does |
| PyFallback.BroadcastToEnd | src/ahds/data_stream.py:160-166 | a two-byte literal that announces the remaining room broadcasts its one byte over the run and ends the stream |
| PyFallback.CutHere | src/ahds/data_stream.py:152-173 | a stream whose first token is cut short returns only when it is a short literal that fills the room |
| PyFallback.OnCutTokens | src/ahds/data_stream.py:152-173 | after complete tokens, a cut-short stream returns exactly when it ends in a short literal that completes `count`, with the broadcast bytes |
| PyFallback.OnCutStreams | src/ahds/data_stream.py:135-175 | on streams that do not parse, the fallback returns only when they end in a short literal whose run completes `count` |
| PyFallback.OneByteMoreFailsAssertion | src/ahds/data_stream.py:173 | asking for one byte more than a complete stream stands for fails the closing assertion |
| PyFallback.BroadcastsShortLiteral | src/ahds/data_stream.py:160-163 | `[c, v]` with `c` announcing two or more bytes returns `v` repeated, where the reference reports truncation |
| PyFallback.ShortLiteralMismatches | src/ahds/data_stream.py:160-163 | a literal short by two or more bytes raises `ValueError`, where the reference reports truncation |
| PyFallback.MissingFillByteRaises | src/ahds/data_stream.py:167-169 | a fill with no byte after it raises `IndexError`, where the reference reports truncation |
| PyFallback.AcceptsZeroCount | src/ahds/data_stream.py:149-175 | with a count of zero, a complete stream returns an empty array exactly when all its runs are empty; otherwise it does not return: a literal of two or more bytes raises the broadcast `ValueError`, and any other run fails the closing assertion; the reference rejects the length for every stream |
| PyFallback.ZeroCountTokens | src/ahds/data_stream.py:153-175 | into an empty array, complete tokens raise `ValueError` at the first literal of two or more bytes, and otherwise end in the closing assertion, which holds only if no run was announced |
| PyFallback.ZeroCountPass | src/ahds/data_stream.py:153-171 | one loop pass into an empty array: a wide literal raises, and any other token writes nothing while `put` still advances by its run |
| PyFallback.ZeroCountStep | src/ahds/data_stream.py:154-171 | the same pass stated on the loop body |
| PyFallback.ZeroCountLiteral | src/ahds/data_stream.py:156-166 | a literal into an empty slice broadcasts when it has at most one byte, and raises `ValueError` when it has more |
| PyFallback.ZeroCountFill | src/ahds/data_stream.py:167-171 | a fill byte broadcasts over an empty slice: nothing is written and `put` advances by the run |
| PyFallback.AnyWideAt | src/ahds/data_stream.py:163 | a token sequence holds a literal of two or more bytes exactly when some position holds one |
| PyFallback.ZeroCountExamples | src/ahds/data_stream.py:163-173 | with a count of zero, `[0x01, 0x41]` fails the closing assertion and `[0x82, 0x41, 0x42]` raises `ValueError` |
| PyFallback.BroadcastExample | src/ahds/data_stream.py:160-165 | `[0x83, 0x41]` with a count of 3 returns `AAA`, where the reference reports truncation |
| FlagFallback.ByteRleDecoder | ahds/data_stream.py:29-81 | a negative size raises from `numpy.zeros`, and a returned array is always `output_size` long |
| FlagFallback.Step | ahds/data_stream.py:47-77 | each pass advances `i`, or keeps it and leaves the payload state of an empty literal |
| FlagFallback.Loop | ahds/data_stream.py:47-79 | the two-phase loop returns `output_size` bytes and never raises the `numpy.zeros` error |
| FlagFallback.HxByteRleDecode | ahds/data_stream.py:84-95 | the wrapper returns arrays of `output_size` bytes |
| FlagFallback.WrapperAssertionHolds | ahds/data_stream.py:93-94 | the wrapper's length assertion never fails: it returns what the decoder does |
| FlagFallback.ControlPass | ahds/data_stream.py:48-60 | the pass over a control byte only records whether a literal or a fill follows, and its length |
| FlagFallback.LiteralPass | ahds/data_stream.py:62-69 | the pass over a literal's payload does what the current fallback's literal branch does |
| FlagFallback.FillPass | ahds/data_stream.py:70-77 | the pass over a fill's byte does what the current fallback's fill branch does |
| FlagFallback.TokenPass | ahds/data_stream.py:47-77 | a control byte with more after it takes two passes that equal one pass of the current fallback |
| FlagFallback.EmptyLiteralLast | ahds/data_stream.py:62-69 | a lone `0x80` at the end changes nothing in either Python decoder |
| FlagFallback.Simulation | ahds/data_stream.py:47-79 | away from a dangling control byte, the old loop and the current loop give the same outcome |
| FlagFallback.CompleteIsNotDangling | ahds/data_stream.py:47-60 | a stream of complete tokens never ends in a dangling control byte |
| FlagFallback.AgreesWithFallback | ahds/data_stream.py:29-81 | the two Python decoders agree on every stream without a dangling control byte, for every size |
| FlagFallback.AgreesOnCompleteStreams | ahds/data_stream.py:29-81 | in particular they agree on every stream of complete tokens |
| FlagFallback.StepIgnoresSuffix | src/ahds/data_stream.py:152-171 | where a complete token starts, the current fallback's pass is the same whatever follows the stream |
| FlagFallback.IgnoresDanglingControl | ahds/data_stream.py:47-60 | after complete tokens, one more control byte is read and the loop stops, as if it were not there |
| FlagFallback.DanglingControlIgnored | ahds/data_stream.py:47-81 | a control byte appended to a complete stream is dropped silently, where the reference reports truncation |
| FlagFallback.DanglingExample | ahds/data_stream.py:47-81 | `[0x02, 0x41, 0x05]` with a size of 2 returns `AA`, where the reference reports truncation |
| CppDecoder.Overwrite | src/decodersmodule.cpp:185-203 | writing into a buffer keeps its length |
| CppDecoder.OverwriteElements | src/decodersmodule.cpp:185-203 | a write changes exactly the positions it covers, to the written bytes |
| CppDecoder.Read | src/decodersmodule.cpp:175-183 | `get_multiple` reads `input[start..end]` of the NUL-terminated input, so index `input_size` reads `0x00`, or faults at the first index past the terminator; an empty range reads nothing |
| CppDecoder.Write | src/decodersmodule.cpp:185-203 | the two setters succeed exactly when the run fits in the buffer or is empty, and otherwise fault at the first index past it |
| CppDecoder.GetMultiple | src/decodersmodule.cpp:175-183 | the copy loop computes `Read` |
| CppDecoder.SetMultipleDiff | src/decodersmodule.cpp:185-193 | the copy loop computes `Write` of the value |
| CppDecoder.SetMultipleSame | src/decodersmodule.cpp:195-203 | the fill loop computes `Write` of the repeated byte |
| CppDecoder.Step | src/decodersmodule.cpp:126-165 | one pass never moves `i` back and keeps the write cursor inside the buffer, or faults |
| CppDecoder.Run | src/decodersmodule.cpp:126-172 | a finished loop hands back at most `output_size` bytes |
| CppDecoder.ByteRleDecode | src/decodersmodule.cpp:110-173 | the whole call hands back at most `output_size` bytes |
| CppDecoder.StepAgrees | src/decodersmodule.cpp:126-165 | one pass keeps two machines that agree up to the write cursor agreeing, or faults in both alike |
| CppDecoder.BufferNeverLeaks | src/decodersmodule.cpp:120-172 | the loop's outcome does not depend on buffer bytes past the write cursor |
| CppDecoder.UninitialisedBufferIsInvisible | src/decodersmodule.cpp:120-172 | the uninitialised bytes from `PyMem_New` never reach the result |
| CppDecoder.Stalls | src/decodersmodule.cpp:143-154 | after a `0x80` control byte the pass changes nothing, so the loop never ends |
| CppDecoder.WriteAfterDone | src/decodersmodule.cpp:185-203 | a run written at the write cursor lands after the bytes written so far and keeps the rest |
| CppDecoder.LiteralPass | src/decodersmodule.cpp:127-154 | a complete non-empty literal takes two passes: appended when it fits, a write fault when it does not |
| CppDecoder.FillPass | src/decodersmodule.cpp:127-163 | a complete fill takes two passes: appended when it fits, a write fault when it does not |
| CppDecoder.TokenPass | src/decodersmodule.cpp:126-165 | a complete token other than `0x80` takes two passes, appended or faulting |
| CppDecoder.RunTokens | src/decodersmodule.cpp:126-165 | through tokens that fit, two passes each, the runs are appended in order |
| CppDecoder.RunTokensOverrun | src/decodersmodule.cpp:126-165 | through tokens that do not fit, the buffer is overrun at `output_size` |
| CppDecoder.RunTokensShort | src/decodersmodule.cpp:126-165 | with fewer than two passes per token the pass bound runs out inside them |
| CppDecoder.Prefix | src/decodersmodule.cpp:120-165 | from the start, complete tokens that fit leave the machine after them with their bytes written |
| CppDecoder.EndOfStream | src/decodersmodule.cpp:126-172 | once `i` reaches the end the loop stops and hands back the bytes written |
| CppDecoder.LastControlByte | src/decodersmodule.cpp:126-141 | a control byte that ends the stream is read and the loop then stops |
| CppDecoder.EmptyLiteralHangs | src/decodersmodule.cpp:143-154 | `0x80` with more of the stream after it: the loop never ends |
| CppDecoder.LiteralPastInput | src/decodersmodule.cpp:143-153 | a literal cut short by two bytes or more, after at least one byte, reads past the NUL terminator |
| CppDecoder.LiteralReadsTerminator | src/decodersmodule.cpp:143-153 | a literal cut short by exactly one byte copies the NUL terminator as its last byte and the loop stops: payload and `0x00` are appended when they fit, the buffer is overrun when they do not |
| CppDecoder.OnCompleteStreams | src/decodersmodule.cpp:110-173 | on complete streams the extension returns the tokens' bytes however few, and overruns the buffer when they do not fit |
| CppDecoder.AgreesOnCompleteStreams | src/decodersmodule.cpp:110-173 | against the reference: same bytes exactly when the reference succeeds, a write fault exactly when it overflows, a short result where it reports too few bytes |
| CppDecoder.HangsOnEmptyLiteral | src/decodersmodule.cpp:143-154 | `0x80` after complete tokens, with more to come, hangs for any pass bound, where the reference skips it |
| CppDecoder.ReferenceSkipsEmptyLiteral | src/decodersmodule.cpp:143-154 | the reference reads `0x80` after complete tokens as a run of nothing |
| CppDecoder.DanglingControl | src/decodersmodule.cpp:126-141 | a control byte left dangling after complete tokens is dropped, where the reference reports truncation |
| CppDecoder.ReadFault | src/decodersmodule.cpp:143-153 | a literal cut short by two bytes or more after complete tokens reads at the index just past the NUL terminator, where the reference reports truncation |
| CppDecoder.ReadsTerminator | src/decodersmodule.cpp:143-153 | a literal cut short by exactly one byte after complete tokens returns the tokens' bytes, the payload and a `0x00` when they fit, and overruns the buffer when they do not, where the reference reports truncation |
| CppDecoder.DanglingControlExample | src/decodersmodule.cpp:126-141 | `[0x02, 0x41, 0x05]` with size 2 hands back `AA`, where the reference reports truncation |
| CppDecoder.EmptyLiteralExample | src/decodersmodule.cpp:143-154 | `[0x80, 0x01, 0x41]` never finishes for any pass bound, where the reference decodes `A` |
| CppDecoder.ReadFaultExample | src/decodersmodule.cpp:143-153 | `[0x83, 0x41]` with size 3 reads the terminator `input[2]` and then `input[3]`, past it, where the reference reports truncation |
| CppDecoder.TerminatorExample | src/decodersmodule.cpp:143-153 | `[0x82, 0x41]` with size 2 returns `A` and `0x00`, where the reference reports truncation |
| CppDecoder.OverrunExample | src/decodersmodule.cpp:155-163 | `[0x05, 0x41]` with size 2 writes `output[2]`, past the buffer, where the reference reports the overflow |
| CppDecoder.ShortResultExample | src/decodersmodule.cpp:167-172 | `[0x02, 0x41]` with size 3 hands back two bytes, where the reference reports the size mismatch |
| AmiraStream.CodecFor | src/ahds/data_stream.py:354-358 | the table holds exactly `HxZip`, `HxByteRLE` and no format; only `HxByteRLE` selects the run-length decoder; any other format is an error naming it |
| AmiraStream.NewShape | src/ahds/data_stream.py:398-403 | the shape's extents, with the dimension appended exactly when it is above one |
| AmiraStream.DecodeBinary | src/ahds/data_stream.py:405-416 | an unknown format is an error; `HxByteRLE` and only it goes through the run-length decoder; other codecs get the item count |
| AmiraStream.ItemCountSplits | src/ahds/data_stream.py:398-415 | the item count is the product of the extents, times the dimension when above one |
| AmiraStream.PositiveExtents | src/ahds/data_stream.py:398-415 | positive extents ask for a positive count, one the reference accepts |
| AmiraStream.EmptyAxis | src/ahds/data_stream.py:398-415 | an extent of zero asks for no bytes |
| AmiraStream.EmptyAxisStream | src/ahds/data_stream.py:398-416 | an `HxByteRLE` stream of complete tokens whose shape has an empty axis returns an empty array exactly when all its runs are empty, where the reference rejects the length |
| AmiraStream.ByteRleStreamsMatchReference | src/ahds/data_stream.py:405-416 | an `HxByteRLE` stream of complete tokens decodes exactly when the reference accepts it for the item count, to the same bytes |
| AmiraStream.ByteRleStreamRoundTrip | src/ahds/data_stream.py:405-416 | serialized tokens declared `HxByteRLE`, with a shape of as many items, decode back to the tokens' bytes |

## Left out

- The import switch between the extension and the fallback (src/ahds/data_stream.py:132-134, ahds/data_stream.py:26-28) is not modelled. Each implementation is modelled on its own.
- The `warn()` call of both Python fallbacks is left out. With the default warning filters it has no effect on the result. Under `-W error` or `warnings.simplefilter("error")` it raises `UserWarning` before any decoding (src/ahds/data_stream.py:143-144, ahds/data_stream.py:36-38), which the model does not show.
- `np.frombuffer` and `struct.unpack` turn the stream into a sequence of bytes. The model takes that sequence as its input.
- PyFallback.ByteRleDecoder: the closing `assert put == count` (src/ahds/data_stream.py:173) is taken to be enabled. Under `python -O` it is removed, and the decoder would then return the partly written, zero-padded buffer where the model raises `AssertionFailed`.
- FlagFallback.ByteRleDecoder: the closing `assert j == output_size` (ahds/data_stream.py:79) is taken to be enabled, and so is the wrapper's length assertion (ahds/data_stream.py:94) in FlagFallback.HxByteRleDecode. Under `python -O` both are removed, and the decoder would then return the partly written buffer.
- PyFallback.ByteRleDecoder: Python integers are unbounded, and so is the model. The sum of a Python `int` and a numpy `uint8` scalar is assumed to promote to a wide integer (numpy 1 behaviour), so `put + numbytes` never wraps. Under numpy 2 rules it could wrap at 256; that is not modelled.
- CppDecoder.ByteRleDecode: the `ulong` cursors `i` and `j` and the size are unbounded. 64-bit wrap-around needs streams of 2^64 bytes and is not modelled.
- CppDecoder.ByteRleDecode: the input is taken to be a bytes object, whose buffer CPython ends with a NUL byte, so the read at `input_size` yields `0x00`. A `str` argument, which `s#` converts to UTF-8, is not modelled.
- CppDecoder.ByteRleDecode: the fault cases (reading past the NUL terminator, writing past `output_size`) are undefined behaviour in C++. The model stops with a fault naming the first index touched.
- CppDecoder.ByteRleDecode: a loop that never ends is modelled with a bound on passes (`fuel`). `OutOfFuel` stands for "does not finish within that many passes". `HangsOnEmptyLiteral` proves it for every bound.
- CppDecoder.ByteRleDecode: the buffer `PyMem_New` returns is a parameter, since its contents are unspecified. A failed allocation (NULL) is not modelled.
- CppDecoder.ByteRleDecode: argument parsing with `PyArg_ParseTuple(args, "s#k", ...)` is not modelled. The `k` code converts without overflow checking.
- The C++ function is registered `METH_VARARGS`, while `_decode` calls the decoder with keyword arguments (src/ahds/data_stream.py:412-416). With the extension loaded that call would raise `TypeError`. Only the decoding itself is modelled.
- `PyArray_SimpleNewFromData` wrapping the buffer, the reference counting, and the `malloc`/`free` of the literal buffer are not modelled.
- src/decodersmodule.c, an older C copy of the extension, is not part of this model.
- AmiraStream.DecodeBinary: `zlib.decompress` and `np.frombuffer` for the other codecs are foreign calls. The model records only which codec is chosen and the count it gets.
- AmiraStream.DecodeBinary: the `dtype` argument, the final `reshape`, the ASCII branch (`np.fromstring`) and the reading of the stream from the file are not modelled.
- AmiraStream.ItemCount: `np.prod` of an empty shape is the float `1.0`, and `.tolist()` keeps it a float. The model uses the integer 1. So for an empty shape `np.zeros(1.0, ...)` raises `TypeError` at src/ahds/data_stream.py:149, where the model decodes.
- The test encoder (tests/test_05_data_streams.py:73-109) is used only to choose the terminator property and the round trip. The encoder itself is not modelled.
- tests/test_05_data_streams.py:204-216 calls `byterle_decoder(..., bufsize=...)`. The fallback's signature takes `count` (src/ahds/data_stream.py:135), so that call passes no count. The model follows the code.

## Findings

| source | as written | input that shows it | evidently intended | confidence | as-written member | corrected member |
|---|---|---|---|---|---|---|
| src/ahds/data_stream.py:160-165 | a literal cut short with one payload byte left is broadcast by numpy over the whole run | `[0x83, 0x41]` with count 3 returns `AAA` | report the truncated stream | high, not executed | PyFallback.BroadcastExample | RleDecoder.Decode |
| ahds/data_stream.py:47-60 | a control byte at the end of the stream is read and the loop stops, so it is dropped | `[0x02, 0x41, 0x05]` with size 2 returns `AA` | report the missing payload | high, not executed | FlagFallback.DanglingExample | RleDecoder.Decode |
| src/decodersmodule.cpp:126-141 | the same dangling control byte is dropped by the extension | `[0x02, 0x41, 0x05]` with size 2 returns `AA` | report the missing payload | high, not executed | CppDecoder.DanglingControlExample | RleDecoder.Decode |
| src/decodersmodule.cpp:143-154 | after `0x80` the `no > 0` guard skips the whole branch, so neither `i` nor the flags change | `[0x80, 0x01, 0x41]` with size 1 never returns | treat `0x80` as an empty run and read the next control byte | high, not executed | CppDecoder.EmptyLiteralExample | RleSpec.ZeroRunsAreNoOps |
| src/decodersmodule.cpp:143-153 | a literal's payload is copied without checking `input_size`, so a literal two or more bytes short reads past the NUL terminator | `[0x83, 0x41]` with size 3 reads `input[3]` | report the truncated stream | high, not executed | CppDecoder.ReadFaultExample | RleDecoder.Decode |
| src/decodersmodule.cpp:143-153 | a literal one byte short copies the NUL terminator as its last byte and the call returns | `[0x82, 0x41]` with size 2 returns `A` and `0x00` | report the truncated stream | high, not executed | CppDecoder.TerminatorExample | RleDecoder.Decode |
| src/decodersmodule.cpp:155-163 | runs are written without checking `output_size` | `[0x05, 0x41]` with size 2 writes `output[2]` | report that the runs overflow the declared size | high, not executed | CppDecoder.OverrunExample | RleSpec.DecodeMatchesTokens |
| src/decodersmodule.cpp:167-172 | the array is `j` long, never compared with `output_size` | `[0x02, 0x41]` with size 3 returns `AA` | report the size mismatch | high, not executed | CppDecoder.ShortResultExample | RleSpec.OneByteShortIsMismatch |
