/** The parts of Python and numpy semantics the two pure-Python decoders lean on:
    slices whose bounds are clamped to the length, and assignment of a sequence
    to a slice of a one-dimensional `uint8` array, which either matches the
    slice's width element for element or broadcasts a single element over it. */
module Numpy {
  import opened Results
  import opened Bytes

  function Min(a: nat, b: nat): nat {
    if a <= b then a else b
  }

  /** The number of elements `s[lo:hi]` selects in a sequence of length `len`. */
  function Width(len: nat, lo: nat, hi: nat): (w: nat)
    requires lo <= hi
    ensures w <= hi - lo
    ensures hi <= len ==> w == hi - lo
    ensures len <= lo ==> w == 0
  {
    Min(hi, len) - Min(lo, len)
  }

  /** `s[lo:hi]` with `lo <= hi`: bounds past the end are clamped to it. */
  function Slice(s: seq<byte>, lo: nat, hi: nat): (r: seq<byte>)
    requires lo <= hi
    ensures |r| == Width(|s|, lo, hi)
  {
    s[Min(lo, |s|)..Min(hi, |s|)]
  }

  /** `target[lo:hi] = src`. numpy accepts a source as wide as the clamped slice,
      or a single element it repeats over the slice (which may be empty), and
      otherwise raises `ValueError` ("could not broadcast"), shown as `None`. */
  function SetSlice(target: seq<byte>, lo: nat, hi: nat, src: seq<byte>): (r: Option<seq<byte>>)
    requires lo <= hi
    ensures r.Some? <==> |src| == Width(|target|, lo, hi) || |src| == 1
    ensures r.Some? ==> |r.value| == |target|
  {
    var a, b := Min(lo, |target|), Min(hi, |target|);
    if |src| == b - a then Some(target[..a] + src + target[b..])
    else if |src| == 1 then Some(target[..a] + Repeat(src[0], b - a) + target[b..])
    else None
  }

  /** The elements `s[lo:hi]` selects are those from `lo` on. */
  lemma SliceElements(s: seq<byte>, lo: nat, hi: nat)
    requires lo <= hi
    ensures forall k | 0 <= k < |Slice(s, lo, hi)| :: Slice(s, lo, hi)[k] == s[lo + k]
  {
  }

  /** A successful slice assignment changes the selected positions, to the
      source's elements or to its one broadcast element, and nothing else. */
  lemma SetSliceElements(target: seq<byte>, lo: nat, hi: nat, src: seq<byte>)
    requires lo <= hi && SetSlice(target, lo, hi, src).Some?
    ensures forall k | 0 <= k < |target| && !(lo <= k < hi) ::
              SetSlice(target, lo, hi, src).value[k] == target[k]
    ensures forall k | lo <= k < Min(hi, |target|) ::
              SetSlice(target, lo, hi, src).value[k] == if |src| == 1 then src[0] else src[k - lo]
  {
  }

  /** `numpy.zeros(n, dtype=numpy.uint8)`. */
  function Zeros(n: nat): (r: seq<byte>)
    ensures |r| == n
  {
    Repeat(0, n)
  }

  /** A zeroed buffer into which `done` has been written from the front, with
      `room` zeros still free, takes the run `run` next when it fits: written
      as itself or broadcast from its single repeated byte. */
  lemma WriteAfter(done: seq<byte>, room: nat, run: seq<byte>, src: seq<byte>, rest: nat)
    requires |run| + rest == room
    requires src == run || (|src| == 1 && run == Repeat(src[0], |run|))
    ensures SetSlice(done + Zeros(room), |done|, |done| + |run|, src) == Some((done + run) + Zeros(rest))
  {
    var target := done + Zeros(room);
    var r := SetSlice(target, |done|, |done| + |run|, src);
    var want := (done + run) + Zeros(rest);
    assert r.Some?;
    SetSliceElements(target, |done|, |done| + |run|, src);
    forall k | 0 <= k < |target|
      ensures r.value[k] == want[k]
    {
      if k < |done| {
        assert r.value[k] == target[k];
      } else if k < |done| + |run| {
        assert r.value[k] == if |src| == 1 then src[0] else src[k - |done|];
      } else {
        assert r.value[k] == target[k];
      }
    }
    assert r.value == want;
  }
}
