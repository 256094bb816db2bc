/** Moving one mono lane into and out of interleaved device buffers. */
module Lanes {
  import opened Basics

  type Sample = real

  function Zeros(n: nat): (zeros: seq<Sample>)
    ensures |zeros| == n
  {
    seq(n, _ => 0.0)
  }

  lemma ZerosAppend(m: nat, n: nat)
    ensures Zeros(m) + Zeros(n) == Zeros(m + n)
  {
  }

  /** Lane `channel` of the first `n` whole frames. */
  function LaneOf(interleaved: seq<Sample>, channels: nat, channel: nat, n: nat): (lane: seq<Sample>)
    requires channel < channels && n * channels <= |interleaved|
    ensures |lane| == n
  {
    seq(n, i requires 0 <= i < n => FrameInRange(i, n, channels); interleaved[i * channels + channel])
  }

  lemma FrameInRange(i: nat, n: nat, channels: nat)
    requires i < n
    ensures i * channels + channels == (i + 1) * channels <= n * channels
  {
    MulLe(i + 1, n, channels);
  }

  /** Value `j` of a buffer of `len` values that carries `mono` in one lane. */
  function RoutedAt(mono: seq<Sample>, len: nat, channels: nat, channel: nat, j: nat): Sample
    requires channel < channels
  {
    var frame := j / channels;
    if j % channels == channel && frame < |mono| && (frame + 1) * channels <= len then mono[frame] else 0.0
  }

  /** A buffer of `len` values, silent but for `mono` in lane `channel`. */
  function Routed(mono: seq<Sample>, len: nat, channels: nat, channel: nat): (buffer: seq<Sample>)
    requires channel < channels
    ensures |buffer| == len
  {
    seq(len, j requires 0 <= j < len => RoutedAt(mono, len, channels, channel, j))
  }

  lemma FrameIndex(i: nat, channels: nat, channel: nat)
    requires channel < channels
    ensures (i * channels + channel) / channels == i && (i * channels + channel) % channels == channel
  {
    DivModUnique(i * channels + channel, channels, i, channel);
  }

  /** A lane is what stands in its slots, whatever the other lanes carry, and every
      slot of it is there. */
  lemma LaneIsItsSlots(a: seq<Sample>, b: seq<Sample>, channels: nat, channel: nat, n: nat)
    requires channel < channels && n * channels <= |a| && n * channels <= |b|
    ensures LaneOf(a, channels, channel, n) == LaneOf(b, channels, channel, n) <==>
            forall j :: 0 <= j < n * channels && j % channels == channel ==> a[j] == b[j]
  {
    var x, y := LaneOf(a, channels, channel, n), LaneOf(b, channels, channel, n);
    forall i | 0 <= i < n
      ensures i * channels + channel < n * channels && (i * channels + channel) % channels == channel
      ensures x[i] == a[i * channels + channel] && y[i] == b[i * channels + channel]
    {
      FrameInRange(i, n, channels);
      FrameIndex(i, channels, channel);
    }
    if x == y {
      forall j | 0 <= j < n * channels && j % channels == channel
        ensures a[j] == b[j]
      {
        BelowFrames(j, n, channels);
        DivBounds(j, channels);
        assert x[j / channels] == y[j / channels];
      }
    }
  }

  /** What is routed into a lane is what is extracted from it, and every other
      value of the buffer is silence. */
  lemma ExtractAfterRoute(mono: seq<Sample>, len: nat, channels: nat, channel: nat)
    requires channel < channels && |mono| * channels <= len
    ensures LaneOf(Routed(mono, len, channels, channel), channels, channel, |mono|) == mono
    ensures forall j :: 0 <= j < len && j % channels != channel ==> Routed(mono, len, channels, channel)[j] == 0.0
  {
    forall i | 0 <= i < |mono|
      ensures LaneOf(Routed(mono, len, channels, channel), channels, channel, |mono|)[i] == mono[i]
    {
      FrameInRange(i, |mono|, channels);
      FrameIndex(i, channels, channel);
    }
  }

  method ExtractLane(interleaved: array<Sample>, channels: nat, channel: nat, mono: array<Sample>) returns (n: nat)
    requires channel < channels && interleaved != mono
    modifies mono
    ensures n == if interleaved.Length / channels < mono.Length then interleaved.Length / channels else mono.Length
    ensures n * channels <= interleaved.Length
    ensures mono[..n] == LaneOf(interleaved[..], channels, channel, n)
    ensures mono[n..] == old(mono[n..])
  {
    n := if interleaved.Length / channels < mono.Length then interleaved.Length / channels else mono.Length;
    assert n * channels <= interleaved.Length by {
      DivBounds(interleaved.Length, channels);
      MulLe(n, interleaved.Length / channels, channels);
    }
    ghost var lane := LaneOf(interleaved[..], channels, channel, n);
    for i := 0 to n
      invariant forall k :: 0 <= k < i ==> mono[k] == lane[k]
      invariant forall k :: n <= k < mono.Length ==> mono[k] == old(mono[k])
    {
      FrameInRange(i, n, channels);
      mono[i] := interleaved[i * channels + channel];
    }
  }

  /** Samples beyond the whole frames of the buffer are not routed. */
  lemma RoutedTruncates(mono: seq<Sample>, n: nat, len: nat, channels: nat, channel: nat)
    requires channel < channels && n <= |mono| && (n == |mono| || n == len / channels)
    ensures Routed(mono[..n], len, channels, channel) == Routed(mono, len, channels, channel)
  {
    if n == |mono| {
      assert mono[..n] == mono;
    } else {
      forall j: nat | j < len && n <= j / channels
        ensures (j / channels + 1) * channels > len
      {
        PastWholeFrames(j / channels, len, channels);
      }
    }
  }

  lemma PastWholeFrames(frame: nat, len: nat, channels: nat)
    requires channels > 0 && len / channels <= frame
    ensures (frame + 1) * channels > len
  {
    DivBounds(len, channels);
    MulLe(len / channels + 1, frame + 1, channels);
  }

  /** Routes what fits of `mono[..count]` into `data[lo..hi]`. */
  method RouteLane(mono: array<Sample>, count: nat, data: array<Sample>, lo: nat, hi: nat, channels: nat, channel: nat)
    requires channel < channels && mono != data && count <= mono.Length && lo <= hi <= data.Length
    modifies data
    ensures data[lo..hi] == Routed(mono[..count], hi - lo, channels, channel)
    ensures data[..lo] == old(data[..lo]) && data[hi..] == old(data[hi..])
  {
    Silence(data, lo, hi);
    ghost var m := mono[..count];
    var n := if (hi - lo) / channels < count then (hi - lo) / channels else count;
    SilenceIsRouted(hi - lo, channels, channel);
    RoutedTruncates(m, n, hi - lo, channels, channel);
    DivBounds(hi - lo, channels);
    for i := 0 to n
      invariant data[..lo] == old(data[..lo]) && data[hi..] == old(data[hi..])
      invariant data[lo..hi] == Routed(m[..i], hi - lo, channels, channel)
    {
      MulLe(i + 1, (hi - lo) / channels, channels);
      RoutedGrows(m[..i + 1], hi - lo, channels, channel);
      assert m[..i + 1][..i] == m[..i];
      var at := lo + i * channels + channel;
      hide Routed;
      ghost var before := data[lo..hi];
      data[at] := mono[i];
      assert data[lo..hi] == before[at - lo := mono[i]];
    }
  }

  method Silence(data: array<Sample>, lo: nat, hi: nat)
    requires lo <= hi <= data.Length
    modifies data
    ensures data[lo..hi] == Zeros(hi - lo)
    ensures data[..lo] == old(data[..lo]) && data[hi..] == old(data[hi..])
  {
    for j := lo to hi
      invariant forall k :: lo <= k < j ==> data[k] == 0.0
      invariant forall k :: 0 <= k < lo || hi <= k < data.Length ==> data[k] == old(data[k])
    {
      data[j] := 0.0;
    }
  }

  lemma SilenceIsRouted(len: nat, channels: nat, channel: nat)
    requires channel < channels
    ensures Routed([], len, channels, channel) == Zeros(len)
  {
  }

  /** One more sample changes the routed buffer in one place. */
  lemma RoutedGrows(mono: seq<Sample>, len: nat, channels: nat, channel: nat)
    requires mono != [] && channel < channels && |mono| * channels <= len
    ensures var i := |mono| - 1;
            && i * channels + channel < len
            && Routed(mono, len, channels, channel) ==
               Routed(mono[..i], len, channels, channel)[i * channels + channel := mono[i]]
  {
    var i := |mono| - 1;
    FrameInRange(i, |mono|, channels);
    hide RoutedAt;
    forall j: nat | j < len
      ensures RoutedAt(mono, len, channels, channel, j) ==
              if j == i * channels + channel then mono[i] else RoutedAt(mono[..i], len, channels, channel, j)
    {
      RoutedGrowsAt(mono, len, channels, channel, j);
    }
  }

  lemma RoutedGrowsAt(mono: seq<Sample>, len: nat, channels: nat, channel: nat, j: nat)
    requires mono != [] && channel < channels && |mono| * channels <= len && j < len
    ensures var i := |mono| - 1;
            RoutedAt(mono, len, channels, channel, j) ==
            if j == i * channels + channel then mono[i] else RoutedAt(mono[..i], len, channels, channel, j)
  {
    var i, frame := |mono| - 1, j / channels;
    SlotIsUnique(j, i, channels, channel);
    RoutedValue(mono, len, channels, channel, j, frame, j % channels);
    RoutedValue(mono[..i], len, channels, channel, j, frame, j % channels);
    hide RoutedAt;
    if frame < i {
      assert mono[..i][frame] == mono[frame];
    }
  }

  lemma RoutedValue(mono: seq<Sample>, len: nat, channels: nat, channel: nat, j: nat, frame: nat, lane: nat)
    requires channel < channels && frame == j / channels && lane == j % channels
    ensures RoutedAt(mono, len, channels, channel, j) ==
            if lane == channel && frame < |mono| && (frame + 1) * channels <= len then mono[frame] else 0.0
  {
  }

  lemma SlotIsUnique(j: nat, frame: nat, channels: nat, channel: nat)
    requires channel < channels
    ensures j == frame * channels + channel <==> j / channels == frame && j % channels == channel
  {
    DivBounds(j, channels);
    if j == frame * channels + channel {
      DivModUnique(j, channels, frame, channel);
    }
  }

  /** Routing in two parts, the first of whole frames, is routing at once. */
  lemma RoutedAppend(a: seq<Sample>, b: seq<Sample>, len: nat, more: nat, channels: nat, channel: nat)
    requires channel < channels && |a| * channels == len && |b| * channels <= more
    ensures Routed(a, len, channels, channel) + Routed(b, more, channels, channel) ==
            Routed(a + b, len + more, channels, channel)
  {
    hide RoutedAt;
    forall j: nat | j < len + more
      ensures (Routed(a, len, channels, channel) + Routed(b, more, channels, channel))[j] ==
              Routed(a + b, len + more, channels, channel)[j]
    {
      if j < len {
        RoutedInFront(a, b, len, more, channels, channel, j);
      } else {
        RoutedBehind(a, b, len, more, channels, channel, j - len);
      }
    }
  }

  lemma RoutedInFront(a: seq<Sample>, b: seq<Sample>, len: nat, more: nat, channels: nat, channel: nat, j: nat)
    requires channel < channels && |a| * channels == len && j < len
    ensures RoutedAt(a + b, len + more, channels, channel, j) == RoutedAt(a, len, channels, channel, j)
  {
    BelowFrames(j, |a|, channels);
    MulLe(j / channels + 1, |a|, channels);
  }

  lemma RoutedBehind(a: seq<Sample>, b: seq<Sample>, len: nat, more: nat, channels: nat, channel: nat, j: nat)
    requires channel < channels && |a| * channels == len
    ensures RoutedAt(a + b, len + more, channels, channel, len + j) == RoutedAt(b, more, channels, channel, j)
  {
    ShiftFrames(j, |a|, channels);
    Distribute(j / channels + 1, |a|, channels);
  }

  lemma BelowFrames(j: nat, n: nat, channels: nat)
    requires channels > 0 && j < n * channels
    ensures j / channels < n
  {
    if j / channels >= n {
      MulLe(n, j / channels, channels);
    }
  }

  lemma ShiftFrames(j: nat, n: nat, channels: nat)
    requires channels > 0
    ensures (j + n * channels) / channels == j / channels + n && (j + n * channels) % channels == j % channels
  {
    assert j + n * channels == (j / channels + n) * channels + j % channels;
    DivModUnique(j + n * channels, channels, j / channels + n, j % channels);
  }

  lemma RoutedNothing(len: nat, channels: nat, channel: nat)
    requires channel < channels
    ensures Routed([], 0, channels, channel) == []
    ensures AtFrame(0, 0, channels) && (len == 0 ==> FramesIn(len, channels) == 0)
  {
    DivModUnique(0, channels, 0, 0);
  }

  /** The whole frames in `values` interleaved values. */
  function FramesIn(values: nat, channels: nat): nat
    requires channels > 0
  {
    values / channels
  }

  lemma FramesFit(values: nat, channels: nat, n: nat)
    requires channels > 0
    ensures n <= FramesIn(values, channels) <==> n * channels <= values
  {
    DivBounds(values, channels);
    if n <= values / channels {
      MulLe(n, values / channels, channels);
    } else {
      MulLe(values / channels + 1, n, channels);
    }
  }

  /** `lo` values are `done` frames, as is every chunk boundary but the last. */
  predicate AtFrame(lo: nat, done: nat, channels: nat) {
    lo == done * channels
  }
}
