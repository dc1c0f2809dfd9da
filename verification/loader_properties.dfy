/** Properties of a load: where each pixel is read from, in which order, what
    every neuron receives, when the load panics and what it has emitted by then.
    They are stated of `Expected`, which `Loader.LoadImg` is proved to return. */
module LoaderProperties {
  import opened Geometry
  import opened Loader

  /** Flat index of the pixel a call forwards. */
  function SourceIndex<N, V>(imgI: nat, c: Call<N, V>): nat
  {
    PixelIndex(imgI, c.x, c.y)
  }

  /** The positions `(x, y)` that appear in a sequence of calls. */
  ghost function Positions<N, V>(calls: seq<Call<N, V>>): set<(nat, nat)>
  {
    set c | c in calls :: (c.x, c.y)
  }

  /** The positions of image `imgI` whose flat index lies inside the buffer. */
  ghost function PositionsInBuffer<V>(buf: seq<V>, imgI: nat): set<(nat, nat)>
  {
    set x: nat, y: nat | x < Side && y < Side && PixelIndex(imgI, x, y) < |buf| :: (x, y)
  }

  /** Along `calls`, the flat index read never decreases. */
  ghost predicate ReadOrdered<N, V>(imgI: nat, calls: seq<Call<N, V>>)
  {
    forall e1, e2 | 0 <= e1 <= e2 < |calls| :: SourceIndex(imgI, calls[e1]) <= SourceIndex(imgI, calls[e2])
  }

  /** Each pixel contributes one call per neuron. */
  lemma {:induction false} CallsUpToLength<N, V>(buf: seq<V>, imgI: nat, neurons: seq<N>, k: nat)
    requires k == 0 || ImageStart(imgI) + k <= |buf|
    ensures |CallsUpTo(buf, imgI, neurons, k)| == k * |neurons|
  {
    if k > 0 {
      CallsUpToLength(buf, imgI, neurons, k - 1);
    }
  }

  /** Call number `s * n + m` (with `n` neurons) is pixel `s` sent to neuron `m`. */
  lemma {:induction false} CallsUpToAt<N, V>(buf: seq<V>, imgI: nat, neurons: seq<N>, k: nat, s: nat, m: nat)
    requires ImageStart(imgI) + k <= |buf| && k <= Area
    requires s < k && m < |neurons|
    ensures s * |neurons| + m < |CallsUpTo(buf, imgI, neurons, k)|
    ensures CallsUpTo(buf, imgI, neurons, k)[s * |neurons| + m]
            == LoadVal(neurons[m], ColumnOf(s), RowOf(s), buf[PixelIndex(imgI, ColumnOf(s), RowOf(s))])
  {
    var n := |neurons|;
    CallsUpToLength(buf, imgI, neurons, k - 1);
    CallsUpToLength(buf, imgI, neurons, k);
    StepPosition(imgI, s);
    if s < k - 1 {
      CallsUpToAt(buf, imgI, neurons, k - 1, s, m);
    } else {
      assert s * n + m == (k - 1) * n + m;
    }
  }

  /** Every call made for the first `k` pixels forwards an in-image position
      to a listed neuron, with the value the buffer holds at that position's
      flat index, which lies among the first `k` of the image. */
  lemma {:induction false} CallsUpToRead<N, V>(buf: seq<V>, imgI: nat, neurons: seq<N>, k: nat)
    requires k == 0 || ImageStart(imgI) + k <= |buf|
    requires k <= Area
    ensures forall c | c in CallsUpTo(buf, imgI, neurons, k) ::
      c.x < Side && c.y < Side && c.neuron in neurons &&
      ImageStart(imgI) <= SourceIndex(imgI, c) < ImageStart(imgI) + k &&
      SourceIndex(imgI, c) < |buf| && c.val == buf[SourceIndex(imgI, c)]
  {
    if k > 0 {
      CallsUpToRead(buf, imgI, neurons, k - 1);
      StepPosition(imgI, k - 1);
    }
  }

  /** Every call made for the `k`-th pixel reads flat index `ImageStart(imgI) + k`. */
  lemma PixelCallsIndex<N, V>(buf: seq<V>, imgI: nat, neurons: seq<N>, k: nat, e: nat)
    requires ImageStart(imgI) + k < |buf| && k < Area
    requires e < |neurons|
    ensures SourceIndex(imgI, PixelCalls(buf, imgI, neurons, k)[e]) == ImageStart(imgI) + k
  {
    StepPosition(imgI, k);
  }

  /** Every call made for the first `k` pixels reads below `ImageStart(imgI) + k`. */
  lemma CallsUpToBelow<N, V>(buf: seq<V>, imgI: nat, neurons: seq<N>, k: nat, e: nat)
    requires k == 0 || ImageStart(imgI) + k <= |buf|
    requires k <= Area
    requires e < |CallsUpTo(buf, imgI, neurons, k)|
    ensures SourceIndex(imgI, CallsUpTo(buf, imgI, neurons, k)[e]) < ImageStart(imgI) + k
  {
    CallsUpToRead(buf, imgI, neurons, k);
    assert CallsUpTo(buf, imgI, neurons, k)[e] in CallsUpTo(buf, imgI, neurons, k);
  }

  /** Within the calls for the first `k` pixels, flat indices never decrease. */
  lemma {:induction false} CallsUpToOrdered<N, V>(buf: seq<V>, imgI: nat, neurons: seq<N>, k: nat)
    requires k == 0 || ImageStart(imgI) + k <= |buf|
    requires k <= Area
    ensures ReadOrdered(imgI, CallsUpTo(buf, imgI, neurons, k))
  {
    if k > 0 {
      var prefix := CallsUpTo(buf, imgI, neurons, k - 1);
      var group := PixelCalls(buf, imgI, neurons, k - 1);
      var calls := CallsUpTo(buf, imgI, neurons, k);
      assert calls == prefix + group;
      CallsUpToOrdered(buf, imgI, neurons, k - 1);
      forall e1, e2 | 0 <= e1 <= e2 < |calls|
        ensures SourceIndex(imgI, calls[e1]) <= SourceIndex(imgI, calls[e2])
      {
        if e2 < |prefix| {
          assert calls[e1] == prefix[e1] && calls[e2] == prefix[e2];
        } else {
          PixelCallsIndex(buf, imgI, neurons, k - 1, e2 - |prefix|);
          assert calls[e2] == group[e2 - |prefix|];
          if e1 < |prefix| {
            CallsUpToBelow(buf, imgI, neurons, k - 1, e1);
            assert calls[e1] == prefix[e1];
          } else {
            PixelCallsIndex(buf, imgI, neurons, k - 1, e1 - |prefix|);
            assert calls[e1] == group[e1 - |prefix|];
          }
        }
      }
    }
  }

  /** Buffers that agree on the first `k` pixels of the image give the same calls. */
  lemma {:induction false} CallsUpToAgree<N, V>(buf1: seq<V>, buf2: seq<V>, imgI: nat, neurons: seq<N>, k: nat)
    requires k == 0 || (ImageStart(imgI) + k <= |buf1| && ImageStart(imgI) + k <= |buf2|)
    requires forall i | ImageStart(imgI) <= i < ImageStart(imgI) + k :: buf1[i] == buf2[i]
    ensures CallsUpTo(buf1, imgI, neurons, k) == CallsUpTo(buf2, imgI, neurons, k)
  {
    if k > 0 {
      CallsUpToAgree(buf1, buf2, imgI, neurons, k - 1);
      assert PixelCalls(buf1, imgI, neurons, k - 1) == PixelCalls(buf2, imgI, neurons, k - 1);
    }
  }

  /** The calls for fewer pixels are a prefix of the calls for more. */
  lemma {:induction false} CallsUpToPrefix<N, V>(buf: seq<V>, imgI: nat, neurons: seq<N>, k1: nat, k2: nat)
    requires k1 <= k2
    requires k2 == 0 || ImageStart(imgI) + k2 <= |buf|
    ensures CallsUpTo(buf, imgI, neurons, k1) <= CallsUpTo(buf, imgI, neurons, k2)
    decreases k2
  {
    if k1 < k2 {
      CallsUpToPrefix(buf, imgI, neurons, k1, k2 - 1);
    }
  }

  // ---------------------------------------------------------------------------
  // Properties of a whole load

  /** The load completes exactly when the buffer holds all 784 pixels of image
      `imgI + 5800`, and then makes 784 calls per neuron. */
  lemma LoadCompletes<N, V>(buf: seq<V>, imgI: nat, neurons: seq<N>)
    ensures Expected(buf, imgI, neurons).status == Completed <==> |buf| >= (imgI + ImageOffset + 1) * Area
    ensures Expected(buf, imgI, neurons).status == Completed ==>
      |Expected(buf, imgI, neurons).calls| == Area * |neurons|
  {
    CallsUpToLength(buf, imgI, neurons, PixelsAvailable(|buf|, imgI));
  }

  /** A load that panics does so at the first read past the end of the buffer:
      the index is the larger of the buffer length and the image start, it is
      the flat index of a position of the image, every earlier position was read
      and dispatched to every neuron, and no later one was. */
  lemma PanicAtFirstMissingRead<N, V>(buf: seq<V>, imgI: nat, neurons: seq<N>, p: nat)
    requires Expected(buf, imgI, neurons).status == Panicked(p)
    ensures p >= |buf|
    ensures p == if |buf| < ImageStart(imgI) then ImageStart(imgI) else |buf|
    ensures ImageStart(imgI) <= p < ImageStart(imgI) + Area
    ensures p == PixelIndex(imgI, ColumnOf(p - ImageStart(imgI)), RowOf(p - ImageStart(imgI)))
    ensures |Expected(buf, imgI, neurons).calls| == (p - ImageStart(imgI)) * |neurons|
  {
    StepPosition(imgI, p - ImageStart(imgI));
    CallsUpToLength(buf, imgI, neurons, PixelsAvailable(|buf|, imgI));
  }

  /** Every call forwards an in-image coordinate pair to a listed neuron,
      together with exactly the buffer element at that pair's flat index
      `(imgI + 5800) * 784 + y * 28 + x`, which lies inside the buffer and
      inside the image's block. */
  lemma CallsMatchBuffer<N, V>(buf: seq<V>, imgI: nat, neurons: seq<N>)
    ensures forall c | c in Expected(buf, imgI, neurons).calls ::
      c.x < Side && c.y < Side && c.neuron in neurons &&
      ImageStart(imgI) <= SourceIndex(imgI, c) < ImageStart(imgI) + Area &&
      SourceIndex(imgI, c) < |buf| && c.val == buf[SourceIndex(imgI, c)]
  {
    CallsUpToRead(buf, imgI, neurons, PixelsAvailable(|buf|, imgI));
  }

  /** The calls come in groups of one per neuron: call `s * n + m` sends the
      `s`-th pixel in row-major order (column `s % 28`, row `s / 28`) to the
      `m`-th neuron of the list, unchanged. */
  lemma CallLayout<N, V>(buf: seq<V>, imgI: nat, neurons: seq<N>, s: nat, m: nat)
    requires s < PixelsAvailable(|buf|, imgI) && m < |neurons|
    ensures var calls := Expected(buf, imgI, neurons).calls;
      s * |neurons| + m < |calls| &&
      calls[s * |neurons| + m]
        == LoadVal(neurons[m], ColumnOf(s), RowOf(s), buf[PixelIndex(imgI, ColumnOf(s), RowOf(s))])
  {
    CallsUpToAt(buf, imgI, neurons, PixelsAvailable(|buf|, imgI), s, m);
  }

  /** Pixels are dispatched in row-major order: along the call sequence the flat
      index read never decreases (it stays fixed only within one pixel's group
      of per-neuron calls, see `Geometry.RowMajorOrder`). */
  lemma CallsInReadOrder<N, V>(buf: seq<V>, imgI: nat, neurons: seq<N>)
    ensures ReadOrdered(imgI, Expected(buf, imgI, neurons).calls)
  {
    CallsUpToOrdered(buf, imgI, neurons, PixelsAvailable(|buf|, imgI));
  }

  /** With at least one neuron, the positions dispatched, whether the load
      completes or panics, are exactly those whose flat index is inside the
      buffer: nothing past the end is sent, and no readable pixel is skipped. */
  lemma DispatchedPositions<N, V>(buf: seq<V>, imgI: nat, neurons: seq<N>)
    requires |neurons| > 0
    ensures Positions(Expected(buf, imgI, neurons).calls) == PositionsInBuffer(buf, imgI)
  {
    var calls := Expected(buf, imgI, neurons).calls;
    CallsMatchBuffer(buf, imgI, neurons);
    forall pos | pos in PositionsInBuffer(buf, imgI)
      ensures pos in Positions(calls)
    {
      var (x, y) := pos;
      PositionStep(x, y);
      var s := y * Side + x;
      assert s < PixelsAvailable(|buf|, imgI);
      CallLayout(buf, imgI, neurons, s, 0);
      assert calls[s * |neurons|] in calls;
    }
  }

  /** Only the image's block of the buffer matters: two buffers that hold the
      same elements at the same indices of the block give the same outcome. */
  lemma OnlyImageBlockRead<N, V>(buf1: seq<V>, buf2: seq<V>, imgI: nat, neurons: seq<N>)
    requires PixelsAvailable(|buf1|, imgI) == PixelsAvailable(|buf2|, imgI)
    requires forall i | ImageStart(imgI) <= i < ImageStart(imgI) + Area && i < |buf1| && i < |buf2| :: buf1[i] == buf2[i]
    ensures Expected(buf1, imgI, neurons) == Expected(buf2, imgI, neurons)
  {
    var avail := PixelsAvailable(|buf1|, imgI);
    CallsUpToAgree(buf1, buf2, imgI, neurons, avail);
  }

  /** The calls made on a buffer are exactly the first `a * n` calls made on any
      extension of it, `a` being the number of the image's pixels the shorter
      buffer holds: a short buffer yields exactly what was emitted before the
      failing read. */
  lemma ShortBufferPrefix<N, V>(buf: seq<V>, longer: seq<V>, imgI: nat, neurons: seq<N>)
    requires buf <= longer
    ensures |Expected(buf, imgI, neurons).calls| == PixelsAvailable(|buf|, imgI) * |neurons|
    ensures PixelsAvailable(|buf|, imgI) * |neurons| <= |Expected(longer, imgI, neurons).calls|
    ensures Expected(buf, imgI, neurons).calls
            == Expected(longer, imgI, neurons).calls[..PixelsAvailable(|buf|, imgI) * |neurons|]
  {
    var k1 := PixelsAvailable(|buf|, imgI);
    var k2 := PixelsAvailable(|longer|, imgI);
    CallsUpToLength(buf, imgI, neurons, k1);
    CallsUpToLength(longer, imgI, neurons, k2);
    CallsUpToAgree(buf, longer, imgI, neurons, k1);
    CallsUpToPrefix(longer, imgI, neurons, k1, k2);
  }
}
