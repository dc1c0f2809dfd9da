/** The image loader: `MnistNetwork::load_img` walks the 28 x 28 pixels of one
    image in row-major order, reads each from the flat buffer (panicking on the
    first index past its end) and forwards `(x, y, value)` to every neuron.

    Pixel values are an opaque type `V` (they are only passed through) and
    neurons are an opaque type `N`; a `load_val` call is recorded as a `Call`
    instead of being executed. */
module Loader {
  import opened Geometry

  /** One `load_val(x, y, val)` call made on `neuron`. */
  datatype Call<N, V> = LoadVal(neuron: N, x: nat, y: nat, val: V)

  /** How a load ends: normally, or by the panic of `unwrap` when the read
      at flat `index` finds no element. */
  datatype Status = Completed | Panicked(index: nat)

  /** The calls made, in order, and how the load ended. */
  datatype Outcome<N, V> = Outcome(calls: seq<Call<N, V>>, status: Status)

  /** How many pixels of image `imgI` a buffer of length `len` holds, counting
      from the image's first pixel: the number of reads that succeed. */
  function PixelsAvailable(len: nat, imgI: nat): (r: nat)
    ensures r <= Area
    ensures ImageStart(imgI) + r <= len || r == 0
    ensures r < Area ==> ImageStart(imgI) + r >= len
  {
    if len <= ImageStart(imgI) then 0
    else if len - ImageStart(imgI) >= Area then Area
    else len - ImageStart(imgI)
  }

  /** The calls made for the `k`-th pixel in row-major order: its column, row
      and value, sent to each neuron in list order. */
  function PixelCalls<N, V>(buf: seq<V>, imgI: nat, neurons: seq<N>, k: nat): (r: seq<Call<N, V>>)
    requires ImageStart(imgI) + k < |buf|
    ensures |r| == |neurons|
  {
    seq(|neurons|, m requires 0 <= m < |neurons| =>
      LoadVal(neurons[m], ColumnOf(k), RowOf(k), buf[ImageStart(imgI) + k]))
  }

  /** The calls made for the first `k` pixels in row-major order. */
  function CallsUpTo<N, V>(buf: seq<V>, imgI: nat, neurons: seq<N>, k: nat): seq<Call<N, V>>
    requires k == 0 || ImageStart(imgI) + k <= |buf|
  {
    if k == 0 then []
    else CallsUpTo(buf, imgI, neurons, k - 1) + PixelCalls(buf, imgI, neurons, k - 1)
  }

  /** Reference outcome of a load, stated through the pixels a buffer holds
      rather than through the loops that read them. */
  function Expected<N, V>(buf: seq<V>, imgI: nat, neurons: seq<N>): Outcome<N, V>
  {
    var avail := PixelsAvailable(|buf|, imgI);
    Outcome(CallsUpTo(buf, imgI, neurons, avail),
            if avail == Area then Completed else Panicked(ImageStart(imgI) + avail))
  }

  /** `load_img` as written: rows `j` outside, columns `i` inside, the flat
      offset `(imgI + 5800) * 784 + j * 28 + i`, an `unwrap` that ends the load
      on a missing element, and one `load_val` per neuron in list order. */
  method LoadImg<N, V>(buf: seq<V>, imgI: nat, neurons: seq<N>) returns (out: Outcome<N, V>)
    ensures out == Expected(buf, imgI, neurons)
    ensures out.status == Completed <==> |buf| >= (imgI + ImageOffset + 1) * Area
  {
    var calls: seq<Call<N, V>> := [];
    var j := 0;
    while j < Side
      invariant j <= Side
      invariant j * Side <= PixelsAvailable(|buf|, imgI)
      invariant calls == CallsUpTo(buf, imgI, neurons, j * Side)
    {
      var i := 0;
      while i < Side
        invariant i <= Side
        invariant j * Side + i <= PixelsAvailable(|buf|, imgI)
        invariant calls == CallsUpTo(buf, imgI, neurons, j * Side + i)
      {
        var valI := (imgI + ImageOffset) * Area + j * Side + i;
        if valI >= |buf| {
          return Outcome(calls, Panicked(valI));
        }
        var val := buf[valI];
        PositionStep(i, j);
        ghost var k := j * Side + i;
        var m := 0;
        while m < |neurons|
          invariant m <= |neurons|
          invariant calls == CallsUpTo(buf, imgI, neurons, k) + PixelCalls(buf, imgI, neurons, k)[..m]
        {
          calls := calls + [LoadVal(neurons[m], i, j, val)];
          m := m + 1;
        }
        i := i + 1;
      }
      j := j + 1;
    }
    return Outcome(calls, Completed);
  }
}
