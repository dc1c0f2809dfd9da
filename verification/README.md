# MNIST image loader — Dafny model

This project models the image loader of a small harness for MNIST classifiers.
A network is a list of neurons. The default method
`MnistNetwork::load_img(img_vec, img_i)` walks the 28 x 28 pixels of one image
row by row. It reads each pixel from a flat buffer of concatenated images and
passes `(x, y, value)` to every neuron's `load_val`. If a read falls past the
end of the buffer, `unwrap` panics and the load stops.

The model is functional:

- `Geometry` (`geometry.dfy`) holds the constants `Side = 28` and `Area = 784`.
  It also holds the fixed image offset of 5800 and the flat index
  `(imgI + 5800) * 784 + y * 28 + x`. Its lemmas cover row-major order and the
  contiguous block of indices read for one image.
- `Loader` (`loader.dfy`) records each `load_val` call as a `Call` value, and a
  load as an `Outcome`: the calls in order, plus `Completed` or
  `Panicked(index)`. `Expected` is a reference outcome. It is defined from how
  many of the image's pixels the buffer holds, not from the loops. `LoadImg`
  follows the source's nested loops and is proved to return `Expected`.
- `LoaderProperties` (`loader_properties.dfy`) proves properties of `Expected`:
  - when the load completes and where it panics;
  - what value each neuron receives for each position;
  - the order of the calls;
  - that only the image's block of the buffer affects the result;
  - that a shorter buffer yields a prefix of the calls.

Pixel values are an opaque type `V`, because they are only passed through.
Neurons are an opaque type `N`. The buffer is a Dafny `seq`, so the load cannot
modify it, and the method has no other effect than the recorded calls.

The code reads image `img_i + 5800`, not image `img_i`, although the doc
comment at src/lib.rs:11-12 describes the argument as the index of the image to
load. The model follows the code: `ImageOffset = 5800` is added to every index.

## Model

| member | source | states |
|---|---|---|
| Loader.LoadImg | src/lib.rs:13-31 | The row-outside, column-inside loop with offset `(imgI + 5800) * 784 + j * 28 + i`, panic on a missing element, and one `load_val` per neuron. It returns exactly the reference outcome `Expected`, and it completes iff `|buf| >= (imgI + 5801) * 784`. |
| Geometry.StepPosition | src/lib.rs:14-22 | The k-th pixel in row-major order (column `k % 28`, row `k / 28`) lies inside the 28 x 28 image and is read at flat index `ImageStart(imgI) + k`. |
| Geometry.PositionStep | src/lib.rs:14-15 | Position `(x, y)` is step `y * 28 + x` of the row-major walk, and that step is below 784. |
| Geometry.RowMajorOrder | src/lib.rs:16-22 | For in-image positions, one flat index is smaller than another iff its row is earlier, or the row is the same and its column is earlier. Equal indices mean equal positions, so the 784 reads are pairwise distinct. |
| Geometry.ImageBlock | src/lib.rs:14-22 | The set of indices read for image `imgI` is exactly the contiguous block `[(imgI + 5800) * 784, (imgI + 5801) * 784)`. |
| LoaderProperties.LoadCompletes | src/lib.rs:24-28 | The load completes iff the buffer holds `(imgI + 5801) * 784` elements. A completed load makes exactly `784 * n` calls for `n` neurons. |
| LoaderProperties.PanicAtFirstMissingRead | src/lib.rs:14-24 | A panic happens at the first out-of-range read. That index is the larger of the buffer length and the image start, and it is the flat index of a position in the image. By then, `(index - start) * n` calls have been made. |
| LoaderProperties.CallsMatchBuffer | src/lib.rs:16-27 | Every call has `x < 28`, `y < 28` and a listed neuron. Its value is exactly `buf[(imgI + 5800) * 784 + y * 28 + x]`, read at an index inside both the buffer and the image's block. |
| LoaderProperties.CallLayout | src/lib.rs:14-28 | Call `s * n + m` sends pixel `s` of the row-major walk, unchanged and with its coordinates, to the `m`-th neuron of the list. |
| LoaderProperties.CallsInReadOrder | src/lib.rs:14-22 | Along the call sequence, the flat index read never decreases. |
| LoaderProperties.DispatchedPositions | src/lib.rs:14-27 | With at least one neuron, the positions sent are exactly those whose flat index is inside the buffer. No position past the end is sent, and no readable position is skipped, whether the load completes or panics. |
| LoaderProperties.OnlyImageBlockRead | src/lib.rs:16-24 | Two buffers that hold the same number of the image's pixels, with the same values, give the same outcome. Nothing outside the image's block is read. |
| LoaderProperties.ShortBufferPrefix | src/lib.rs:14-28 | The calls made on a buffer are exactly the first `a * n` calls made on any extension of it, where `a` is the number of the image's pixels the shorter buffer holds. A short buffer yields exactly what is sent before the failing read. |
| Loader.PixelsAvailable | src/lib.rs:16-24 | The number of reads that succeed is at most 784. When positive, those reads all lie inside the buffer. When below 784, the next read index is at or past the end, so that read panics. |
| LoaderProperties.CallsUpToAt | src/lib.rs:26-28 | Within the first `k` pixels, call `s * n + m` is pixel `s` sent to neuron `m`. This is the inductive step behind `CallLayout`. |
| LoaderProperties.CallsUpToOrdered | src/lib.rs:14-15 | Within the first `k` pixels, flat indices never decrease along the calls. This is the inductive step behind `CallsInReadOrder`. |

## Left out

- `perform_adjustment` and `take_metric` (src/lib.rs:33, 35) have only signatures. No body is shown, so training, profile construction, scoring and accuracy are not part of this model.
- `MnistNeuron::load_val` (src/lib.rs:5) has no implementation. Each call is recorded as a `Call` value and not executed.
- `get_neurons()` is called again for every pixel. The model takes one fixed neuron list for the whole load, so it assumes every call returns the same neurons in the same order. Whether changes made through the returned `Box`es persist in the network depends on code that is not shown.
- The `f32` pixel values are an opaque type. The loader does no arithmetic on them.
- `usize` overflow of `(img_i + 5800) * 784` for very large `img_i` is not modelled. Indices are unbounded `nat`s.
- `img_vec` is passed by value and dropped at the end of the call. Ownership is not modelled, since the buffer is only read.
- MNIST file parsing and progress logging are not in the loader.
