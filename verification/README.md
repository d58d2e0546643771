# Pulse lookahead detector and ring buffer

This project models, in Dafny, the signal-processing core of a dosing-pump
controller. The controller detects the pump's mechanical pulses in a noisy
capacitive sensor signal. It has two parts:

- `Ring` (`ring_buffer.dfy`) models `RingBuffer<T>`. This is a fixed-capacity
  circular buffer with a backing array, a `start_` index for the oldest element
  and a `count_` of stored elements. When the buffer is full, a push overwrites
  the oldest element. The model is an immutable datatype
  `RingBuffer(buf, cap, start, count)`, and its operations are pure functions.
  The class invariant is `Valid`. `Contents` is the logical, oldest-first view:
  the backing array rotated left by `start`, cut to `count` elements. Every
  operation (`New`, `PushBack`, `Clear`, `Size`, `Capacity`, `Get` for both
  `operator[]` overloads, `Update` for writes through the non-const
  `operator[]`, and `Linearize` for `getLinearized`) is stated against that
  view. `PushAll` repeats `PushBack`, and `LastN` is its abstract counterpart:
  the last `cap` values pushed.
- `PulseDetector` (`pulse_detector.dfy`) models `PulseLookaheadDetector`.
  It is a window length `L`, an `invert` flag and a ring buffer of capacity
  `2L+1` holding `int` samples. `AddSample` pushes a sample. Once the buffer
  is full, it runs the backward scan (non-strict) and the forward scan
  (strict) around the centre, logical index `L`. `IsPulse` states the firing
  rule as a pure predicate on a window. `Feed` and `Outputs` describe a
  sequence of `AddSample` calls: `Feed` is the detector state after them, and
  `Outputs` is the list of booleans they returned. The stream lemmas state
  the following in those terms: the warm-up, dependence on the last `2L+1`
  samples only, the trough/peak mirror, the centre value and lag after a
  firing, plateaus, spacing between firings, and the `L = 0` case.

How the model relates to the code:

- `PulseLookaheadDetector.h` takes `Lookahead` as a template argument and
  hands it to a compile-time `RingBuffer<T, Capacity>`, while `RingBuffer.h`
  declares only `RingBuffer<T>` with a capacity given at run time. The model
  makes `L` a constructor argument and sets the capacity to `2L+1`. It fixes
  the sample type to `int`, because the only instantiation is `int32_t`.
- The comment above `centerOffset` says the offset is `lookahead + 1`, but
  the code returns `Lookahead`. The model follows the code. `CenterAfterFiring`
  proves what that value means: the centre is the sample pushed `L` calls
  before the latest one.
- A flat-topped plateau is reported once, at its last sample. The backward
  comparison is non-strict and the forward one is strict, so a later equal
  sample blocks a report and an earlier equal one does not.
  `EqualSuccessorBlocks` proves the blocking, `PlateauFiresOnlyAtLast`
  proves that a flat top between a strict rise and a strict fall is
  reported exactly once, at its last sample, and
  `PlateauFiresAtItsLastSample` shows the example `[1, 5, 5, 3]` with
  `L = 1`.
- `std::vector<T>(capacity)` value-initialises its slots. `Ring.New` takes
  that value as its `fill` argument, and the detector passes `0`.
- The `std::out_of_range` throw of `operator[]` is the `Err(IndexOutOfRange)`
  result of `Get` and `Update`. The same result also covers `getCenterValue`
  before `L+1` samples have arrived.

## Model

| member | source | states |
|---|---|---|
| Ring.New | RingBuffer.h:6-7 | the new buffer satisfies the invariant, has the requested capacity, and holds nothing |
| Ring.Size | RingBuffer.h:26 | `size()` is the length of the logical contents and never exceeds the capacity |
| Ring.PushBack | RingBuffer.h:10-17 | a push keeps the invariant and the capacity, and leaves `start` below the capacity; when not full the contents become the old contents followed by the value; when full the oldest element is dropped and the value appended, so the size stays at capacity |
| Ring.PushFullContents | RingBuffer.h:13-16 | overwriting slot `start` and advancing `start` modulo the capacity gives the old contents without their first element, followed by the new value |
| Ring.ContentsAt | RingBuffer.h:31-37 | logical element i of the rotated view is physical slot `(start + i) % capacity` |
| Ring.RotateLeftAt | RingBuffer.h:37 | element i of the backing array rotated left k times is slot `(k + i) % capacity`, which justifies the index mapping |
| Ring.SlotsDistinct | RingBuffer.h:37 | distinct valid logical indices map to distinct physical slots |
| Ring.Get | RingBuffer.h:40-45 | reading index i fails exactly when i is at least `size()`; otherwise it returns logical element i |
| Ring.Update | RingBuffer.h:33-38 | writing index i fails exactly when i is at least `size()`; otherwise only logical element i changes, and the invariant, size and capacity are kept |
| Ring.Clear | RingBuffer.h:20-23 | `clear` keeps the invariant and the capacity and empties the logical contents |
| Ring.Linearize | RingBuffer.h:48-53 | `getLinearized` yields `size()` elements, element i equal to `(*this)[i]`, i.e. the logical contents |
| Ring.UpdateContents | RingBuffer.h:33-38 | writing physical slot `(start + i) % capacity` changes logical element i and no other |
| Ring.PushedKeepsLast | RingBuffer.h:10-17 | the abstract grow-or-drop-oldest step applied to the last `capacity` values gives the last `capacity` values of the extended history |
| Ring.PushAll | RingBuffer.h:10-17 | any number of pushes keeps the invariant and the capacity |
| Ring.PushBackIsPushed | RingBuffer.h:10-17 | one push acts on the logical view as the abstract grow-or-drop-oldest step |
| Ring.PushAllKeepsLast | RingBuffer.h:10-17 | after any pushes the contents are the last `capacity` elements of the old contents followed by the pushed values |
| Ring.PushAllFromEmpty | RingBuffer.h:6-17 | after n pushes into a new buffer the contents are the last min(n, capacity) pushed values, oldest first |
| PulseDetector.New | PulseLookaheadDetector.h:9-14 | a new detector has window L, the given polarity, a buffer of capacity 2L+1, and an empty window |
| PulseDetector.Push | PulseLookaheadDetector.h:21 | the push in `addSample` keeps L and the polarity, and the window becomes the last 2L+1 of the old window followed by the sample |
| PulseDetector.AddSample | PulseLookaheadDetector.h:20-55 | `addSample` returns true exactly when, after the push, the buffer is full and its window satisfies the pulse rule |
| PulseDetector.ScanCenter | PulseLookaheadDetector.h:26-54 | the backward scan (reject an earlier sample beyond the centre) and the forward scan (reject a later sample that is not short of it) accept exactly the windows satisfying the pulse rule, in both polarities |
| PulseDetector.CenterValue | PulseLookaheadDetector.h:58-60 | `getCenterValue` fails until L+1 samples are held, and otherwise returns the sample at logical index L |
| PulseDetector.Clear | PulseLookaheadDetector.h:70-72 | `clear` keeps L and the polarity and empties the window |
| PulseDetector.Feed | PulseLookaheadDetector.h:20-21 | any number of `addSample` calls keeps the detector's invariant, L and polarity |
| PulseDetector.Outputs | PulseLookaheadDetector.h:20-55 | a sequence of `addSample` calls returns one result per sample |
| PulseDetector.FeedWindow | PulseLookaheadDetector.h:18-21 | after a stream of samples the window is the old window followed by the stream, cut to its last 2L+1 samples: the whole history while it is shorter, its last 2L+1 samples after that |
| PulseDetector.FeedSnoc | PulseLookaheadDetector.h:21 | feeding one more sample is one more `addSample` push |
| PulseDetector.FiredOnStream | PulseLookaheadDetector.h:20-54 | after a stream the detector fires exactly when the last 2L+1 samples of the history satisfy the pulse rule |
| PulseDetector.WindowOnceFull | PulseLookaheadDetector.h:18-21 | after at least 2L+1 pushes the window is exactly the last 2L+1 samples pushed, whatever it held before |
| PulseDetector.DecisionUsesLastWindow | PulseLookaheadDetector.h:20-28 | once at least 2L+1 samples have been pushed, the decision depends only on the last 2L+1 of them, whatever the detector held before |
| PulseDetector.OutputsAt | PulseLookaheadDetector.h:20-54 | the k-th `addSample` result is the pulse rule applied to the end of the history up to that sample |
| PulseDetector.OutputsFromEmpty | PulseLookaheadDetector.h:20-54 | from an empty window, the k-th result is the pulse rule on the first k+1 samples |
| PulseDetector.WarmUpNeverFires | PulseLookaheadDetector.h:21-24 | from an empty window, the first 2L calls return false |
| PulseDetector.ClearRestartsWarmUp | PulseLookaheadDetector.h:70-72 | after `clear` the polarity and L are unchanged and the next 2L calls return false |
| PulseDetector.ZeroLookaheadAlwaysFires | PulseLookaheadDetector.h:32-54 | with L = 0 every call returns true |
| PulseDetector.TroughIsNegatedPeak | PulseLookaheadDetector.h:33-51 | the trough rule holds on a window exactly when the peak rule holds on its negation |
| PulseDetector.TroughAtEndIsNegatedPeak | PulseLookaheadDetector.h:33-51 | a trough fires at the end of a stream exactly when a peak fires at the end of the negated stream |
| PulseDetector.TroughStreamIsNegatedPeakStream | PulseLookaheadDetector.h:13-54 | from empty windows of the same L, a trough detector on s returns, call by call, what a peak detector returns on -s |
| PulseDetector.CenterAfterFiring | PulseLookaheadDetector.h:57-67 | after a firing `centerOffset()` is L, `getCenterValue()` is the sample pushed L calls before the latest, and no sample of the window is beyond it (window maximum for peaks, minimum for troughs) |
| PulseDetector.FiringForward | PulseLookaheadDetector.h:44-52 | at a firing, each of the L samples after the centre is strictly short of it |
| PulseDetector.FiringBackward | PulseLookaheadDetector.h:32-40 | at a firing, none of the L samples before the centre is beyond it |
| PulseDetector.EqualSuccessorBlocks | PulseLookaheadDetector.h:44-52 | with L at least 1, a sample followed by an equal sample is never reported, so in a run of equal samples only the last can fire |
| PulseDetector.FiringsAreSpaced | PulseLookaheadDetector.h:32-52 | two firings on the same stream are more than L samples apart |
| PulseDetector.HistoryFiringsAreSpaced | PulseLookaheadDetector.h:32-52 | two firings on the history of a detector, old window followed by the stream, are more than L samples apart |
| PulseDetector.OutputsAreSpaced | PulseLookaheadDetector.h:20-54 | two true results of successive `addSample` calls are more than L calls apart |
| PulseDetector.PlateauFiresOnlyAtLast | PulseLookaheadDetector.h:32-52 | for L >= 1 and a stream rising strictly up to p1, level from p1 to p2 and falling strictly after p2, the end of the first t samples fires exactly when t = p2 + L + 1: the plateau is reported once, at its last sample |
| PulseDetector.PlateauOutputs | PulseLookaheadDetector.h:20-54 | from an empty window with L >= 1, a peak detector on such a stream returns true on call k exactly when k = p2 + L |
| PulseDetector.SmallPlateau | PulseLookaheadDetector.h:32-52 | the stream 1, 5, 5, 3 rises strictly up to position 1, is level up to position 2 and falls strictly after it |
| PulseDetector.PlateauFiresAtItsLastSample | PulseLookaheadDetector.h:32-52 | from the pre-fill state with L = 1 the samples 1, 5, 5, 3 give false, false, false, true: the plateau is reported once, at its last sample |
| PulseDetector.TriangleFiresOnlyAtPeak | PulseLookaheadDetector.h:32-52 | for L >= 1 and a stream rising strictly up to position p and falling strictly after it, the end of the first t samples fires exactly when t = p + L + 1 |
| PulseDetector.TriangleOutputs | PulseLookaheadDetector.h:20-54 | from an empty window with L >= 1, a peak detector on such a stream returns true on call k exactly when k = p + L |
| PulseDetector.TriangleCenterIsPeak | PulseLookaheadDetector.h:58-60 | after the first p + L + 1 samples of a stream, `getCenterValue()` is sample p, whatever the detector held before |
| PulseDetector.SmallTriangle | PulseLookaheadDetector.h:32-52 | the stream 0, 1, 2, 3, 2, 1, 0 rises strictly up to position 3 and falls strictly after it |
| PulseDetector.TriangleFiresOnceAfterLag | PulseLookaheadDetector.h:20-54 | from the pre-fill state with L = 2 that triangle fires once, on the call that pushes sample 3 + L |
| PulseDetector.TriangleCenterIsMaximum | PulseLookaheadDetector.h:58-60 | after that firing `getCenterValue()` is the triangle's maximum 3 |
| PulseDetector.ZeroLookaheadFiresEverywhere | PulseLookaheadDetector.h:32-54 | with L = 0 the samples 0, 1, 0 give true, true, true, which is why the triangle lemmas need L >= 1 |

## Left out

- `Ring.Capacity` and `PulseDetector.CenterOffset` are plain accessors with no contract of their own. The ensures of the other operations state that the capacity is unchanged (`r.cap == rb.cap`), and `CenterAfterFiring` states what the offset means.
- Ring.Update: the non-const `operator[]` returns a reference into the storage. The model treats a write through it as taking effect at once on logical element i. A reference kept across a later `push_back` or `clear` still names physical slot `(start + i) % capacity`, which may by then hold another logical element or the newest value. Such references are not modelled; the detector only reads through `operator[]`.
- Ring.PushBack: requires a capacity of at least 1. With capacity 0 the source writes `buffer_[0]` of an empty vector and computes `% 0`, which is undefined behaviour. A buffer of capacity 0 can still be constructed, cleared and indexed, where every index is out of range.
- `size_t` overflow of `start_ + index` is not modelled. Both terms stay below the capacity, so this would need a vector of more than half the address space.
- PulseDetector.TroughIsNegatedPeak: stated over mathematical integers. For `int32_t` samples, negating `INT32_MIN` overflows, so the mirror holds only for streams without that value.
- The compile-time variant of the detector's window (template `Lookahead` and a compile-time `RingBuffer<T, Capacity>`) is modelled as a construction argument. The window and decisions are the same either way.
- `MonitoredPump`, `AsyncMonitoredPump`, `Pump` and `FlowMeter` are not part of this model. Their work is GPIO and touch-pad set-up, interrupt-driven counters with `micros()` debounce, busy-wait timing, FreeRTOS task creation and deletion with atomics and a port mux, and floating-point conversions and statistics (`PumpDiagnostics` mean and standard deviation with `sqrt`). The control loop `MonitoredPump::runForPulses` is not modelled either.
- `MonitoredPump.h` comes from a different version of the detector than `PulseLookaheadDetector.h` and `RingBuffer.h`. Its members at MonitoredPump.h:82-83 are `PulseLookaheadDetector<int32_t>`, without the `Lookahead` template argument, and MonitoredPump.h:93 calls a two-argument constructor `troughDetector(lookahead, true)` that `PulseLookaheadDetector.h` does not declare. These uses are not modelled.
