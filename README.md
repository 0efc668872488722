# Traffic light with a LIFO message queue — Dafny model

This project models the sequential core of a single traffic light from a
concurrent traffic simulator (`src/TrafficLight.cpp`).

- **`MessageQueue<T>`** (module `MessageQueues`) is a buffer. `send` pushes a
  message onto the back of a vector. `receive` takes the message at the back.
  So retrieval is last-in, first-out. The class holds the vector as a
  `seq<T>` field, and `Send` and `Receive` reassign it.
- **`TrafficLight`** (module `TrafficLights`) holds the current phase (red or
  green) and its own `MessageQueue<TrafficLightPhase>`. A new light is red.
  - `GetCurrentPhase` reads the stored phase.
  - `WaitForGreen` keeps receiving from the queue until it gets a green. It
    throws away any reds it receives first.
  - The cycle loop has a stopwatch. Each iteration adds the time the previous
    iteration took to it. Once the stopwatch reaches the threshold, the
    iteration resets it to 0, flips the phase and sends the new phase into the
    queue.
  - The threshold is drawn once, before the loop: `4000 + 2000 * rand() /
    RAND_MAX` milliseconds.

`CycleStep` models one iteration of the cycle loop. `CycleThroughPhases` runs
the loop for a given number of iterations. Both are proved against the pure
functions `Step` and `Run` over a `Cycle` value. `Cycle` holds the stopwatch,
the phase and the queue. The lemmas are stated over `Run`. They cover:

- the alternation of the phases sent;
- the minimum time each toggle costs;
- what `WaitForGreen` leaves behind.

`DropThroughLastGreen` specifies `WaitForGreen`.

Time, threads and randomness are parameters:

- the elapsed time of each loop iteration is an `int` in the sequence `elapsed`
  (negative if the clock was set back);
- the `rand()` draw and `RAND_MAX` are the parameters `rand` and `randMax`;
- blocking in `receive` becomes the precondition `queue != []`;
- blocking in `waitForGreen` becomes the precondition `Green in queue`.

Two consequences of the code that the model makes explicit:

- The threshold can be exactly 6000 ms, because `rand()` may return
  `RAND_MAX`. So its range is the closed interval [4000, 6000], not
  [4000, 6000).
- The queue is last-in, first-out. Suppose the light has just turned red
  again and nothing has been received since it was constructed. Then a
  `WaitForGreen` takes the red, drops it, and returns on the *previous* green,
  while the light is red. `WaitAfterRun` proves this for every run that starts
  from a new light. A caller therefore cannot conclude "the light is green
  now" from the return of `waitForGreen`. (If an earlier receive already took
  that green, the wait drops the red and then needs the next green.)

## Model

| member | source | states |
|---|---|---|
| `MessageQueues.MessageQueue.Send` | src/TrafficLight.cpp:22-30 | appends the message at the back: the new buffer is the old one plus `[msg]`, one longer, with every earlier element unchanged |
| `MessageQueues.MessageQueue.Receive` | src/TrafficLight.cpp:8-20 | on a non-empty buffer, returns the last (most recently sent) element and leaves the old buffer minus that element |
| `MessageQueues.SendReceiveRoundTrip` | src/TrafficLight.cpp:17-28 | a `send(v)` immediately followed by `receive()` returns `v` and restores the buffer to its prior contents |
| `TrafficLights.Toggle` | src/TrafficLight.cpp:85-92 | the phase after a toggle always differs from the phase before it |
| `TrafficLights.StopTime` | src/TrafficLight.cpp:72 | the threshold lies in [4000, 6000] and is the ceiling of `4000 + 2000 * rand / randMax`, so an integral stopwatch is below it exactly when it is below the exact real-valued threshold (not the `float` one the source computes) |
| `TrafficLights.DropThroughLastGreen` | src/TrafficLight.cpp:46-49 | on a buffer holding a green, the remainder is a prefix of the buffer ending just before the last green; every element dropped after that green is red |
| `TrafficLights.RunAlternates` | src/TrafficLight.cpp:75-95 | from a new light (red, empty queue, stopwatch 0), any number of cycle iterations sends phases that start with green and never repeat consecutively, and the last phase sent is the current phase; while nothing has been sent the light is red |
| `TrafficLights.TogglesNeedThreshold` | src/TrafficLight.cpp:78-84 | over any run, the number of toggles times the threshold, plus the final stopwatch, is at most the starting stopwatch plus the forward cycle time fed in (negative durations count as 0); a run only appends to the queue |
| `TrafficLights.WaitAfterRun` | src/TrafficLight.cpp:46-49 | on the queue of a new light that has cycled and sent something, waiting for green removes just the last message if the light is green, and the last two (a red, then the green before it) if the light is red |
| `MessageQueues.MessageQueue.constructor` | src/TrafficLight.cpp:36-39 | the `traffic_light_queue` member, default-constructed when a light is built, starts with an empty buffer |
| `TrafficLights.TrafficLight.constructor` | src/TrafficLight.cpp:36-39 | a new light is red and owns a new, empty message queue |
| `TrafficLights.TrafficLight.GetCurrentPhase` | src/TrafficLight.cpp:52-55 | returns the stored phase and reads nothing else; as a function it changes no state |
| `TrafficLights.TrafficLight.WaitForGreen` | src/TrafficLight.cpp:41-50 | given a queue containing a green, the loop receives until it gets a green and leaves exactly `DropThroughLastGreen` of the old queue; the current phase is untouched |
| `TrafficLights.TrafficLight.CycleStep` | src/TrafficLight.cpp:76-95 | below the threshold, the stopwatch grows by the previous iteration's time and phase and queue are unchanged; at or above it, the stopwatch becomes exactly 0, the phase flips, and the new phase is appended to the queue; equal to `Step` on the old state |
| `TrafficLights.TrafficLight.CycleThroughPhases` | src/TrafficLight.cpp:65-99 | `n` iterations of the cycle loop with threshold `StopTime(rand, randMax)`, where iteration `i` adds the time measured in iteration `i - 1` (0 for the first), end in the state `Run` gives |
| `TrafficLights.CycleNewLight` | src/TrafficLight.cpp:36-99 | a light constructed and then cycled for any number of iterations has a queue whose phases start with green and alternate, and whose last element is the current phase |

## Left out

- Threads, `std::mutex`, `std::condition_variable` and `notify_one` are not
  modelled. Every operation runs sequentially and atomically.
- The blocking in `receive` is replaced by the precondition of
  `MessageQueue.Receive` that the buffer is non-empty.
- The blocking in `waitForGreen` is replaced by the precondition of
  `TrafficLight.WaitForGreen` that the queue holds a green. Without a green the
  source would wait forever, or wait for another thread to send one.
- `simulate` (src/TrafficLight.cpp:57-62) only starts a thread. Its `threads`
  container is declared in a header that is not part of this model.
  `CycleNewLight` runs the loop on the caller's side instead.
- `CycleThroughPhases` runs a given finite number of iterations. The source
  loop is endless.
- `std::this_thread::sleep_for` and `high_resolution_clock` are not modelled.
  The measured durations are the parameter `elapsed`.
- `rand()` and `RAND_MAX` are the parameters `rand` and `randMax`.
- `StopTime`: the source computes the threshold in `float`. The model computes
  the exact rational threshold and then its ceiling. It does not model any of
  the float roundings: the casts of `rand()` and `RAND_MAX` to `float`, the
  product, the division and the final addition. The ceiling of the source's
  `float` threshold can therefore be one below `StopTime`. Example: with
  `RAND_MAX = 2^31 - 1` and `rand() = 2^30`, `RAND_MAX` becomes 2^31 as a
  `float`, so the source's threshold is exactly 5000 and a stopwatch of 5000
  toggles; `StopTime(2^30, 2^31 - 1)` is 5001. Likewise with `rand() = 1`, the
  sum `4000 + 2000 / RAND_MAX` rounds to 4000 in `float`, while `StopTime` is
  4001.
- `CycleStep`, `CycleThroughPhases`: the stopwatch and the measured durations
  are unbounded integers. A duration may be negative (a clock set back, since
  `high_resolution_clock` need not be steady), and then the stopwatch goes
  down, possibly below 0, as in the source. The model does not capture `float`
  rounding of the stopwatch. That rounding starts once `|stop_watch|` reaches
  2^24; below that, whole milliseconds are exact in `float`. On the positive
  side it has no visible effect: a sum that large is already at or above the
  threshold, and the next iteration resets it to 0 in the source and in the
  model alike. On the negative side it does. Suppose the clock is set back by
  more than about 4.66 hours, so one duration is about -18000000 ms and the
  stopwatch becomes -17997000. In `float`, `-17997000 + 1` rounds back to
  -17997000 (round half to even), so iterations of 1 ms add nothing and the
  source's light can stop toggling for good. The model's `Step` keeps adding 1
  each iteration, climbs back to the threshold and toggles.
- `TogglesNeedThreshold`: bounds the toggles by the forward time only. A
  negative duration counts as 0 in that bound.
- The unsynchronised read of `_currentPhase` by other threads is a memory-model
  concern. Visibility of that read is not modelled.
- Moving rather than copying messages (`std::move`) has no observable effect on
  values. It is not modelled.
