/** A single traffic light that toggles between red and green once an
    accumulated stopwatch reaches a randomly chosen threshold, and publishes
    every new phase into its message queue.

    The background thread, the clock and `rand()` are not modelled: the
    elapsed times the loop would measure and the random draw are parameters,
    and the endless cycle loop is run for a given number of iterations. */
module TrafficLights {
  import opened MessageQueues

  datatype TrafficLightPhase = Red | Green

  /** The phase the light switches to from `p`. */
  function Toggle(p: TrafficLightPhase): (r: TrafficLightPhase)
    ensures r != p
  {
    if p == Red then Green else Red
  }

  /** The cycle threshold `4000 + 2000 * rand / randMax` milliseconds, as the
      least integer an integral stopwatch must reach to be no longer below it
      (the ceiling of the exact quotient). */
  function StopTime(rand: nat, randMax: nat): (t: nat)
    requires 0 < randMax && rand <= randMax
    ensures 4000 <= t <= 6000
    ensures (t - 1) * randMax < 4000 * randMax + 2000 * rand <= t * randMax
  {
    ThresholdCeiling(rand, randMax);
    4000 + (2000 * rand + randMax - 1) / randMax
  }

  lemma ThresholdCeiling(rand: nat, randMax: nat)
    requires 0 < randMax && rand <= randMax
    ensures var t := 4000 + (2000 * rand + randMax - 1) / randMax;
      && t <= 6000
      && (t - 1) * randMax < 4000 * randMax + 2000 * rand <= t * randMax
  {
    var n := 2000 * rand;
    var q := (n + randMax - 1) / randMax;
    CeilingQuotient(n, randMax);
    MultiplyMonotone(rand, randMax, 2000);
    CeilingAtMost(n, randMax, 2000);
    assert (4000 + q) * randMax == 4000 * randMax + q * randMax;
    assert (4000 + q - 1) * randMax == 4000 * randMax + (q - 1) * randMax;
  }

  /** `(n + m - 1) / m` is the ceiling of `n / m`. */
  lemma CeilingQuotient(n: nat, m: nat)
    requires 0 < m
    ensures var q := (n + m - 1) / m;
      (q - 1) * m < n <= q * m
  {
    var x := n + m - 1;
    var q := x / m;
    assert x == q * m + x % m;
    assert (q - 1) * m == q * m - m;
  }

  /** The ceiling of `n / m` is at most `k` when `n <= k * m`. */
  lemma CeilingAtMost(n: nat, m: nat, k: nat)
    requires 0 < m && n <= k * m
    ensures (n + m - 1) / m <= k
  {
    var q := (n + m - 1) / m;
    CeilingQuotient(n, m);
    if q > k {
      MultiplyMonotone(k, q - 1, m);
    }
  }

  lemma MultiplyMonotone(a: nat, b: nat, m: nat)
    requires a <= b
    ensures a * m <= b * m
  {
    assert b * m - a * m == (b - a) * m;
  }

  /** What one iteration of the cycle loop reads and writes: the stopwatch,
      the current phase and the contents of the light's message queue. From a
      new light with nothing received, the queue holds every phase sent. */
  datatype Cycle = Cycle(stopWatch: int, phase: TrafficLightPhase, queue: seq<TrafficLightPhase>)

  /** The state a freshly constructed light starts its cycle loop in. */
  const Initial := Cycle(0, Red, [])

  /** One iteration of the cycle loop, given the threshold and the time the
      previous iteration took. */
  function Step(c: Cycle, stopTime: nat, cycleTime: int): Cycle
  {
    if c.stopWatch < stopTime then
      c.(stopWatch := c.stopWatch + cycleTime)
    else
      var p := Toggle(c.phase);
      Cycle(0, p, c.queue + [p])
  }

  /** The state after one iteration per element of `cycleTimes`, in order. */
  function Run(c: Cycle, stopTime: nat, cycleTimes: seq<int>): Cycle
    decreases |cycleTimes|
  {
    if cycleTimes == [] then c
    else
      var last := |cycleTimes| - 1;
      Step(Run(c, stopTime, cycleTimes[..last]), stopTime, cycleTimes[last])
  }

  /** The total of the durations fed to a run, counting only those that move
      forward: a negative duration (a clock set back) counts as 0. */
  function ForwardTime(xs: seq<int>): nat
    decreases |xs|
  {
    if xs == [] then 0
    else ForwardTime(xs[..|xs| - 1]) + (if xs[|xs| - 1] < 0 then 0 else xs[|xs| - 1])
  }

  /** Starting from a fresh light, the phases sent alternate: the first is
      green, no two consecutive ones are equal, and the last one sent is the
      current phase (red while nothing has been sent). */
  lemma {:induction false} RunAlternates(stopTime: nat, cycleTimes: seq<int>)
    ensures var r := Run(Initial, stopTime, cycleTimes);
      && (r.queue == [] ==> r.phase == Red)
      && (r.queue != [] ==> r.queue[0] == Green && r.queue[|r.queue| - 1] == r.phase)
      && forall i :: 0 < i < |r.queue| ==> r.queue[i] != r.queue[i - 1]
    decreases |cycleTimes|
  {
    if cycleTimes != [] {
      var last := |cycleTimes| - 1;
      RunAlternates(stopTime, cycleTimes[..last]);
    }
  }

  /** Every toggle costs at least `stopTime` milliseconds of accumulated
      cycle time: the toggles made, times the threshold, plus what the
      stopwatch still holds, never exceed the starting stopwatch plus the
      forward time fed in (all of it, when no duration is negative). A run
      only ever appends to the queue. */
  lemma {:induction false} TogglesNeedThreshold(c: Cycle, stopTime: nat, cycleTimes: seq<int>)
    ensures var r := Run(c, stopTime, cycleTimes);
      && |c.queue| <= |r.queue|
      && r.queue[..|c.queue|] == c.queue
      && (|r.queue| - |c.queue|) * stopTime + r.stopWatch <= c.stopWatch + ForwardTime(cycleTimes)
    decreases |cycleTimes|
  {
    if cycleTimes != [] {
      var last := |cycleTimes| - 1;
      var prev := Run(c, stopTime, cycleTimes[..last]);
      TogglesNeedThreshold(c, stopTime, cycleTimes[..last]);
      var k := |prev.queue| - |c.queue|;
      assert (k + 1) * stopTime == k * stopTime + stopTime;
      assert prev.queue[..|c.queue|] == c.queue;
      assert (prev.queue + [Toggle(prev.phase)])[..|c.queue|] == prev.queue[..|c.queue|];
    }
  }

  /** What `WaitForGreen` leaves in a buffer that holds a green: everything
      before the most recent green. Everything it discards after that green is
      red. */
  function DropThroughLastGreen(q: seq<TrafficLightPhase>): (r: seq<TrafficLightPhase>)
    requires Green in q
    ensures |r| < |q| && q[..|r|] == r
    ensures q[|r|] == Green
    ensures forall i :: |r| < i < |q| ==> q[i] == Red
    decreases |q|
  {
    if q[|q| - 1] == Green then
      q[..|q| - 1]
    else
      assert q[|q| - 1] == Red;
      assert q == q[..|q| - 1] + [Red];
      DropThroughLastGreen(q[..|q| - 1])
  }

  /** Waiting for green on the buffer of a light that has only cycled: if the
      light is green, the wait takes the last message; if it is red again,
      the wait discards that red and returns on the green before it, although
      the light is no longer green. */
  lemma WaitAfterRun(stopTime: nat, cycleTimes: seq<int>)
    requires Run(Initial, stopTime, cycleTimes).queue != []
    ensures Green in Run(Initial, stopTime, cycleTimes).queue
    ensures var r := Run(Initial, stopTime, cycleTimes);
      if r.phase == Green then
        DropThroughLastGreen(r.queue) == r.queue[..|r.queue| - 1]
      else
        |r.queue| >= 2 && DropThroughLastGreen(r.queue) == r.queue[..|r.queue| - 2]
  {
    var r := Run(Initial, stopTime, cycleTimes);
    RunAlternates(stopTime, cycleTimes);
    var n := |r.queue|;
    if r.phase == Red {
      assert n >= 2;
      assert r.queue[n - 2] != r.queue[n - 1];
      assert r.queue[..n - 1] == r.queue[..n - 2] + [Green];
    }
  }

  class TrafficLight {
    var currentPhase: TrafficLightPhase
    const trafficLightQueue: MessageQueue<TrafficLightPhase>

    /** A new light is red, with an empty message queue of its own. */
    constructor ()
      ensures currentPhase == Red
      ensures fresh(trafficLightQueue) && trafficLightQueue.queue == []
    {
      currentPhase := Red;
      trafficLightQueue := new MessageQueue<TrafficLightPhase>();
    }

    /** The cycle-loop state seen by this light, with the loop's stopwatch. */
    function State(stopWatch: int): Cycle
      reads this, trafficLightQueue
    {
      Cycle(stopWatch, currentPhase, trafficLightQueue.queue)
    }

    /** The stored phase; reading it changes nothing. */
    function GetCurrentPhase(): (p: TrafficLightPhase)
      reads this
      ensures p == currentPhase
    {
      currentPhase
    }

    /** Receives from the queue until a green arrives, discarding reds. */
    method WaitForGreen()
      requires Green in trafficLightQueue.queue
      modifies trafficLightQueue
      ensures trafficLightQueue.queue == DropThroughLastGreen(old(trafficLightQueue.queue))
    {
      while true
        invariant Green in trafficLightQueue.queue
        invariant DropThroughLastGreen(trafficLightQueue.queue)
               == DropThroughLastGreen(old(trafficLightQueue.queue))
        decreases |trafficLightQueue.queue|
      {
        ghost var before := trafficLightQueue.queue;
        var p := trafficLightQueue.Receive();
        if p == Green {
          return;
        }
        assert before == trafficLightQueue.queue + [Red];
      }
    }

    /** One iteration of the cycle loop: below the threshold the stopwatch
        only accumulates the previous iteration's time; at or above it the
        stopwatch restarts at exactly 0, the phase flips and the new phase is
        sent. */
    method CycleStep(stopWatch: int, stopTime: nat, cycleTime: int) returns (stopWatch': int)
      modifies this, trafficLightQueue
      ensures State(stopWatch') == Step(old(State(stopWatch)), stopTime, cycleTime)
      ensures stopWatch < stopTime ==>
        && stopWatch' == stopWatch + cycleTime
        && currentPhase == old(currentPhase)
        && trafficLightQueue.queue == old(trafficLightQueue.queue)
      ensures stopTime <= stopWatch ==>
        && stopWatch' == 0
        && currentPhase == Toggle(old(currentPhase))
        && trafficLightQueue.queue == old(trafficLightQueue.queue) + [currentPhase]
    {
      if stopWatch < stopTime {
        stopWatch' := stopWatch + cycleTime;
      } else {
        stopWatch' := 0;
        if GetCurrentPhase() == Red {
          currentPhase := Green;
        } else {
          currentPhase := Red;
        }
        trafficLightQueue.Send(currentPhase);
      }
    }

    /** The cycle loop run for `|elapsed|` iterations, where `elapsed[i]` is
        the time iteration `i` measured; each iteration accumulates the time
        of the one before it (0 for the first). Returns the final stopwatch. */
    method CycleThroughPhases(rand: nat, randMax: nat, elapsed: seq<int>) returns (stopWatch: int)
      requires 0 < randMax && rand <= randMax
      modifies this, trafficLightQueue
      ensures State(stopWatch)
           == Run(old(State(0)), StopTime(rand, randMax), ([0] + elapsed)[..|elapsed|])
    {
      stopWatch := 0;
      var stopTime := StopTime(rand, randMax);
      var cycleTime := 0;
      for i := 0 to |elapsed|
        invariant cycleTime == ([0] + elapsed)[i]
        invariant State(stopWatch) == Run(old(State(0)), stopTime, ([0] + elapsed)[..i])
      {
        assert ([0] + elapsed)[..i + 1][..i] == ([0] + elapsed)[..i];
        stopWatch := CycleStep(stopWatch, stopTime, cycleTime);
        cycleTime := elapsed[i];
      }
    }
  }

  /** A new light whose cycle loop has run `|elapsed|` iterations: the phases
      in its queue alternate starting with green, and the last one is the
      light's current phase. */
  method CycleNewLight(rand: nat, randMax: nat, elapsed: seq<int>) returns (light: TrafficLight)
    requires 0 < randMax && rand <= randMax
    ensures fresh(light) && fresh(light.trafficLightQueue)
    ensures var q := light.trafficLightQueue.queue;
      && (q == [] ==> light.currentPhase == Red)
      && (q != [] ==> q[0] == Green && q[|q| - 1] == light.currentPhase)
      && forall i :: 0 < i < |q| ==> q[i] != q[i - 1]
  {
    light := new TrafficLight();
    var _ := light.CycleThroughPhases(rand, randMax, elapsed);
    RunAlternates(StopTime(rand, randMax), ([0] + elapsed)[..|elapsed|]);
  }
}
