/** The snake: a queue of body segments with the head at index 0, the cached
    head position `last`, the heading, and the pause flag with the latch that
    turns a held spacebar into a single toggle. */
module Snakes {
  import opened Grids

  datatype Direction = Left | Right | Up | Down

  datatype Snake = Snake(
    direction: Direction,
    last: Pos,            // the head, as last written by Insert
    queue: seq<Pos>,      // head first, tail last
    pauseState: bool,
    pauseKeyDown: bool    // the spacebar sample of the previous call
  )

  /** A fresh one-segment snake at (x, y), paused, with the latch released. */
  function Init(direction: Direction, x: int, y: int): (s: Snake)
    ensures s.queue == [Pos(x, y)] && s.last == Pos(x, y)
    ensures s.direction == direction
    ensures s.pauseState && !s.pauseKeyDown
  {
    Insert(Snake.Snake(direction, Pos(x, y), [], true, false), x, y)
  }

  /** Puts a new head in front of the queue and points `last` at it. */
  function Insert(s: Snake, x: int, y: int): (r: Snake)
    ensures |r.queue| == |s.queue| + 1
    ensures r.queue[0] == Pos(x, y) && r.queue[1..] == s.queue
    ensures r.last == r.queue[0]
    ensures r.direction == s.direction
    ensures r.pauseState == s.pauseState && r.pauseKeyDown == s.pauseKeyDown
  {
    s.(queue := [Pos(x, y)] + s.queue, last := Pos(x, y))
  }

  /** Pops the tail segment and returns it with the shortened snake. `last`
      is left as it was, even when the popped segment was the only one. */
  function Remove(s: Snake): (r: (Snake, Pos))
    requires |s.queue| > 0
    ensures r.0.queue + [r.1] == s.queue
    ensures r.0.last == s.last && r.0.direction == s.direction
    ensures r.0.pauseState == s.pauseState && r.0.pauseKeyDown == s.pauseKeyDown
  {
    (s.(queue := s.queue[..|s.queue| - 1]), s.queue[|s.queue| - 1])
  }

  /** Flips the pause flag and nothing else. */
  function ActuatePause(s: Snake): (r: Snake)
    ensures r.pauseState != s.pauseState
    ensures r.(pauseState := s.pauseState) == s
  {
    s.(pauseState := !s.pauseState)
  }

  /** Two toggles cancel out. */
  lemma ActuatePauseTwice(s: Snake)
    ensures ActuatePause(ActuatePause(s)) == s
  {
  }

  /** Rising-edge detection on the spacebar: the pause flag flips exactly
      when the key is down now and was up on the previous call, and the
      latch always takes the current sample. */
  function CheckPauseKey(s: Snake, spaceDown: bool): (r: Snake)
    ensures r.pauseState != s.pauseState <==> spaceDown && !s.pauseKeyDown
    ensures r.pauseKeyDown == spaceDown
    ensures r.(pauseState := s.pauseState, pauseKeyDown := s.pauseKeyDown) == s
  {
    var toggled := if spaceDown && !s.pauseKeyDown then ActuatePause(s) else s;
    toggled.(pauseKeyDown := spaceDown)
  }

  /** Sliding by one cell: dropping the tail and inserting a new head keeps
      the length and shifts every old segment one place towards the tail. */
  lemma RemoveThenInsert(s: Snake, x: int, y: int)
    requires |s.queue| > 0
    ensures var r := Insert(Remove(s).0, x, y);
      && |r.queue| == |s.queue|
      && r.queue == [Pos(x, y)] + s.queue[..|s.queue| - 1]
      && r.last == Pos(x, y)
  {
  }

  /** Number of rising edges in a run of spacebar samples, given the sample
      that preceded the run. */
  function RisingEdges(prev: bool, samples: seq<bool>): nat
    decreases |samples|
  {
    if |samples| == 0 then 0
    else (if samples[0] && !prev then 1 else 0) + RisingEdges(samples[0], samples[1..])
  }

  /** Calls CheckPauseKey once per sample, in order. */
  function FeedPauseKey(s: Snake, samples: seq<bool>): Snake
    decreases |samples|
  {
    if |samples| == 0 then s else FeedPauseKey(CheckPauseKey(s, samples[0]), samples[1..])
  }

  /** Over any run of samples the pause flag has flipped once per rising
      edge, and the latch holds the most recent sample. */
  lemma {:induction false} FeedTogglesOncePerRisingEdge(s: Snake, samples: seq<bool>)
    ensures var r := FeedPauseKey(s, samples);
      && r.pauseState == (s.pauseState != (RisingEdges(s.pauseKeyDown, samples) % 2 == 1))
      && r.pauseKeyDown == (if |samples| == 0 then s.pauseKeyDown else samples[|samples| - 1])
      && r.queue == s.queue && r.direction == s.direction && r.last == s.last
    decreases |samples|
  {
    if |samples| > 0 {
      var s1 := CheckPauseKey(s, samples[0]);
      FeedTogglesOncePerRisingEdge(s1, samples[1..]);
    }
  }

  /** Holding the spacebar down for any number of consecutive calls toggles
      pause at most once: only the first call can see a rising edge. */
  lemma {:induction false} HeldKeyTogglesAtMostOnce(prev: bool, n: nat)
    ensures RisingEdges(prev, seq(n, _ => true)) == (if n > 0 && !prev then 1 else 0)
  {
    if n > 0 {
      assert seq(n, _ => true)[1..] == seq(n - 1, _ => true);
      HeldTail(n - 1);
    }
  }

  /** Once the key is seen down, further down samples add no edge. */
  lemma {:induction false} HeldTail(n: nat)
    ensures RisingEdges(true, seq(n, _ => true)) == 0
  {
    if n > 0 {
      assert seq(n, _ => true)[1..] == seq(n - 1, _ => true);
      HeldTail(n - 1);
    }
  }

  /** With the spacebar up, the pause flag never changes. */
  lemma {:induction false} ReleasedKeyNeverToggles(prev: bool, n: nat)
    ensures RisingEdges(prev, seq(n, _ => false)) == 0
  {
    if n > 0 {
      assert seq(n, _ => false)[1..] == seq(n - 1, _ => false);
      ReleasedKeyNeverToggles(false, n - 1);
    }
  }
}
