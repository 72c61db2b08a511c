/** The counter of the loading indicator: which of the `n` sockets of the
    indicator is filled, stepped once per repaint in the configured
    direction, and reset when the indicator is hidden. Painting, timers and
    the socket positions themselves are not part of this model; only their
    number `n` (`len(posList)`) is. */
module LoadingIndicator {
  import opened Wrappers
  import Arith

  /** `DIRECTION`: the three ways the filled socket moves. */
  datatype Direction = Forward | Backward | BackAndForth

  /** The counter and, for `BackAndForth`, the current step `tmpIncr`. */
  datatype Indicator = Indicator(counter: int, tmpIncr: int)

  /** The state `initVars` sets up: the first socket filled, stepping
      forward. It is a bouncing state for any indicator with a socket. */
  function Start(): (ind: Indicator)
    ensures ind.counter == 0 && ind.tmpIncr == 1
    ensures forall n: nat :: n > 0 ==> Bouncing(ind, n)
  {
    Indicator(0, 1)
  }

  /** `counterForward`: one socket on, wrapping after the last. Python's `%`
      with a positive divisor agrees with Dafny's. With no socket the
      modulo raises `ZeroDivisionError` (`None`). */
  function CounterForward(ind: Indicator, n: nat): (r: Option<Indicator>)
    ensures r.Some? <==> n > 0
    ensures r.Some? ==> 0 <= r.value.counter < n && r.value.tmpIncr == ind.tmpIncr
    ensures r.Some? && 0 <= ind.counter < n - 1 ==> r.value.counter == ind.counter + 1
    ensures r.Some? && ind.counter == n - 1 ==> r.value.counter == 0
  {
    if n == 0 then None else Some(ind.(counter := (ind.counter + 1) % n))
  }

  /** `counterBack`: one socket back, wrapping from the first to the last. */
  function CounterBack(ind: Indicator, n: nat): (r: Indicator)
    ensures r.tmpIncr == ind.tmpIncr
    ensures 0 <= ind.counter <= n ==> -1 <= r.counter < n
    ensures n > 0 && 0 <= ind.counter < n ==> 0 <= r.counter < n
    ensures 0 < ind.counter ==> r.counter == ind.counter - 1
  {
    var c := ind.counter - 1;
    ind.(counter := if c < 0 then n - 1 else c)
  }

  /** Stepping back undoes stepping forward and the other way round, on any
      socket of an indicator that has one. */
  lemma BackUndoesForward(ind: Indicator, n: nat)
    requires 0 <= ind.counter < n
    ensures CounterForward(ind, n).Some? && CounterBack(CounterForward(ind, n).value, n) == ind
    ensures CounterForward(CounterBack(ind, n), n) == Some(ind)
  {
    Arith.DivModUnique(n, n, 1, 0);
    if ind.counter < n - 1 {
      Arith.ModSmall(ind.counter + 1, n);
    }
    if ind.counter > 0 {
      Arith.ModSmall(ind.counter, n);
    }
  }

  /** `counterBackAndForth`: step by `tmpIncr`; bounce off the first socket
      onto the second, and off the end onto the last but one. */
  function CounterBackAndForth(ind: Indicator, n: nat): (r: Indicator)
    ensures Bouncing(ind, n) && n >= 2 ==> Bouncing(r, n)
    ensures ind.counter + ind.tmpIncr < 0 ==> r == Indicator(1, 1)
    ensures ind.counter + ind.tmpIncr >= n && 0 <= ind.counter + ind.tmpIncr ==> r.tmpIncr == -1
  {
    var c := ind.counter + ind.tmpIncr;
    if c < 0 then Indicator(1, 1)
    else if c >= n then Indicator(n - 2, -1)
    else ind.(counter := c)
  }

  /** The states `counterBackAndForth` keeps: a socket of the indicator and a
      step of one either way. */
  predicate Bouncing(ind: Indicator, n: nat) {
    0 <= ind.counter < n && (ind.tmpIncr == 1 || ind.tmpIncr == -1)
  }

  /** With a single socket the bounce leaves the sockets: the last but one
      is `-1`. Two sockets at least are needed to stay in range. */
  lemma BounceNeedsTwo()
    ensures Bouncing(Start(), 1) && CounterBackAndForth(Start(), 1).counter == -1
  {
  }

  /** `counterNext`: the step of the configured direction. */
  function CounterNext(ind: Indicator, n: nat, direction: Direction): (r: Option<Indicator>)
    ensures direction != Forward ==> r.Some?
    ensures n > 0 && 0 <= ind.counter < n && (direction == BackAndForth ==> Bouncing(ind, n) && n >= 2) ==>
      r.Some? && 0 <= r.value.counter < n
  {
    match direction
    case Forward => CounterForward(ind, n)
    case Backward => Some(CounterBack(ind, n))
    case BackAndForth => Some(CounterBackAndForth(ind, n))
  }

  /** `hideEvent`: back to the first socket; the bounce direction is kept. */
  function HideEvent(ind: Indicator): (r: Indicator)
    ensures r.counter == 0 && r.tmpIncr == ind.tmpIncr
    ensures ind.tmpIncr == 1 || ind.tmpIncr == -1 ==> forall n: nat | n > 0 :: Bouncing(r, n)
  {
    ind.(counter := 0)
  }

  /** `counterBackAndForth` run `k` times. */
  function BounceTimes(ind: Indicator, n: nat, k: nat): Indicator
    decreases k
  {
    if k == 0 then ind else BounceTimes(CounterBackAndForth(ind, n), n, k - 1)
  }

  /** The socket at phase `p` of a bounce cycle of `2 * (n - 1)` repaints:
      up from the first socket to the last, then down again. */
  function Triangle(p: nat, n: nat): int {
    if p < n then p else 2 * (n - 1) - p
  }

  /** The indicator is at phase `p` of the cycle: on socket `Triangle(p)`,
      moving up on the way up, down on the way down, either way on the first
      socket. */
  predicate AtPhase(ind: Indicator, n: nat, p: nat) {
    && n >= 2 && p < 2 * (n - 1)
    && ind.counter == Triangle(p, n)
    && (p == 0 ==> ind.tmpIncr == 1 || ind.tmpIncr == -1)
    && (0 < p < n ==> ind.tmpIncr == 1)
    && (p >= n ==> ind.tmpIncr == -1)
  }

  /** One repaint moves the indicator one phase on around the cycle. */
  lemma BounceStep(ind: Indicator, n: nat, p: nat)
    requires AtPhase(ind, n, p)
    ensures AtPhase(CounterBackAndForth(ind, n), n, Next(p, n))
  {
  }

  /** The phase after `p`, wrapping at the end of the cycle. */
  function Next(p: nat, n: nat): (q: nat)
    requires n >= 2 && p < 2 * (n - 1)
    ensures q < 2 * (n - 1) && q == (p + 1) % (2 * (n - 1))
  {
    var period := 2 * (n - 1);
    if p + 1 < period then
      Arith.ModSmall(p + 1, period);
      p + 1
    else
      Arith.DivModUnique(p + 1, period, 1, 0);
      0
  }

  /** From the start, and after every hide with a valid step, the filled
      socket after `k` repaints is `Triangle(k mod 2(n - 1))`: a bounce of
      period `2 * (n - 1)` between the two end sockets. */
  lemma BounceCycle(ind: Indicator, n: nat, k: nat)
    requires n >= 2 && ind.counter == 0 && (ind.tmpIncr == 1 || ind.tmpIncr == -1)
    ensures AtPhase(BounceTimes(ind, n, k), n, k % (2 * (n - 1)))
    ensures BounceTimes(ind, n, k).counter == Triangle(k % (2 * (n - 1)), n)
  {
    BounceFrom(ind, n, 0, k);
  }

  /** `BounceCycle` from any phase `p`. */
  lemma {:induction false} BounceFrom(ind: Indicator, n: nat, p: nat, k: nat)
    requires AtPhase(ind, n, p)
    ensures AtPhase(BounceTimes(ind, n, k), n, (p + k) % (2 * (n - 1)))
    decreases k
  {
    var period := 2 * (n - 1);
    if k == 0 {
      Arith.ModSmall(p, period);
    } else {
      BounceStep(ind, n, p);
      BounceFrom(CounterBackAndForth(ind, n), n, Next(p, n), k - 1);
      if p + 1 == period {
        Arith.ModAddPeriod(k - 1, period);
      }
    }
  }

  /** `counterForward` run `k` times from socket `c` reaches socket
      `(c + k) mod n`: the filled socket goes round the indicator. */
  lemma {:induction false} ForwardCycle(ind: Indicator, n: nat, k: nat)
    requires 0 <= ind.counter < n
    ensures ForwardTimes(ind, n, k) == Some(ind.(counter := (ind.counter + k) % n))
    decreases k
  {
    var c := ind.counter;
    if k == 0 {
      Arith.ModSmall(c, n);
    } else if c + 1 < n {
      Arith.ModSmall(c + 1, n);
      ForwardCycle(ind.(counter := c + 1), n, k - 1);
    } else {
      Arith.DivModUnique(c + 1, n, 1, 0);
      ForwardCycle(ind.(counter := 0), n, k - 1);
      Arith.ModAddPeriod(k - 1, n);
    }
  }

  /** `counterForward` run `k` times. */
  function ForwardTimes(ind: Indicator, n: nat, k: nat): Option<Indicator>
    decreases k
  {
    if k == 0 then Some(ind)
    else match CounterForward(ind, n)
      case None => None
      case Some(next) => ForwardTimes(next, n, k - 1)
  }
}
