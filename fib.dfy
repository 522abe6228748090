/** Rabbit recurrence (04_fib/fib.py): a two-element window, seeded with
    [0, 1], slides forward once per generation. Each step appends
    `window[0] * litter + window[1]` and drops the oldest element. */
module Fib {

  /** The command-line arguments. */
  datatype Args = Args(generations: int, litter: int)

  /** The outcome of the range checks in `get_args`. */
  datatype ArgsCheck =
    | Accepted(args: Args)
    | GenerationsOutOfRange(generations: int)
    | LitterOutOfRange(litter: int)

  /** `get_args` range checks: generations must be in [1, 40] and litter in
      [1, 5]; generations is checked first. */
  function CheckArgs(generations: int, litter: int): (r: ArgsCheck)
    ensures r.Accepted? <==> 1 <= generations <= 40 && 1 <= litter <= 5
    ensures r.Accepted? ==> r.args == Args(generations, litter)
    ensures r.GenerationsOutOfRange? <==> !(1 <= generations <= 40)
    ensures r.LitterOutOfRange? ==> !(1 <= litter <= 5)
  {
    if !(1 <= generations <= 40) then GenerationsOutOfRange(generations)
    else if !(1 <= litter <= 5) then LitterOutOfRange(litter)
    else Accepted(Args(generations, litter))
  }

  /** The rabbit sequence: a(0) = 0, a(1) = 1, a(n+2) = litter*a(n) + a(n+1). */
  function Rabbits(n: nat, litter: int): int
  {
    if n == 0 then 0
    else if n == 1 then 1
    else Rabbits(n - 2, litter) * litter + Rabbits(n - 1, litter)
  }

  /** The ordinary Fibonacci numbers. */
  function OrdinaryFibonacci(n: nat): nat
  {
    if n < 2 then n else OrdinaryFibonacci(n - 2) + OrdinaryFibonacci(n - 1)
  }

  /** One iteration of the loop body: append the new term, then drop the
      oldest. */
  function Step(window: seq<int>, litter: int): (next: seq<int>)
    requires |window| == 2
    ensures |next| == 2
  {
    (window + [window[0] * litter + window[1]])[1..]
  }

  /** The window after k iterations. */
  function Advance(window: seq<int>, litter: int, k: nat): (w: seq<int>)
    requires |window| == 2
    ensures |w| == 2
  {
    if k == 0 then window else Step(Advance(window, litter, k - 1), litter)
  }

  /** Number of times `for _ in range(generations - 1)` runs. */
  function Iterations(generations: int): nat
  {
    if generations >= 1 then generations - 1 else 0
  }

  /** From the seed [0, 1], k iterations leave the window [a(k), a(k+1)]. */
  lemma {:induction false} AdvanceFromSeed(litter: int, k: nat)
    ensures Advance([0, 1], litter, k) == [Rabbits(k, litter), Rabbits(k + 1, litter)]
  {
    if k > 0 {
      AdvanceFromSeed(litter, k - 1);
      var w := Advance([0, 1], litter, k - 1);
      assert w == [Rabbits(k - 1, litter), Rabbits(k, litter)];
      assert Rabbits(k + 1, litter) == w[0] * litter + w[1];
      assert Advance([0, 1], litter, k) == (w + [w[0] * litter + w[1]])[1..];
    }
  }

  /** Running j iterations and then k more is the same as running j + k. */
  lemma {:induction false} AdvanceCompose(window: seq<int>, litter: int, j: nat, k: nat)
    requires |window| == 2
    ensures Advance(Advance(window, litter, j), litter, k) == Advance(window, litter, j + k)
  {
    if k > 0 {
      AdvanceCompose(window, litter, j, k - 1);
    }
  }

  /** With a litter of one pair the rabbit sequence is the Fibonacci sequence. */
  lemma {:induction false} LitterOneIsFibonacci(n: nat)
    ensures Rabbits(n, 1) == OrdinaryFibonacci(n)
  {
    if n >= 2 {
      LitterOneIsFibonacci(n - 2);
      LitterOneIsFibonacci(n - 1);
    }
  }

  /** On a fresh object, a call with generations >= 2 returns a(generations). */
  lemma FreshObjectResult(generations: int, litter: int)
    requires generations >= 2
    ensures Advance([0, 1], litter, Iterations(generations))[1] == Rabbits(generations, litter)
  {
    AdvanceFromSeed(litter, generations - 1);
  }

  /** A second call on the same object resumes from the window the first call
      left. Two calls with g1 and g2 generations return a(g1 + g2 - 1), not
      a(g2). */
  lemma SecondCallContinues(litter: int, g1: int, g2: int)
    requires g1 >= 2 && g2 >= 2
    ensures Advance(Advance([0, 1], litter, Iterations(g1)), litter, Iterations(g2))[1]
      == Rabbits(g1 + g2 - 1, litter)
  {
    AdvanceCompose([0, 1], litter, g1 - 1, g2 - 1);
    AdvanceFromSeed(litter, g1 + g2 - 2);
  }

  lemma RabbitsSample()
    ensures Rabbits(5, 3) == 19
  {
  }

  /** What `calculate_fib_number` produces: the last term computed, or the
      error Python raises when the loop never ran and `fib_num` is unbound. */
  datatype FibResult = FibNumber(value: int) | UnboundLocalError

  /** The `Fibonacci` object: its arguments and the sliding window
      `fib_seq`, which persists from one call to the next. */
  class Fibonacci {
    const args: Args
    var fibSeq: seq<int>

    /** Before and after every iteration the window has exactly two terms. */
    ghost predicate Valid()
      reads this
    {
      |fibSeq| == 2
    }

    constructor (args: Args)
      ensures Valid()
      ensures this.args == args && fibSeq == [0, 1]
    {
      this.args := args;
      fibSeq := [0, 1];
    }

    /** `calculate_fib_number`: advance the window generations - 1 times and
        return the last term computed. */
    method CalculateFibNumber(generations: int, litter: int) returns (r: FibResult)
      requires Valid()
      modifies this
      ensures Valid()
      ensures fibSeq == Advance(old(fibSeq), litter, Iterations(generations))
      ensures r == if generations <= 1 then UnboundLocalError else FibNumber(fibSeq[1])
    {
      r := UnboundLocalError;
      var n := if generations >= 1 then generations - 1 else 0;
      for i := 0 to n
        invariant |fibSeq| == 2
        invariant fibSeq == Advance(old(fibSeq), litter, i)
        invariant r == if i == 0 then UnboundLocalError else FibNumber(fibSeq[1])
      {
        var fibNum := fibSeq[0] * litter + fibSeq[1];
        fibSeq := fibSeq + [fibNum];
        fibSeq := fibSeq[1..];
        r := FibNumber(fibNum);
      }
    }

    /** `solve`: the call above with the stored arguments. */
    method Solve() returns (r: FibResult)
      requires Valid()
      modifies this
      ensures Valid()
      ensures fibSeq == Advance(old(fibSeq), args.litter, Iterations(args.generations))
      ensures r == if args.generations <= 1 then UnboundLocalError else FibNumber(fibSeq[1])
    {
      r := CalculateFibNumber(args.generations, args.litter);
    }
  }

  /** One object, two calls with three generations and litter one: the first
      call returns F(3) = 2 and the second F(5) = 5. */
  method TwoCallsOnOneObject() returns (first: FibResult, second: FibResult)
    ensures first == FibNumber(2) && second == FibNumber(5)
  {
    var fib := new Fibonacci(Args(3, 1));
    first := fib.CalculateFibNumber(3, 1);
    FreshObjectResult(3, 1);
    second := fib.CalculateFibNumber(3, 1);
    SecondCallContinues(1, 3, 3);
  }

  /** A single generation leaves `fib_num` unbound. */
  method OneGeneration(litter: int) returns (r: FibResult)
    ensures r == UnboundLocalError
  {
    var fib := new Fibonacci(Args(1, litter));
    r := fib.Solve();
  }
}
