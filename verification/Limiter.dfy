/** A token bucket (util/limiter.go): a ticker adds tokens up to a burst, and each completed wait takes one. */
module Limiting {

  /** A tick that finds nobody waiting, a wait that finds a token, and a tick that lets a waiting one through. */
  datatype Event = Tick | Wait | Handoff

  /** Tokens in the bucket after an event; negative when it cannot happen. A wait needs a token, and only one
      that found none is still waiting. */
  function After(burst: nat, tokens: nat, e: Event): (n: int) {
    match e
    case Tick => if tokens < burst then tokens + 1 else tokens
    case Wait => tokens - 1
    case Handoff => if tokens == 0 then 0 else -1
  }

  ghost predicate IsRun(burst: nat, tokens: nat, es: seq<Event>)
    decreases es
  {
    es == [] || (After(burst, tokens, es[0]) >= 0 && IsRun(burst, After(burst, tokens, es[0]), es[1..]))
  }

  function End(burst: nat, tokens: nat, es: seq<Event>): (n: int)
    decreases es
  {
    if es == [] then tokens
    else if After(burst, tokens, es[0]) < 0 then -1
    else End(burst, After(burst, tokens, es[0]), es[1..])
  }

  /** Completed waits in a stretch of a run, and ticks. */
  function Waits(es: seq<Event>): (n: nat) {
    if es == [] then 0 else (if es[0].Tick? then 0 else 1) + Waits(es[1..])
  }

  function Ticks(es: seq<Event>): (n: nat) {
    if es == [] then 0 else (if es[0].Wait? then 0 else 1) + Ticks(es[1..])
  }

  function Min(a: int, b: int): int {
    if a < b then a else b
  }

  /** Tokens stay within the burst, and are conserved: those there at the start and those ticks added, less
      those that found the bucket full, have been taken or are still there. None is lost but to a full bucket:
      taken and left together are at least a burst, or all there ever were. */
  lemma {:induction false} TokensConserved(burst: nat, tokens: nat, es: seq<Event>)
    requires tokens <= burst && IsRun(burst, tokens, es)
    ensures 0 <= End(burst, tokens, es) <= burst
    ensures Waits(es) + End(burst, tokens, es) <= tokens + Ticks(es)
    ensures Ticks(es) <= burst - tokens ==> Waits(es) + End(burst, tokens, es) == tokens + Ticks(es)
    ensures Waits(es) + End(burst, tokens, es) >= Min(burst, tokens + Ticks(es))
    decreases es
  {
    if es != [] {
      TokensConserved(burst, After(burst, tokens, es[0]), es[1..]);
    }
  }

  lemma {:induction false} RunSplits(burst: nat, tokens: nat, es: seq<Event>, i: nat)
    requires tokens <= burst && IsRun(burst, tokens, es) && i <= |es|
    ensures IsRun(burst, tokens, es[..i])
    ensures 0 <= End(burst, tokens, es[..i]) <= burst && IsRun(burst, End(burst, tokens, es[..i]), es[i..])
    decreases es
  {
    if i == 0 {
      assert es[..0] == [] && es[0..] == es;
    } else {
      RunSplits(burst, After(burst, tokens, es[0]), es[1..], i - 1);
      assert es[..i][0] == es[0] && es[..i][1..] == es[1..][..i - 1] && es[i..] == es[1..][i - 1..];
    }
  }

  /** In every window of every run, completed waits number at most the burst plus the ticks in the window. */
  lemma WindowBound(burst: nat, tokens: nat, es: seq<Event>, i: nat, j: nat)
    requires tokens <= burst && IsRun(burst, tokens, es) && i <= j <= |es|
    ensures Waits(es[i..j]) <= burst + Ticks(es[i..j])
  {
    RunSplits(burst, tokens, es, i);
    var at := End(burst, tokens, es[..i]);
    RunSplits(burst, at, es[i..], j - i);
    assert es[i..][..j - i] == es[i..j];
    TokensConserved(burst, at, es[i..j]);
  }

  /** The bound is met: a full bucket serves a burst at once. */
  lemma {:induction false} BurstIsServed(burst: nat, n: nat)
    requires n <= burst
    ensures IsRun(burst, n, seq(n, _ => Wait)) && Waits(seq(n, _ => Wait)) == n
    decreases n
  {
    if n > 0 {
      var es := seq(n, _ => Wait);
      assert es[0] == Wait && es[1..] == seq(n - 1, _ => Wait);
      BurstIsServed(burst, n - 1);
    }
  }

  class Limiter {
    const burst: nat
    var throttle: nat

    ghost predicate Valid()
      reads this
    {
      throttle <= burst
    }

    /** NewLimiter: a channel with room for a burst, filled if asked. */
    constructor (burst: nat, fill: bool)
      ensures this.burst == burst && throttle == (if fill then burst else 0) && Valid()
    {
      this.burst := burst;
      throttle := 0;
      new;
      if fill {
        for i := 0 to burst
          invariant throttle == i
        {
          throttle := throttle + 1;
        }
      }
    }

    /** One round of the ticker's loop: a token for whoever waits, or else for the channel unless it is full.
        Somebody waits only if the channel was empty. */
    method Tick(waiting: bool) returns (served: bool)
      requires Valid() && (waiting ==> throttle == 0)
      modifies this`throttle
      ensures served == waiting
      ensures Valid() && throttle == After(burst, old(throttle), if waiting then Handoff else Event.Tick)
    {
      served := waiting;
      if !waiting && throttle < burst {
        throttle := throttle + 1;
      }
    }

    /** Wait, if it completes at once: otherwise it is waiting, and a tick completes it. */
    method Wait() returns (completed: bool)
      requires Valid()
      modifies this`throttle
      ensures completed == (old(throttle) > 0)
      ensures Valid() && throttle == if completed then After(burst, old(throttle), Event.Wait) else old(throttle)
    {
      completed := throttle > 0;
      if completed {
        throttle := throttle - 1;
      }
    }
  }
}
