/**
  Receivers that work on a buffer to which every receive event appends, and that take steps until
  they are stuck for want of input. The results here hold for any step function that shrinks the
  buffer and that is not disturbed by octets arriving behind the ones it has looked at.
 */
module Incremental {
  import opened Bytes

  datatype Step<S, E> = Stuck | Took(state: S, buf: seq<byte>, effects: seq<E>)

  datatype Drained<S, E> = Drained(state: S, buf: seq<byte>, effects: seq<E>)

  type Stepper<!S, !E> = (S, seq<byte>) -> Step<S, E>

  ghost predicate Shrinks<S(!new), E>(step: Stepper<S, E>) {
    forall s, b :: step(s, b).Took? ==> |step(s, b).buf| < |b|
  }

  ghost predicate Undisturbed<S, E>(step: Stepper<S, E>, s: S, b: seq<byte>, more: seq<byte>) {
    step(s, b).Took? ==>
      step(s, b + more) == Took(step(s, b).state, step(s, b).buf + more, step(s, b).effects)
  }

  ghost predicate Extends<S(!new), E>(step: Stepper<S, E>) {
    forall s, b, more :: Undisturbed(step, s, b, more)
  }

  /** What the receive loop does with buffer `b` from state `s`. */
  ghost function Drain<S(!new), E>(step: Stepper<S, E>, s: S, b: seq<byte>): Drained<S, E>
    requires Shrinks(step)
    decreases |b|
  {
    match step(s, b)
    case Stuck => Drained(s, b, [])
    case Took(s', b', effects) =>
      var d := Drain(step, s', b');
      Drained(d.state, d.buf, effects + d.effects)
  }

  /** One turn of the receive loop, `taken` being what the turns before have brought. */
  lemma DrainUnfolds<S(!new), E>(step: Stepper<S, E>, s: S, b: seq<byte>, taken: seq<E>)
    requires Shrinks(step)
    ensures
      var d := Drain(step, s, b);
      match step(s, b)
      case Stuck => Drained(d.state, d.buf, taken + d.effects) == Drained(s, b, taken)
      case Took(s', b', effects) =>
        var d' := Drain(step, s', b');
        d.state == d'.state && d.buf == d'.buf && taken + d.effects == taken + effects + d'.effects
  {
  }

  lemma {:induction false} DrainIsStuck<S(!new), E>(step: Stepper<S, E>, s: S, b: seq<byte>)
    requires Shrinks(step)
    ensures var d := Drain(step, s, b); step(d.state, d.buf).Stuck?
    decreases |b|
  {
    match step(s, b)
    case Stuck =>
    case Took(s', b', _) => DrainIsStuck(step, s', b');
  }

  /** Draining early and again when more has come is the same as draining once at the end. */
  lemma {:induction false} DrainSplit<S(!new), E>(step: Stepper<S, E>, s: S, b: seq<byte>, more: seq<byte>)
    requires Shrinks(step) && Extends(step)
    ensures
      var early := Drain(step, s, b);
      var late := Drain(step, early.state, early.buf + more);
      Drain(step, s, b + more) == Drained(late.state, late.buf, early.effects + late.effects)
    decreases |b|
  {
    match step(s, b)
    case Stuck =>
      var late := Drain(step, s, b + more);
      assert [] + late.effects == late.effects;
    case Took(s', b', effects) =>
      assert Undisturbed(step, s, b, more);
      DrainSplit(step, s', b', more);
      var early := Drain(step, s', b');
      var late := Drain(step, early.state, early.buf + more);
      assert effects + (early.effects + late.effects) == (effects + early.effects) + late.effects;
  }

  /** One drain per receive event. */
  ghost function Feed<S(!new), E>(step: Stepper<S, E>, s: S, b: seq<byte>, arrivals: seq<seq<byte>>): Drained<S, E>
    requires Shrinks(step)
    decreases |arrivals|
  {
    if arrivals == [] then Drained(s, b, [])
    else
      var first := Drain(step, s, b + arrivals[0]);
      var rest := Feed(step, first.state, first.buf, arrivals[1..]);
      Drained(rest.state, rest.buf, first.effects + rest.effects)
  }

  lemma {:induction false} DrainDoesNotGrow<S(!new), E>(step: Stepper<S, E>, s: S, b: seq<byte>)
    requires Shrinks(step)
    ensures |Drain(step, s, b).buf| <= |b|
    decreases |b|
  {
    match step(s, b)
    case Stuck =>
    case Took(s', b', _) => DrainDoesNotGrow(step, s', b');
  }

  /** One receive event, `taken` being what the events before have brought. */
  lemma FeedUnfolds<S(!new), E>(
    step: Stepper<S, E>, s: S, b: seq<byte>, arrivals: seq<seq<byte>>, i: nat, taken: seq<E>)
    requires Shrinks(step) && i <= |arrivals|
    ensures
      var d := Feed(step, s, b, arrivals[i..]);
      if i == |arrivals| then Drained(d.state, d.buf, taken + d.effects) == Drained(s, b, taken)
      else
        var first := Drain(step, s, b + arrivals[i]);
        var d' := Feed(step, first.state, first.buf, arrivals[i + 1..]);
        d.state == d'.state && d.buf == d'.buf && taken + d.effects == taken + first.effects + d'.effects
  {
    if i < |arrivals| {
      assert arrivals[i..][1..] == arrivals[i + 1..];
    }
  }

  /** However the same octets are cut into receive events, the outcome is that of one single event. */
  lemma {:induction false} FeedIsOneDrain<S(!new), E>(step: Stepper<S, E>, s: S, b: seq<byte>, arrivals: seq<seq<byte>>)
    requires Shrinks(step) && Extends(step) && step(s, b).Stuck?
    ensures Feed(step, s, b, arrivals) == Drain(step, s, b + Concat(arrivals))
    decreases |arrivals|
  {
    if arrivals == [] {
      assert b + Concat(arrivals) == b;
    } else {
      var first := Drain(step, s, b + arrivals[0]);
      DrainIsStuck(step, s, b + arrivals[0]);
      FeedIsOneDrain(step, first.state, first.buf, arrivals[1..]);
      DrainSplit(step, s, b + arrivals[0], Concat(arrivals[1..]));
      assert b + Concat(arrivals) == (b + arrivals[0]) + Concat(arrivals[1..]);
    }
  }
}
