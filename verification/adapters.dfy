/** The driver-side conversions between the agent and the environment:
    reward shaping keyed by environment index, and the linear scaling of
    actions between the agent's box [-1, 1] and the environment's box
    [-maxAction, maxAction]. Floats are idealised as reals. */
module Adapters {

  /** Environment indices whose reward the shaping touches. */
  const Pendulum: int := 0
  const LunarLander: int := 1
  const BipedalWalker: int := 4
  const BipedalWalkerHardcore: int := 5

  /** The threshold at or below which a reward counts as a crash penalty. */
  const CrashThreshold: real := -100.0

  /** Whether the environment's crash penalty is replaced by a milder one. */
  predicate SoftensCrash(envIndex: int)
  {
    envIndex == LunarLander || envIndex == BipedalWalker || envIndex == BipedalWalkerHardcore
  }

  /** Reward shaping applied to every environment reward before it is stored.
      Pendulum rewards are shifted and scaled; in LunarLander and the two
      BipedalWalker variants a crash penalty is replaced by a small constant;
      every other reward passes through. */
  function RewardAdapter(r: real, envIndex: int): (r': real)
    // only Pendulum rewards and crash penalties are changed
    ensures r' != r ==> envIndex == Pendulum || (SoftensCrash(envIndex) && r <= CrashThreshold)
    // outside Pendulum, shaping never lowers a reward
    ensures envIndex != Pendulum ==> r' >= r
    // a softened environment never reports a crash-sized penalty
    ensures SoftensCrash(envIndex) ==> r' > CrashThreshold
    // Pendulum's shaping is an increasing affine map that can be undone
    ensures envIndex == Pendulum ==> r == 8.0 * r' - 8.0
  {
    if envIndex == Pendulum then
      (r + 8.0) / 8.0
    else if envIndex == LunarLander then
      if r <= CrashThreshold then -10.0 else r
    else if envIndex == BipedalWalker || envIndex == BipedalWalkerHardcore then
      if r <= CrashThreshold then -1.0 else r
    else
      r
  }

  /** The per-environment behaviour of the shaping, case by case. */
  lemma RewardAdapterCases(r: real, envIndex: int)
    ensures envIndex == Pendulum ==> RewardAdapter(r, envIndex) == (r + 8.0) / 8.0
    ensures envIndex == LunarLander && r <= CrashThreshold ==> RewardAdapter(r, envIndex) == -10.0
    ensures (envIndex == BipedalWalker || envIndex == BipedalWalkerHardcore) && r <= CrashThreshold
      ==> RewardAdapter(r, envIndex) == -1.0
    ensures envIndex != Pendulum && !(SoftensCrash(envIndex) && r <= CrashThreshold)
      ==> RewardAdapter(r, envIndex) == r
  {
  }

  /** Outside Pendulum, shaping an already shaped reward changes nothing. */
  lemma RewardAdapterIdempotent(r: real, envIndex: int)
    requires envIndex != Pendulum
    ensures RewardAdapter(RewardAdapter(r, envIndex), envIndex) == RewardAdapter(r, envIndex)
  {
  }

  /** Pendulum's shaping is strictly increasing, so it preserves the order of
      rewards; it sends 0 to 1 and -8 to 0. */
  lemma PendulumShapingMonotone(r1: real, r2: real)
    requires r1 < r2
    ensures RewardAdapter(r1, Pendulum) < RewardAdapter(r2, Pendulum)
    ensures RewardAdapter(0.0, Pendulum) == 1.0 && RewardAdapter(-8.0, Pendulum) == 0.0
  {
  }

  /** Scale one agent action component into the environment's range. */
  function Scale(x: real, maxAction: real): real
  {
    x * maxAction
  }

  /** Scale one environment action component back into the agent's range. */
  function Unscale(x: real, maxAction: real): real
    requires maxAction != 0.0
  {
    x / maxAction
  }

  /** From [-1, 1] to [-maxAction, maxAction], component-wise. For a
      non-zero bound, dividing a component of the result by the bound gives
      back the agent's component; a zero bound sends every action to zero. */
  function ActionAdapter(a: seq<real>, maxAction: real): (act: seq<real>)
    ensures |act| == |a|
    ensures maxAction != 0.0 ==> forall i :: 0 <= i < |a| ==> act[i] / maxAction == a[i]
    ensures maxAction == 0.0 ==> forall i :: 0 <= i < |a| ==> act[i] == 0.0
  {
    seq(|a|, i requires 0 <= i < |a| => Scale(a[i], maxAction))
  }

  /** From [-maxAction, maxAction] to [-1, 1], component-wise: scaling a
      component of the result by the bound gives back the environment's
      component. */
  function ActionAdapterReverse(act: seq<real>, maxAction: real): (a: seq<real>)
    requires maxAction != 0.0
    ensures |a| == |act|
    ensures forall i :: 0 <= i < |act| ==> a[i] * maxAction == act[i]
  {
    seq(|act|, i requires 0 <= i < |act| => Unscale(act[i], maxAction))
  }

  /** `x` lies in the symmetric box of radius `m`. */
  predicate InBox(x: real, m: real)
  {
    -m <= x <= m
  }

  /** For a positive bound, a component lies in the agent's box exactly when
      its scaled image lies in the environment's box. */
  lemma ScaleInBox(x: real, m: real)
    requires m > 0.0
    ensures InBox(x, 1.0) <==> InBox(Scale(x, m), m)
  {
    if x > 1.0 {
      assert x * m - m == (x - 1.0) * m;
    } else if x < -1.0 {
      assert x * m + m == (x + 1.0) * m;
    } else {
      assert m - x * m == (1.0 - x) * m;
      assert x * m + m == (x + 1.0) * m;
    }
  }

  /** For a positive bound, every component of the environment's box is the
      scaled image of a component of the agent's box, namely its unscaled
      value; with `ScaleInBox`, scaling is a bijection between the boxes. */
  lemma ScaleOnto(y: real, m: real)
    requires m > 0.0 && InBox(y, m)
    ensures InBox(Unscale(y, m), 1.0)
    ensures Scale(Unscale(y, m), m) == y
  {
    var x := Unscale(y, m);
    assert Scale(x, m) == y;
    ScaleInBox(x, m);
  }

  /** The agent's actions are exactly the preimage of the environment's
      actions under scaling, and the reverse adapter maps the environment's
      box onto the agent's. */
  lemma ActionAdapterBoxes(a: seq<real>, act: seq<real>, maxAction: real)
    requires maxAction > 0.0
    ensures forall i :: 0 <= i < |a| ==>
      (InBox(a[i], 1.0) <==> InBox(ActionAdapter(a, maxAction)[i], maxAction))
    ensures forall i :: 0 <= i < |act| ==>
      (InBox(act[i], maxAction) <==> InBox(ActionAdapterReverse(act, maxAction)[i], 1.0))
  {
    forall i | 0 <= i < |a|
      ensures InBox(a[i], 1.0) <==> InBox(ActionAdapter(a, maxAction)[i], maxAction)
    {
      ScaleInBox(a[i], maxAction);
    }
    forall i | 0 <= i < |act|
      ensures InBox(act[i], maxAction) <==> InBox(ActionAdapterReverse(act, maxAction)[i], 1.0)
    {
      var x := Unscale(act[i], maxAction);
      assert Scale(x, maxAction) == act[i];
      ScaleInBox(x, maxAction);
    }
  }

  /** For any non-zero bound the two adapters are mutually inverse, in both
      orders. */
  lemma ActionRoundTrip(a: seq<real>, act: seq<real>, maxAction: real)
    requires maxAction != 0.0
    ensures ActionAdapterReverse(ActionAdapter(a, maxAction), maxAction) == a
    ensures ActionAdapter(ActionAdapterReverse(act, maxAction), maxAction) == act
  {
    var back := ActionAdapterReverse(ActionAdapter(a, maxAction), maxAction);
    forall i | 0 <= i < |a|
      ensures back[i] == a[i]
    {
      assert Scale(a[i], maxAction) / maxAction == a[i];
    }
    var forth := ActionAdapter(ActionAdapterReverse(act, maxAction), maxAction);
    forall i | 0 <= i < |act|
      ensures forth[i] == act[i]
    {
      assert Unscale(act[i], maxAction) * maxAction == act[i];
    }
  }
}
