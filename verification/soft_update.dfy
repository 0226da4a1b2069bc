/** The Polyak (soft) update of the target critic at the end of every
    training step: each target parameter moves a fraction `tau` of the way
    towards the corresponding online parameter. Parameters are flattened to
    one sequence of reals; floats are idealised as reals. */
module SoftUpdate {
  import opened Arith

  /** The smoothing coefficient fixed at agent construction. */
  const Tau: real := 0.005

  /** One parameter's update: `tau * online + (1 - tau) * target`. */
  function Blend(online: real, target: real, tau: real): real
  {
    tau * online + (1.0 - tau) * target
  }

  /** The update applied pairwise to `online` and `target`. Pairing stops at
      the shorter sequence, as zipping the two parameter lists does; target
      parameters beyond it are left as they are. */
  function Polyak(online: seq<real>, target: seq<real>, tau: real): (r: seq<real>)
    ensures |r| == |target|
    ensures forall i :: |online| <= i < |target| ==> r[i] == target[i]
    // a target parameter that already equals its online parameter stays put
    ensures forall i :: 0 <= i < |online| && i < |target| && target[i] == online[i] ==> r[i] == online[i]
  {
    seq(|target|, i requires 0 <= i < |target| =>
      if i < |online| then Blend(online[i], target[i], tau) else target[i])
  }

  /** A blended parameter is `1 - tau` times as far from the online
      parameter as before, and for `tau` in [0, 1] lies between the two. */
  lemma BlendContracts(online: real, target: real, tau: real)
    requires 0.0 <= tau <= 1.0
    ensures Blend(online, target, tau) - online == (1.0 - tau) * (target - online)
    ensures Abs(Blend(online, target, tau) - online) == (1.0 - tau) * Abs(target - online)
    ensures target <= online ==> target <= Blend(online, target, tau) <= online
    ensures online <= target ==> online <= Blend(online, target, tau) <= target
  {
    assert Blend(online, target, tau) - online == (1.0 - tau) * (target - online);
    AbsScale(1.0 - tau, target - online);
    if target <= online {
      assert (1.0 - tau) * (target - online) <= 0.0;
      assert (1.0 - tau) * (target - online) >= target - online;
    } else {
      assert (1.0 - tau) * (target - online) >= 0.0;
      assert (1.0 - tau) * (target - online) <= target - online;
    }
  }

  /** One soft update shrinks every paired parameter's distance to its online
      counterpart by exactly the factor `1 - tau` and keeps it between its
      old value and the online value. */
  lemma PolyakContracts(online: seq<real>, target: seq<real>, tau: real)
    requires 0.0 <= tau <= 1.0
    ensures forall i :: 0 <= i < |online| && i < |target| ==>
      Abs(Polyak(online, target, tau)[i] - online[i]) == (1.0 - tau) * Abs(target[i] - online[i])
    ensures forall i :: 0 <= i < |online| && i < |target| && target[i] <= online[i] ==>
      target[i] <= Polyak(online, target, tau)[i] <= online[i]
    ensures forall i :: 0 <= i < |online| && i < |target| && online[i] <= target[i] ==>
      online[i] <= Polyak(online, target, tau)[i] <= target[i]
  {
    forall i | 0 <= i < |online| && i < |target|
      ensures Abs(Polyak(online, target, tau)[i] - online[i]) == (1.0 - tau) * Abs(target[i] - online[i])
      ensures target[i] <= online[i] ==> target[i] <= Polyak(online, target, tau)[i] <= online[i]
      ensures online[i] <= target[i] ==> online[i] <= Polyak(online, target, tau)[i] <= target[i]
    {
      BlendContracts(online[i], target[i], tau);
    }
  }

  /** `n` training steps' worth of soft updates against fixed online
      parameters. */
  function PolyakSteps(online: seq<real>, target: seq<real>, tau: real, n: nat): (r: seq<real>)
    ensures |r| == |target|
  {
    if n == 0 then target else Polyak(online, PolyakSteps(online, target, tau, n - 1), tau)
  }

  /** `n` soft updates of a single parameter against a fixed online value. */
  function BlendSteps(online: real, target: real, tau: real, n: nat): real
  {
    if n == 0 then target else Blend(online, BlendSteps(online, target, tau, n - 1), tau)
  }

  /** Repeated soft updates act on each paired parameter independently. */
  lemma {:induction false} PolyakStepsAt(online: seq<real>, target: seq<real>, tau: real, n: nat)
    ensures forall i :: 0 <= i < |online| && i < |target| ==>
      PolyakSteps(online, target, tau, n)[i] == BlendSteps(online[i], target[i], tau, n)
  {
    if n > 0 {
      PolyakStepsAt(online, target, tau, n - 1);
    }
  }

  /** After `n` soft updates of one parameter, its signed gap to the online
      value is exactly `(1 - tau)^n` times the initial gap. */
  lemma {:induction false} BlendStepsGap(online: real, target: real, tau: real, n: nat)
    ensures BlendSteps(online, target, tau, n) - online == Pow(1.0 - tau, n) * (target - online)
  {
    if n > 0 {
      var prev := BlendSteps(online, target, tau, n - 1);
      BlendStepsGap(online, target, tau, n - 1);
      assert BlendSteps(online, target, tau, n) - online == (1.0 - tau) * (prev - online);
      MulRegroup(1.0 - tau, prev - online, Pow(1.0 - tau, n - 1), target - online, Pow(1.0 - tau, n));
    }
  }

  /** After `n` soft updates against fixed online parameters, the signed gap
      of each paired target parameter to its online one is exactly
      `(1 - tau)^n` times the initial gap: it keeps its side, and a parameter
      that starts equal stays equal. */
  lemma PolyakStepsGap(online: seq<real>, target: seq<real>, tau: real, n: nat)
    requires 0.0 <= tau <= 1.0
    ensures forall i :: 0 <= i < |online| && i < |target| ==>
      PolyakSteps(online, target, tau, n)[i] - online[i] == Pow(1.0 - tau, n) * (target[i] - online[i])
  {
    PolyakStepsAt(online, target, tau, n);
    BlendedGap(online, target, PolyakSteps(online, target, tau, n), tau, n);
  }

  /** `PolyakStepsGap` for any sequence whose paired entries are the
      `n`-step blends. */
  lemma BlendedGap(online: seq<real>, target: seq<real>, r: seq<real>, tau: real, n: nat)
    requires |r| == |target|
    requires forall i :: 0 <= i < |online| && i < |target| ==>
      r[i] == BlendSteps(online[i], target[i], tau, n)
    ensures forall i :: 0 <= i < |online| && i < |target| ==>
      r[i] - online[i] == Pow(1.0 - tau, n) * (target[i] - online[i])
  {
    forall i | 0 <= i < |online| && i < |target|
      ensures r[i] - online[i] == Pow(1.0 - tau, n) * (target[i] - online[i])
    {
      BlendStepsGap(online[i], target[i], tau, n);
    }
  }

  /** For `tau` in [0, 1] soft updates never move a paired target parameter
      away from its online value. */
  lemma PolyakStepsNoFarther(online: seq<real>, target: seq<real>, tau: real, n: nat)
    requires 0.0 <= tau <= 1.0
    ensures forall i :: 0 <= i < |online| && i < |target| ==>
      Abs(PolyakSteps(online, target, tau, n)[i] - online[i]) <= Abs(target[i] - online[i])
  {
    PolyakStepsAt(online, target, tau, n);
    BlendedNoFarther(online, target, PolyakSteps(online, target, tau, n), tau, n);
  }

  /** For `tau > 0` repeated soft updates drive every paired target
      parameter to its online value: after `n` updates the distance is at
      most `1 / (1 + n * tau)` of the initial one, which tends to zero. */
  lemma PolyakStepsConverge(online: seq<real>, target: seq<real>, tau: real, n: nat)
    requires 0.0 <= tau <= 1.0
    ensures forall i :: 0 <= i < |online| && i < |target| ==>
      Abs(PolyakSteps(online, target, tau, n)[i] - online[i])
        <= Abs(target[i] - online[i]) / BernoulliBound(tau, n)
  {
    PolyakStepsAt(online, target, tau, n);
    BlendedConverge(online, target, PolyakSteps(online, target, tau, n), tau, n);
  }

  /** `PolyakStepsNoFarther` for any sequence whose paired entries are the
      `n`-step blends. */
  lemma BlendedNoFarther(online: seq<real>, target: seq<real>, r: seq<real>, tau: real, n: nat)
    requires 0.0 <= tau <= 1.0 && |r| == |target|
    requires forall i :: 0 <= i < |online| && i < |target| ==>
      r[i] == BlendSteps(online[i], target[i], tau, n)
    ensures forall i :: 0 <= i < |online| && i < |target| ==>
      Abs(r[i] - online[i]) <= Abs(target[i] - online[i])
  {
    forall i | 0 <= i < |online| && i < |target|
      ensures Abs(r[i] - online[i]) <= Abs(target[i] - online[i])
    {
      BlendStepsNoFarther(online[i], target[i], tau, n);
      AbsOfGapCongruent(r[i], BlendSteps(online[i], target[i], tau, n), online[i]);
    }
  }

  /** `PolyakStepsConverge` for any sequence whose paired entries are the
      `n`-step blends. */
  lemma BlendedConverge(online: seq<real>, target: seq<real>, r: seq<real>, tau: real, n: nat)
    requires 0.0 <= tau <= 1.0 && |r| == |target|
    requires forall i :: 0 <= i < |online| && i < |target| ==>
      r[i] == BlendSteps(online[i], target[i], tau, n)
    ensures forall i :: 0 <= i < |online| && i < |target| ==>
      Abs(r[i] - online[i]) <= Abs(target[i] - online[i]) / BernoulliBound(tau, n)
  {
    forall i | 0 <= i < |online| && i < |target|
      ensures Abs(r[i] - online[i]) <= Abs(target[i] - online[i]) / BernoulliBound(tau, n)
    {
      BlendStepsConverge(online[i], target[i], tau, n);
      AbsOfGapCongruent(r[i], BlendSteps(online[i], target[i], tau, n), online[i]);
    }
  }

  /** For `tau` in [0, 1], a single parameter after `n` updates is exactly
      `(1 - tau)^n` times as far from the online value as it started. */
  lemma BlendStepsDistance(online: real, target: real, tau: real, n: nat)
    requires 0.0 <= tau <= 1.0
    ensures Abs(BlendSteps(online, target, tau, n) - online) == Pow(1.0 - tau, n) * Abs(target - online)
  {
    PowUnitInterval(1.0 - tau, n);
    BlendStepsGap(online, target, tau, n);
    ScaledDistance(BlendSteps(online, target, tau, n) - online, Pow(1.0 - tau, n), target - online);
  }

  /** For `tau` in [0, 1], a single parameter never moves away from the
      online value, however many updates it receives. */
  lemma BlendStepsNoFarther(online: real, target: real, tau: real, n: nat)
    requires 0.0 <= tau <= 1.0
    ensures Abs(BlendSteps(online, target, tau, n) - online) <= Abs(target - online)
  {
    PowUnitInterval(1.0 - tau, n);
    BlendStepsGap(online, target, tau, n);
    ScaledDistance(BlendSteps(online, target, tau, n) - online, Pow(1.0 - tau, n), target - online);
  }

  /** `PolyakStepsConverge` for a single parameter. */
  lemma BlendStepsConverge(online: real, target: real, tau: real, n: nat)
    requires 0.0 <= tau <= 1.0
    ensures Abs(BlendSteps(online, target, tau, n) - online) <= Abs(target - online) / BernoulliBound(tau, n)
  {
    PowBernoulli(tau, n);
    BlendStepsShrink(online, target, tau, n, BernoulliBound(tau, n));
  }

  /** For any positive `b` with `(1 - tau)^n * b <= 1`, a single parameter
      after `n` updates is at most `1 / b` of its initial distance from the
      online value. */
  lemma BlendStepsShrink(online: real, target: real, tau: real, n: nat, b: real)
    requires 0.0 <= tau <= 1.0 && b > 0.0 && Pow(1.0 - tau, n) * b <= 1.0
    ensures Abs(BlendSteps(online, target, tau, n) - online) <= Abs(target - online) / b
  {
    BlendStepsGap(online, target, tau, n);
    PowUnitInterval(1.0 - tau, n);
    ShrunkGap(BlendSteps(online, target, tau, n) - online, Pow(1.0 - tau, n), target - online, b);
  }

  /** The loop that copies the blended values into the target critic,
      parameter by parameter, with the agent's `Tau`. */
  method UpdateTarget(online: seq<real>, target: seq<real>) returns (updated: seq<real>)
    ensures updated == Polyak(online, target, Tau)
  {
    updated := target;
    var i := 0;
    while i < |online| && i < |target|
      invariant 0 <= i <= |target|
      invariant i <= |online|
      invariant |updated| == |target|
      invariant forall j :: 0 <= j < i ==> updated[j] == Blend(online[j], target[j], Tau)
      invariant forall j :: i <= j < |target| ==> updated[j] == target[j]
    {
      updated := updated[i := Blend(online[i], target[i], Tau)];
      i := i + 1;
    }
  }
}
