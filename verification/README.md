# SAC agent core: replay buffer, driver adapters, soft target update

This project is a Dafny model of the bookkeeping core of a Soft Actor-Critic
agent for continuous control (`SAC.py`). It covers four parts:

- **Experience replay buffer** (`replay_buffer.dfy`, module `Replay`). This is
  a circular store of fixed capacity `maxSize`. It keeps five parallel columns:
  state, action, reward, next state and the terminal flag `dw`. A write cursor
  `ptr` and a logical `size` go with them.
  - `Init` builds a zero-filled buffer.
  - `Add` writes one transition at the cursor. It then advances the cursor
    modulo the capacity and grows the size, saturating at the capacity.
  - `Sample` reads the rows at a list of indices from every column.
  - `AddAll` folds `Add` over a sequence of insertions. The lemmas about a
    buffer filled from scratch are stated over it.
- **Reward shaping** (`adapters.dfy`, module `Adapters`). `RewardAdapter` is
  keyed by environment index:
  - Pendulum (0) rewards are shifted and scaled.
  - LunarLander (1) crash penalties become -10.
  - BipedalWalker (4, 5) crash penalties become -1.
- **Action scaling** (`adapters.dfy`). `ActionAdapter` maps the agent's box
  [-1, 1] to the environment's box [-maxAction, maxAction];
  `ActionAdapterReverse` maps it back.
- **Polyak soft update** (`soft_update.dfy`, module `SoftUpdate`). At the end
  of every training step, each target-critic parameter moves the fraction
  `Tau = 0.005` of the way towards its online counterpart.

`arith.dfy` (module `Arith`) holds the shared arithmetic vocabulary:
`Min`, `Abs`, `Pow`, and facts about `%` for the circular cursor.

States and actions are type parameters `S` and `A`, because the buffer never
looks inside them. Floating-point numbers are idealised as Dafny `real`s.

## Model

| member | source | states |
|---|---|---|
| Replay.Init | SAC.py:119-129 | A new buffer of capacity `maxSize >= 1` has cursor 0, size 0, five columns of that length, and every row zero with a false terminal flag. |
| Replay.Add | SAC.py:131-140 | Adding keeps the representation invariant. The cursor moves one slot forward and wraps from the last slot to 0. The size grows by exactly one until it reaches the capacity, then stays there. "Cursor equals size until the buffer first fills" is preserved. The old cursor slot holds the new transition in all five columns, and every other slot is unchanged. |
| Replay.AddAllCursor | SAC.py:139-140 | After `n` adds from any valid buffer, the cursor has moved `n` slots modulo the capacity, and the size is `min(size + n, maxSize)`. |
| Replay.AddAllContents | SAC.py:133-140 | After `n` adds, each of the last `maxSize` insertions sits in the slot the cursor pointed to when it was made. Slots the insertions never reached are unchanged. |
| Replay.FreshCursor | SAC.py:122-123 | After `n` adds to a freshly constructed buffer, `ptr == n % maxSize` and `size == min(n, maxSize)`. |
| Replay.FreshRecent | SAC.py:133-139 | In a buffer filled from scratch, insertion `k` is in slot `k % maxSize`, for each of the last `maxSize` insertions. |
| Replay.FreshUnwritten | SAC.py:125-129 | In a buffer filled from scratch with `n < maxSize` insertions, every slot from `n` onwards is still the zero row. |
| Replay.BeforeWrap | SAC.py:131-140 | Before the buffer first fills, the size is `n`, the first `n` rows are the insertions in order, and the remaining rows are zero rows. |
| Replay.AfterWrap | SAC.py:131-140 | Once `n >= maxSize`, the buffer is full. Reading from the cursor onwards and wrapping round gives exactly the last `maxSize` insertions, oldest first. The slot under the cursor holds the oldest of them. As a multiset, the buffer equals the last `maxSize` insertions. |
| Replay.Sample | SAC.py:142-144 | Sampling needs a non-empty buffer and indices below `size`. The five returned columns have the batch length, and row `j` of the batch is the stored row at `ind[j]` across all five columns. |
| Replay.SampleIsRecent | SAC.py:139-144 | Every row sampled from a buffer filled from scratch is one of the last `min(n, maxSize)` insertions. It is never an unwritten slot and never an overwritten insertion. (A zero row can still be sampled if a zero transition was inserted.) |
| Adapters.RewardAdapter | SAC.py:147-157 | Only Pendulum rewards and crash penalties (at most -100 in environments 1, 4 and 5) are changed. Outside Pendulum a reward is never lowered. Environments 1, 4 and 5 never report a reward of -100 or below. Pendulum's shaping is inverted by `r = 8 r' - 8`. |
| Adapters.RewardAdapterCases | SAC.py:147-157 | The four cases of the shaping: `(r + 8) / 8` for Pendulum; -10 for a LunarLander crash; -1 for a BipedalWalker or Hardcore crash; the reward itself otherwise. |
| Adapters.RewardAdapterIdempotent | SAC.py:152-157 | Outside Pendulum, shaping an already shaped reward changes nothing. |
| Adapters.PendulumShapingMonotone | SAC.py:149-150 | Pendulum's shaping is strictly increasing, maps 0 to 1, and maps -8 to 0. |
| Adapters.ActionAdapter | SAC.py:159-161 | The forward adapter keeps the action's length and multiplies each component by `maxAction`: for a non-zero bound, dividing a result component by the bound gives back the agent's component, and a zero bound sends every component to 0. It is inverted by `ActionAdapterReverse` (see `ActionRoundTrip`). |
| Adapters.ActionAdapterReverse | SAC.py:163-165 | For a non-zero bound, the reverse adapter keeps the action's length and divides each component by `maxAction`: multiplying a result component by the bound gives back the environment's component. It is inverted by `ActionAdapter` (see `ActionRoundTrip`). |
| Adapters.ActionRoundTrip | SAC.py:159-165 | For any non-zero `maxAction`, reverse-after-forward and forward-after-reverse are both the identity on action vectors. |
| Adapters.ActionAdapterBoxes | SAC.py:159-165 | For `maxAction > 0`, a component is in [-1, 1] exactly when its forward image is in [-maxAction, maxAction]. Likewise, a component is in [-maxAction, maxAction] exactly when its reverse image is in [-1, 1]. |
| Adapters.ScaleInBox | SAC.py:159-161 | For a positive bound, a component lies in [-1, 1] exactly when its scaled image lies in [-maxAction, maxAction]: the unit box is the preimage of the bound's box. |
| Adapters.ScaleOnto | SAC.py:159-165 | For a positive bound, every component of [-maxAction, maxAction] is the scaled image of its unscaled value, which lies in [-1, 1]. With `ScaleInBox`, scaling is a bijection between the two boxes. |
| SoftUpdate.Polyak | SAC.py:309-310 | The update keeps the target's length. Target parameters past the end of the online list are left alone, as `zip` stops at the shorter list. A target parameter equal to its online parameter stays fixed. |
| SoftUpdate.BlendContracts | SAC.py:310 | For `tau` in [0, 1], one update makes the signed gap to the online value exactly `(1 - tau)` times the old gap. The distance shrinks by the same factor. The new value lies between the old target and the online value. |
| SoftUpdate.PolyakContracts | SAC.py:309-310 | `BlendContracts` for every paired parameter of the flattened parameter list. |
| SoftUpdate.PolyakStepsAt | SAC.py:309-310 | Repeated soft updates act on each paired parameter independently, as the scalar recursion on that parameter alone. |
| SoftUpdate.BlendStepsGap | SAC.py:310 | After `n` updates against a fixed online value, the signed gap is exactly `(1 - tau)^n` times the initial gap. |
| SoftUpdate.PolyakStepsGap | SAC.py:309-310 | After `n` updates against fixed online parameters, each paired target's signed gap to its online parameter is exactly `(1 - tau)^n` times the initial gap, so it stays on the same side and a parameter that starts equal stays equal. |
| SoftUpdate.BlendStepsDistance | SAC.py:310 | For `tau` in [0, 1], after `n` updates a parameter is exactly `(1 - tau)^n` times as far from the online value as it started. |
| SoftUpdate.PolyakStepsNoFarther | SAC.py:309-310 | For `tau` in [0, 1], no number of updates moves a paired target parameter farther from its online parameter. |
| SoftUpdate.PolyakStepsConverge | SAC.py:309-310 | For `tau` in [0, 1], after `n` updates each paired target's distance to its online parameter is at most `1 / (1 + n * tau)` of the initial distance. For `tau > 0` the bound tends to zero, so the target converges to the online parameters. |
| SoftUpdate.BlendStepsConverge | SAC.py:310 | The same `1 / (1 + n * tau)` bound for a single parameter. |
| Arith.PowBernoulli | SAC.py:310 | Bernoulli's inequality in the form the update needs: for `tau` in [0, 1], `(1 - tau)^n * (1 + n * tau) <= 1`, with `1 + n * tau` built up one `tau` per update. |
| Arith.BernoulliBoundClosedForm | SAC.py:310 | The bound accumulated over `n` updates is exactly `1 + n * tau`. |
| SoftUpdate.UpdateTarget | SAC.py:309-310 | The in-place loop with `Tau = 0.005` produces exactly the pairwise Polyak update. |

## Left out

- Networks: the actor, the critics, their forward passes, losses and optimiser steps (`train` apart from the target update). These are tensor and autograd code outside the buffer and update bookkeeping.
- The dual variable `beta`, its optimisation, the temperature `alpha` and its update. These are learned floating-point quantities.
- `delta` (SAC.py:184-189). It needs a real logarithm, which has no exact counterpart here.
- `NoiseReward`, saving and loading, the training script, environment I/O and logging. These are I/O or framework glue.
- Replay.Sample: the index list is drawn uniformly at random in the source. Here the caller supplies it, and the contract covers every admissible list.
- Replay.Init: requires `maxSize >= 1`. With capacity 0 the source builds empty columns, and its first `add` fails on the first indexed write (SAC.py:133), before the cursor's `% max_size` at line 139 is reached. The agent always uses a large positive capacity.
- Replay.Add: the tensor conversions of `s`, `a` and `s_next` (dtype, device, shape) are not modelled. A transition is stored as given.
- Adapters.ActionAdapterReverse: modelled, but only for `maxAction != 0`. With a zero bound the source's division produces infinities or NaNs, which reals cannot represent.
- SoftUpdate.PolyakStepsConverge: the limit is given as the explicit bound `1 / (1 + n * tau)` on the remaining fraction of the distance, not as an epsilon-N statement.
- SoftUpdate.Polyak: the critic's parameter tensors are flattened to one sequence of reals.
- Floating-point rounding throughout. Every contract about rewards, actions and the soft update holds for exact reals, not for IEEE single-precision arithmetic. For example, the round trips and the exact `(1 - tau)^n` factor hold only up to rounding in the source.
