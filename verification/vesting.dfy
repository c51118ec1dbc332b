/** The per-account vesting snapshot: the arithmetic of `getInfo`, lifted
    out of the chain queries that feed it. The block height, the optional
    vesting schedule and the free balance arrive as plain inputs. */
module Vesting {
  import opened Wrappers
  import opened JsBigInt
  import Amounts

  /** The assumed block time, in seconds. */
  const BlockSeconds: int := 6

  /** Account identifiers are opaque to the computation. */
  type Address = string

  /** The first vesting schedule the chain reports for an account: `locked`
      smallest units released at `perBlock` per block from `startingBlock`. */
  datatype Schedule = Schedule(locked: nat, perBlock: nat, startingBlock: nat)

  /** The same schedule as the chain's human-readable rendering delivers it,
      before `stringtoBigInt` is applied to each field. */
  datatype RenderedSchedule = RenderedSchedule(locked: string, perBlock: string, startingBlock: string)

  /** The record `getInfo` returns for one account. */
  datatype Snapshot = Snapshot(
    address: Address,
    vestedAmount: int,
    remainingToBeVested: int,
    percentageVested: int,
    secondsUntilFullyVested: int)

  /** What vested plus remaining adds up to: the schedule's locked total, or
      the free balance of an account without a schedule. */
  function Balance(schedule: Option<Schedule>, freeBalance: nat): nat {
    match schedule
    case None => freeBalance
    case Some(s) => s.locked
  }

  function ElapsedBlocks(currentBlock: nat, s: Schedule): int {
    currentBlock - s.startingBlock
  }

  /** Linear release, before the cap; negative before the starting block. */
  function VestedWithOverflow(currentBlock: nat, s: Schedule): int {
    ElapsedBlocks(currentBlock, s) * s.perBlock
  }

  /** The linear release capped at the locked total. It reaches the total
      exactly when the uncapped release does, and it is non-negative once
      the starting block is reached. */
  function VestedAmount(currentBlock: nat, s: Schedule): (v: int)
    ensures v <= s.locked
    ensures v == s.locked <==> VestedWithOverflow(currentBlock, s) >= s.locked
    ensures currentBlock >= s.startingBlock ==> v >= 0
  {
    var raw := VestedWithOverflow(currentBlock, s);
    if raw > s.locked then s.locked else raw
  }

  /** The locked amount not yet released. It is never negative, so the
      clamp in `RemainingToBeVested` never changes it. */
  function RemainingWithOverflow(currentBlock: nat, s: Schedule): (r: int)
    ensures r >= 0
  {
    s.locked - VestedAmount(currentBlock, s)
  }

  function RemainingToBeVested(currentBlock: nat, s: Schedule): int {
    var raw := RemainingWithOverflow(currentBlock, s);
    if raw < 0 then 0 else raw
  }

  /** Whole percent released, truncated toward zero. JavaScript throws for
      `locked == 0`; `ComputeSnapshot` reports that case as an error. */
  function PercentageWithOverflow(currentBlock: nat, s: Schedule): int
    requires s.locked > 0
  {
    TruncDiv(VestedAmount(currentBlock, s) * 100, s.locked)
  }

  function PercentageVested(currentBlock: nat, s: Schedule): int
    requires s.locked > 0
  {
    var raw := PercentageWithOverflow(currentBlock, s);
    if raw > 100 then 100 else raw
  }

  /** Whole blocks of release still to come, in seconds. JavaScript throws
      for `perBlock == 0`; `ComputeSnapshot` reports that case as an error. */
  function SecondsUntilFullyVested(currentBlock: nat, s: Schedule): int
    requires s.perBlock > 0
  {
    TruncDiv(RemainingWithOverflow(currentBlock, s), s.perBlock) * BlockSeconds
  }

  /** The bookkeeping every snapshot satisfies, with or without a schedule. */
  predicate Consistent(x: Snapshot, balance: int) {
    && x.remainingToBeVested >= 0
    && x.vestedAmount + x.remainingToBeVested == balance
    && x.percentageVested <= 100
    && (x.vestedAmount >= 0 ==> x.percentageVested >= 0)
    && (x.vestedAmount == 0 ==> x.percentageVested == 0)
    && (x.percentageVested > 0 ==> x.vestedAmount > 0)
    && x.secondsUntilFullyVested >= 0
    && x.secondsUntilFullyVested % BlockSeconds == 0
    && (x.remainingToBeVested == 0 ==>
          x.secondsUntilFullyVested == 0 && (x.percentageVested == 100 <==> x.vestedAmount != 0))
  }

  /** The pure part of `getInfo`. An account without a schedule is fully
      liquid. With a schedule, the two BigInt divisions throw when `locked`
      or `perBlock` is zero; nothing else fails. */
  function ComputeSnapshot(address: Address, currentBlock: nat, schedule: Option<Schedule>, freeBalance: nat)
    : (r: Result<Snapshot, JsError>)
    ensures r.Failure? <==> schedule.Some? && (schedule.value.locked == 0 || schedule.value.perBlock == 0)
    ensures r.Failure? ==> r.error == RangeError
    ensures r.Success? ==> r.value.address == address && Consistent(r.value, Balance(schedule, freeBalance))
    ensures schedule.None? ==>
              && r.Success?
              && r.value.vestedAmount == freeBalance
              && r.value.remainingToBeVested == 0
              && r.value.secondsUntilFullyVested == 0
              && (r.value.percentageVested == 0 <==> freeBalance == 0)
              && (r.value.percentageVested == 100 <==> freeBalance != 0)
  {
    match schedule
    case None =>
      Success(Snapshot(address, freeBalance, 0, if freeBalance == 0 then 0 else 100, 0))
    case Some(s) =>
      if s.locked == 0 || s.perBlock == 0 then Failure(RangeError)
      else
        var x := Snapshot(
          address,
          VestedAmount(currentBlock, s),
          RemainingToBeVested(currentBlock, s),
          PercentageVested(currentBlock, s),
          SecondsUntilFullyVested(currentBlock, s));
        ScheduledConsistent(currentBlock, s);
        Success(x)
  }

  lemma ScheduledConsistent(currentBlock: nat, s: Schedule)
    requires s.locked > 0 && s.perBlock > 0
    ensures Consistent(Snapshot(
                         "",
                         VestedAmount(currentBlock, s),
                         RemainingToBeVested(currentBlock, s),
                         PercentageVested(currentBlock, s),
                         SecondsUntilFullyVested(currentBlock, s)),
                       s.locked)
  {
    PercentageFacts(currentBlock, s);
    SecondsFacts(currentBlock, s);
  }

  lemma PercentageFacts(currentBlock: nat, s: Schedule)
    requires s.locked > 0
    ensures var v, p := VestedAmount(currentBlock, s), PercentageVested(currentBlock, s);
      && p == PercentageWithOverflow(currentBlock, s)
      && p <= 100
      && (v >= 0 ==> p >= 0 && p * s.locked <= v * 100 < (p + 1) * s.locked)
      && (v == 0 ==> p == 0)
      && (p > 0 ==> v > 0)
      && (p == 100 <==> v == s.locked)
      && (v >= 0 ==> (p == 0 <==> v * 100 < s.locked))
      && (v < 0 ==> (p - 1) * s.locked < v * 100 <= p * s.locked)
  {
    var v, L := VestedAmount(currentBlock, s), s.locked;
    var raw := PercentageWithOverflow(currentBlock, s);
    TruncDivMonotone(v * 100, L * 100, L);
    assert TruncDiv(L * 100, L) == 100 by { TruncDivUnique(L * 100, L, 100); }
    if v >= 0 {
      TruncDivOfNonNegative(v * 100, L);
      FloorBracket(v * 100, L);
      if raw == 100 {
        assert v * 100 >= 100 * L;
      }
      if raw >= 1 {
        assert raw * L >= L by { MulAtLeast(raw, L); }
      }
    } else {
      TruncDivMonotone(v * 100, 0, L);
      assert TruncDiv(0, L) == 0;
      TruncDivOfNegative(v * 100, L);
    }
  }

  /** Euclidean division brackets its dividend. */
  lemma FloorBracket(a: nat, b: int)
    requires b > 0
    ensures (a / b) * b <= a < (a / b + 1) * b
  {
  }

  lemma SecondsFacts(currentBlock: nat, s: Schedule)
    requires s.perBlock > 0
    ensures var rem, secs := RemainingWithOverflow(currentBlock, s), SecondsUntilFullyVested(currentBlock, s);
      && secs >= 0
      && secs % BlockSeconds == 0
      && (secs / BlockSeconds) * s.perBlock <= rem < (secs / BlockSeconds + 1) * s.perBlock
      && (secs == 0 <==> rem < s.perBlock)
  {
    var rem := RemainingWithOverflow(currentBlock, s);
    TruncDivOfNonNegative(rem, s.perBlock);
    WholeBlocks(rem, s.perBlock);
  }

  /** Seconds for the whole blocks in `rem` at `per` a block. */
  lemma WholeBlocks(rem: nat, per: int)
    requires per > 0
    ensures var secs := (rem / per) * BlockSeconds;
      && secs >= 0
      && secs % BlockSeconds == 0
      && (secs / BlockSeconds) * per <= rem < (secs / BlockSeconds + 1) * per
      && (secs == 0 <==> rem < per)
  {
    var blocks := rem / per;
    FloorBracket(rem, per);
    assert blocks >= 0;
    var secs := blocks * BlockSeconds;
    assert secs / BlockSeconds == blocks && secs % BlockSeconds == 0;
    if blocks >= 1 {
      MulAtLeast(blocks, per);
    }
  }

  /** `getInfo` after the chain queries: the schedule fields arrive as the
      chain's rendered strings and go through `stringtoBigInt` in the
      order locked, perBlock, startingBlock; a malformed field throws before
      any arithmetic. */
  function SnapshotFromChain(
    address: Address, currentBlock: nat, rendered: Option<RenderedSchedule>, freeBalance: nat)
    : (r: Result<Snapshot, JsError>)
    ensures rendered.None? ==> r == ComputeSnapshot(address, currentBlock, None, freeBalance)
    ensures rendered.Some? ==>
              (r == Failure(SyntaxError) <==>
                 || Amounts.ParseAmount(rendered.value.locked).Failure?
                 || Amounts.ParseAmount(rendered.value.perBlock).Failure?
                 || Amounts.ParseAmount(rendered.value.startingBlock).Failure?)
  {
    match rendered
    case None => ComputeSnapshot(address, currentBlock, None, freeBalance)
    case Some(t) =>
      var locked :- Amounts.ParseAmount(t.locked);
      var perBlock :- Amounts.ParseAmount(t.perBlock);
      var startingBlock :- Amounts.ParseAmount(t.startingBlock);
      ComputeSnapshot(address, currentBlock, Some(Schedule(locked, perBlock, startingBlock)), freeBalance)
  }

  /** The chain's grouped rendering of a schedule is read back exactly, so
      computing from the rendered strings is computing from the numbers. */
  lemma SnapshotFromGroupedRendering(address: Address, currentBlock: nat, s: Schedule, freeBalance: nat)
    ensures var t := RenderedSchedule(
              Amounts.GroupThousands(Amounts.Render(s.locked)),
              Amounts.GroupThousands(Amounts.Render(s.perBlock)),
              Amounts.GroupThousands(Amounts.Render(s.startingBlock)));
      SnapshotFromChain(address, currentBlock, Some(t), freeBalance)
        == ComputeSnapshot(address, currentBlock, Some(s), freeBalance)
  {
    Amounts.ParseGrouped(s.locked);
    Amounts.ParseGrouped(s.perBlock);
    Amounts.ParseGrouped(s.startingBlock);
  }

  /** The release never exceeds the locked total, reaches it exactly when
      the uncapped linear release does, and is non-negative from the
      starting block on. */
  lemma VestedCappedAtLocked(address: Address, currentBlock: nat, s: Schedule)
    requires s.locked > 0 && s.perBlock > 0
    ensures var x := ComputeSnapshot(address, currentBlock, Some(s), 0).value;
      && x.vestedAmount <= s.locked
      && (x.vestedAmount == s.locked <==> (currentBlock - s.startingBlock) * s.perBlock >= s.locked)
      && (x.vestedAmount < s.locked ==> x.vestedAmount == (currentBlock - s.startingBlock) * s.perBlock)
      && (currentBlock >= s.startingBlock ==> x.vestedAmount >= 0)
  {
  }

  /** The remainder is never negative and always completes the vested
      amount to the locked total; the clamp that guards against negative
      remainders never changes the value. */
  lemma RemainderCompletesLocked(address: Address, currentBlock: nat, s: Schedule)
    requires s.locked > 0 && s.perBlock > 0
    ensures var x := ComputeSnapshot(address, currentBlock, Some(s), 0).value;
      && x.remainingToBeVested >= 0
      && x.vestedAmount + x.remainingToBeVested == s.locked
      && x.remainingToBeVested == RemainingWithOverflow(currentBlock, s)
  {
  }

  /** Zero locked total makes the computation throw. From the starting
      block on, the percentage is the exact share of the locked total
      rounded down to a whole percent, between 0 and 100, and 100 exactly
      when everything has vested; the cap at 100 never fires. Before the
      starting block the share is negative and is rounded up, toward zero,
      so a deficit of less than 1% still shows 0. */
  lemma PercentageIsShareOfLocked(address: Address, currentBlock: nat, s: Schedule, freeBalance: nat)
    ensures s.locked == 0 ==> ComputeSnapshot(address, currentBlock, Some(s), freeBalance) == Failure(RangeError)
    ensures s.locked > 0 && s.perBlock > 0 && currentBlock >= s.startingBlock ==>
      var x := ComputeSnapshot(address, currentBlock, Some(s), freeBalance).value;
      && 0 <= x.percentageVested <= 100
      && x.percentageVested * s.locked <= x.vestedAmount * 100 < (x.percentageVested + 1) * s.locked
      && (x.percentageVested == 100 <==> x.vestedAmount == s.locked)
      && (x.percentageVested == 0 <==> x.vestedAmount * 100 < s.locked)
    ensures s.locked > 0 && s.perBlock > 0 && currentBlock < s.startingBlock ==>
      var x := ComputeSnapshot(address, currentBlock, Some(s), freeBalance).value;
      && x.percentageVested <= 0
      && (x.percentageVested - 1) * s.locked < x.vestedAmount * 100 <= x.percentageVested * s.locked
  {
    if s.locked > 0 && s.perBlock > 0 {
      ScheduledSnapshot(address, currentBlock, s, freeBalance);
      PercentageFacts(currentBlock, s);
      if currentBlock < s.startingBlock {
        NotYetStartedVestedNegative(currentBlock, s);
      }
    }
  }

  lemma NotYetStartedVestedNegative(currentBlock: nat, s: Schedule)
    requires s.perBlock > 0 && currentBlock < s.startingBlock
    ensures VestedAmount(currentBlock, s) < 0
  {
    assert ElapsedBlocks(currentBlock, s) <= -1;
    assert VestedWithOverflow(currentBlock, s) <= 0 - s.perBlock as int;
  }

  /** The time to completion is six seconds per whole block of release
      still to come: a multiple of the block time, zero exactly when less
      than one block's release remains (in particular when nothing does).
      A zero release rate makes the computation throw. */
  lemma SecondsCountWholeBlocks(address: Address, currentBlock: nat, s: Schedule, freeBalance: nat)
    ensures s.perBlock == 0 ==> ComputeSnapshot(address, currentBlock, Some(s), freeBalance) == Failure(RangeError)
    ensures s.locked > 0 && s.perBlock > 0 ==>
      var x := ComputeSnapshot(address, currentBlock, Some(s), freeBalance).value;
      var blocks := x.secondsUntilFullyVested / BlockSeconds;
      && x.secondsUntilFullyVested == blocks * BlockSeconds
      && blocks * s.perBlock <= x.remainingToBeVested < (blocks + 1) * s.perBlock
      && (x.secondsUntilFullyVested == 0 <==> x.remainingToBeVested < s.perBlock)
  {
    if s.locked > 0 && s.perBlock > 0 {
      ScheduledSnapshot(address, currentBlock, s, freeBalance);
      SecondsFacts(currentBlock, s);
    }
  }

  /** Before the starting block nothing is clamped: the elapsed block count
      is negative, so the vested amount is negative, the remainder exceeds
      the locked total and the percentage is not positive. */
  lemma NotYetStartedGoesNegative(address: Address, currentBlock: nat, s: Schedule)
    requires s.locked > 0 && s.perBlock > 0
    requires currentBlock < s.startingBlock
    ensures var x := ComputeSnapshot(address, currentBlock, Some(s), 0).value;
      && x.vestedAmount < 0
      && x.remainingToBeVested > s.locked
      && x.percentageVested <= 0
  {
    assert ElapsedBlocks(currentBlock, s) <= -1;
    assert VestedWithOverflow(currentBlock, s) <= 0 - s.perBlock as int;
    PercentageFacts(currentBlock, s);
  }

  /** As the chain advances, a snapshot only moves toward full vesting:
      vested and percentage never fall, remaining and time never rise. */
  lemma SnapshotMonotone(address: Address, block1: nat, block2: nat, s: Schedule)
    requires s.locked > 0 && s.perBlock > 0
    requires block1 <= block2
    ensures var x1 := ComputeSnapshot(address, block1, Some(s), 0).value;
      var x2 := ComputeSnapshot(address, block2, Some(s), 0).value;
      && x1.vestedAmount <= x2.vestedAmount
      && x1.remainingToBeVested >= x2.remainingToBeVested
      && x1.percentageVested <= x2.percentageVested
      && x1.secondsUntilFullyVested >= x2.secondsUntilFullyVested
  {
    ScheduledSnapshot(address, block1, s, 0);
    ScheduledSnapshot(address, block2, s, 0);
    VestedMonotone(block1, block2, s);
    var v1, v2 := VestedAmount(block1, s), VestedAmount(block2, s);
    assert v1 * 100 <= v2 * 100;
    TruncDivMonotone(v1 * 100, v2 * 100, s.locked);
    PercentageFacts(block1, s);
    PercentageFacts(block2, s);
    var r1, r2 := RemainingWithOverflow(block1, s), RemainingWithOverflow(block2, s);
    TruncDivMonotone(r2, r1, s.perBlock);
  }

  lemma VestedMonotone(block1: nat, block2: nat, s: Schedule)
    requires block1 <= block2
    ensures VestedAmount(block1, s) <= VestedAmount(block2, s)
  {
    var e1, e2 := ElapsedBlocks(block1, s), ElapsedBlocks(block2, s);
    var d: nat := e2 - e1;
    assert e2 * s.perBlock == e1 * s.perBlock + d * s.perBlock;
  }

  /** A snapshot computed from a usable schedule is built from the named
      intermediate quantities of `getInfo`. */
  lemma ScheduledSnapshot(address: Address, currentBlock: nat, s: Schedule, freeBalance: nat)
    requires s.locked > 0 && s.perBlock > 0
    ensures ComputeSnapshot(address, currentBlock, Some(s), freeBalance) == Success(Snapshot(
              address,
              VestedAmount(currentBlock, s),
              RemainingToBeVested(currentBlock, s),
              PercentageVested(currentBlock, s),
              SecondsUntilFullyVested(currentBlock, s)))
  {
  }

  /** Halfway through a 1000-unit schedule at 10 per block. */
  lemma HalfwayScenario()
    ensures ComputeSnapshot("a", 50, Some(Schedule(1000, 10, 0)), 0)
         == Success(Snapshot("a", 500, 500, 50, 300))
  {
    assert TruncDiv(50000, 1000) == 50 by { TruncDivUnique(50000, 1000, 50); }
    assert TruncDiv(500, 10) == 50 by { TruncDivUnique(500, 10, 50); }
  }

  /** Past the end of the same schedule the release is capped. */
  lemma CappedScenario()
    ensures ComputeSnapshot("a", 200, Some(Schedule(1000, 10, 0)), 0)
         == Success(Snapshot("a", 1000, 0, 100, 0))
  {
    assert TruncDiv(100000, 1000) == 100 by { TruncDivUnique(100000, 1000, 100); }
    assert TruncDiv(0, 10) == 0 by { TruncDivUnique(0, 10, 0); }
  }
}
