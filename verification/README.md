# Polkadot vesting calculator — a Dafny model

The calculator reports, for a list of Polkadot accounts, how much of each
account's vesting grant has been released under a linear per-block schedule,
how much is still locked, the percentage released and the time left until the
grant is fully vested; it then sorts the accounts by progress and prints two
totals. This project models the pure arithmetic and aggregation of
`index.js` and proves properties of it:

- `Amounts` — `stringtoBigInt` (delete `,` group separators, then
  `BigInt(...)`) and `formatAmount` (BigInt division by `10^DECIMALS`,
  `DECIMALS = 10`).
- `JsBigInt` — the JavaScript exceptions that can be thrown (`SyntaxError`,
  `RangeError`) and BigInt `/`, which truncates toward zero.
- `Vesting` — the arithmetic of `getInfo`: an account with no vesting record
  is fully liquid; otherwise elapsed blocks × rate, capped at `locked`, the
  remainder clamped at 0, the percentage capped at 100, and the time to
  completion at 6 seconds per block. Unbounded `int` is used as BigInt is;
  elapsed blocks are negative before the starting block and, as in the code,
  nothing clamps them.
- `Report` — `Promise.all` over the per-account computations (as an
  all-or-nothing map in account order), `Array.prototype.sort` with the
  descending-percentage comparator (stable, as required since ES2019, modelled
  by an insertion sort), and the two totals accumulated in `main`.
- `Wrappers` — `Option` and `Result`; a thrown exception is a `Failure`.

Inputs that come from the chain (block height, the first vesting schedule,
the free balance) are plain parameters; each `getInfo` call reads the block
height itself, so each `AccountQuery` carries its own.

Behaviour of the code that a reader might not expect, modelled as written:

- `locked == 0` and `perBlock == 0` are not special-cased: the divisions at
  index.js:57 and index.js:62 throw `RangeError`, so the snapshot is a
  `Failure(RangeError)` (not "100%" or a sentinel time).
- `percentageVested` is truncated, so it is 0 whenever less than 1% has
  vested, not only when nothing has.
- An account without a schedule and with zero free balance has nothing
  remaining and 0%, so "nothing remaining" does not imply 100%.
- Before the starting block the vested amount is negative, the percentage
  is not positive (truncation toward zero shows 0 for a deficit of less
  than 1%), and the remainder exceeds `locked`.
- A failing account aborts the whole report (`Promise.all` rejects).
- The block height is read once per account, not once per run.

## Model

The intermediate functions of `getInfo` (`Vesting.RemainingToBeVested`,
`Vesting.PercentageWithOverflow`, `Vesting.PercentageVested`,
`Vesting.SecondsUntilFullyVested`) and the sort comparator `Report.Compare`
carry no contract of their own; their behaviour is stated by the rows for
`Vesting.ComputeSnapshot`, `Vesting.RemainderCompletesLocked`,
`Vesting.PercentageIsShareOfLocked`, `Vesting.SecondsCountWholeBlocks` and
`Report.CompareIsDescendingOrder`.

| member | source | states |
|---|---|---|
| `JsBigInt.TruncDiv` | index.js:57 | BigInt `/`: the remainder is smaller than the divisor in magnitude and has the dividend's sign |
| `JsBigInt.TruncDivUnique` | index.js:57 | any quotient meeting that remainder condition is the truncated quotient, so the condition characterises BigInt `/` |
| `JsBigInt.TruncDivNegate` | index.js:22 | truncating division is symmetric about zero, unlike floor division |
| `JsBigInt.TruncDivOfNegative` | index.js:57 | a negative dividend over a positive divisor is rounded up, toward zero: `(q−1)·b < a <= q·b` |
| `JsBigInt.TruncDivMonotone` | index.js:62 | division by a positive divisor preserves order for dividends of any sign |
| `Amounts.StripCommas` | index.js:11 | the result holds no comma and exactly the non-comma characters of the input, with the same multiplicities |
| `Amounts.StripCommasAppend` | index.js:11 | deleting separators distributes over concatenation, so the order of the remaining characters is kept |
| `Amounts.DecimalValue` | index.js:12 | a run of `n` decimal digits is worth less than `10^n` |
| `Amounts.ParseAmount` | index.js:10-13 | `stringtoBigInt` succeeds exactly when every character is a digit or a comma, and otherwise throws `SyntaxError` |
| `Amounts.DecimalValueOfRender` | index.js:12 | reading back a number's decimal rendering gives the number |
| `Amounts.ParseRendered` | index.js:10-13 | `stringtoBigInt` inverts the plain decimal rendering of every natural number |
| `Amounts.StripGrouped` | index.js:11 | deleting separators undoes thousands grouping of a comma-free digit string |
| `Amounts.ParseGrouped` | index.js:10-13 | `stringtoBigInt` inverts the chain's grouped rendering ("1,000,000") of every natural number |
| `Amounts.CommaInsensitive` | index.js:11-12 | inserting a comma anywhere changes neither the parsed value nor whether parsing succeeds |
| `Amounts.FormatAmount` | index.js:21-23 | a non-negative amount `n` displays as `q` with `q·10^10 <= n < (q+1)·10^10`; a non-positive one rounds toward zero from below |
| `Amounts.FormatAmountNegate` | index.js:21-23 | negating an amount negates its displayed value |
| `Amounts.DisplayUnit` | index.js:8 | the display unit `10^DECIMALS` is 10,000,000,000 smallest units |
| `Vesting.VestedAmount` | index.js:48-52 | the vested amount never exceeds `locked`, equals it exactly when the uncapped release reaches it, and is non-negative from the starting block |
| `Vesting.RemainingWithOverflow` | index.js:54-56 | the raw remainder is never negative, so the clamp at line 56 never fires |
| `Vesting.ComputeSnapshot` | index.js:29-70 | fails with `RangeError` exactly when a schedule has zero `locked` or zero `perBlock`; without a schedule, vested is the free balance, nothing remains, no time is left, and the percentage is 0 exactly when the balance is 0 and 100 otherwise; every snapshot keeps vested + remaining equal to the account's balance, a non-negative remainder, a percentage of at most 100 that is 0 when nothing vested, and a whole number of 6-second blocks, 0 when nothing remains |
| `Vesting.SnapshotFromChain` | index.js:42-46 | parsing the three rendered schedule fields fails with `SyntaxError` exactly when one of them is malformed |
| `Vesting.SnapshotFromGroupedRendering` | index.js:44-46 | computing from the chain's grouped strings gives the same snapshot as computing from the numbers |
| `Vesting.VestedCappedAtLocked` | index.js:48-52 | vested is at most `locked`, equals it exactly when elapsed × rate reaches `locked`, is elapsed × rate below it, and is non-negative once the starting block is reached |
| `Vesting.RemainderCompletesLocked` | index.js:52-56 | the remainder is non-negative, vested + remaining equals `locked` at every block, and the clamp leaves the raw remainder unchanged |
| `Vesting.PercentageIsShareOfLocked` | index.js:57-60 | zero `locked` throws; otherwise from the starting block the percentage is the released share rounded down to a whole percent, in [0, 100], 100 exactly when all has vested, 0 exactly when less than 1% has; before the starting block it is not positive and is the negative share rounded up toward zero |
| `Vesting.SecondsCountWholeBlocks` | index.js:61-62 | zero `perBlock` throws; otherwise the time is 6 seconds per whole block's release still to come, and 0 exactly when less than one block's release remains |
| `Vesting.NotYetStartedGoesNegative` | index.js:48-60 | before the starting block the vested amount is negative, the remainder exceeds `locked` and the percentage is not positive |
| `Vesting.SnapshotMonotone` | index.js:48-62 | at a later block vested and percentage are no smaller and remaining and time no larger |
| `Vesting.HalfwayScenario` | index.js:44-70 | 1000 locked at 10 per block from block 0, seen at block 50: 500 vested, 500 remaining, 50%, 300 seconds |
| `Vesting.CappedScenario` | index.js:44-70 | the same schedule at block 200: 1000 vested, 0 remaining, 100%, 0 seconds |
| `Report.CollectSnapshots` | index.js:81-82 | succeeds exactly when every account's computation does, then holds each account's snapshot in account order; a failure is `RangeError` |
| `Report.CompareIsDescendingOrder` | index.js:87-91 | the comparator puts higher percentages first, is antisymmetric and ties exactly on equal percentages |
| `Report.SortByProgress` | index.js:87-91 | the sorted report is a permutation of its input, non-increasing in percentage, with equal-percentage entries in input order |
| `Report.StableSortIsUnique` | index.js:87-91 | a sequence is a stable descending sort of the input exactly when it is the model's sort, so any conforming stable sort gives the same order |
| `Report.TiedAccountsKeepInputOrder` | index.js:87-91 | two accounts at 50% given as [B, A] stay [B, A] behind an account at 80% |
| `Report.SumOfReordering` | index.js:92-94 | a total does not depend on the order of the snapshots |
| `Report.Aggregate` | index.js:83-96 | the report's entries are the stable sort of the snapshots; `totalVested` is the sum of vested amounts and `totalDot` the sum of vested + remaining over the input, so the sort does not change them |
| `Report.Run` | index.js:80-100 | the run fails exactly when some account throws; otherwise its entries are the stable descending sort of the accounts' snapshots, `totalVested` is the sum of their vested amounts, `totalDot` is the sum of each account's locked total or free balance, and `totalDot − totalVested` is the sum of the remainders |

## Left out

- Chain connection and queries (`WsProvider`, `ApiPromise.create`, `getHeader`, `vesting.vesting`, `system.account`, index.js:1-3, 26-31): network I/O against a library that is not part of this model; their results are parameters.
- `vestingResponse.toHuman()[0]` (index.js:42): the decoding belongs to that library; the model receives the first schedule's three rendered fields, or the numbers directly.
- `computeDate` (index.js:15-19): reads the wall clock and converts to a floating-point `Date`.
- `printInfo` and the `console.log` lines (index.js:73-78, 97-100): output formatting; only the totals they print are modelled, and `formatAmount` is modelled on its own.
- Concurrency of `Promise.all` (index.js:81-82): the model computes the snapshots in account order; the result order of `Promise.all` is the input order, so nothing observable is lost.
- `dotenv` and `JSON.parse(process.env.ACCOUNTS)` (index.js:4-5, 103): configuration plumbing.
- CSV output: no CSV writer exists in `index.js`.
- Amounts.ParseAmount: text that JavaScript's `BigInt` also accepts — surrounding whitespace, a sign, or a `0x`/`0o`/`0b` prefix — is reported as `SyntaxError`; the chain renders amounts as grouped decimal digits only.
- Report.CollectSnapshots: a failure carries only `RangeError`; chain-query failures are outside the model.
