/** The report assembled by `main`: one snapshot per account (all or
    nothing, as with `Promise.all`), sorted by vesting progress with the
    source's comparator under a stable sort, then totalled. */
module Report {
  import opened Wrappers
  import opened JsBigInt
  import opened Vesting

  /** What one `getInfo` call reads from the chain for one account: the
      block height it saw, the account's first schedule if any, and its
      free balance. Each call reads the block height on its own. */
  datatype AccountQuery = AccountQuery(
    address: Address,
    currentBlock: nat,
    schedule: Option<Schedule>,
    freeBalance: nat)

  /** The sorted snapshots with the two totals `main` prints. */
  datatype AggregateReport = AggregateReport(entries: seq<Snapshot>, totalVested: int, totalDot: int)

  function Query(q: AccountQuery): Result<Snapshot, JsError> {
    ComputeSnapshot(q.address, q.currentBlock, q.schedule, q.freeBalance)
  }

  /** `Promise.all` over the per-account computations: the snapshots in
      account order, or a failure as soon as any account's computation
      throws. */
  function CollectSnapshots(queries: seq<AccountQuery>): (r: Result<seq<Snapshot>, JsError>)
    ensures r.Success? <==> forall i | 0 <= i < |queries| :: Query(queries[i]).Success?
    ensures r.Success? ==> |r.value| == |queries|
    ensures r.Success? ==> forall i | 0 <= i < |queries| :: r.value[i] == Query(queries[i]).value
    ensures r.Failure? ==> r.error == RangeError
  {
    if |queries| == 0 then Success([])
    else
      var first :- Query(queries[0]);
      var rest :- CollectSnapshots(queries[1..]);
      Success([first] + rest)
  }

  /** The comparator handed to `Array.prototype.sort`: negative puts `a`
      first, positive puts `b` first, zero keeps the input order. */
  function Compare(a: Snapshot, b: Snapshot): int {
    if a.percentageVested > b.percentageVested then -1
    else if a.percentageVested < b.percentageVested then 1
    else 0
  }

  /** The comparator is consistent, so the sort's outcome is defined: it
      orders by descending percentage, is antisymmetric, and reports a tie
      exactly for equal percentages. */
  lemma CompareIsDescendingOrder(a: Snapshot, b: Snapshot)
    ensures Compare(a, b) < 0 <==> a.percentageVested > b.percentageVested
    ensures Compare(a, b) == 0 <==> a.percentageVested == b.percentageVested
    ensures Compare(a, b) == -Compare(b, a)
  {
  }

  predicate SortedByProgress(s: seq<Snapshot>) {
    forall i, j | 0 <= i < j < |s| :: s[i].percentageVested >= s[j].percentageVested
  }

  /** The entries with a given percentage, in the order they appear. */
  function WithPercentage(s: seq<Snapshot>, k: int): (r: seq<Snapshot>)
    ensures |r| <= |s|
  {
    if |s| == 0 then []
    else (if s[0].percentageVested == k then [s[0]] else []) + WithPercentage(s[1..], k)
  }

  lemma {:induction false} WithPercentageMembers(s: seq<Snapshot>, k: int, x: Snapshot)
    ensures x in WithPercentage(s, k) <==> x in s && x.percentageVested == k
    decreases |s|
  {
    if |s| > 0 {
      WithPercentageMembers(s[1..], k, x);
      assert s == [s[0]] + s[1..];
    }
  }

  /** `r` is what a stable sort with `Compare` makes of `s`: a reordering
      of it, in non-increasing percentage, in which entries of equal
      percentage keep their relative input order. */
  ghost predicate StableSortOf(r: seq<Snapshot>, s: seq<Snapshot>) {
    && multiset(r) == multiset(s)
    && SortedByProgress(r)
    && forall k :: WithPercentage(r, k) == WithPercentage(s, k)
  }

  /** Insert `x` in front of the first entry it does not sort after. */
  function Insert(x: Snapshot, t: seq<Snapshot>): seq<Snapshot> {
    if |t| == 0 || Compare(x, t[0]) <= 0 then [x] + t
    else [t[0]] + Insert(x, t[1..])
  }

  lemma {:induction false} InsertKeepsEntries(x: Snapshot, t: seq<Snapshot>)
    ensures multiset(Insert(x, t)) == multiset([x] + t)
  {
    if |t| > 0 && Compare(x, t[0]) > 0 {
      InsertKeepsEntries(x, t[1..]);
      assert t == [t[0]] + t[1..];
    }
  }

  lemma {:induction false} InsertKeepsSorted(x: Snapshot, t: seq<Snapshot>)
    requires SortedByProgress(t)
    ensures SortedByProgress(Insert(x, t))
  {
    if |t| > 0 && Compare(x, t[0]) > 0 {
      InsertKeepsSorted(x, t[1..]);
      InsertKeepsEntries(x, t[1..]);
      var r := Insert(x, t[1..]);
      forall y | y in r
        ensures t[0].percentageVested >= y.percentageVested
      {
        assert y in multiset(r);
      }
      assert forall j | 0 < j < |[t[0]] + r| :: ([t[0]] + r)[j] in r;
    }
  }

  /** Inserting `x` ahead of every entry it ties with keeps each run of
      equal percentages in the order of `[x] + t`. */
  lemma {:induction false} InsertKeepsRuns(x: Snapshot, t: seq<Snapshot>, k: int)
    ensures WithPercentage(Insert(x, t), k) == WithPercentage([x] + t, k)
    decreases |t|
  {
    if |t| > 0 && Compare(x, t[0]) > 0 {
      var t0, tail := t[0], t[1..];
      var hx := if x.percentageVested == k then [x] else [];
      var ht := if t0.percentageVested == k then [t0] else [];
      var w := WithPercentage(tail, k);
      calc {
        WithPercentage(Insert(x, t), k);
        WithPercentage([t0] + Insert(x, tail), k);
        { WithPercentageCons(t0, Insert(x, tail), k); }
        ht + WithPercentage(Insert(x, tail), k);
        { InsertKeepsRuns(x, tail, k); }
        ht + WithPercentage([x] + tail, k);
        { WithPercentageCons(x, tail, k); }
        ht + (hx + w);
        { assert hx == [] || ht == []; }
        hx + (ht + w);
        { WithPercentageCons(t0, tail, k); }
        hx + WithPercentage([t0] + tail, k);
        { assert t == [t0] + tail; }
        hx + WithPercentage(t, k);
        { WithPercentageCons(x, t, k); }
        WithPercentage([x] + t, k);
      }
    }
  }

  lemma WithPercentageCons(y: Snapshot, t: seq<Snapshot>, k: int)
    ensures WithPercentage([y] + t, k) == (if y.percentageVested == k then [y] else []) + WithPercentage(t, k)
  {
    var yt := [y] + t;
    assert yt[0] == y && yt[1..] == t;
  }

  /** Array.prototype.sort with `Compare`, which is stable: an insertion
      sort that puts each entry ahead of the later ones it ties with. */
  function SortByProgress(s: seq<Snapshot>): (r: seq<Snapshot>)
    ensures StableSortOf(r, s)
  {
    if |s| == 0 then []
    else
      var t := SortByProgress(s[1..]);
      InsertKeepsEntries(s[0], t);
      InsertKeepsSorted(s[0], t);
      assert s == [s[0]] + s[1..];
      forall k
        ensures WithPercentage(Insert(s[0], t), k) == WithPercentage(s, k)
      {
        InsertKeepsRuns(s[0], t, k);
        var st := [s[0]] + t;
        assert st[0] == s[0] && st[1..] == t;
      }
      Insert(s[0], t)
  }

  /** The stable sort is unique: any sequence that is a stable descending
      sort of `s` is the one `SortByProgress` returns, so the model agrees
      with every conforming `Array.prototype.sort`. */
  lemma StableSortIsUnique(r: seq<Snapshot>, s: seq<Snapshot>)
    ensures StableSortOf(r, s) <==> r == SortByProgress(s)
  {
    if StableSortOf(r, s) {
      var t := SortByProgress(s);
      SortedWithSameRunsAreEqual(r, t);
    }
  }

  lemma {:induction false} SortedWithSameRunsAreEqual(a: seq<Snapshot>, b: seq<Snapshot>)
    requires SortedByProgress(a) && SortedByProgress(b)
    requires forall k :: WithPercentage(a, k) == WithPercentage(b, k)
    ensures a == b
    decreases |a|
  {
    if |a| == 0 || |b| == 0 {
      if |a| > 0 {
        var k := a[0].percentageVested;
        WithPercentageMembers(a, k, a[0]);
      } else if |b| > 0 {
        var k := b[0].percentageVested;
        WithPercentageMembers(b, k, b[0]);
      }
    } else {
      SameLeadingEntry(a, b);
      forall k
        ensures WithPercentage(a[1..], k) == WithPercentage(b[1..], k)
      {
        DropLeadingEntry(a, b, k);
      }
      SortedWithSameRunsAreEqual(a[1..], b[1..]);
      assert a == [a[0]] + a[1..] && b == [b[0]] + b[1..];
    }
  }

  lemma DropLeadingEntry(a: seq<Snapshot>, b: seq<Snapshot>, k: int)
    requires |a| > 0 && |b| > 0 && a[0] == b[0]
    requires WithPercentage(a, k) == WithPercentage(b, k)
    ensures WithPercentage(a[1..], k) == WithPercentage(b[1..], k)
  {
    var h := if a[0].percentageVested == k then [a[0]] else [];
    assert a == [a[0]] + a[1..] && b == [b[0]] + b[1..];
    WithPercentageCons(a[0], a[1..], k);
    WithPercentageCons(b[0], b[1..], k);
    assert h + WithPercentage(a[1..], k) == h + WithPercentage(b[1..], k);
    assert WithPercentage(a[1..], k) == (h + WithPercentage(a[1..], k))[|h|..];
    assert WithPercentage(b[1..], k) == (h + WithPercentage(b[1..], k))[|h|..];
  }

  /** Two sorted sequences with the same runs start with the same entry:
      the first entry of the highest run. */
  lemma SameLeadingEntry(a: seq<Snapshot>, b: seq<Snapshot>)
    requires |a| > 0 && |b| > 0
    requires SortedByProgress(a) && SortedByProgress(b)
    requires forall k :: WithPercentage(a, k) == WithPercentage(b, k)
    ensures a[0] == b[0]
  {
    var ka, kb := a[0].percentageVested, b[0].percentageVested;
    LeaderOccursInOther(a, b, ka);
    LeaderOccursInOther(b, a, kb);
    FirstIsMaximal(b, a[0]);
    FirstIsMaximal(a, b[0]);
    var wa, wb := WithPercentage(a, ka), WithPercentage(b, ka);
    assert wa == wb;
    WithPercentageCons(a[0], a[1..], ka);
    WithPercentageCons(b[0], b[1..], ka);
    assert a == [a[0]] + a[1..] && b == [b[0]] + b[1..];
    assert wa[0] == a[0] && wb[0] == b[0];
  }

  lemma LeaderOccursInOther(a: seq<Snapshot>, b: seq<Snapshot>, k: int)
    requires |a| > 0 && k == a[0].percentageVested
    requires WithPercentage(a, k) == WithPercentage(b, k)
    ensures a[0] in b
  {
    WithPercentageMembers(a, k, a[0]);
    WithPercentageMembers(b, k, a[0]);
  }

  lemma FirstIsMaximal(b: seq<Snapshot>, y: Snapshot)
    requires SortedByProgress(b) && y in b
    ensures b[0].percentageVested >= y.percentageVested
  {
    var i :| 0 <= i < |b| && b[i] == y;
    if i > 0 {
      assert b[0].percentageVested >= b[i].percentageVested;
    }
  }

  /** Two accounts at the same percentage, given as [b, a], stay [b, a]
      behind an account that is further along. */
  lemma TiedAccountsKeepInputOrder(a: Snapshot, b: Snapshot, c: Snapshot)
    requires a.percentageVested == 50 && b.percentageVested == 50 && c.percentageVested == 80
    ensures SortByProgress([b, a, c]) == [c, b, a]
  {
    assert [c][1..] == [];
    assert SortByProgress([c]) == [c] by {
      assert SortByProgress([c]) == Insert(c, SortByProgress([]));
    }
    assert SortByProgress([a, c]) == [c, a] by {
      assert [a, c][1..] == [c];
      assert SortByProgress([a, c]) == Insert(a, [c]);
      assert Insert(a, [c]) == [c] + Insert(a, []);
    }
    assert SortByProgress([b, a, c]) == [c, b, a] by {
      assert [b, a, c][1..] == [a, c];
      assert SortByProgress([b, a, c]) == Insert(b, [c, a]);
      assert [c, a][1..] == [a];
      assert Insert(b, [c, a]) == [c] + Insert(b, [a]);
      assert Insert(b, [a]) == [b, a];
    }
  }

  function VestedOf(x: Snapshot): int {
    x.vestedAmount
  }

  /** Vested plus still locked: the account's whole relevant balance. */
  function HeldOf(x: Snapshot): int {
    x.vestedAmount + x.remainingToBeVested
  }

  /** The sum of one quantity over a sequence of snapshots. */
  function Sum(s: seq<Snapshot>, amount: Snapshot -> int): int {
    if |s| == 0 then 0 else amount(s[0]) + Sum(s[1..], amount)
  }

  lemma {:induction false} SumAppend(a: seq<Snapshot>, b: seq<Snapshot>, amount: Snapshot -> int)
    ensures Sum(a + b, amount) == Sum(a, amount) + Sum(b, amount)
    decreases |a|
  {
    if |a| == 0 {
      assert a + b == b;
    } else {
      assert (a + b)[1..] == a[1..] + b;
      SumAppend(a[1..], b, amount);
    }
  }

  /** Totals do not depend on the order of the snapshots. */
  lemma {:induction false} SumOfReordering(a: seq<Snapshot>, b: seq<Snapshot>, amount: Snapshot -> int)
    requires multiset(a) == multiset(b)
    ensures Sum(a, amount) == Sum(b, amount)
    decreases |a|
  {
    if |a| > 0 {
      assert a[0] in multiset(b);
      var i :| 0 <= i < |b| && b[i] == a[0];
      var rest := b[..i] + b[i + 1..];
      RemoveMatching(a, b, i);
      SumOfReordering(a[1..], rest, amount);
      SumWithout(b, i, amount);
    } else {
      assert |b| == |multiset(b)|;
    }
  }

  lemma RemoveMatching(a: seq<Snapshot>, b: seq<Snapshot>, i: nat)
    requires multiset(a) == multiset(b)
    requires |a| > 0 && i < |b| && b[i] == a[0]
    ensures multiset(a[1..]) == multiset(b[..i] + b[i + 1..])
  {
    var left, right := b[..i], b[i + 1..];
    assert b == left + [b[i]] + right;
    assert multiset(b) == multiset(left) + multiset([b[i]]) + multiset(right);
    assert multiset(left + right) == multiset(left) + multiset(right);
    assert a == [a[0]] + a[1..];
    assert multiset(a) == multiset([a[0]]) + multiset(a[1..]);
    assert multiset(a[1..]) == multiset(a) - multiset{a[0]};
    assert multiset(left + right) == multiset(b) - multiset{b[i]};
  }

  lemma SumWithout(b: seq<Snapshot>, i: nat, amount: Snapshot -> int)
    requires i < |b|
    ensures Sum(b, amount) == amount(b[i]) + Sum(b[..i] + b[i + 1..], amount)
  {
    var left, right := b[..i], b[i + 1..];
    assert b == left + [b[i]] + right;
    SumAppend(left + [b[i]], right, amount);
    SumAppend(left, [b[i]], amount);
    SumAppend(left, right, amount);
    assert Sum([b[i]], amount) == amount(b[i]);
  }

  /** The body of `main` after collection: sort, then accumulate both
      totals over the sorted entries. The totals are those of the input,
      whatever its order. */
  method Aggregate(acctData: seq<Snapshot>) returns (report: AggregateReport)
    ensures StableSortOf(report.entries, acctData)
    ensures report.totalVested == Sum(acctData, VestedOf)
    ensures report.totalDot == Sum(acctData, HeldOf)
  {
    var sorted := SortByProgress(acctData);
    var totalVested, totalDot := 0, 0;
    var i := 0;
    while i < |sorted|
      invariant 0 <= i <= |sorted|
      invariant totalVested == Sum(sorted[..i], VestedOf)
      invariant totalDot == Sum(sorted[..i], HeldOf)
    {
      assert sorted[..i + 1] == sorted[..i] + [sorted[i]];
      SumAppend(sorted[..i], [sorted[i]], VestedOf);
      SumAppend(sorted[..i], [sorted[i]], HeldOf);
      totalVested := totalVested + sorted[i].vestedAmount;
      totalDot := totalDot + sorted[i].vestedAmount + sorted[i].remainingToBeVested;
      i := i + 1;
    }
    assert sorted[..i] == sorted;
    SumOfReordering(sorted, acctData, VestedOf);
    SumOfReordering(sorted, acctData, HeldOf);
    report := AggregateReport(sorted, totalVested, totalDot);
  }

  /** `main` from the collected chain reads to the printed totals: fails
      exactly when some account's computation throws; otherwise the report
      holds every account's snapshot, stably sorted, and totals in which
      `totalDot` is the sum of every account's relevant balance. */
  method Run(queries: seq<AccountQuery>) returns (r: Result<AggregateReport, JsError>)
    ensures r.Success? <==> forall i | 0 <= i < |queries| :: Query(queries[i]).Success?
    ensures r.Failure? ==> r.error == RangeError
    ensures r.Success? ==> |r.value.entries| == |queries|
    ensures r.Success? ==> CollectSnapshots(queries).Success?
                             && StableSortOf(r.value.entries, CollectSnapshots(queries).value)
    ensures r.Success? ==> r.value.totalVested == Sum(CollectSnapshots(queries).value, VestedOf)
    ensures r.Success? ==> r.value.totalDot == SumOfBalances(queries)
    ensures r.Success? ==> r.value.totalDot - r.value.totalVested
                             == Sum(r.value.entries, (x: Snapshot) => x.remainingToBeVested)
  {
    var collected := CollectSnapshots(queries);
    if collected.Failure? {
      return Failure(collected.error);
    }
    var report := Aggregate(collected.value);
    BalancesAdd(queries, collected.value);
    assert |multiset(report.entries)| == |multiset(collected.value)|;
    RemainingIsDifference(report.entries);
    SumOfReordering(report.entries, collected.value, HeldOf);
    SumOfReordering(report.entries, collected.value, VestedOf);
    r := Success(report);
  }

  /** Each account's relevant balance: its locked total, or its free
      balance when it has no schedule. */
  function SumOfBalances(queries: seq<AccountQuery>): int {
    if |queries| == 0 then 0
    else Balance(queries[0].schedule, queries[0].freeBalance) + SumOfBalances(queries[1..])
  }

  lemma {:induction false} BalancesAdd(queries: seq<AccountQuery>, snapshots: seq<Snapshot>)
    requires |snapshots| == |queries|
    requires forall i | 0 <= i < |queries| :: Query(queries[i]).Success? && snapshots[i] == Query(queries[i]).value
    ensures Sum(snapshots, HeldOf) == SumOfBalances(queries)
    decreases |queries|
  {
    if |queries| > 0 {
      assert Query(queries[0]).Success?;
      BalancesAdd(queries[1..], snapshots[1..]);
    }
  }

  lemma {:induction false} RemainingIsDifference(s: seq<Snapshot>)
    ensures Sum(s, HeldOf) - Sum(s, VestedOf) == Sum(s, (x: Snapshot) => x.remainingToBeVested)
    decreases |s|
  {
    if |s| > 0 {
      RemainingIsDifference(s[1..]);
    }
  }
}
