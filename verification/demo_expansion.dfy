/** `expandTransactionsForDemo`: a payload of fewer than 120 rows is padded
    to `min(200, max(120, 5 * n))` rows by appending derived copies.  Round
    `i` appends, for each input row in order, a copy whose id gains the
    suffix `-R<i+1>-<index+1>` and whose timestamp moves forward by
    `i * 7 + index + 1` minutes; pushing stops as soon as the target is met.

    The loop as written never ends on an empty payload (nothing is ever
    pushed); `ExpandAsWritten` and `EmptyPayloadNeverFinishes` record
    that, and the method and `ExpandedForDemo` return an empty payload
    unchanged instead. */
module DemoExpansion {
  import opened Types
  import opened JsText
  import opened JsMath

  const DEMO_MIN_ROWS: nat := 120
  const DEMO_MAX_ROWS: nat := 200
  const DEMO_FACTOR: nat := 5
  const MS_PER_MINUTE: int := 60 * 1000

  /** `Math.min(200, Math.max(120, n * 5))`. */
  function DemoTarget(n: nat): nat {
    Min(DEMO_MAX_ROWS, Max(DEMO_MIN_ROWS, n * DEMO_FACTOR))
  }

  /** The copy of `t` pushed in round `round` for input position `index`. */
  function DeriveRow(t: Transaction, round: nat, index: nat): Transaction {
    t.(id := t.id + "-R" + NatToString(round + 1) + "-" + NatToString(index + 1),
       timestamp := t.timestamp + (round * 7 + index + 1) * MS_PER_MINUTE)
  }

  /** `a` equals `b` in every field except `id` and `timestamp`. */
  predicate CopiesExceptIdAndTime(a: Transaction, b: Transaction) {
    a.asset == b.asset && a.txType == b.txType && a.status == b.status && a.amount == b.amount
    && a.counterparty == b.counterparty && a.settlementDate == b.settlementDate
  }

  /** Every row of `r` after the payload copies some payload row in every
      field but `id` and `timestamp`. */
  predicate AppendedRowsCopyPayload(data: seq<Transaction>, r: seq<Transaction>) {
    forall k :: |data| <= k < |r| ==> CopiesSomeRow(r[k], data)
  }

  /** `x` copies some row of `data` in every field but `id` and `timestamp`. */
  predicate CopiesSomeRow(x: Transaction, data: seq<Transaction>) {
    exists j :: 0 <= j < |data| && CopiesExceptIdAndTime(x, data[j])
  }

  /** Everything one full round appends. */
  function Round(data: seq<Transaction>, round: nat): seq<Transaction> {
    seq(|data|, index requires 0 <= index < |data| => DeriveRow(data[index], round, index))
  }

  /** Rounds `0..k-1` one after the other. */
  function Rounds(data: seq<Transaction>, k: nat): (r: seq<Transaction>)
    ensures |r| == k * |data|
  {
    if k == 0 then [] else Rounds(data, k - 1) + Round(data, k - 1)
  }

  /** The rows pushed after `i` complete rounds, cut at the target. */
  function AfterRounds(data: seq<Transaction>, target: nat, i: nat): seq<Transaction> {
    var all := data + Rounds(data, i);
    all[..Min(target, |all|)]
  }

  /** The result of the expansion (with an empty payload left empty): the
      payload followed by the appended rows. */
  function ExpandedForDemo(data: seq<Transaction>): (r: seq<Transaction>)
    ensures |r| >= |data| && r[..|data|] == data
  {
    if |data| >= DEMO_MIN_ROWS || |data| == 0 then data
    else AfterRounds(data, DemoTarget(|data|), DemoTarget(|data|))
  }

  // --------------------------------------------------- the loop as written

  /** The first `k` steps of `data.forEach(...)` in round `i`: push the
      derived row unless the target is already met. */
  function PassPrefix(data: seq<Transaction>, k: nat, expanded: seq<Transaction>, target: nat, i: nat): seq<Transaction>
    requires k <= |data|
  {
    if k == 0 then expanded
    else
      var e := PassPrefix(data, k - 1, expanded, target, i);
      if |e| >= target then e else e + [DeriveRow(data[k - 1], i, k - 1)]
  }

  /** One iteration of the `for` body. */
  function ForEachPass(data: seq<Transaction>, expanded: seq<Transaction>, target: nat, i: nat): seq<Transaction> {
    PassPrefix(data, |data|, expanded, target, i)
  }

  /** The `for` loop as written, allowed at most `fuel` iterations:
      `None` while it is still looping. */
  function ExpandLoop(data: seq<Transaction>, expanded: seq<Transaction>, target: nat, i: nat, fuel: nat): (r: Option<seq<Transaction>>)
    ensures r.Some? ==> |r.value| >= target
    decreases fuel
  {
    if |expanded| >= target then Some(expanded)
    else if fuel == 0 then None
    else ExpandLoop(data, ForEachPass(data, expanded, target, i), target, i + 1, fuel - 1)
  }

  /** `expandTransactionsForDemo` exactly as written, with a bound on the
      number of loop iterations. */
  function ExpandAsWritten(data: seq<Transaction>, fuel: nat): (r: Option<seq<Transaction>>)
    ensures |data| < DEMO_MIN_ROWS && r.Some? ==> |r.value| >= DemoTarget(|data|)
  {
    if |data| >= DEMO_MIN_ROWS then Some(data)
    else ExpandLoop(data, data, DemoTarget(|data|), 0, fuel)
  }

  // ------------------------------------------------------------ the method

  /** The expansion, with the nested loop of the source; an empty payload
      is returned as it is instead of looping forever. */
  method ExpandTransactionsForDemo(data: seq<Transaction>) returns (expanded: seq<Transaction>)
    ensures expanded == ExpandedForDemo(data)
  {
    if |data| >= DEMO_MIN_ROWS || |data| == 0 {
      return data;
    }
    var target := DemoTarget(|data|);
    expanded := data;
    var i: nat := 0;
    while |expanded| < target
      invariant i <= target
      invariant expanded == AfterRounds(data, target, i)
      decreases target - |expanded|
    {
      expanded := PushRound(data, expanded, target, i);
      RoundStep(data, target, i);
      AfterRoundsGrows(data, target, i);
      i := i + 1;
    }
    AfterEnoughRounds(data, target, i);
  }

  /** `data.forEach(...)` in round `i`: push the derived copy of each row
      in turn, as long as the target is not met. */
  method PushRound(data: seq<Transaction>, expanded: seq<Transaction>, target: nat, i: nat)
    returns (grown: seq<Transaction>)
    ensures grown == ForEachPass(data, expanded, target, i)
  {
    grown := expanded;
    var index := 0;
    while index < |data|
      invariant 0 <= index <= |data|
      invariant grown == PassPrefix(data, index, expanded, target, i)
    {
      if |grown| < target {
        grown := grown + [DeriveRow(data[index], i, index)];
      }
      index := index + 1;
    }
  }

  // ---------------------------------------------------------------- lemmas

  /** Rounds are only ever appended. */
  lemma {:induction false} RoundsPrefix(data: seq<Transaction>, i: nat, j: nat)
    requires i <= j
    ensures Rounds(data, j)[..|Rounds(data, i)|] == Rounds(data, i)
  {
    if i < j {
      RoundsPrefix(data, i, j - 1);
      MulMonotone(i, j - 1, |data|);
    }
  }

  /** Round `round` puts the copy of input row `index` at position
      `round * n + index` of the appended rows. */
  lemma {:induction false} RoundsAt(data: seq<Transaction>, k: nat, round: nat, index: nat)
    requires round < k && index < |data|
    ensures round * |data| + index < |Rounds(data, k)|
    ensures Rounds(data, k)[round * |data| + index] == DeriveRow(data[index], round, index)
  {
    MulMonotone(round, k - 1, |data|);
    if round < k - 1 {
      RoundsAt(data, k - 1, round, index);
    }
  }

  /** One pass of `forEach` started at the state after `i` rounds leaves
      the state after `i + 1` rounds. */
  lemma {:induction false} PassPrefixAfterRounds(data: seq<Transaction>, target: nat, i: nat, k: nat)
    requires k <= |data|
    ensures var all := data + Rounds(data, i) + Round(data, i)[..k];
            PassPrefix(data, k, AfterRounds(data, target, i), target, i) == all[..Min(target, |all|)]
  {
    var base := data + Rounds(data, i);
    if k == 0 {
      assert base + Round(data, i)[..0] == base;
    } else {
      PassPrefixAfterRounds(data, target, i, k - 1);
      var prev := base + Round(data, i)[..k - 1];
      var all := base + Round(data, i)[..k];
      assert all == prev + [DeriveRow(data[k - 1], i, k - 1)];
      if |prev| >= target {
        assert all[..target] == prev[..target];
      }
    }
  }

  lemma RoundStep(data: seq<Transaction>, target: nat, i: nat)
    ensures ForEachPass(data, AfterRounds(data, target, i), target, i) == AfterRounds(data, target, i + 1)
  {
    PassPrefixAfterRounds(data, target, i, |data|);
    assert Round(data, i)[..|data|] == Round(data, i);
    assert data + Rounds(data, i) + Round(data, i) == data + Rounds(data, i + 1);
  }

  /** A round that starts below the target pushes at least one row, and
      the target is met after at most `target` rounds. */
  lemma AfterRoundsGrows(data: seq<Transaction>, target: nat, i: nat)
    requires 0 < |data| && i <= target && |AfterRounds(data, target, i)| < target
    ensures |AfterRounds(data, target, i)| < |AfterRounds(data, target, i + 1)|
    ensures i + 1 <= target
  {
    MulMonotone(1, |data|, i);
    assert |Rounds(data, i + 1)| == |Rounds(data, i)| + |data|;
  }

  lemma PrefixesAgree<T>(a: seq<T>, b: seq<T>, t: nat)
    requires |a| <= |b| && a == b[..|a|] && t <= |a|
    ensures a[..t] == b[..t]
  {
  }

  /** Once the target is reached, further rounds change nothing. */
  lemma AfterEnoughRounds(data: seq<Transaction>, target: nat, i: nat)
    requires 0 < |data| < DEMO_MIN_ROWS && target == DemoTarget(|data|)
    requires i <= target && |AfterRounds(data, target, i)| >= target
    ensures AfterRounds(data, target, i) == ExpandedForDemo(data)
  {
    var ri, rt := Rounds(data, i), Rounds(data, target);
    RoundsPrefix(data, i, target);
    MulMonotone(i, target, |data|);
    MulMonotone(1, |data|, target);
    assert |ri| <= |rt|;
    var a, b := data + ri, data + rt;
    assert |a| >= target;
    assert |b| >= target;
    assert a == b[..|a|] by {
      assert rt[..|ri|] == ri;
    }
    PrefixesAgree(a, b, target);
    assert AfterRounds(data, target, i) == a[..target];
    assert ExpandedForDemo(data) == b[..target];
  }

  /** Every appended row is a derived copy of some payload row. */
  lemma {:induction false} RoundsAreCopies(data: seq<Transaction>, k: nat, x: Transaction)
    requires x in Rounds(data, k)
    ensures CopiesSomeRow(x, data)
  {
    if k > 0 {
      if x in Rounds(data, k - 1) {
        RoundsAreCopies(data, k - 1, x);
      } else {
        assert x in Round(data, k - 1);
        var index :| 0 <= index < |data| && Round(data, k - 1)[index] == x;
        assert CopiesExceptIdAndTime(x, data[index]);
      }
    }
  }

  /** The layout of the expanded payload of a short non-empty payload:
      the payload, then the rounds, cut at `DemoTarget(n)`. */
  lemma ExpandedForDemoLayout(data: seq<Transaction>)
    requires 0 < |data| < DEMO_MIN_ROWS
    ensures |ExpandedForDemo(data)| == DemoTarget(|data|)
    ensures ExpandedForDemo(data)[..|data|] == data
    ensures forall k :: |data| <= k < DemoTarget(|data|) ==>
              k - |data| < |Rounds(data, DemoTarget(|data|))|
              && ExpandedForDemo(data)[k] == Rounds(data, DemoTarget(|data|))[k - |data|]
  {
    var target := DemoTarget(|data|);
    var rounds := Rounds(data, target);
    MulMonotone(1, |data|, target);
    assert |rounds| == target * |data|;
    assert |data + rounds| >= target;
    assert ExpandedForDemo(data) == (data + rounds)[..target];
  }

  /** Every row after the payload copies a payload row. */
  lemma AppendedRowsAreCopies(data: seq<Transaction>)
    requires 0 < |data| < DEMO_MIN_ROWS
    ensures AppendedRowsCopyPayload(data, ExpandedForDemo(data))
  {
    var target := DemoTarget(|data|);
    var r := ExpandedForDemo(data);
    ExpandedForDemoLayout(data);
    forall k | |data| <= k < |r|
      ensures CopiesSomeRow(r[k], data)
    {
      RoundsAreCopies(data, target, Rounds(data, target)[k - |data|]);
    }
  }

  /** The result's shape: a payload of 120 or more rows (or none) is kept;
      a shorter non-empty one grows to exactly `min(200, max(120, 5n))`
      rows, begins with the payload, and every appended row copies a
      payload row in every field but `id` and `timestamp`. */
  lemma ExpandedForDemoShape(data: seq<Transaction>)
    ensures |data| >= DEMO_MIN_ROWS || |data| == 0 ==> ExpandedForDemo(data) == data
    ensures 0 < |data| < DEMO_MIN_ROWS ==>
              |ExpandedForDemo(data)| == Min(200, Max(120, 5 * |data|))
              && ExpandedForDemo(data)[..|data|] == data
              && AppendedRowsCopyPayload(data, ExpandedForDemo(data))
  {
    if 0 < |data| < DEMO_MIN_ROWS {
      ExpandedForDemoLayout(data);
      AppendedRowsAreCopies(data);
    }
  }

  /** Position `n + round * n + index` of the result holds the copy of
      payload row `index` made in round `round`. */
  lemma ExpandedForDemoRow(data: seq<Transaction>, round: nat, index: nat)
    requires 0 < |data| < DEMO_MIN_ROWS && index < |data|
    requires |data| + round * |data| + index < DemoTarget(|data|)
    ensures |ExpandedForDemo(data)| == DemoTarget(|data|)
    ensures ExpandedForDemo(data)[|data| + round * |data| + index] == DeriveRow(data[index], round, index)
  {
    var n, target := |data|, DemoTarget(|data|);
    var m := round * n + index;
    assert round < target by {
      MulMonotone(1, n, round);
    }
    RoundsAt(data, target, round, index);
    var rounds := Rounds(data, target);
    assert ExpandedForDemo(data) == (data + rounds)[..target] by {
      MulMonotone(1, n, target);
    }
    CutAppendAt(data, rounds, target, m);
  }

  /** Cutting `a + b` at `t` keeps position `|a| + m` of the join. */
  lemma CutAppendAt<T>(a: seq<T>, b: seq<T>, t: nat, m: nat)
    requires |a| + m < t <= |a| + |b|
    ensures (a + b)[..t][|a| + m] == b[m]
  {
  }

  /** On an empty payload the loop as written never finishes, however
      many iterations it is given: no pass pushes anything, so the length
      stays 0 while the target stays 120. */
  lemma {:induction false} EmptyPayloadNeverFinishes(fuel: nat)
    ensures ExpandAsWritten([], fuel) == None
  {
    EmptyLoopSpins(0, fuel);
  }

  lemma {:induction false} EmptyLoopSpins(i: nat, fuel: nat)
    ensures ExpandLoop([], [], DemoTarget(0), i, fuel) == None
    decreases fuel
  {
    if fuel > 0 {
      assert ForEachPass([], [], DemoTarget(0), i) == [];
      EmptyLoopSpins(i + 1, fuel - 1);
    }
  }

  /** On a non-empty payload the loop as written finishes within
      `DemoTarget(n)` iterations, with the result the corrected
      expansion gives. */
  lemma ExpandAsWrittenAgrees(data: seq<Transaction>)
    requires |data| > 0
    ensures ExpandAsWritten(data, DemoTarget(|data|)) == Some(ExpandedForDemo(data))
  {
    if |data| < DEMO_MIN_ROWS {
      var target := DemoTarget(|data|);
      assert AfterRounds(data, target, 0) == data;
      ExpandLoopFinishes(data, target, 0, target);
    }
  }

  lemma {:induction false} ExpandLoopFinishes(data: seq<Transaction>, target: nat, i: nat, fuel: nat)
    requires 0 < |data| < DEMO_MIN_ROWS && target == DemoTarget(|data|)
    requires i <= target && i + fuel >= target
    ensures ExpandLoop(data, AfterRounds(data, target, i), target, i, fuel) == Some(ExpandedForDemo(data))
    decreases fuel
  {
    var e := AfterRounds(data, target, i);
    if |e| >= target {
      AfterEnoughRounds(data, target, i);
    } else {
      MulMonotone(1, |data|, i);
      RoundStep(data, target, i);
      ExpandLoopFinishes(data, target, i + 1, fuel - 1);
    }
  }
}
