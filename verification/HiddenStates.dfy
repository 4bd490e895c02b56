/**
  `HiddenStates`: rows of a tensor kept aligned with a list of sequence ids while batches are
  appended and pruned, and the expansion for sequences with bonus tokens. `Row` is one tensor row.
 */
module HiddenStates {
  import opened Wrappers
  import opened OrderedKeys

  function IndexOf(ids: seq<int>, id: int): (i: nat)
    requires id in ids
    ensures i < |ids| && ids[i] == id && id !in ids[..i]
  {
    if ids[0] == id then 0
    else
      var i := IndexOf(ids[1..], id);
      assert ids[..i + 1] == [ids[0]] + ids[1..][..i];
      i + 1
  }

  /** `tensor[index]`. */
  function Gather<Row>(rows: seq<Row>, index: seq<nat>): (r: seq<Row>)
    requires forall k :: 0 <= k < |index| ==> index[k] < |rows|
    ensures |r| == |index| && forall k :: 0 <= k < |index| ==> r[k] == rows[index[k]]
  {
    seq(|index|, k requires 0 <= k < |index| => rows[index[k]])
  }

  function Flatten(groups: seq<seq<int>>): (r: seq<int>) {
    if groups == [] then [] else groups[0] + Flatten(groups[1..])
  }

  /** With one sequence per group there are as many ids as groups, in the same order. */
  lemma {:induction false} FlattenSingletons(groups: seq<seq<int>>)
    requires forall k :: 0 <= k < |groups| ==> |groups[k]| == 1
    ensures |Flatten(groups)| == |groups| && forall k :: 0 <= k < |groups| ==> Flatten(groups)[k] == groups[k][0]
  {
    if groups != [] {
      FlattenSingletons(groups[1..]);
    }
  }

  /** The ids of the groups are listed group after group. */
  lemma {:induction false} FlattenConcat(a: seq<seq<int>>, b: seq<seq<int>>)
    ensures Flatten(a + b) == Flatten(a) + Flatten(b)
    ensures forall g :: Flatten([g]) == g
  {
    assert forall g: seq<int> :: [g][1..] == [] && g + [] == g;
    if a == [] {
      assert a + b == b;
    } else {
      assert (a + b)[1..] == a[1..] + b;
      FlattenConcat(a[1..], b);
    }
  }

  datatype State<Row> = State(ids: seq<int>, hidden: seq<Row>, second: Option<seq<Row>>)

  /** Row `i` of every tensor belongs to `ids[i]`. */
  ghost predicate Aligned<Row>(s: State<Row>) {
    Distinct(s.ids) && |s.hidden| == |s.ids| && (s.second.Some? ==> |s.second.value| == |s.ids|)
  }

  function Update<Row>(s: State<Row>, ids: seq<int>, hidden: seq<Row>, second: Option<seq<Row>>, zero: Row): (r: State<Row>) {
    State(s.ids + ids, s.hidden + hidden,
          if s.second.None? then None
          else Some(s.second.value + if second.Some? then second.value else seq(|hidden|, _ => zero)))
  }

  /** The positions of `ids` among `from`. */
  function Positions(from: seq<int>, ids: seq<int>): (r: seq<nat>)
    requires forall k :: 0 <= k < |ids| ==> ids[k] in from
    ensures |r| == |ids| && forall k :: 0 <= k < |ids| ==> r[k] == IndexOf(from, ids[k])
  {
    seq(|ids|, k requires 0 <= k < |ids| => IndexOf(from, ids[k]))
  }

  function Prune<Row>(s: State<Row>, ids: seq<int>): (r: State<Row>)
    requires |s.hidden| == |s.ids| && (s.second.Some? ==> |s.second.value| == |s.ids|)
    requires forall k :: 0 <= k < |ids| ==> ids[k] in s.ids
  {
    if ids == s.ids then s
    else
      var index := Positions(s.ids, ids);
      State(ids, Gather(s.hidden, index), if s.second.None? then None else Some(Gather(s.second.value, index)))
  }

  class HiddenStates<Row> {
    const zero: Row
    var seqIds: seq<int>
    var hidden: seq<Row>
    var second: Option<seq<Row>>

    ghost function View(): State<Row>
      reads this
    {
      State(seqIds, hidden, second)
    }

    constructor (hidden: seq<Row>, groups: seq<seq<int>>, second: Option<seq<Row>>, zero: Row)
      requires |groups| == |hidden|
      ensures View() == State(Flatten(groups), hidden, second) && this.zero == zero
    {
      this.zero := zero;
      seqIds := Flatten(groups);
      this.hidden := hidden;
      this.second := second;
    }

    /** `update`; false stands for the failed assertion on the number of groups. */
    method UpdateRows(newHidden: seq<Row>, groups: seq<seq<int>>, newSecond: Option<seq<Row>>) returns (ok: bool)
      modifies this
      ensures ok <==> |groups| == |newHidden|
      ensures View() == if ok then Update(old(View()), Flatten(groups), newHidden, newSecond, zero) else old(View())
    {
      if |groups| != |newHidden| {
        return false;
      }
      seqIds := seqIds + Flatten(groups);
      hidden := hidden + newHidden;
      if second.Some? {
        second := Some(second.value + if newSecond.None? then seq(|newHidden|, _ => zero) else newSecond.value);
      }
      return true;
    }

    /** `prune`; false stands for the ValueError of an id that is not present. */
    method PruneTo(groups: seq<seq<int>>) returns (ok: bool)
      requires |hidden| == |seqIds| && (second.Some? ==> |second.value| == |seqIds|)
      modifies this
      ensures ok <==> forall k :: 0 <= k < |Flatten(groups)| ==> Flatten(groups)[k] in old(seqIds)
      ensures View() == if ok then Prune(old(View()), Flatten(groups)) else old(View())
    {
      var ids := Flatten(groups);
      ok := true;
      if ids != seqIds {
        var index: seq<nat> := [];
        for k := 0 to |ids|
          invariant unchanged(this)
          invariant |index| == k
          invariant forall j :: 0 <= j < k ==> ids[j] in seqIds && index[j] == IndexOf(seqIds, ids[j])
        {
          if ids[k] !in seqIds {
            return false;
          }
          index := index + [IndexOf(seqIds, ids[k])];
        }
        assert index == Positions(seqIds, ids);
        hidden := Gather(hidden, index);
        if second.Some? {
          second := Some(Gather(second.value, index));
        }
        seqIds := ids;
      }
    }

    /**
      `expand_with_bonus_tokens`: in id order, the second-last row then the last row for an id with
      a bonus token, only the last row otherwise.
     */
    method ExpandWithBonusTokens(bonus: set<int>)
      requires Aligned(View())
      modifies this`hidden
      ensures second.None? || bonus == {} ==> hidden == old(hidden)
      ensures second.Some? && bonus != {} ==> hidden == Expanded(old(View()), bonus, |seqIds|)
      ensures second.Some? && bonus != {} ==> ExpandedRows(old(View()), bonus, |seqIds|, hidden)
    {
      if second.None? || bonus == {} {
        return;
      }
      var index: seq<nat> := [];
      ghost var all := hidden + second.value;
      for k := 0 to |seqIds|
        invariant hidden == old(hidden)
        invariant forall j :: 0 <= j < |index| ==> index[j] < |all|
        invariant Gather(all, index) == Expanded(old(View()), bonus, k)
      {
        var i := IndexOf(seqIds, seqIds[k]);
        assert i == k;
        ghost var before := index;
        if seqIds[k] in bonus {
          index := index + [i + |seqIds|];
        }
        index := index + [i];
        assert Gather(all, index) ==
               Gather(all, before) + (if seqIds[k] in bonus then [all[i + |seqIds|], all[i]] else [all[i]]);
      }
      ExpandedByPosition(View(), bonus, |seqIds|);
      hidden := Gather(hidden + second.value, index);
    }
  }

  /** The number of ids with a bonus token among the first `k`. */
  ghost function BonusBefore(ids: seq<int>, bonus: set<int>, k: nat): nat
    requires k <= |ids|
  {
    if k == 0 then 0 else BonusBefore(ids, bonus, k - 1) + if ids[k - 1] in bonus then 1 else 0
  }

  /**
    The rows by position: an id with `c` bonus ids before it has its rows `c` places further on, the
    second-last before the last one if it has a bonus token itself.
   */
  ghost predicate ExpandedRows<Row>(s: State<Row>, bonus: set<int>, n: nat, rows: seq<Row>)
    requires s.second.Some? && n <= |s.ids| == |s.hidden| == |s.second.value|
  {
    && |rows| == n + BonusBefore(s.ids, bonus, n)
    && forall k :: 0 <= k < n ==> RowsAt(s, bonus, k, rows)
  }

  ghost predicate RowsAt<Row>(s: State<Row>, bonus: set<int>, k: nat, rows: seq<Row>)
    requires s.second.Some? && k < |s.ids| == |s.hidden| == |s.second.value|
  {
    var at := k + BonusBefore(s.ids, bonus, k);
    if s.ids[k] in bonus then at + 1 < |rows| && rows[at] == s.second.value[k] && rows[at + 1] == s.hidden[k]
    else at < |rows| && rows[at] == s.hidden[k]
  }

  lemma {:induction false} ExpandedByPosition<Row>(s: State<Row>, bonus: set<int>, n: nat)
    requires s.second.Some? && n <= |s.ids| == |s.hidden| == |s.second.value|
    ensures ExpandedRows(s, bonus, n, Expanded(s, bonus, n))
  {
    if n > 0 {
      ExpandedByPosition(s, bonus, n - 1);
      var before, rows := Expanded(s, bonus, n - 1), Expanded(s, bonus, n);
      forall k | 0 <= k < n - 1
        ensures RowsAt(s, bonus, k, rows)
      {
        assert RowsAt(s, bonus, k, before);
      }
    }
  }

  /** The expansion of the first `n` ids. */
  function Expanded<Row>(s: State<Row>, bonus: set<int>, n: nat): (r: seq<Row>)
    requires s.second.Some? && n <= |s.ids| == |s.hidden| == |s.second.value|
  {
    if n == 0 then []
    else
      Expanded(s, bonus, n - 1)
      + if s.ids[n - 1] in bonus then [s.second.value[n - 1], s.hidden[n - 1]] else [s.hidden[n - 1]]
  }

  // ---------------------------------------------------------------------------------------
  // Every run of updates and prunes
  // ---------------------------------------------------------------------------------------

  datatype Op<Row> =
    | UpdateOp(ids: seq<int>, hidden: seq<Row>, second: Option<seq<Row>>)
    | PruneOp(ids: seq<int>)

  /** One sequence per group, no id twice, and only present ids kept. */
  ghost predicate Admissible<Row>(s: State<Row>, op: Op<Row>) {
    && Distinct(op.ids)
    && match op
       case UpdateOp(ids, hidden, second) =>
         |ids| == |hidden| && (second.Some? ==> |second.value| == |ids|) && forall k :: 0 <= k < |ids| ==> ids[k] !in s.ids
       case PruneOp(ids) => forall k :: 0 <= k < |ids| ==> ids[k] in s.ids
  }

  ghost function Apply<Row>(s: State<Row>, op: Op<Row>, zero: Row): State<Row>
    requires Aligned(s) && Admissible(s, op)
  {
    match op
    case UpdateOp(ids, hidden, second) => Update(s, ids, hidden, second, zero)
    case PruneOp(ids) => Prune(s, ids)
  }

  lemma ApplyAligned<Row>(s: State<Row>, op: Op<Row>, zero: Row)
    requires Aligned(s) && Admissible(s, op)
    ensures Aligned(Apply(s, op, zero))
  {
  }

  /** A run from `s`: every operation is admissible when it comes. */
  ghost predicate IsRun<Row>(s: State<Row>, ops: seq<Op<Row>>, zero: Row)
    requires Aligned(s)
    decreases |ops|
  {
    ops == [] || (Admissible(s, ops[0]) && (ApplyAligned(s, ops[0], zero); IsRun(Apply(s, ops[0], zero), ops[1..], zero)))
  }

  ghost function Run<Row>(s: State<Row>, ops: seq<Op<Row>>, zero: Row): (r: State<Row>)
    requires Aligned(s) && IsRun(s, ops, zero)
    ensures Aligned(r)
    decreases |ops|
  {
    if ops == [] then s
    else
      ApplyAligned(s, ops[0], zero);
      Run(Apply(s, ops[0], zero), ops[1..], zero)
  }

  /** The last and second-last rows that came with `id` when it most recently entered. */
  datatype Entry<Row> = Entry(last: Row, second: Option<Row>)

  ghost function EntryIn<Row>(ids: seq<int>, hidden: seq<Row>, second: Option<seq<Row>>, id: int): Entry<Row>
    requires id in ids && |hidden| == |ids| && (second.Some? ==> |second.value| == |ids|)
  {
    var i := IndexOf(ids, id);
    Entry(hidden[i], if second.Some? then Some(second.value[i]) else None)
  }

  /** What was supplied with each id, by scanning the history only; prunes play no part. */
  ghost function Supplied<Row>(table: map<int, Entry<Row>>, keepSecond: bool, ops: seq<Op<Row>>, zero: Row): (r: map<int, Entry<Row>>)
    requires forall k :: 0 <= k < |ops| && ops[k].UpdateOp? ==>
                           |ops[k].ids| == |ops[k].hidden| && (ops[k].second.Some? ==> |ops[k].second.value| == |ops[k].ids|)
    decreases |ops|
  {
    if ops == [] then table
    else if ops[0].PruneOp? then Supplied(table, keepSecond, ops[1..], zero)
    else
      var op := ops[0];
      var second := if !keepSecond then None else if op.second.Some? then op.second else Some(seq(|op.hidden|, _ => zero));
      Supplied(map id | id in table.Keys + Elems(op.ids) ::
                 if id in op.ids then EntryIn(op.ids, op.hidden, second, id) else table[id],
               keepSecond, ops[1..], zero)
  }

  /** The ids present, from the history only: those last kept, then those that entered since, in order. */
  ghost function IdsAfter<Row>(ids: seq<int>, ops: seq<Op<Row>>): (r: seq<int>)
    decreases |ops|
  {
    if ops == [] then ids
    else IdsAfter(if ops[0].PruneOp? then ops[0].ids else ids + ops[0].ids, ops[1..])
  }

  lemma {:induction false} RunIds<Row>(s: State<Row>, ops: seq<Op<Row>>, zero: Row)
    requires Aligned(s) && IsRun(s, ops, zero)
    ensures Run(s, ops, zero).ids == IdsAfter(s.ids, ops) && Run(s, ops, zero).second.Some? == s.second.Some?
    decreases |ops|
  {
    if ops != [] {
      ApplyAligned(s, ops[0], zero);
      RunIds(Apply(s, ops[0], zero), ops[1..], zero);
    }
  }

  /** Each row of the state is the one the table has for its id. */
  ghost predicate Matches<Row>(s: State<Row>, table: map<int, Entry<Row>>)
    requires Aligned(s)
  {
    forall i :: 0 <= i < |s.ids| ==>
                  && s.ids[i] in table
                  && table[s.ids[i]] == Entry(s.hidden[i], if s.second.Some? then Some(s.second.value[i]) else None)
  }

  lemma UpdateMatches<Row>(s: State<Row>, table: map<int, Entry<Row>>, op: Op<Row>, zero: Row, table': map<int, Entry<Row>>)
    requires Aligned(s) && Admissible(s, op) && op.UpdateOp? && Matches(s, table)
    requires var second := if s.second.None? then None else if op.second.Some? then op.second else Some(seq(|op.hidden|, _ => zero));
             table' == map id | id in table.Keys + Elems(op.ids) ::
                         if id in op.ids then EntryIn(op.ids, op.hidden, second, id) else table[id]
    ensures Aligned(Apply(s, op, zero)) && Matches(Apply(s, op, zero), table')
  {
    ApplyAligned(s, op, zero);
    var s' := Apply(s, op, zero);
    forall i | 0 <= i < |s'.ids|
      ensures s'.ids[i] in table'
      ensures table'[s'.ids[i]] == Entry(s'.hidden[i], if s'.second.Some? then Some(s'.second.value[i]) else None)
    {
      if i < |s.ids| {
        assert s'.ids[i] == s.ids[i] && s.ids[i] !in op.ids;
      } else {
        var k := i - |s.ids|;
        assert s'.ids[i] == op.ids[k];
        assert IndexOf(op.ids, op.ids[k]) == k;
      }
    }
  }

  lemma PruneMatches<Row>(s: State<Row>, table: map<int, Entry<Row>>, ids: seq<int>)
    requires Aligned(s) && Distinct(ids) && (forall k :: 0 <= k < |ids| ==> ids[k] in s.ids) && Matches(s, table)
    ensures Aligned(Prune(s, ids)) && Prune(s, ids).ids == ids && Matches(Prune(s, ids), table)
  {
  }

  ghost function EntriesOf<Row>(s: State<Row>): map<int, Entry<Row>>
    requires Aligned(s)
  {
    map id | id in Elems(s.ids) :: EntryIn(s.ids, s.hidden, s.second, id)
  }

  lemma {:induction false} RunAligned<Row>(s: State<Row>, ops: seq<Op<Row>>, zero: Row, table: map<int, Entry<Row>>)
    requires Aligned(s) && IsRun(s, ops, zero) && Matches(s, table)
    ensures forall k :: 0 <= k < |ops| && ops[k].UpdateOp? ==>
                          |ops[k].ids| == |ops[k].hidden| && (ops[k].second.Some? ==> |ops[k].second.value| == |ops[k].ids|)
    ensures Matches(Run(s, ops, zero), Supplied(table, s.second.Some?, ops, zero))
    decreases |ops|
  {
    if ops != [] {
      var op := ops[0];
      ApplyAligned(s, op, zero);
      var s' := Apply(s, op, zero);
      if op.PruneOp? {
        PruneMatches(s, table, op.ids);
        RunAligned(s', ops[1..], zero, table);
        assert forall k :: 0 < k < |ops| ==> ops[k] == ops[1..][k - 1];
      } else {
        var second := if s.second.None? then None else if op.second.Some? then op.second else Some(seq(|op.hidden|, _ => zero));
        var table' := map id | id in table.Keys + Elems(op.ids) ::
                        if id in op.ids then EntryIn(op.ids, op.hidden, second, id) else table[id];
        UpdateMatches(s, table, op, zero, table');
        RunAligned(s', ops[1..], zero, table');
        assert forall k :: 0 < k < |ops| ==> ops[k] == ops[1..][k - 1];
      }
    }
  }

  /**
    After every admissible run the ids are those last kept followed by those that entered since, in
    order; each row still belongs to the id at its position and holds exactly
    the data supplied when that id last entered, however often the batch was reordered and pruned.
   */
  lemma AlignmentPreserved<Row>(s: State<Row>, ops: seq<Op<Row>>, zero: Row)
    requires Aligned(s) && IsRun(s, ops, zero)
    ensures Aligned(Run(s, ops, zero)) && Run(s, ops, zero).ids == IdsAfter(s.ids, ops)
    ensures forall k :: 0 <= k < |ops| && ops[k].UpdateOp? ==>
                          |ops[k].ids| == |ops[k].hidden| && (ops[k].second.Some? ==> |ops[k].second.value| == |ops[k].ids|)
    ensures Matches(Run(s, ops, zero), Supplied(EntriesOf(s), s.second.Some?, ops, zero))
  {
    RunIds(s, ops, zero);
    assert Matches(s, EntriesOf(s)) by {
      forall i | 0 <= i < |s.ids|
        ensures s.ids[i] in EntriesOf(s) && IndexOf(s.ids, s.ids[i]) == i
      {
        assert s.ids[i] in Elems(s.ids);
      }
    }
    RunAligned(s, ops, zero, EntriesOf(s));
  }
}
