/** How much work resizing does over a whole run of sets and deletes. */
module Growth {
  import opened Store
  import opened Chains

  datatype Op = SetOp(cell: Cell) | DelOp(key: string)

  /** A table with counters: entries relinked by all resizes so far, and insertions of new keys. */
  datatype Run = Run(buckets: Buckets, relinked: nat, inserted: nat)

  const INITIAL_SIZE: nat := 8

  function Step(s: Run, op: Op): (r: Run)
    requires |s.buckets| > 0
    ensures |r.buckets| > 0
  {
    match op
    case SetOp(c) =>
      var b := Insert(s.buckets, c, true);
      Run(b,
          s.relinked + (if Grows(s.buckets, c) then Total(s.buckets) + 1 else 0),
          s.inserted + (if Lookup(s.buckets, c.key) == None then 1 else 0))
    case DelOp(k) => s.(buckets := Remove(s.buckets, k))
  }

  function RunOf(ops: seq<Op>): (r: Run)
    ensures |r.buckets| > 0
  {
    if ops == [] then Run(Empty(INITIAL_SIZE), 0, 0)
    else Step(RunOf(ops[..|ops| - 1]), ops[|ops| - 1])
  }

  /** The reference: the same operations on a map. */
  function MapOf(ops: seq<Op>): Table {
    if ops == [] then map[]
    else
      var m := MapOf(ops[..|ops| - 1]);
      match ops[|ops| - 1]
      case SetOp(c) => m[c.key := ValueOf(c)]
      case DelOp(k) => m - {k}
  }

  function Pow2(k: nat): nat {
    if k == 0 then 1 else 2 * Pow2(k - 1)
  }

  /** After k doublings, all resizes together have relinked 3/4 * size - 6 + k entries. */
  ghost predicate ClosedForm(s: Run, k: nat) {
    && |s.buckets| == 8 * Pow2(k)
    && 4 * s.relinked == 3 * |s.buckets| - 24 + 4 * k
    && 4 * Total(s.buckets) <= 3 * |s.buckets|
    && Total(s.buckets) <= s.inserted
    && (k > 0 ==> s.inserted > 3 * Pow2(k))
  }

  lemma {:induction false} RunInvariant(ops: seq<Op>) returns (k: nat)
    ensures ClosedForm(RunOf(ops), k)
    ensures Represents(RunOf(ops).buckets, MapOf(ops))
  {
    hide Represents, Insert, Remove;
    if ops == [] {
      EmptyRepresents(INITIAL_SIZE);
      k := 0;
    } else {
      var n := |ops| - 1;
      k := RunInvariant(ops[..n]);
      k := StepInvariant(RunOf(ops[..n]), MapOf(ops[..n]), ops[n], k);
    }
  }

  lemma StepInvariant(s: Run, m: Table, op: Op, k: nat) returns (k': nat)
    requires ClosedForm(s, k) && Represents(s.buckets, m)
    ensures ClosedForm(Step(s, op), k')
    ensures Represents(Step(s, op).buckets, if op.SetOp? then m[op.cell.key := ValueOf(op.cell)] else m - {op.key})
  {
    hide Insert, Remove, Lookup, Represents, Total, Grows, ClosedForm;
    k' := k;
    match op
    case SetOp(c) =>
      RepresentsGet(s.buckets, m, c.key);
      InsertRepresents(s.buckets, m, c, true);
      StepSet(s, c, if c.key in m then 0 else 1, k);
      if Grows(s.buckets, c) { k' := k + 1; }
    case DelOp(key) =>
      RepresentsGet(s.buckets, m, key);
      RemoveRepresents(s.buckets, m, key);
      StepDel(s, key, k);
  }

  lemma StepSet(s: Run, c: Cell, added: nat, k: nat)
    requires ClosedForm(s, k) && |s.buckets| > 0
    requires added == if Lookup(s.buckets, c.key) == None then 1 else 0
    requires Total(Insert(s.buckets, c, true)) == Total(s.buckets) + added
    ensures ClosedForm(Step(s, SetOp(c)), if Grows(s.buckets, c) then k + 1 else k)
  {
    hide Insert, Lookup, Total;
  }

  lemma StepDel(s: Run, key: string, k: nat)
    requires ClosedForm(s, k) && |s.buckets| > 0 && Total(Remove(s.buckets, key)) <= Total(s.buckets)
    ensures ClosedForm(Step(s, DelOp(key)), k)
  {
    hide Remove, Total;
  }

  lemma {:induction false} Pow2Exceeds(k: nat)
    ensures k < Pow2(k)
  {
    if k > 0 { Pow2Exceeds(k - 1); }
  }

  /** Over any run of sets and deletes on a table that starts with 8 buckets: the table refines the map, it
      is never more than three quarters full, the total resize work is exactly 3/4 * size - 6 + log2(size / 8),
      and that is at most three relinks per new key. */
  lemma ResizeWork(ops: seq<Op>)
    ensures var s := RunOf(ops);
            && Represents(s.buckets, MapOf(ops))
            && 4 * Total(s.buckets) <= 3 * |s.buckets|
            && s.relinked <= 3 * s.inserted
            && exists k: nat :: |s.buckets| == 8 * Pow2(k) && 4 * s.relinked == 3 * |s.buckets| - 24 + 4 * k
  {
    var k := RunInvariant(ops);
    Pow2Exceeds(k);
  }

  /** Two relinks per new key are not enough: the bound 2 holds for the first 1536 new keys of any run of
      insertions, and fails at the next one. */
  lemma TwoIsNotEnough(ops: seq<Op>)
    requires FreshKeys(ops)
    ensures var s := RunOf(ops);
            && s.inserted == |ops|
            && (|ops| <= 1536 ==> s.relinked <= 2 * s.inserted)
            && (|ops| == 1537 ==> s.relinked == 3075)
  {
    var s := RunOf(ops);
    var k := RunInvariant(ops);
    FreshInserts(ops);
    assert Pow2(9) == 512 by { Pow2Values(); }
    if s.inserted <= 1537 && k > 9 { Pow2Grows(10, k); Pow2Values(); }
    if s.inserted == 1537 && k < 9 { Pow2Grows(k, 8); Pow2Values(); }
    if s.inserted <= 1536 && k == 9 { Pow2Values(); }
  }

  /** Insertions of pairwise different keys. */
  ghost predicate FreshKeys(ops: seq<Op>) {
    && (forall i :: 0 <= i < |ops| ==> ops[i].SetOp?)
    && (forall i, j :: 0 <= i < j < |ops| ==> ops[i].cell.key != ops[j].cell.key)
  }

  lemma Pow2Values()
    ensures Pow2(8) == 256 && Pow2(9) == 512 && Pow2(10) == 1024
  {}

  lemma {:induction false} Pow2Grows(i: nat, j: nat)
    requires i <= j
    ensures Pow2(i) <= Pow2(j)
  {
    if i < j { Pow2Grows(i, j - 1); }
  }

  lemma {:induction false} FreshInserts(ops: seq<Op>)
    requires FreshKeys(ops)
    ensures RunOf(ops).inserted == |ops| == Total(RunOf(ops).buckets)
    ensures forall k :: k in MapOf(ops) ==> exists i :: 0 <= i < |ops| && ops[i].cell.key == k
  {
    hide Insert, Lookup, Represents;
    if ops == [] {
      EmptyRepresents(INITIAL_SIZE);
    } else {
      var n := |ops| - 1;
      var s, c := RunOf(ops[..n]), ops[n].cell;
      FreshInserts(ops[..n]);
      var k := RunInvariant(ops[..n]);
      assert c.key !in MapOf(ops[..n]);
      InsertRepresents(s.buckets, MapOf(ops[..n]), c, true);
      RepresentsGet(s.buckets, MapOf(ops[..n]), c.key);
      forall x | x in MapOf(ops) ensures exists i :: 0 <= i < |ops| && ops[i].cell.key == x {
        if x == c.key {
          assert ops[n].cell.key == x;
        } else {
          var i :| 0 <= i < n && ops[..n][i].cell.key == x;
          assert ops[i].cell.key == x;
        }
      }
    }
  }
}
