/** The three-row sketch with saturating counters of different widths. */
module TowerSketches {
  const ROWS := 3
  const LEN: seq<nat> := [3_000_000, 1_500_000, 750_000]
  const LIMIT: seq<nat> := [0xFF, 0xFFFF, 0xFFFF_FFFF]
  const UINT32_MAX: nat := 0xFFFF_FFFF
  const WRAP: nat := 0x1_0000_0000

  /** The hash of an item under the seed of a row. */
  type RowHash<!K> = (K, nat) -> nat

  function Cell<K>(h: RowHash<K>, k: K, i: nat): (q: nat)
    requires i < ROWS
    ensures q < LEN[i]
  {
    h(k, i) % LEN[i]
  }

  /** One 32-bit counter: left alone once it has reached its limit. */
  function Bump(x: nat, size: nat, limit: nat): nat {
    if x < limit then (x + size) % WRAP else x
  }

  ghost predicate RowsOk(rows: seq<seq<nat>>) {
    |rows| == ROWS && forall i :: 0 <= i < ROWS ==> |rows[i]| == LEN[i]
  }

  ghost function BumpAt(rows: seq<seq<nat>>, i: nat, q: nat, size: nat): seq<seq<nat>>
    requires i < ROWS && i < |rows| && q < |rows[i]|
  {
    var row: seq<nat> := rows[i][q := Bump(rows[i][q], size, LIMIT[i])];
    rows[i := row]
  }

  /** The rows after adding size to the first n rows' cells of k. */
  ghost function AddUpTo<K>(h: RowHash<K>, rows: seq<seq<nat>>, k: K, size: nat, n: nat): (r: seq<seq<nat>>)
    requires RowsOk(rows) && n <= ROWS
    ensures RowsOk(r)
  {
    seq(ROWS, i requires 0 <= i < ROWS =>
      if i < n then rows[i][Cell(h, k, i) := Bump(rows[i][Cell(h, k, i)], size, LIMIT[i])] else rows[i])
  }

  ghost function Add<K>(h: RowHash<K>, rows: seq<seq<nat>>, k: K, size: nat): seq<seq<nat>>
    requires RowsOk(rows)
  {
    AddUpTo(h, rows, k, size, ROWS)
  }

  /** The least unsaturated counter of k among the first n rows. */
  ghost function EstimateUpTo<K>(h: RowHash<K>, rows: seq<seq<nat>>, k: K, n: nat): nat
    requires RowsOk(rows) && n <= ROWS
  {
    if n == 0 then UINT32_MAX
    else
      var x, v := rows[n - 1][Cell(h, k, n - 1)], EstimateUpTo(h, rows, k, n - 1);
      if x < LIMIT[n - 1] && x < v then x else v
  }

  ghost function Estimate<K>(h: RowHash<K>, rows: seq<seq<nat>>, k: K): nat
    requires RowsOk(rows)
  {
    EstimateUpTo(h, rows, k, ROWS)
  }

  ghost function Zeroes(): (rows: seq<seq<nat>>)
    ensures RowsOk(rows)
  {
    seq(ROWS, i requires 0 <= i < ROWS => seq(LEN[i], _ => 0))
  }

  // ---------- the sketch as a function of what went into it ----------

  /** What was added since the last clear, oldest first. */
  type Trace<K> = seq<(K, nat)>

  ghost function RowsOf<K>(h: RowHash<K>, trace: Trace<K>): (rows: seq<seq<nat>>)
    ensures RowsOk(rows)
  {
    if trace == [] then Zeroes()
    else
      var last := trace[|trace| - 1];
      Add(h, RowsOf(h, trace[..|trace| - 1]), last.0, last.1)
  }

  function Total<K(==)>(trace: Trace<K>, k: K): nat {
    if trace == [] then 0
    else
      var last := trace[|trace| - 1];
      Total(trace[..|trace| - 1], k) + if last.0 == k then last.1 else 0
  }

  function Grand<K>(trace: Trace<K>): nat {
    if trace == [] then 0 else Grand(trace[..|trace| - 1]) + trace[|trace| - 1].1
  }

  /** Everything added to one cell. */
  ghost function CellTotal<K>(h: RowHash<K>, trace: Trace<K>, i: nat, q: nat): nat
    requires i < ROWS
  {
    if trace == [] then 0
    else
      var last := trace[|trace| - 1];
      CellTotal(h, trace[..|trace| - 1], i, q) + if Cell(h, last.0, i) == q then last.1 else 0
  }

  lemma {:induction false} CellTotalBounds<K>(h: RowHash<K>, trace: Trace<K>, i: nat, k: K)
    requires i < ROWS
    ensures Total(trace, k) <= CellTotal(h, trace, i, Cell(h, k, i)) <= Grand(trace)
  {
    if trace != [] {
      CellTotalBounds(h, trace[..|trace| - 1], i, k);
    }
  }

  lemma {:induction false} CellTotalAtMostGrand<K>(h: RowHash<K>, trace: Trace<K>, i: nat, q: nat)
    requires i < ROWS
    ensures CellTotal(h, trace, i, q) <= Grand(trace)
  {
    if trace != [] {
      CellTotalAtMostGrand(h, trace[..|trace| - 1], i, q);
    }
  }

  lemma {:induction false} BumpWithoutWrap(x: nat, size: nat, limit: nat)
    requires x + size < WRAP
    ensures Bump(x, size, limit) == if x < limit then x + size else x
  {
  }

  lemma {:induction false} AddAt<K>(h: RowHash<K>, rows: seq<seq<nat>>, k: K, size: nat, i: nat, q: nat)
    requires RowsOk(rows) && i < ROWS && q < LEN[i]
    ensures Add(h, rows, k, size)[i][q] == if Cell(h, k, i) == q then Bump(rows[i][q], size, LIMIT[i]) else rows[i][q]
  {
  }

  /** While nothing wraps, a counter below its limit is exactly the total of its cell. */
  lemma {:induction false} UnsaturatedIsExact<K>(h: RowHash<K>, trace: Trace<K>, i: nat, q: nat)
    requires i < ROWS && q < LEN[i] && Grand(trace) < WRAP
    ensures RowsOf(h, trace)[i][q] <= CellTotal(h, trace, i, q)
    ensures RowsOf(h, trace)[i][q] < LIMIT[i] ==> RowsOf(h, trace)[i][q] == CellTotal(h, trace, i, q)
  {
    if trace != [] {
      var front, last := trace[..|trace| - 1], trace[|trace| - 1];
      UnsaturatedIsExact(h, front, i, q);
      CellTotalAtMostGrand(h, front, i, q);
      AddAt(h, RowsOf(h, front), last.0, last.1, i, q);
      BumpWithoutWrap(RowsOf(h, front)[i][q], last.1, LIMIT[i]);
    }
  }

  lemma {:induction false} EstimateIsAbove<K>(h: RowHash<K>, rows: seq<seq<nat>>, k: K, n: nat, low: nat)
    requires RowsOk(rows) && n <= ROWS && low <= UINT32_MAX
    requires forall i :: 0 <= i < n ==> var x := rows[i][Cell(h, k, i)]; x < LIMIT[i] ==> low <= x
    ensures low <= EstimateUpTo(h, rows, k, n)
  {
    if n > 0 {
      EstimateIsAbove(h, rows, k, n - 1, low);
    }
  }

  /** The sketch never underestimates what was added under a key since its last clear. */
  lemma {:induction false} NeverUnderestimates<K>(h: RowHash<K>, trace: Trace<K>, k: K)
    requires Grand(trace) < WRAP
    ensures Total(trace, k) <= Estimate(h, RowsOf(h, trace), k)
  {
    var rows := RowsOf(h, trace);
    CellTotalBounds(h, trace, 0, k);
    forall i | 0 <= i < ROWS
      ensures var x := rows[i][Cell(h, k, i)]; x < LIMIT[i] ==> Total(trace, k) <= x
    {
      CellTotalBounds(h, trace, i, k);
      UnsaturatedIsExact(h, trace, i, Cell(h, k, i));
    }
    EstimateIsAbove(h, rows, k, ROWS, Total(trace, k));
  }

  /** v is the least of what was added to the cells of k, over the rows whose cell was given less
      than the limit of its counter; if there is no such row it is the largest number there is. */
  ghost predicate IsLeastTotal<K(!new)>(h: RowHash<K>, trace: Trace<K>, k: K, v: nat) {
    && (forall i :: 0 <= i < ROWS && CellTotal(h, trace, i, Cell(h, k, i)) < LIMIT[i] ==>
          v <= CellTotal(h, trace, i, Cell(h, k, i)))
    && (v == UINT32_MAX ||
        exists i :: 0 <= i < ROWS && v == CellTotal(h, trace, i, Cell(h, k, i)) < LIMIT[i])
  }

  lemma {:induction false} EstimateIsLeastUpTo<K>(h: RowHash<K>, rows: seq<seq<nat>>, k: K, n: nat)
    requires RowsOk(rows) && n <= ROWS
    ensures var v := EstimateUpTo(h, rows, k, n);
            && (forall i :: 0 <= i < n && rows[i][Cell(h, k, i)] < LIMIT[i] ==> v <= rows[i][Cell(h, k, i)])
            && (v == UINT32_MAX || exists i :: 0 <= i < n && v == rows[i][Cell(h, k, i)] < LIMIT[i])
  {
    if n > 0 {
      EstimateIsLeastUpTo(h, rows, k, n - 1);
    }
  }

  /** What the sketch answers, in terms of what was added only. */
  lemma {:induction false} EstimateIsLeastTotal<K(!new)>(h: RowHash<K>, trace: Trace<K>, k: K)
    requires Grand(trace) < WRAP
    ensures IsLeastTotal(h, trace, k, Estimate(h, RowsOf(h, trace), k))
  {
    var rows := RowsOf(h, trace);
    EstimateIsLeastUpTo(h, rows, k, ROWS);
    forall i | 0 <= i < ROWS
      ensures var x, total := rows[i][Cell(h, k, i)], CellTotal(h, trace, i, Cell(h, k, i));
              (x < LIMIT[i] <==> total < LIMIT[i]) && (x < LIMIT[i] ==> x == total)
    {
      UnsaturatedIsExact(h, trace, i, Cell(h, k, i));
    }
  }

  lemma {:induction false} AloneInCell<K>(h: RowHash<K>, trace: Trace<K>, i: nat, k: K)
    requires i < ROWS && forall j :: 0 <= j < |trace| && trace[j].0 != k ==> Cell(h, trace[j].0, i) != Cell(h, k, i)
    ensures CellTotal(h, trace, i, Cell(h, k, i)) == Total(trace, k)
  {
    if trace != [] {
      AloneInCell(h, trace[..|trace| - 1], i, k);
    }
  }

  /** It is exact for a key that shares its cell of some row with no other key and has not
      saturated it. */
  lemma {:induction false} ExactWhenAlone<K(!new)>(h: RowHash<K>, trace: Trace<K>, i: nat, k: K)
    requires Grand(trace) < WRAP && i < ROWS && Total(trace, k) < LIMIT[i]
    requires forall j :: 0 <= j < |trace| && trace[j].0 != k ==> Cell(h, trace[j].0, i) != Cell(h, k, i)
    ensures Estimate(h, RowsOf(h, trace), k) == Total(trace, k)
  {
    AloneInCell(h, trace, i, k);
    EstimateIsLeastTotal(h, trace, k);
    NeverUnderestimates(h, trace, k);
  }

  const INT_MAX: nat := 0x7FFF_FFFF

  /** The bound on the total is needed: three packets, each of a size an int holds and together
      of 2^32 bytes, saturate the two small counters and leave the large one at zero. */
  lemma {:induction false} WrappedSketchUnderestimates<K>(h: RowHash<K>, k: K)
    ensures var trace := [(k, INT_MAX), (k, INT_MAX), (k, 2)];
            Total(trace, k) == WRAP && Estimate(h, RowsOf(h, trace), k) == 0
  {
    var none: Trace<K> := [];
    var t1 := none + [(k, INT_MAX)];
    var t2 := t1 + [(k, INT_MAX)];
    var t3 := t2 + [(k, 2)];
    assert t1[..0] == none && t2[..1] == t1 && t3[..2] == t2;
    assert Total(t1, k) == INT_MAX;
    var i := ROWS - 1;
    var q := Cell(h, k, i);
    assert RowsOf(h, none) == Zeroes();
    AddAt(h, RowsOf(h, none), k, INT_MAX, i, q);
    AddAt(h, RowsOf(h, t1), k, INT_MAX, i, q);
    AddAt(h, RowsOf(h, t2), k, 2, i, q);
    assert RowsOf(h, t3)[i][q] == 0;
    assert t3 == [(k, INT_MAX), (k, INT_MAX), (k, 2)];
  }

  lemma {:induction false} AddOneMoreRow<K>(h: RowHash<K>, rows: seq<seq<nat>>, k: K, size: nat, i: nat)
    requires RowsOk(rows) && i < ROWS
    ensures var a, q := AddUpTo(h, rows, k, size, i), Cell(h, k, i);
            AddUpTo(h, rows, k, size, i + 1) == BumpAt(a, i, q, size)
  {
  }

  class TowerSketch<K(==, !new)> {
    const hash: RowHash<K>
    const nt: seq<array<nat>>
    ghost var trace: Trace<K>
    ghost const Repr: set<object>

    ghost function Rows(): seq<seq<nat>>
      requires |nt| == ROWS
      reads nt
    {
      [nt[0][..], nt[1][..], nt[2][..]]
    }

    ghost predicate Valid()
      reads this, Repr
    {
      && this in Repr && |nt| == ROWS
      && (forall i :: 0 <= i < ROWS ==> nt[i] in Repr && nt[i].Length == LEN[i])
      && (forall i, j :: 0 <= i < j < ROWS ==> nt[i] != nt[j])
      && Rows() == RowsOf(hash, trace)
    }

    constructor (h: RowHash<K>)
      ensures Valid() && trace == [] && hash == h && fresh(Repr)
    {
      hash := h;
      trace := [];
      var r0 := new nat[LEN[0]](_ => 0);
      var r1 := new nat[LEN[1]](_ => 0);
      var r2 := new nat[LEN[2]](_ => 0);
      nt := [r0, r1, r2];
      Repr := {this, r0, r1, r2};
      new;
      ZeroRows();
    }

    lemma ZeroRows()
      requires |nt| == ROWS && forall i :: 0 <= i < ROWS ==> nt[i].Length == LEN[i]
      requires forall i, q :: 0 <= i < ROWS && 0 <= q < LEN[i] ==> nt[i][q] == 0
      ensures Rows() == RowsOf(hash, [])
    {
      forall i | 0 <= i < ROWS ensures Rows()[i] == Zeroes()[i] {
        assert Rows()[i] == nt[i][..];
      }
    }

    method Clear()
      requires Valid()
      modifies Repr
      ensures Valid() && trace == []
    {
      var i := 0;
      while i < ROWS
        invariant 0 <= i <= ROWS
        invariant forall j, q :: 0 <= j < i && 0 <= q < LEN[j] ==> nt[j][q] == 0
      {
        forall q | 0 <= q < nt[i].Length {
          nt[i][q] := 0;
        }
        i := i + 1;
      }
      trace := [];
      ZeroRows();
    }

    /** insert_then_query, for a packet's header or for a fingerprint with a count. */
    method InsertThenQuery(k: K, size: nat) returns (val: nat)
      requires Valid()
      modifies Repr
      ensures Valid() && trace == old(trace) + [(k, size)]
      ensures val == Estimate(hash, Rows(), k)
      ensures Grand(trace) < WRAP ==> IsLeastTotal(hash, trace, k, val)
    {
      ghost var rows, was := Rows(), trace;
      val := UINT32_MAX;
      var i := 0;
      while i < ROWS
        invariant 0 <= i <= ROWS && trace == was
        invariant Rows() == AddUpTo(hash, rows, k, size, i)
        invariant val == EstimateUpTo(hash, Rows(), k, i)
      {
        val := BumpRow(i, k, size, val, rows);
        i := i + 1;
      }
      trace := trace + [(k, size)];
      assert trace[..|trace| - 1] == was;
      if Grand(trace) < WRAP { EstimateIsLeastTotal(hash, trace, k); }
    }

    /** One row of it. */
    method BumpRow(i: nat, k: K, size: nat, val: nat, ghost rows: seq<seq<nat>>) returns (least: nat)
      requires |nt| == ROWS && i < ROWS && RowsOk(rows) && RowsOk(Rows())
      requires forall a, b :: 0 <= a < b < ROWS ==> nt[a] != nt[b]
      requires Rows() == AddUpTo(hash, rows, k, size, i) && val == EstimateUpTo(hash, Rows(), k, i)
      modifies nt[i]
      ensures Rows() == AddUpTo(hash, rows, k, size, i + 1) && least == EstimateUpTo(hash, Rows(), k, i + 1)
    {
      ghost var before := Rows();
      var x := BumpCell(i, Cell(hash, k, i), size);
      AddOneMoreRow(hash, rows, k, size, i);
      EstimateIgnoresLaterRows(hash, before, Rows(), k, i);
      least := if x < LIMIT[i] && x < val then x else val;
    }

    method BumpCell(i: nat, pos: nat, size: nat) returns (x: nat)
      requires |nt| == ROWS && i < ROWS && pos < nt[i].Length
      requires forall a, b :: 0 <= a < b < ROWS ==> nt[a] != nt[b]
      modifies nt[i]
      ensures Rows() == BumpAt(old(Rows()), i, pos, size) && x == Rows()[i][pos]
    {
      if nt[i][pos] < LIMIT[i] {
        nt[i][pos] := (nt[i][pos] + size) % WRAP;
      }
      x := nt[i][pos];
      assert nt[i][..] == old(nt[i][..])[pos := nt[i][pos]];
      forall j | 0 <= j < ROWS && j != i ensures Rows()[j] == old(Rows()[j]) {
        assert nt[j][..] == old(nt[j][..]);
      }
    }

    method Query(k: K) returns (val: nat)
      requires Valid()
      ensures val == Estimate(hash, Rows(), k)
      ensures Grand(trace) < WRAP ==> IsLeastTotal(hash, trace, k, val)
    {
      if Grand(trace) < WRAP { EstimateIsLeastTotal(hash, trace, k); }
      val := UINT32_MAX;
      var i := 0;
      while i < ROWS
        invariant 0 <= i <= ROWS
        invariant val == EstimateUpTo(hash, Rows(), k, i)
      {
        var pos := Cell(hash, k, i);
        if nt[i][pos] < LIMIT[i] {
          val := if nt[i][pos] < val then nt[i][pos] else val;
        }
        i := i + 1;
      }
    }
  }

  lemma {:induction false} EstimateIgnoresLaterRows<K>(h: RowHash<K>, a: seq<seq<nat>>, b: seq<seq<nat>>, k: K, n: nat)
    requires RowsOk(a) && RowsOk(b) && n <= ROWS
    requires forall i :: 0 <= i < n ==> a[i] == b[i]
    ensures EstimateUpTo(h, a, k, n) == EstimateUpTo(h, b, k, n)
  {
    if n > 0 {
      EstimateIgnoresLaterRows(h, a, b, k, n - 1);
    }
  }
}
