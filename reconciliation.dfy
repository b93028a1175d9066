/** The "Financeiro e NFs" tab: which sessions still wait for their invoice
    ("nota fiscal"), the three figures shown above the list, and the effect of
    the "Já Emiti" update on them. */
module Reconciliation {
  import opened Records
  import opened Tables
  import opened Listing

  /** A session that is billed: its status is `Realizado`. */
  predicate IsCompleted(x: Row)
  {
    x.status == Realizado
  }

  /** A session waiting for its invoice: `Realizado` and `nota_fiscal == 0`. */
  predicate IsPending(x: Row)
  {
    x.status == Realizado && !x.invoiceIssued
  }

  /** `df[df['status'] == 'Realizado']` */
  function Completed(rows: seq<Row>): (r: seq<Row>)
    ensures forall x :: x in r <==> x in rows && x.status == Realizado
    ensures SubsequenceOf(r, rows)
  {
    WhereSubsequence(rows, IsCompleted);
    Where(rows, IsCompleted)
  }

  /** `df_pendentes`: the listing rows that are `Realizado` and not yet
      invoiced, in listing order (so newest first when the listing is). */
  function Pending(rows: seq<Row>): (r: seq<Row>)
    ensures forall x :: x in r <==> x in rows && x.status == Realizado && !x.invoiceIssued
    ensures SubsequenceOf(r, rows)
    ensures SortedByDateDesc(rows) ==> SortedByDateDesc(r)
  {
    var r := Where(rows, IsPending);
    WhereSubsequence(rows, IsPending);
    if SortedByDateDesc(rows) then
      SubsequenceSorted(r, rows);
      r
    else
      r
  }

  /** Sum of the `valor` column, in cents. */
  function Sum(rows: seq<Row>): int
  {
    if rows == [] then 0 else rows[0].amount + Sum(rows[1..])
  }

  /** `receita_total`: the amounts of every `Realizado` session. */
  function TotalBilled(rows: seq<Row>): int
  {
    Sum(Completed(rows))
  }

  /** `valor_pendente_nf`: the amounts of the pending sessions. */
  function PendingAmount(rows: seq<Row>): int
  {
    Sum(Pending(rows))
  }

  /** `qtd_pendente`: the number of pending sessions. */
  function PendingCount(rows: seq<Row>): nat
  {
    |Pending(rows)|
  }

  lemma {:induction false} SumConcat(a: seq<Row>, b: seq<Row>)
    ensures Sum(a + b) == Sum(a) + Sum(b)
  {
    if a == [] {
      assert a + b == b;
    } else {
      assert (a + b)[1..] == a[1..] + b;
      SumConcat(a[1..], b);
    }
  }

  lemma {:induction false} SumNonNegative(rows: seq<Row>)
    requires NonNegative(rows)
    ensures Sum(rows) >= 0
  {
    if rows != [] {
      assert rows[0] in rows;
      SumNonNegative(rows[1..]);
    }
  }

  /** Selecting rows with non-negative amounts never increases the sum. */
  lemma {:induction false} SumWhereAtMost(rows: seq<Row>, keep: Row -> bool)
    requires NonNegative(rows)
    ensures 0 <= Sum(Where(rows, keep)) <= Sum(rows)
  {
    if rows != [] {
      assert rows[0] in rows;
      SumWhereAtMost(rows[1..], keep);
    }
  }

  /** Pending is exactly the not-yet-invoiced part of the completed rows. */
  lemma {:induction false} PendingWithinCompleted(rows: seq<Row>)
    ensures Pending(rows) == Pending(Completed(rows))
    ensures SubsequenceOf(Pending(rows), Completed(rows))
  {
    if rows != [] {
      PendingWithinCompleted(rows[1..]);
      if IsCompleted(rows[0]) {
        assert Completed(rows) == [rows[0]] + Completed(rows[1..]);
        assert Completed(rows)[1..] == Completed(rows[1..]);
      }
    }
  }

  /** Both amounts are non-negative and the pending amount never exceeds
      the billed total; the pending count never exceeds the billed count. */
  lemma TotalsBounds(rows: seq<Row>)
    requires NonNegative(rows)
    ensures 0 <= PendingAmount(rows) <= TotalBilled(rows)
    ensures PendingCount(rows) <= |Completed(rows)|
  {
    PendingWithinCompleted(rows);
    SumWhereAtMost(Completed(rows), IsPending);
  }

  /** A session that is not `Realizado` (Agendado, Falta, Cancelado), wherever
      it sits in the listing, changes neither the billed rows nor the pending
      rows, hence none of the three figures. */
  lemma NonBillableIgnored(a: seq<Row>, x: Row, b: seq<Row>)
    requires x.status != Realizado
    ensures Completed(a + [x] + b) == Completed(a + b)
    ensures Pending(a + [x] + b) == Pending(a + b)
    ensures TotalBilled(a + [x] + b) == TotalBilled(a + b)
    ensures PendingAmount(a + [x] + b) == PendingAmount(a + b)
    ensures PendingCount(a + [x] + b) == PendingCount(a + b)
  {
    WhereSkips(a, x, b, IsCompleted);
    WhereSkips(a, x, b, IsPending);
  }

  lemma WhereSkips(a: seq<Row>, x: Row, b: seq<Row>, keep: Row -> bool)
    requires !keep(x)
    ensures Where(a + [x] + b, keep) == Where(a + b, keep)
  {
    WhereConcat(a + [x], b, keep);
    WhereConcat(a, [x], keep);
    assert Where([x], keep) == [];
    WhereConcat(a, b, keep);
  }

  /** Adding one row adds its own contribution to each figure. */
  lemma TotalsSnoc(rows: seq<Row>, x: Row)
    ensures TotalBilled(rows + [x]) == TotalBilled(rows) + (if x.status == Realizado then x.amount else 0)
    ensures PendingAmount(rows + [x]) == PendingAmount(rows) + (if IsPending(x) then x.amount else 0)
    ensures PendingCount(rows + [x]) == PendingCount(rows) + (if IsPending(x) then 1 else 0)
  {
    WhereConcat(rows, [x], IsCompleted);
    WhereConcat(rows, [x], IsPending);
    SumConcat(Completed(rows), Where([x], IsCompleted));
    SumConcat(Pending(rows), Where([x], IsPending));
  }

  /** Inserting a row by date leaves the count and the sum of any selection
      as they would be with the row in front. */
  lemma {:induction false} InsertKeepsSelection(x: Row, rows: seq<Row>, keep: Row -> bool)
    ensures |Where(InsertByDate(x, rows), keep)| == |Where([x] + rows, keep)|
    ensures Sum(Where(InsertByDate(x, rows), keep)) == Sum(Where([x] + rows, keep))
  {
    if !(rows == [] || DateLe(rows[0].date, x.date)) {
      var tail := InsertByDate(x, rows[1..]);
      InsertKeepsSelection(x, rows[1..], keep);
      assert InsertByDate(x, rows) == [rows[0]] + tail;
      assert rows == [rows[0]] + rows[1..];
      var cx := Where([x], keep);
      var c0 := Where([rows[0]], keep);
      var w := Where(rows[1..], keep);
      WhereConcat([rows[0]], tail, keep);
      WhereConcat([x], rows[1..], keep);
      WhereConcat([x], rows, keep);
      WhereConcat([rows[0]], rows[1..], keep);
      assert Where([x] + rows, keep) == cx + (c0 + w);
      SumConcat(c0, Where(tail, keep));
      SumConcat(cx, w);
      SumConcat(cx, c0 + w);
      SumConcat(c0, w);
    }
  }

  /** Sorting the listing changes none of the counts and sums. */
  lemma {:induction false} SortKeepsSelection(rows: seq<Row>, keep: Row -> bool)
    ensures |Where(SortByDateDesc(rows), keep)| == |Where(rows, keep)|
    ensures Sum(Where(SortByDateDesc(rows), keep)) == Sum(Where(rows, keep))
  {
    if rows != [] {
      var sorted := SortByDateDesc(rows[1..]);
      SortKeepsSelection(rows[1..], keep);
      InsertKeepsSelection(rows[0], sorted, keep);
      assert SortByDateDesc(rows) == InsertByDate(rows[0], sorted);
      assert rows == [rows[0]] + rows[1..];
      var c0 := Where([rows[0]], keep);
      WhereConcat([rows[0]], sorted, keep);
      WhereConcat([rows[0]], rows[1..], keep);
      SumConcat(c0, Where(sorted, keep));
      SumConcat(c0, Where(rows[1..], keep));
    }
  }

  /** Any reordering of the listing (the database is free to return rows of
      the same date in any order) leaves the count and the sum of any
      selection as they were. */
  lemma {:induction false} PermutationKeepsSelection(a: seq<Row>, b: seq<Row>, keep: Row -> bool)
    requires multiset(a) == multiset(b)
    ensures |Where(a, keep)| == |Where(b, keep)|
    ensures Sum(Where(a, keep)) == Sum(Where(b, keep))
    decreases |a|
  {
    if a == [] {
      assert |b| == |multiset(b)| == 0;
    } else {
      var k := MultisetRemove(a, b);
      var b1, b2 := b[..k], b[k + 1..];
      PermutationKeepsSelection(a[1..], b1 + b2, keep);
      WhereConcat([a[0]], a[1..], keep);
      SumConcat(Where([a[0]], keep), Where(a[1..], keep));
      WhereMiddle(b1, a[0], b2, keep);
    }
  }

  /** The first row of `a` sits somewhere in its reordering `b`, and the
      rest of `a` is a reordering of `b` without it. */
  lemma MultisetRemove(a: seq<Row>, b: seq<Row>) returns (k: nat)
    requires multiset(a) == multiset(b) && a != []
    ensures k < |b| && b[k] == a[0]
    ensures [a[0]] + a[1..] == a
    ensures b[..k] + [a[0]] + b[k + 1..] == b
    ensures multiset(a[1..]) == multiset(b[..k] + b[k + 1..])
  {
    assert a == [a[0]] + a[1..];
    assert a[0] in multiset(b);
    k :| 0 <= k < |b| && b[k] == a[0];
    assert b == b[..k] + [b[k]] + b[k + 1..];
    calc {
      multiset(a[1..]);
      multiset(a) - multiset{a[0]};
      multiset(b) - multiset{b[k]};
      multiset(b[..k]) + multiset(b[k + 1..]);
      multiset(b[..k] + b[k + 1..]);
    }
  }

  /** A row in the middle contributes its own share of the selection. */
  lemma WhereMiddle(a: seq<Row>, x: Row, b: seq<Row>, keep: Row -> bool)
    ensures |Where(a + [x] + b, keep)| == |Where([x], keep)| + |Where(a + b, keep)|
    ensures Sum(Where(a + [x] + b, keep)) == Sum(Where([x], keep)) + Sum(Where(a + b, keep))
  {
    var cx, w1, w2 := Where([x], keep), Where(a, keep), Where(b, keep);
    WhereConcat(a + [x], b, keep);
    WhereConcat(a, [x], keep);
    WhereConcat(a, b, keep);
    SumConcat(w1 + cx, w2);
    SumConcat(w1, cx);
    SumConcat(w1, w2);
  }

  /** The three figures are the same on every ordering of the same rows. */
  lemma PermutationKeepsTotals(a: seq<Row>, b: seq<Row>)
    requires multiset(a) == multiset(b)
    ensures TotalBilled(a) == TotalBilled(b)
    ensures PendingAmount(a) == PendingAmount(b)
    ensures PendingCount(a) == PendingCount(b)
  {
    PermutationKeepsSelection(a, b, IsCompleted);
    PermutationKeepsSelection(a, b, IsPending);
  }

  /** The three figures do not depend on the order of the listing. */
  lemma HistoryTotals(ps: seq<Patient>, ss: seq<Session>)
    ensures TotalBilled(History(ps, ss)) == TotalBilled(JoinRows(ps, ss))
    ensures PendingAmount(History(ps, ss)) == PendingAmount(JoinRows(ps, ss))
    ensures PendingCount(History(ps, ss)) == PendingCount(JoinRows(ps, ss))
  {
    SortKeepsSelection(JoinRows(ps, ss), IsCompleted);
    SortKeepsSelection(JoinRows(ps, ss), IsPending);
  }

  /** The row-level effect of `UPDATE atendimentos SET nota_fiscal = 1 WHERE id = ?`. */
  function MarkRow(x: Row, id: int): Row
  {
    if x.id == id then x.(invoiceIssued := true) else x
  }

  /** The update applied to every row of a listing: the flag is raised on the
      rows with that id and nothing else changes. */
  function MarkRows(rows: seq<Row>, id: int): (r: seq<Row>)
    ensures |r| == |rows|
    ensures forall i :: 0 <= i < |rows| ==>
              r[i].invoiceIssued == (rows[i].invoiceIssued || rows[i].id == id) &&
              r[i].(invoiceIssued := rows[i].invoiceIssued) == rows[i]
  {
    if rows == [] then []
    else
      var rest := MarkRows(rows[1..], id);
      assert forall i :: 1 <= i < |rows| ==> rows[i] == rows[1..][i - 1];
      [MarkRow(rows[0], id)] + rest
  }

  /** Marking twice is marking once. */
  lemma {:induction false} MarkRowsIdempotent(rows: seq<Row>, id: int)
    ensures MarkRows(MarkRows(rows, id), id) == MarkRows(rows, id)
  {
    if rows != [] {
      MarkRowsIdempotent(rows[1..], id);
    }
  }

  /** Marking an id that no row carries changes nothing. */
  lemma {:induction false} MarkRowsUnknownId(rows: seq<Row>, id: int)
    requires forall x :: x in rows ==> x.id != id
    ensures MarkRows(rows, id) == rows
  {
    if rows != [] {
      assert rows[0] in rows;
      MarkRowsUnknownId(rows[1..], id);
    }
  }

  /** Marking keeps the dates, so it commutes with the date sort. */
  lemma {:induction false} MarkInsert(x: Row, rows: seq<Row>, id: int)
    ensures InsertByDate(MarkRow(x, id), MarkRows(rows, id)) == MarkRows(InsertByDate(x, rows), id)
  {
    if rows != [] && !DateLe(rows[0].date, x.date) {
      MarkInsert(x, rows[1..], id);
      assert MarkRows(rows, id)[1..] == MarkRows(rows[1..], id);
    }
  }

  lemma {:induction false} MarkSort(rows: seq<Row>, id: int)
    ensures SortByDateDesc(MarkRows(rows, id)) == MarkRows(SortByDateDesc(rows), id)
  {
    if rows != [] {
      MarkSort(rows[1..], id);
      MarkInsert(rows[0], SortByDateDesc(rows[1..]), id);
      assert MarkRows(rows, id)[1..] == MarkRows(rows[1..], id);
    }
  }

  /** The billed rows after marking are the billed rows marked; the billed
      total is unchanged. */
  lemma {:induction false} MarkKeepsTotalBilled(rows: seq<Row>, id: int)
    ensures Completed(MarkRows(rows, id)) == MarkRows(Completed(rows), id)
    ensures TotalBilled(MarkRows(rows, id)) == TotalBilled(rows)
  {
    if rows != [] {
      MarkKeepsTotalBilled(rows[1..], id);
      assert MarkRows(rows, id)[1..] == MarkRows(rows[1..], id);
      if IsCompleted(rows[0]) {
        assert Completed(rows) == [rows[0]] + Completed(rows[1..]);
        assert MarkRows(Completed(rows), id)[1..] == MarkRows(Completed(rows[1..]), id);
      }
    }
  }

  /** Marking removes from the pending list exactly the pending rows with
      that id and keeps every other pending row, in order. */
  lemma {:induction false} MarkPending(rows: seq<Row>, id: int)
    ensures forall x :: x in Pending(MarkRows(rows, id)) <==> x in Pending(rows) && x.id != id
    ensures PendingCount(rows) == PendingCount(MarkRows(rows, id)) + |Where(Pending(rows), (x: Row) => x.id == id)|
    ensures PendingAmount(rows) == PendingAmount(MarkRows(rows, id)) + Sum(Where(Pending(rows), (x: Row) => x.id == id))
  {
    var f := (x: Row) => x.id == id;
    if rows != [] {
      MarkPending(rows[1..], id);
      assert MarkRows(rows, id)[1..] == MarkRows(rows[1..], id);
      var m := MarkRow(rows[0], id);
      if IsPending(rows[0]) {
        assert Pending(rows) == [rows[0]] + Pending(rows[1..]);
        assert Pending(rows)[1..] == Pending(rows[1..]);
      }
      if IsPending(m) {
        assert Pending(MarkRows(rows, id)) == [m] + Pending(MarkRows(rows[1..], id));
      }
    }
  }

  /** With distinct ids at most one pending row carries a given id. */
  lemma {:induction false} PendingIdAtMostOne(rows: seq<Row>, id: int)
    requires UniqueIds(rows)
    ensures |Where(Pending(rows), (x: Row) => x.id == id)| <= 1
  {
    var f := (x: Row) => x.id == id;
    WhereUniqueIds(rows, IsPending);
    var p := Pending(rows);
    var w := Where(p, f);
    if |w| > 1 {
      assert w[0] in p && w[1] in p;
      assert w[0].id == w[1].id;
      WhereUniqueIds(p, f);
      assert false;
    }
  }

  /** "Já Emiti" on a pending row: it leaves the pending list, the pending
      count drops by one and the pending amount by that row's amount (the
      billed total is MarkKeepsTotalBilled). */
  lemma MarkPendingRow(rows: seq<Row>, k: nat)
    requires UniqueIds(rows) && k < |rows| && IsPending(rows[k])
    ensures rows[k] !in Pending(MarkRows(rows, rows[k].id))
    ensures PendingCount(MarkRows(rows, rows[k].id)) == PendingCount(rows) - 1
    ensures PendingAmount(MarkRows(rows, rows[k].id)) == PendingAmount(rows) - rows[k].amount
  {
    var id := rows[k].id;
    var f := (x: Row) => x.id == id;
    MarkPending(rows, id);
    PendingIdAtMostOne(rows, id);
    var w := Where(Pending(rows), f);
    assert rows[k] in Pending(rows);
    SingleMatch(w, rows[k]);
  }

  /** A selection of at most one row that holds `x` is exactly `[x]`. */
  lemma SingleMatch(w: seq<Row>, x: Row)
    requires |w| <= 1 && x in w
    ensures |w| == 1 && Sum(w) == x.amount
  {
    assert w == [x];
  }

  /** "Já Emiti" on an id with no pending row leaves the pending list as it was. */
  lemma {:induction false} MarkNotPending(rows: seq<Row>, id: int)
    requires forall x :: x in Pending(rows) ==> x.id != id
    ensures Pending(MarkRows(rows, id)) == Pending(rows)
  {
    if rows != [] {
      assert MarkRows(rows, id)[1..] == MarkRows(rows[1..], id);
      if IsPending(rows[0]) {
        assert rows[0] in Pending(rows);
      }
      assert forall x :: x in Pending(rows[1..]) ==> x in Pending(rows);
      MarkNotPending(rows[1..], id);
    }
  }
}
