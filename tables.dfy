/** Whole-table operations on lists of joined rows, as pandas applies them to
    a DataFrame: boolean-mask selection (`df[mask]`) keeps the selected rows in
    their original order. */
module Tables {
  import opened Records

  /** `a` is an order-preserving subsequence of `b`. */
  predicate SubsequenceOf(a: seq<Row>, b: seq<Row>)
    decreases |b|
  {
    if b == [] then a == []
    else (a != [] && a[0] == b[0] && SubsequenceOf(a[1..], b[1..])) || SubsequenceOf(a, b[1..])
  }

  /** Newest date first, the order of `ORDER BY a.data_consulta DESC`. */
  predicate SortedByDateDesc(rows: seq<Row>)
  {
    forall i, j :: 0 <= i < j < |rows| ==> DateLe(rows[j].date, rows[i].date)
  }

  /** Boolean-mask selection: the rows satisfying `keep`, in order. */
  function Where(rows: seq<Row>, keep: Row -> bool): (r: seq<Row>)
    ensures |r| <= |rows|
    ensures forall x :: x in r <==> x in rows && keep(x)
  {
    if rows == [] then []
    else if keep(rows[0]) then [rows[0]] + Where(rows[1..], keep)
    else Where(rows[1..], keep)
  }

  /** Selection keeps the selected rows in their order. */
  lemma {:induction false} WhereSubsequence(rows: seq<Row>, keep: Row -> bool)
    ensures SubsequenceOf(Where(rows, keep), rows)
  {
    if rows != [] {
      WhereSubsequence(rows[1..], keep);
    }
  }

  lemma {:induction false} SubsequenceMembers(a: seq<Row>, b: seq<Row>)
    requires SubsequenceOf(a, b)
    ensures forall x :: x in a ==> x in b
    decreases |b|
  {
    if b != [] {
      if a != [] && a[0] == b[0] && SubsequenceOf(a[1..], b[1..]) {
        SubsequenceMembers(a[1..], b[1..]);
        assert a == [a[0]] + a[1..];
      } else {
        SubsequenceMembers(a, b[1..]);
      }
    }
  }

  /** A subsequence of a listing sorted newest first is itself sorted newest first. */
  lemma {:induction false} SubsequenceSorted(a: seq<Row>, b: seq<Row>)
    requires SubsequenceOf(a, b) && SortedByDateDesc(b)
    ensures SortedByDateDesc(a)
    decreases |b|
  {
    if b != [] {
      assert SortedByDateDesc(b[1..]);
      if a != [] && a[0] == b[0] && SubsequenceOf(a[1..], b[1..]) {
        SubsequenceSorted(a[1..], b[1..]);
        SubsequenceMembers(a[1..], b[1..]);
        forall i, j | 0 <= i < j < |a| ensures DateLe(a[j].date, a[i].date) {
          if i > 0 {
            assert a[1..][i - 1] == a[i] && a[1..][j - 1] == a[j];
          } else {
            assert a[j] == a[1..][j - 1];
            assert a[j] in b[1..];
          }
        }
      } else {
        SubsequenceSorted(a, b[1..]);
      }
    }
  }

  /** Selection distributes over concatenation. */
  lemma {:induction false} WhereConcat(a: seq<Row>, b: seq<Row>, keep: Row -> bool)
    ensures Where(a + b, keep) == Where(a, keep) + Where(b, keep)
  {
    if a != [] {
      assert (a + b)[1..] == a[1..] + b;
      WhereConcat(a[1..], b, keep);
    } else {
      assert a + b == b;
    }
  }

  /** Selection keeps distinct session ids distinct. */
  lemma {:induction false} WhereUniqueIds(rows: seq<Row>, keep: Row -> bool)
    requires UniqueIds(rows)
    ensures UniqueIds(Where(rows, keep))
  {
    if rows != [] {
      assert UniqueIds(rows[1..]);
      WhereUniqueIds(rows[1..], keep);
      var rest := Where(rows[1..], keep);
      if keep(rows[0]) {
        forall j | 0 <= j < |rest| ensures rest[j].id != rows[0].id {
          assert rest[j] in rows[1..];
        }
        assert Where(rows, keep) == [rows[0]] + rest;
      }
    }
  }
}
