/** The history query of the "Histórico e Análise" page: sessions inner-joined
    with their patient, newest date first, and the patient-name filter of the
    "Prontuários" tab. */
module Listing {
  import opened Records
  import opened Tables

  /** The name of the patient with id `pid`, if there is one. */
  function PatientName(ps: seq<Patient>, pid: int): Option<string>
  {
    if ps == [] then None
    else if ps[0].id == pid then Some(ps[0].name)
    else PatientName(ps[1..], pid)
  }

  /** The lookup finds a name exactly when a patient has that id, and the
      name it finds is that of the first such patient. */
  lemma {:induction false} PatientNameFound(ps: seq<Patient>, pid: int)
    ensures PatientName(ps, pid).Some? <==> exists i :: 0 <= i < |ps| && ps[i].id == pid
    ensures PatientName(ps, pid).Some? ==>
              exists i :: 0 <= i < |ps| && ps[i].id == pid && ps[i].name == PatientName(ps, pid).value &&
                          forall j :: 0 <= j < i ==> ps[j].id != pid
  {
    if ps != [] && ps[0].id != pid {
      PatientNameFound(ps[1..], pid);
      assert forall i :: 1 <= i < |ps| ==> ps[i] == ps[1..][i - 1];
      if PatientName(ps, pid).Some? {
        var i :| 0 <= i < |ps[1..]| && ps[1..][i].id == pid && ps[1..][i].name == PatientName(ps, pid).value &&
                 forall j :: 0 <= j < i ==> ps[1..][j].id != pid;
        assert ps[i + 1] == ps[1..][i];
        assert forall j :: 1 <= j < i + 1 ==> ps[j] == ps[1..][j - 1];
      }
    }
  }

  /** The joined row for session `s` of the patient called `name`. */
  function JoinRow(s: Session, name: string): Row
  {
    Row(s.id, name, s.date, s.status, s.note, s.invoiceIssued, s.amount)
  }

  /** Ids strictly increasing in table order, as AUTOINCREMENT assigns them. */
  predicate IdsIncreasing(ss: seq<Session>)
  {
    forall i, j :: 0 <= i < j < |ss| ==> ss[i].id < ss[j].id
  }

  /** Every session references a stored patient. */
  predicate Referenced(ps: seq<Patient>, ss: seq<Session>)
  {
    forall i :: 0 <= i < |ss| ==> PatientName(ps, ss[i].patientId).Some?
  }

  /** `atendimentos a JOIN pacientes p ON a.paciente_id = p.id`, in table order:
      one row per session whose patient exists, none for an orphan session. */
  function JoinRows(ps: seq<Patient>, ss: seq<Session>): seq<Row>
  {
    if ss == [] then []
    else
      var rest := JoinRows(ps, ss[1..]);
      match PatientName(ps, ss[0].patientId)
      case None => rest
      case Some(n) => [JoinRow(ss[0], n)] + rest
  }

  /** The join has at most one row per session, and exactly one when no
      session is orphaned. */
  lemma {:induction false} JoinRowsLength(ps: seq<Patient>, ss: seq<Session>)
    ensures |JoinRows(ps, ss)| <= |ss|
    ensures Referenced(ps, ss) ==> |JoinRows(ps, ss)| == |ss|
  {
    if ss != [] {
      assert Referenced(ps, ss) ==> Referenced(ps, ss[1..]) by {
        assert forall i :: 1 <= i < |ss| ==> ss[i] == ss[1..][i - 1];
      }
      JoinRowsLength(ps, ss[1..]);
    }
  }

  /** The inner join holds the row of every session whose patient exists and
      nothing else. */
  lemma {:induction false} JoinRowsMembers(ps: seq<Patient>, ss: seq<Session>)
    ensures forall i :: 0 <= i < |ss| && PatientName(ps, ss[i].patientId).Some? ==>
              JoinRow(ss[i], PatientName(ps, ss[i].patientId).value) in JoinRows(ps, ss)
    ensures forall x :: x in JoinRows(ps, ss) ==>
              exists i :: 0 <= i < |ss| && PatientName(ps, ss[i].patientId) == Some(x.name) && x == JoinRow(ss[i], x.name)
  {
    if ss != [] {
      JoinRowsMembers(ps, ss[1..]);
      assert forall i :: 1 <= i < |ss| ==> ss[i] == ss[1..][i - 1];
    }
  }

  /** Appending a session appends its joined row, or nothing for an orphan. */
  lemma {:induction false} JoinRowsSnoc(ps: seq<Patient>, ss: seq<Session>, s: Session)
    ensures JoinRows(ps, ss + [s]) ==
            JoinRows(ps, ss) + (match PatientName(ps, s.patientId)
                                case None => []
                                case Some(n) => [JoinRow(s, n)])
  {
    if ss != [] {
      assert (ss + [s])[1..] == ss[1..] + [s];
      JoinRowsSnoc(ps, ss[1..], s);
    } else {
      assert ss + [s] == [s];
    }
  }

  /** Distinct session ids give distinct row ids in the join. */
  lemma {:induction false} JoinRowsUniqueIds(ps: seq<Patient>, ss: seq<Session>)
    requires IdsIncreasing(ss)
    ensures UniqueIds(JoinRows(ps, ss))
  {
    if ss != [] {
      assert IdsIncreasing(ss[1..]);
      JoinRowsUniqueIds(ps, ss[1..]);
      JoinRowsMembers(ps, ss[1..]);
      var rest := JoinRows(ps, ss[1..]);
      forall x | x in rest ensures x.id > ss[0].id {
        var i :| 0 <= i < |ss[1..]| && x == JoinRow(ss[1..][i], x.name);
        assert ss[1..][i] == ss[i + 1];
      }
      match PatientName(ps, ss[0].patientId)
      case None =>
      case Some(n) =>
        assert JoinRows(ps, ss) == [JoinRow(ss[0], n)] + rest;
        forall j | 0 <= j < |rest| ensures rest[j].id != ss[0].id {
          assert rest[j] in rest;
        }
    }
  }

  /** Puts `x` before the first row that is not newer than it. */
  function InsertByDate(x: Row, rows: seq<Row>): (r: seq<Row>)
    ensures multiset(r) == multiset(rows) + multiset{x}
  {
    if rows == [] || DateLe(rows[0].date, x.date) then [x] + rows
    else
      assert rows == [rows[0]] + rows[1..];
      [rows[0]] + InsertByDate(x, rows[1..])
  }

  lemma {:induction false} InsertByDateSorted(x: Row, rows: seq<Row>)
    requires SortedByDateDesc(rows)
    ensures SortedByDateDesc(InsertByDate(x, rows))
  {
    if rows == [] || DateLe(rows[0].date, x.date) {
      forall j | 1 <= j < |rows| + 1 ensures DateLe(([x] + rows)[j].date, x.date) {
        DateLeTransitive(rows[j - 1].date, rows[0].date, x.date);
      }
    } else {
      DateLeTotal(x.date, rows[0].date);
      assert SortedByDateDesc(rows[1..]);
      InsertByDateSorted(x, rows[1..]);
      var tail := InsertByDate(x, rows[1..]);
      forall j | 0 <= j < |tail| ensures DateLe(tail[j].date, rows[0].date) {
        assert tail[j] in multiset(tail);
        if tail[j] != x {
          assert tail[j] in rows[1..];
        }
      }
    }
  }

  /** Insertion keeps distinct ids distinct. */
  lemma {:induction false} InsertByDateUniqueIds(x: Row, rows: seq<Row>)
    requires UniqueIds([x] + rows)
    ensures UniqueIds(InsertByDate(x, rows))
  {
    if !(rows == [] || DateLe(rows[0].date, x.date)) {
      assert UniqueIds([x] + rows[1..]) by {
        forall i, j | 0 <= i < j < |rows| ensures ([x] + rows[1..])[i].id != ([x] + rows[1..])[j].id {
          assert ([x] + rows[1..])[j] == ([x] + rows)[j + 1];
          if i > 0 {
            assert ([x] + rows[1..])[i] == ([x] + rows)[i + 1];
          } else {
            assert ([x] + rows[1..])[0] == ([x] + rows)[0];
          }
        }
      }
      InsertByDateUniqueIds(x, rows[1..]);
      var tail := InsertByDate(x, rows[1..]);
      forall j | 0 <= j < |tail| ensures tail[j].id != rows[0].id {
        assert tail[j] in multiset(tail);
        if tail[j] != x {
          assert tail[j] in rows[1..];
          var k :| 0 <= k < |rows[1..]| && rows[1..][k] == tail[j];
          assert ([x] + rows)[k + 2] == tail[j];
          assert ([x] + rows)[1] == rows[0];
        } else {
          assert ([x] + rows)[0] == x;
          assert ([x] + rows)[1] == rows[0];
        }
      }
    }
  }

  /** `ORDER BY data_consulta DESC`: a stable insertion sort, newest first.
      SQL fixes no order among rows of the same date; this sort keeps their
      table order, which is one of the orders the database may return. */
  function SortByDateDesc(rows: seq<Row>): seq<Row>
  {
    if rows == [] then [] else InsertByDate(rows[0], SortByDateDesc(rows[1..]))
  }

  /** The sorted listing is newest first and holds the same rows. */
  lemma {:induction false} SortByDateDescSpec(rows: seq<Row>)
    ensures multiset(SortByDateDesc(rows)) == multiset(rows)
    ensures SortedByDateDesc(SortByDateDesc(rows))
  {
    if rows != [] {
      SortByDateDescSpec(rows[1..]);
      assert rows == [rows[0]] + rows[1..];
      InsertByDateSorted(rows[0], SortByDateDesc(rows[1..]));
    }
  }

  /** Sorting keeps distinct ids distinct. */
  lemma {:induction false} SortByDateDescUniqueIds(rows: seq<Row>)
    requires UniqueIds(rows)
    ensures UniqueIds(SortByDateDesc(rows))
  {
    if rows != [] {
      var sorted := SortByDateDesc(rows[1..]);
      SortByDateDescSpec(rows[1..]);
      assert UniqueIds(rows[1..]);
      SortByDateDescUniqueIds(rows[1..]);
      assert UniqueIds([rows[0]] + sorted) by {
        forall j | 0 <= j < |sorted| ensures sorted[j].id != rows[0].id {
          assert sorted[j] in multiset(rows[1..]);
          var k :| 0 <= k < |rows[1..]| && rows[1..][k] == sorted[j];
          assert rows[k + 1] == sorted[j];
        }
      }
      InsertByDateUniqueIds(rows[0], sorted);
    }
  }

  /** The history query: the inner join, newest session first. */
  function History(ps: seq<Patient>, ss: seq<Session>): seq<Row>
  {
    SortByDateDesc(JoinRows(ps, ss))
  }

  /** The listing is newest first, holds the rows of the inner join and no
      others (as a multiset), one per session when no session is orphaned,
      and its ids are distinct when the table's are. */
  lemma HistoryShape(ps: seq<Patient>, ss: seq<Session>)
    ensures SortedByDateDesc(History(ps, ss))
    ensures multiset(History(ps, ss)) == multiset(JoinRows(ps, ss))
    ensures Referenced(ps, ss) ==> |History(ps, ss)| == |ss|
    ensures IdsIncreasing(ss) ==> UniqueIds(History(ps, ss))
  {
    if IdsIncreasing(ss) {
      JoinRowsUniqueIds(ps, ss);
      SortByDateDescUniqueIds(JoinRows(ps, ss));
    }
    JoinRowsLength(ps, ss);
    SortByDateDescSpec(JoinRows(ps, ss));
    assert |History(ps, ss)| == |multiset(History(ps, ss))|;
  }

  /** The listing shows every session whose patient exists, with that
      patient's name, and nothing else: an orphan session never appears. */
  lemma HistoryMembers(ps: seq<Patient>, ss: seq<Session>)
    ensures forall i :: 0 <= i < |ss| && PatientName(ps, ss[i].patientId).Some? ==>
              JoinRow(ss[i], PatientName(ps, ss[i].patientId).value) in History(ps, ss)
    ensures forall x :: x in History(ps, ss) ==>
              exists i :: 0 <= i < |ss| && PatientName(ps, ss[i].patientId) == Some(x.name) && x == JoinRow(ss[i], x.name)
  {
    JoinRowsMembers(ps, ss);
    SortByDateDescSpec(JoinRows(ps, ss));
    SameMembers(JoinRows(ps, ss), History(ps, ss));
  }

  lemma SameMembers(a: seq<Row>, b: seq<Row>)
    requires multiset(a) == multiset(b)
    ensures forall x :: x in a <==> x in b
  {
    forall x ensures x in a <==> x in b {
      assert x in a <==> x in multiset(a);
      assert x in b <==> x in multiset(b);
    }
  }

  /** The patient filter: "Todos" shows every row, any other choice exactly
      the rows of that name, in listing order. */
  function FilterByName(rows: seq<Row>, choice: string): (r: seq<Row>)
    ensures choice == "Todos" ==> r == rows
    ensures choice != "Todos" ==> forall x :: x in r <==> x in rows && x.name == choice
    ensures SubsequenceOf(r, rows)
    ensures SortedByDateDesc(rows) ==> SortedByDateDesc(r)
  {
    if choice == "Todos" then
      SubsequenceOfSelf(rows);
      rows
    else
      var r := Where(rows, (x: Row) => x.name == choice);
      WhereSubsequence(rows, (x: Row) => x.name == choice);
      if SortedByDateDesc(rows) then
        SubsequenceSorted(r, rows);
        r
      else
        r
  }

  lemma {:induction false} SubsequenceOfSelf(rows: seq<Row>)
    ensures SubsequenceOf(rows, rows)
  {
    if rows != [] {
      SubsequenceOfSelf(rows[1..]);
    }
  }

  /** `df_view['nome'].unique()`: the names of the listing, each once, in order
      of first appearance. */
  function UniqueNames(rows: seq<Row>): (r: seq<string>)
    ensures forall n :: n in r <==> exists i :: 0 <= i < |rows| && rows[i].name == n
    ensures forall i, j :: 0 <= i < j < |r| ==> r[i] != r[j]
    ensures rows != [] ==> |r| > 0 && r[0] == rows[0].name
  {
    if rows == [] then []
    else
      var init := rows[..|rows| - 1];
      var u := UniqueNames(init);
      assert forall i :: 0 <= i < |init| ==> init[i] == rows[i];
      if rows[|rows| - 1].name in u then u else u + [rows[|rows| - 1].name]
  }

  /** The index of the first row with name `n`, or `|rows|` when there is none. */
  function FirstAt(rows: seq<Row>, n: string): (k: nat)
    ensures k <= |rows|
    ensures forall m :: 0 <= m < k ==> rows[m].name != n
    ensures k < |rows| ==> rows[k].name == n
  {
    if rows == [] then 0
    else if rows[0].name == n then 0
    else
      assert forall m :: 1 <= m < |rows| ==> rows[m] == rows[1..][m - 1];
      1 + FirstAt(rows[1..], n)
  }

  /** A name already present in a prefix is first met within that prefix. */
  lemma FirstAtPrefix(rows: seq<Row>, x: Row, n: string)
    requires FirstAt(rows, n) < |rows|
    ensures FirstAt(rows + [x], n) == FirstAt(rows, n)
  {
    var k := FirstAt(rows, n);
    assert (rows + [x])[k] == rows[k];
    assert forall m :: 0 <= m < k ==> (rows + [x])[m] == rows[m];
  }

  /** `unique()` lists the names in order of first appearance. */
  lemma {:induction false} UniqueNamesOrder(rows: seq<Row>)
    ensures forall i, j :: 0 <= i < j < |UniqueNames(rows)| ==>
              FirstAt(rows, UniqueNames(rows)[i]) < FirstAt(rows, UniqueNames(rows)[j])
  {
    if rows != [] {
      var init, x := rows[..|rows| - 1], rows[|rows| - 1];
      var u := UniqueNames(init);
      UniqueNamesOrder(init);
      assert rows == init + [x];
      forall n | n in u
        ensures FirstAt(rows, n) == FirstAt(init, n) < |init|
      {
        var i :| 0 <= i < |init| && init[i].name == n;
        FirstAtPrefix(init, x, n);
      }
      if x.name !in u {
        assert FirstAt(rows, x.name) == |init| by {
          forall m | 0 <= m < |init| ensures rows[m].name != x.name {
            assert init[m] == rows[m];
          }
        }
      }
    }
  }

  /** The options of the patient filter selectbox. */
  function FilterOptions(rows: seq<Row>): (r: seq<string>)
    ensures |r| > 0 && r[0] == "Todos"
    ensures forall i :: 0 <= i < |rows| ==> rows[i].name in r
    ensures forall n :: n in r ==> n == "Todos" || exists i :: 0 <= i < |rows| && rows[i].name == n
  {
    ["Todos"] + UniqueNames(rows)
  }
}
