/** The clinic database: the `pacientes` and `atendimentos` tables with their
    AUTOINCREMENT counters, the three writes the pages make (patient intake,
    session record, "Já Emiti"), and the walk over the pending rows that
    triggers the last one. */
module Store {
  import opened Records
  import opened Tables
  import opened Listing
  import opened Reconciliation

  /** `df_pacientes[df_pacientes['nome'] == opcao]['id'].values[0]`: the id of
      the first patient, in table order, with the selected name. */
  function PatientIdFor(ps: seq<Patient>, name: string): (r: Option<int>)
    ensures r.Some? <==> exists i :: 0 <= i < |ps| && ps[i].name == name
    ensures r.Some? ==> exists i :: 0 <= i < |ps| && ps[i].name == name && ps[i].id == r.value &&
                                    forall j :: 0 <= j < i ==> ps[j].name != name
  {
    if ps == [] then None
    else if ps[0].name == name then Some(ps[0].id)
    else
      var r := PatientIdFor(ps[1..], name);
      assert forall i :: 1 <= i < |ps| ==> ps[i] == ps[1..][i - 1];
      r
  }

  /** The id picked for a selected name belongs to a stored patient. */
  lemma {:induction false} PatientIdForStored(ps: seq<Patient>, name: string)
    requires PatientIdFor(ps, name).Some?
    ensures PatientName(ps, PatientIdFor(ps, name).value).Some?
  {
    var i :| 0 <= i < |ps| && ps[i].name == name && ps[i].id == PatientIdFor(ps, name).value;
    PatientNameFound(ps, PatientIdFor(ps, name).value);
  }

  /** `UPDATE atendimentos SET nota_fiscal = 1 WHERE id = ?` on one row. */
  function MarkSession(s: Session, id: int): Session
  {
    if s.id == id then s.(invoiceIssued := true) else s
  }

  /** The same update on the whole table: the flag is raised on the rows with
      that id, and no other field or row changes. */
  function MarkSessions(ss: seq<Session>, id: int): (r: seq<Session>)
    ensures |r| == |ss|
    ensures forall i :: 0 <= i < |ss| ==>
              r[i].invoiceIssued == (ss[i].invoiceIssued || ss[i].id == id) &&
              r[i].(invoiceIssued := ss[i].invoiceIssued) == ss[i]
  {
    if ss == [] then []
    else
      var rest := MarkSessions(ss[1..], id);
      assert forall i :: 1 <= i < |ss| ==> ss[i] == ss[1..][i - 1];
      [MarkSession(ss[0], id)] + rest
  }

  /** Running the update twice leaves the table as running it once. */
  lemma {:induction false} MarkSessionsIdempotent(ss: seq<Session>, id: int)
    ensures MarkSessions(MarkSessions(ss, id), id) == MarkSessions(ss, id)
  {
    if ss != [] {
      MarkSessionsIdempotent(ss[1..], id);
    }
  }

  /** The update with an id no row carries changes nothing. */
  lemma {:induction false} MarkSessionsUnknownId(ss: seq<Session>, id: int)
    requires forall s :: s in ss ==> s.id != id
    ensures MarkSessions(ss, id) == ss
  {
    if ss != [] {
      assert ss[0] in ss;
      MarkSessionsUnknownId(ss[1..], id);
    }
  }

  /** Updating the table and then joining is joining and then updating. */
  lemma {:induction false} JoinMarked(ps: seq<Patient>, ss: seq<Session>, id: int)
    ensures JoinRows(ps, MarkSessions(ss, id)) == MarkRows(JoinRows(ps, ss), id)
  {
    if ss != [] {
      JoinMarked(ps, ss[1..], id);
      assert MarkSessions(ss, id)[1..] == MarkSessions(ss[1..], id);
      match PatientName(ps, ss[0].patientId)
      case None =>
      case Some(n) =>
        assert JoinRows(ps, ss) == [JoinRow(ss[0], n)] + JoinRows(ps, ss[1..]);
        assert MarkRows(JoinRows(ps, ss), id)[1..] == MarkRows(JoinRows(ps, ss[1..]), id);
    }
  }

  /** The history after the update is the history before with the flag raised
      on the rows of that id; dates, and so the order, do not move. */
  lemma HistoryMarked(ps: seq<Patient>, ss: seq<Session>, id: int)
    ensures History(ps, MarkSessions(ss, id)) == MarkRows(History(ps, ss), id)
  {
    JoinMarked(ps, ss, id);
    MarkSort(JoinRows(ps, ss), id);
  }

  /** A new patient with an id no session references leaves every session's
      patient lookup, and so the join, as it was. */
  lemma {:induction false} PatientNameSnoc(ps: seq<Patient>, p: Patient, pid: int)
    requires PatientName(ps, pid).Some?
    ensures PatientName(ps + [p], pid) == PatientName(ps, pid)
  {
    if ps[0].id != pid {
      assert (ps + [p])[1..] == ps[1..] + [p];
      PatientNameSnoc(ps[1..], p, pid);
    }
  }

  lemma {:induction false} JoinNewPatient(ps: seq<Patient>, p: Patient, ss: seq<Session>)
    requires Referenced(ps, ss)
    ensures JoinRows(ps + [p], ss) == JoinRows(ps, ss)
  {
    if ss != [] {
      PatientNameSnoc(ps, p, ss[0].patientId);
      assert Referenced(ps, ss[1..]) by {
        forall i | 0 <= i < |ss[1..]| ensures PatientName(ps, ss[1..][i].patientId).Some? {
          assert ss[1..][i] == ss[i + 1];
        }
      }
      JoinNewPatient(ps, p, ss[1..]);
    }
  }

  /** The first pending row, in listing order, whose "Já Emiti" button reports
      a click; the page updates that row and reruns, so no later row is seen. */
  function FirstClicked(rows: seq<Row>, clicked: set<int>): (r: Option<int>)
    ensures r.None? <==> forall x :: x in rows ==> x.id !in clicked
    ensures r.Some? ==> (r.value in clicked &&
              exists i :: 0 <= i < |rows| && rows[i].id == r.value &&
                          forall j :: 0 <= j < i ==> rows[j].id !in clicked)
  {
    if rows == [] then None
    else if rows[0].id in clicked then Some(rows[0].id)
    else
      var r := FirstClicked(rows[1..], clicked);
      assert forall i :: 1 <= i < |rows| ==> rows[i] == rows[1..][i - 1];
      r
  }

  /** The database invariant: ids are positive, increasing in table order and
      never above their AUTOINCREMENT counter; amounts are non-negative; every
      session references a stored patient. */
  ghost predicate Consistent(ps: seq<Patient>, ss: seq<Session>, patientSeq: int, sessionSeq: int)
  {
    0 <= patientSeq && 0 <= sessionSeq &&
    (forall i :: 0 <= i < |ps| ==> 0 < ps[i].id <= patientSeq) &&
    (forall i, j :: 0 <= i < j < |ps| ==> ps[i].id < ps[j].id) &&
    (forall i :: 0 <= i < |ss| ==> 0 < ss[i].id <= sessionSeq) &&
    IdsIncreasing(ss) &&
    (forall i :: 0 <= i < |ss| ==> ss[i].amount >= 0) &&
    Referenced(ps, ss)
  }

  /** Storing a named patient under the next id keeps the invariant and
      leaves the history listing as it was. */
  lemma AddPatientKeeps(ps: seq<Patient>, ss: seq<Session>, patientSeq: int, sessionSeq: int, p: Patient)
    requires Consistent(ps, ss, patientSeq, sessionSeq)
    requires p.id == patientSeq + 1
    ensures Consistent(ps + [p], ss, patientSeq + 1, sessionSeq)
    ensures forall q :: q in ps ==> q.id < p.id
    ensures History(ps + [p], ss) == History(ps, ss)
  {
    JoinNewPatient(ps, p, ss);
    forall i | 0 <= i < |ss| ensures PatientName(ps + [p], ss[i].patientId).Some? {
      PatientNameSnoc(ps, p, ss[i].patientId);
    }
  }

  /** Storing a session of a stored patient under the next id keeps the
      invariant. */
  lemma SaveSessionKeeps(ps: seq<Patient>, ss: seq<Session>, patientSeq: int, sessionSeq: int, s: Session)
    requires Consistent(ps, ss, patientSeq, sessionSeq)
    requires s.id == sessionSeq + 1 && s.amount >= 0 && PatientName(ps, s.patientId).Some?
    ensures Consistent(ps, ss + [s], patientSeq, sessionSeq + 1)
    ensures forall t :: t in ss ==> t.id < s.id
  {
    var ss' := ss + [s];
    assert forall i :: 0 <= i < |ss| ==> ss'[i] == ss[i];
  }

  /** Storing a session moves each figure by the session's own contribution:
      a session that is not `Realizado` moves none of them. */
  lemma SaveSessionTotals(ps: seq<Patient>, ss: seq<Session>, s: Session)
    requires PatientName(ps, s.patientId).Some?
    ensures TotalBilled(History(ps, ss + [s])) ==
            TotalBilled(History(ps, ss)) + (if s.status == Realizado then s.amount else 0)
    ensures PendingAmount(History(ps, ss + [s])) ==
            PendingAmount(History(ps, ss)) + (if s.status == Realizado && !s.invoiceIssued then s.amount else 0)
    ensures PendingCount(History(ps, ss + [s])) ==
            PendingCount(History(ps, ss)) + (if s.status == Realizado && !s.invoiceIssued then 1 else 0)
  {
    var n := PatientName(ps, s.patientId).value;
    JoinRowsSnoc(ps, ss, s);
    HistoryTotals(ps, ss);
    HistoryTotals(ps, ss + [s]);
    TotalsSnoc(JoinRows(ps, ss), JoinRow(s, n));
  }

  /** The update keeps the invariant. */
  lemma MarkKeeps(ps: seq<Patient>, ss: seq<Session>, patientSeq: int, sessionSeq: int, id: int)
    requires Consistent(ps, ss, patientSeq, sessionSeq)
    ensures Consistent(ps, MarkSessions(ss, id), patientSeq, sessionSeq)
  {
    var marked := MarkSessions(ss, id);
    assert forall i :: 0 <= i < |ss| ==>
      marked[i].id == ss[i].id && marked[i].patientId == ss[i].patientId && marked[i].amount == ss[i].amount;
  }

  /** Every amount in the listing comes from a stored session, so on a
      consistent database the pending amount is between zero and the billed
      total. */
  lemma ConsistentTotals(ps: seq<Patient>, ss: seq<Session>, patientSeq: int, sessionSeq: int)
    requires Consistent(ps, ss, patientSeq, sessionSeq)
    ensures NonNegative(History(ps, ss))
    ensures 0 <= PendingAmount(History(ps, ss)) <= TotalBilled(History(ps, ss))
  {
    HistoryMembers(ps, ss);
    TotalsBounds(History(ps, ss));
  }

  /** With two patients of the same name, a session recorded for the later
      one is stored under the earlier one's id: the selectbox yields only the
      name. */
  lemma HomonymGoesToFirst(ps: seq<Patient>, i: nat, j: nat)
    requires i < j < |ps| && ps[i].name == ps[j].name
    requires forall a, b :: 0 <= a < b < |ps| ==> ps[a].id < ps[b].id
    ensures PatientIdFor(ps, ps[j].name).Some?
    ensures PatientIdFor(ps, ps[j].name).value != ps[j].id
  {
    var k :| 0 <= k < |ps| && ps[k].name == ps[j].name && ps[k].id == PatientIdFor(ps, ps[j].name).value &&
             forall m :: 0 <= m < k ==> ps[m].name != ps[j].name;
    assert k <= i;
  }

  class Clinic {
    /** The `pacientes` table, in table order. */
    var patients: seq<Patient>
    /** The `atendimentos` table, in table order. */
    var sessions: seq<Session>
    /** The AUTOINCREMENT counters: the largest id ever handed out. */
    var patientSeq: int
    var sessionSeq: int

    ghost predicate Valid()
      reads this
    {
      Consistent(patients, sessions, patientSeq, sessionSeq)
    }

    /** The result of the history query on the current tables. */
    function HistoryRows(): seq<Row>
      reads this
    {
      History(patients, sessions)
    }

    /** A fresh database: both tables empty. */
    constructor ()
      ensures Valid()
      ensures patients == [] && sessions == []
      ensures patientSeq == 0 && sessionSeq == 0
    {
      patients, sessions := [], [];
      patientSeq, sessionSeq := 0, 0;
    }

    /** "Salvar Paciente": stores the patient only when the name is not empty,
        under the next id; nothing else changes. */
    method AddPatient(name: string, birthDate: Date) returns (id: Option<int>)
      requires Valid()
      modifies this
      ensures Valid()
      ensures name == "" ==> id == None && patients == old(patients) && patientSeq == old(patientSeq)
      ensures name != "" ==> id == Some(old(patientSeq) + 1) &&
                             patients == old(patients) + [Patient(old(patientSeq) + 1, name, birthDate)] &&
                             patientSeq == old(patientSeq) + 1
      ensures id.Some? ==> forall p :: p in old(patients) ==> p.id < id.value
      ensures sessions == old(sessions) && sessionSeq == old(sessionSeq)
      ensures HistoryRows() == old(HistoryRows())
    {
      if name == "" {
        return None;
      }
      var p := Patient(patientSeq + 1, name, birthDate);
      AddPatientKeeps(patients, sessions, patientSeq, sessionSeq, p);
      patients, patientSeq := patients + [p], patientSeq + 1;
      id := Some(p.id);
    }

    /** "Salvar Sessão": stores the session under the next id for the first
        patient with the selected name. With no such patient (the page then
        shows no form) nothing is stored. The three figures move by exactly
        the new session's own contribution. */
    method SaveSession(selected: string, date: Date, status: Status, amount: int, note: string, issued: bool)
      returns (id: Option<int>)
      requires Valid()
      requires amount >= 0
      modifies this
      ensures Valid()
      ensures PatientIdFor(old(patients), selected).None? ==>
                id == None && sessions == old(sessions) && sessionSeq == old(sessionSeq)
      ensures PatientIdFor(old(patients), selected).Some? ==>
                id == Some(old(sessionSeq) + 1) && sessionSeq == old(sessionSeq) + 1 &&
                sessions == old(sessions) + [Session(old(sessionSeq) + 1, PatientIdFor(old(patients), selected).value,
                                                     date, status, amount, note, issued)]
      ensures id.Some? ==> forall s :: s in old(sessions) ==> s.id < id.value
      ensures patients == old(patients) && patientSeq == old(patientSeq)
      ensures TotalBilled(HistoryRows()) ==
              old(TotalBilled(HistoryRows())) + (if id.Some? && status == Realizado then amount else 0)
      ensures PendingAmount(HistoryRows()) ==
              old(PendingAmount(HistoryRows())) + (if id.Some? && status == Realizado && !issued then amount else 0)
      ensures PendingCount(HistoryRows()) ==
              old(PendingCount(HistoryRows())) + (if id.Some? && status == Realizado && !issued then 1 else 0)
    {
      var pid := PatientIdFor(patients, selected);
      if pid.None? {
        return None;
      }
      var s := Session(sessionSeq + 1, pid.value, date, status, amount, note, issued);
      PatientIdForStored(patients, selected);
      SaveSessionKeeps(patients, sessions, patientSeq, sessionSeq, s);
      SaveSessionTotals(patients, sessions, s);
      sessions, sessionSeq := sessions + [s], sessionSeq + 1;
      id := Some(s.id);
    }

    /** "Já Emiti": raises the invoice flag of the session with that id and
        changes nothing else; the listing afterwards is the listing before
        with that row's flag raised (see MarkPendingRow, MarkNotPending and
        MarkKeepsTotalBilled for what that does to the figures). An unknown id
        changes nothing. */
    method MarkIssued(id: int)
      requires Valid()
      modifies this
      ensures Valid()
      ensures sessions == MarkSessions(old(sessions), id)
      ensures patients == old(patients) && patientSeq == old(patientSeq) && sessionSeq == old(sessionSeq)
      ensures (forall s :: s in old(sessions) ==> s.id != id) ==> sessions == old(sessions)
      ensures HistoryRows() == MarkRows(old(HistoryRows()), id)
    {
      MarkKeeps(patients, sessions, patientSeq, sessionSeq, id);
      HistoryMarked(patients, sessions, id);
      if forall s :: s in sessions ==> s.id != id {
        MarkSessionsUnknownId(sessions, id);
      }
      sessions := MarkSessions(sessions, id);
    }

    /** The loop over the pending rows: the first row whose button reports a
        click is marked as issued and the walk stops (the page reruns). */
    method ReviewPending(clicked: set<int>) returns (issued: Option<int>)
      requires Valid()
      modifies this
      ensures Valid()
      ensures issued == FirstClicked(old(Pending(HistoryRows())), clicked)
      ensures issued.None? ==> sessions == old(sessions)
      ensures issued.Some? ==> sessions == MarkSessions(old(sessions), issued.value)
      ensures patients == old(patients) && patientSeq == old(patientSeq) && sessionSeq == old(sessionSeq)
    {
      var pending := Pending(HistoryRows());
      var i := 0;
      while i < |pending|
        invariant 0 <= i <= |pending|
        invariant FirstClicked(pending[i..], clicked) == FirstClicked(pending, clicked)
      {
        assert pending[i..][1..] == pending[i + 1..];
        if pending[i].id in clicked {
          MarkIssued(pending[i].id);
          return Some(pending[i].id);
        }
        i := i + 1;
      }
      return None;
    }
  }
}
