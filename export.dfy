/** The Excel report of the pending sessions: the pending rows projected onto
    three renamed columns, handed to the spreadsheet writer as sheet
    "Pendencias_NF" without the index column. */
module Export {
  import opened Records
  import opened Tables
  import opened Reconciliation

  const SheetName: string := "Pendencias_NF"

  /** `df_export.columns` after the rename of `nome`, `data_consulta`, `valor`. */
  const Header: seq<string> := ["Nome do Paciente", "Data da Sessão", "Valor (R$)"]

  /** One line of the report; the date is the stored value, not the
      DD/MM/YYYY text shown on screen. */
  datatype ReportRow = ReportRow(patientName: string, sessionDate: Date, amount: int)

  datatype Sheet = Sheet(name: string, header: seq<string>, rows: seq<ReportRow>)

  function ToReportRow(x: Row): ReportRow
  {
    ReportRow(x.name, x.date, x.amount)
  }

  /** `df_pendentes[['nome', 'data_consulta', 'valor']]`: one report line per
      row, in the same order. */
  function Project(rows: seq<Row>): (r: seq<ReportRow>)
    ensures |r| == |rows|
    ensures forall i :: 0 <= i < |rows| ==>
              r[i].patientName == rows[i].name && r[i].sessionDate == rows[i].date && r[i].amount == rows[i].amount
  {
    if rows == [] then []
    else
      assert forall i :: 1 <= i < |rows| ==> rows[i] == rows[1..][i - 1];
      [ToReportRow(rows[0])] + Project(rows[1..])
  }

  /** Sum of the "Valor (R$)" column, in cents. */
  function ColumnTotal(rows: seq<ReportRow>): int
  {
    if rows == [] then 0 else rows[0].amount + ColumnTotal(rows[1..])
  }

  /** The report's amount column adds up to the projected rows' amounts. */
  lemma {:induction false} ProjectTotal(rows: seq<Row>)
    ensures ColumnTotal(Project(rows)) == Sum(rows)
  {
    if rows != [] {
      ProjectTotal(rows[1..]);
      assert Project(rows)[1..] == Project(rows[1..]);
    }
  }

  /** The report is offered only while something is pending; it then holds
      the three renamed columns and exactly the pending rows, in the pending
      list's order, so its line count and amount total are the "Sessões s/
      Nota" and "Pendência de NF" figures. */
  function Report(rows: seq<Row>): (r: Option<Sheet>)
    ensures r.None? <==> PendingCount(rows) == 0
    ensures r.Some? ==> r.value.name == SheetName && r.value.header == Header
    ensures r.Some? ==> |r.value.rows| == PendingCount(rows)
    ensures r.Some? ==> ColumnTotal(r.value.rows) == PendingAmount(rows)
    ensures r.Some? ==> forall i :: 0 <= i < |r.value.rows| ==>
              ToReportRow(Pending(rows)[i]) == r.value.rows[i]
    ensures r.Some? && SortedByDateDesc(rows) ==> forall i, j :: 0 <= i < j < |r.value.rows| ==>
              DateLe(r.value.rows[j].sessionDate, r.value.rows[i].sessionDate)
  {
    var pending := Pending(rows);
    if pending == [] then None
    else
      ProjectTotal(pending);
      Some(Sheet(SheetName, Header, Project(pending)))
  }
}
