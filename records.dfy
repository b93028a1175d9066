/** The two tables of the clinic database, `pacientes` and `atendimentos`,
    and the row shape of the joined history query. Money is kept in integer
    cents so that every sum is exact. */
module Records {

  datatype Option<T> = None | Some(value: T)

  /** A calendar date as stored in the `DATE` columns. */
  datatype Date = Date(year: int, month: int, day: int)

  /** Chronological order on dates, which is also the order `ORDER BY` sees on
      the stored `YYYY-MM-DD` text. */
  predicate DateLe(a: Date, b: Date)
  {
    a.year < b.year ||
    (a.year == b.year && (a.month < b.month || (a.month == b.month && a.day <= b.day)))
  }

  lemma DateLeTotal(a: Date, b: Date)
    ensures DateLe(a, b) || DateLe(b, a)
  {
  }

  lemma DateLeTransitive(a: Date, b: Date, c: Date)
    requires DateLe(a, b) && DateLe(b, c)
    ensures DateLe(a, c)
  {
  }

  /** The four values offered by the status selectbox. */
  datatype Status = Realizado | Agendado | Falta | Cancelado

  /** A row of `pacientes`. */
  datatype Patient = Patient(id: int, name: string, birthDate: Date)

  /** A row of `atendimentos`; `amount` is `valor` in cents and
      `invoiceIssued` is the `nota_fiscal` flag. */
  datatype Session = Session(
    id: int,
    patientId: int,
    date: Date,
    status: Status,
    amount: int,
    note: string,
    invoiceIssued: bool)

  /** A row of the joined history query: the session's columns with the
      patient's name in place of the patient id. */
  datatype Row = Row(
    id: int,
    name: string,
    date: Date,
    status: Status,
    note: string,
    invoiceIssued: bool,
    amount: int)

  /** Every amount is non-negative (the amount widget has a minimum of zero). */
  predicate NonNegative(rows: seq<Row>)
  {
    forall x :: x in rows ==> x.amount >= 0
  }

  /** No two rows share a session id. */
  predicate UniqueIds(rows: seq<Row>)
  {
    forall i, j :: 0 <= i < j < |rows| ==> rows[i].id != rows[j].id
  }
}
