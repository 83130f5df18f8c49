/** The records the application exchanges with its backend: a row of the `Funcionarios`
    table and the badge (`crachá`) record with the employee columns embedded in it. */
module Types {
  import opened Wrappers

  /** An employee's status. The database also holds the legacy value `Suspenso`. */
  datatype Status = Ativo | Inativo | Suspenso

  /** A row of the `Funcionarios` table. Dates are kept as the strings the backend returns. */
  datatype Employee = Employee(
    id: int,
    nome: string,
    email: string,
    biNr: string,
    role: Option<string>,
    departmento: Option<string>,
    unidadeNegocio: Option<string>,
    telefone: Option<string>,
    status: Status,
    expiryDate: Option<string>,
    photoUrl: Option<string>,
    createdAt: string)

  /** The employee columns shown when a badge is validated. */
  datatype EmployeeSnapshot = EmployeeSnapshot(
    nome: string,
    photoUrl: Option<string>,
    role: Option<string>,
    status: Status,
    expiryDate: Option<string>)

  /** A badge as the validation page receives it. */
  datatype Cracha = Cracha(
    id: string,
    funcionarioId: int,
    issuedAt: string,
    isActive: bool,
    funcionarios: EmployeeSnapshot)

  function Snapshot(e: Employee): EmployeeSnapshot
  {
    EmployeeSnapshot(e.nome, e.photoUrl, e.role, e.status, e.expiryDate)
  }

  /** How the backend answered a read: rows, a reply without rows, or an error. */
  datatype ReadReply = Delivered | NoData | Failed(message: string)

  /** How the backend answered a write it could not perform. A unique or primary-key
      violation carries the PostgreSQL code `23505`; every other failure is `OtherError`. */
  datatype DbError = UniqueViolation | OtherError(message: string)
}
