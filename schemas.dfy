/** The new-employee form schema (src/lib/schemas.ts) as a validator. Every field is
    checked and every failing field contributes an issue; the form values come out only
    when there is no issue. A field of the raw form is absent (`undefined`), `null` or a
    given value. The e-mail format test is a regular expression of the validation library
    and is a parameter here. */
module Schemas {
  import opened Wrappers
  import opened Types

  datatype Raw<T> = Absent | Null | Given(value: T)

  /** A calendar date as the date picker hands it over; its contents are not inspected. */
  type Date = string

  /** The form as submitted. */
  datatype FormInput = FormInput(
    nome: Raw<string>,
    email: Raw<string>,
    biNr: Raw<string>,
    role: Raw<string>,
    departmento: Raw<string>,
    unidadeNegocio: Raw<string>,
    telefone: Raw<string>,
    expiryDate: Raw<Date>,
    status: Raw<string>,
    photoUrl: Raw<string>)

  /** The validated form values. */
  datatype FormValues = FormValues(
    nome: string,
    email: string,
    biNr: string,
    role: Option<string>,
    departmento: Option<string>,
    unidadeNegocio: Option<string>,
    telefone: Option<string>,
    expiryDate: Raw<Date>,
    status: Status,
    photoUrl: Raw<string>)

  /** What went wrong with a field: missing, not a string, not one of the listed values,
      or a rule with the schema's own message. */
  datatype Problem = Required | WrongType | InvalidOption | Message(text: string)

  /** The form fields, named in the issue's path by their column names. */
  datatype Field = Nome | Email | BiNr | Role | Departmento | UnidadeNegocio | Telefone | StatusField

  datatype Issue = Issue(path: Field, problem: Problem)

  const NomeMessage: string := "O nome completo é obrigatório."
  const EmailRequired: string := "O email é obrigatório."
  const EmailFormat: string := "Formato de email inválido."
  const BiNrMessage: string := "O Nº do Documento é obrigatório."

  /** The full name: a required text of at least two characters. */
  function NomeIssues(v: Raw<string>): (r: seq<Issue>)
    ensures forall f :: f in Paths(r) <==> f == Nome && !(v.Given? && |v.value| >= 2)
  {
    match v
    case Absent => [Issue(Nome, Required)]
    case Null => [Issue(Nome, WrongType)]
    case Given(s) => if |s| < 2 then [Issue(Nome, Message(NomeMessage))] else []
  }

  /** The e-mail: a required text that passes the e-mail format test; a missing one gets
      its own message. */
  function EmailIssues(v: Raw<string>, isEmail: string -> bool): (r: seq<Issue>)
    ensures forall f :: f in Paths(r) <==> f == Email && !(v.Given? && isEmail(v.value))
  {
    match v
    case Absent => [Issue(Email, Message(EmailRequired))]
    case Null => [Issue(Email, WrongType)]
    case Given(s) => if isEmail(s) then [] else [Issue(Email, Message(EmailFormat))]
  }

  /** The document number: a required text of at least three characters, with one message
      for both failures. */
  function BiNrIssues(v: Raw<string>): (r: seq<Issue>)
    ensures forall f :: f in Paths(r) <==> f == BiNr && !(v.Given? && |v.value| >= 3)
  {
    match v
    case Absent => [Issue(BiNr, Message(BiNrMessage))]
    case Null => [Issue(BiNr, WrongType)]
    case Given(s) => if |s| < 3 then [Issue(BiNr, Message(BiNrMessage))] else []
  }

  /** An optional text field: it may be left out, but it may not be `null`. */
  function OptionalIssues(path: Field, v: Raw<string>): (r: seq<Issue>)
    ensures forall f :: f in Paths(r) <==> f == path && v.Null?
  {
    if v.Null? then [Issue(path, WrongType)] else []
  }

  /** The status: `Ativo` or `Inativo`, and `Ativo` when left out; `Suspenso` is not
      accepted. */
  function StatusIssues(v: Raw<string>): (r: seq<Issue>)
    ensures forall f :: f in Paths(r) <==>
      f == StatusField && !(v.Absent? || (v.Given? && v.value in {"Ativo", "Inativo"}))
  {
    match v
    case Absent => []
    case Null => [Issue(StatusField, WrongType)]
    case Given(s) => if s == "Ativo" || s == "Inativo" then [] else [Issue(StatusField, InvalidOption)]
  }

  function AllIssues(input: FormInput, isEmail: string -> bool): (r: seq<Issue>)
    ensures Paths(r) == Paths(NomeIssues(input.nome)) + Paths(EmailIssues(input.email, isEmail))
      + Paths(BiNrIssues(input.biNr)) + Paths(OptionalIssues(Role, input.role))
      + Paths(OptionalIssues(Departmento, input.departmento))
      + Paths(OptionalIssues(UnidadeNegocio, input.unidadeNegocio))
      + Paths(OptionalIssues(Telefone, input.telefone)) + Paths(StatusIssues(input.status))
  {
    PathsOfEight(NomeIssues(input.nome), EmailIssues(input.email, isEmail), BiNrIssues(input.biNr),
      OptionalIssues(Role, input.role), OptionalIssues(Departmento, input.departmento),
      OptionalIssues(UnidadeNegocio, input.unidadeNegocio), OptionalIssues(Telefone, input.telefone),
      StatusIssues(input.status));
    NomeIssues(input.nome)
    + EmailIssues(input.email, isEmail)
    + BiNrIssues(input.biNr)
    + OptionalIssues(Role, input.role)
    + OptionalIssues(Departmento, input.departmento)
    + OptionalIssues(UnidadeNegocio, input.unidadeNegocio)
    + OptionalIssues(Telefone, input.telefone)
    + StatusIssues(input.status)
  }

  /** The schema's rules, stated field by field. */
  predicate OptionalOk(v: Raw<string>)
  {
    !v.Null?
  }

  ghost predicate Acceptable(input: FormInput, isEmail: string -> bool)
  {
    && input.nome.Given? && |input.nome.value| >= 2
    && input.email.Given? && isEmail(input.email.value)
    && input.biNr.Given? && |input.biNr.value| >= 3
    && OptionalOk(input.role) && OptionalOk(input.departmento)
    && OptionalOk(input.unidadeNegocio) && OptionalOk(input.telefone)
    && (input.status.Absent? || (input.status.Given? && input.status.value in {"Ativo", "Inativo"}))
  }

  /** An optional field's value: the text when given, nothing when left out. */
  function OptionOf(v: Raw<string>): Option<string>
  {
    if v.Given? then Some(v.value) else None
  }

  /** `employeeSchema.safeParse`: the values when every rule holds, otherwise every issue. */
  function Validate(input: FormInput, isEmail: string -> bool): (r: Result<FormValues, seq<Issue>>)
    ensures r.Ok? <==> Acceptable(input, isEmail)
    ensures r.Err? ==> |r.error| > 0
    ensures r.Ok? ==> r.value.nome == input.nome.value && r.value.email == input.email.value
    ensures r.Ok? ==> r.value.biNr == input.biNr.value
    ensures r.Ok? ==> r.value.status == (if input.status.Given? && input.status.value == "Inativo" then Inativo else Ativo)
    ensures r.Ok? ==> r.value.expiryDate == input.expiryDate && r.value.photoUrl == input.photoUrl
    ensures r.Ok? ==>
      && r.value.role == OptionOf(input.role) && r.value.departmento == OptionOf(input.departmento)
      && r.value.unidadeNegocio == OptionOf(input.unidadeNegocio)
      && r.value.telefone == OptionOf(input.telefone)
  {
    var issues := AllIssues(input, isEmail);
    if issues == [] then
      Ok(FormValues(
        input.nome.value, input.email.value, input.biNr.value,
        OptionOf(input.role), OptionOf(input.departmento), OptionOf(input.unidadeNegocio),
        OptionOf(input.telefone), input.expiryDate,
        if input.status.Given? && input.status.value == "Inativo" then Inativo else Ativo,
        input.photoUrl))
    else
      Err(issues)
  }

  /** The fields an issue list names. */
  function Paths(issues: seq<Issue>): set<Field>
  {
    if issues == [] then {} else {issues[0].path} + Paths(issues[1..])
  }

  lemma {:induction false} PathsConcat(x: seq<Issue>, y: seq<Issue>)
    ensures Paths(x + y) == Paths(x) + Paths(y)
  {
    if x == [] {
      assert x + y == y;
    } else {
      assert (x + y)[0] == x[0];
      assert (x + y)[1..] == x[1..] + y;
      PathsConcat(x[1..], y);
    }
  }

  /** The rule of one field. */
  predicate FieldOk(input: FormInput, isEmail: string -> bool, field: Field)
  {
    match field
    case Nome => input.nome.Given? && |input.nome.value| >= 2
    case Email => input.email.Given? && isEmail(input.email.value)
    case BiNr => input.biNr.Given? && |input.biNr.value| >= 3
    case Role => OptionalOk(input.role)
    case Departmento => OptionalOk(input.departmento)
    case UnidadeNegocio => OptionalOk(input.unidadeNegocio)
    case Telefone => OptionalOk(input.telefone)
    case StatusField => input.status.Absent? || (input.status.Given? && input.status.value in {"Ativo", "Inativo"})
  }

  /** A rejected form names exactly the fields whose rule fails. */
  lemma IssuesNameFailingFields(input: FormInput, isEmail: string -> bool, field: Field)
    ensures field in Paths(AllIssues(input, isEmail)) <==> !FieldOk(input, isEmail, field)
  {
    MemberOfEight(Paths(AllIssues(input, isEmail)),
      Paths(NomeIssues(input.nome)), Paths(EmailIssues(input.email, isEmail)),
      Paths(BiNrIssues(input.biNr)), Paths(OptionalIssues(Role, input.role)),
      Paths(OptionalIssues(Departmento, input.departmento)),
      Paths(OptionalIssues(UnidadeNegocio, input.unidadeNegocio)),
      Paths(OptionalIssues(Telefone, input.telefone)), Paths(StatusIssues(input.status)), field);
  }

  lemma MemberOfEight(p: set<Field>, a: set<Field>, b: set<Field>, c: set<Field>, d: set<Field>,
                      e: set<Field>, f: set<Field>, g: set<Field>, h: set<Field>, x: Field)
    requires p == a + b + c + d + e + f + g + h
    ensures x in p <==> x in a || x in b || x in c || x in d || x in e || x in f || x in g || x in h
  {
  }

  lemma PathsOfEight(a: seq<Issue>, b: seq<Issue>, c: seq<Issue>, d: seq<Issue>,
                     e: seq<Issue>, f: seq<Issue>, g: seq<Issue>, h: seq<Issue>)
    ensures Paths(a + b + c + d + e + f + g + h)
      == Paths(a) + Paths(b) + Paths(c) + Paths(d) + Paths(e) + Paths(f) + Paths(g) + Paths(h)
  {
    PathsConcat(a + b + c + d + e + f + g, h);
    PathsConcat(a + b + c + d + e + f, g);
    PathsConcat(a + b + c + d + e, f);
    PathsConcat(a + b + c + d, e);
    PathsConcat(a + b + c, d);
    PathsConcat(a + b, c);
    PathsConcat(a, b);
  }

  /** `Suspenso` is not a value the form accepts. */
  lemma SuspensoRejected(input: FormInput, isEmail: string -> bool)
    requires input.status == Given("Suspenso")
    ensures Validate(input, isEmail).Err?
  {
  }
}
