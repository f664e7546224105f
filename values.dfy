/** The values a merge row, a computed field and the template context hold, and the job's errors. */
module Values {

  /**
   * A Python value as far as the merge core distinguishes values: the `None` that a snippet without
   * a trailing value yields, the scalars a query row holds, and `Other` for anything else
   * (floats, timestamps, lists), which the core only passes along.
   */
  datatype Value =
    | NoneValue
    | Bool(b: bool)
    | Int(i: int)
    | Text(s: string)
    | Other(tag: nat)

  /** One query result row: column name to value. */
  type Row = map<string, Value>

  /** A computed update or insert record: field name to computed value. */
  type Record = map<string, Value>

  /** Where a computed-field snippet sits: a field of one insert table's records, or an update field. */
  datatype Site = InsertSite(table: string, field: string) | UpdateSite(field: string)

  /** The location string the body is compiled under, which names it in the traceback of a compile or execution error. */
  function Location(site: Site): string
  {
    match site
    case InsertSite(t, f) => "<insert for '" + t + "." + f + "'>"
    case UpdateSite(f) => "<update for '" + f + "'>"
  }

  /** The conditions under which the merge job stops with an exception. */
  datatype Error =
      /** More or fewer command-line arguments than declared parameters (a ValueError). */
    | ParameterCount(required: nat, supplied: nat)
      /** A computed-field snippet that does not parse or raises, named by its `Site`. */
    | Evaluation(site: Site)
      /** A template that does not compile or names something absent from its context. */
    | Template(source: string)
      /** Semicolon-separated names and emails of different counts (zip with strict=True). */
    | NameEmailCount(names: nat, emails: nat)
      /** A successful row with updates but without an `id` column (a KeyError). */
    | MissingRowId
      /** The mail transport process could not be started. */
    | TransportLaunch
}
