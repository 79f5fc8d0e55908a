/** Dialects and table naming (sqldb/sqldb.go). */
module Sqldb {
  datatype Dialect = Unknown | Postgres | Mysql | SQLite | Oracle

  datatype PlaceholderStyle = Question | Dollar

  function PlaceholderOf(d: Dialect): PlaceholderStyle {
    match d
    case Postgres => Dollar
    case _ => Question
  }

  /** A table without a name of its own is named after its message. */
  function NameOr(tableName: string, msgName: string): string {
    if tableName == "" then msgName else tableName
  }

  /** The schema stands in front of the table name, with a dot on PostgreSQL and Oracle. */
  function BuildDbTableName(tableName: string, dbschema: string, d: Dialect): (r: string)
    ensures dbschema == "" ==> r == tableName
    ensures dbschema != "" && (d == Postgres || d == Oracle) ==> r == dbschema + "." + tableName
    ensures dbschema != "" && d != Postgres && d != Oracle ==> r == dbschema + tableName
  {
    if dbschema == "" then tableName
    else match d
      case Postgres => dbschema + "." + tableName
      case Oracle => dbschema + "." + tableName
      case _ => dbschema + tableName
  }
}
