/**
 * Values shared by the write, show and clear commands: the note record, the
 * 64-bit integers of the flags, the statements sent to the database, and the
 * process environment the commands consult before opening the database.
 *
 * The database itself is opaque: what it answers (lookups, faults, rows) is
 * given to each command as a parameter, and `Database.sent` records, in order,
 * every statement a command sends to it.
 */
module Notes {
  import opened Text

  /** Go's int64 (the type of --num-notes and of the configured counts). */
  newtype Int64 = x: int | -0x8000_0000_0000_0000 <= x < 0x8000_0000_0000_0000

  /** A Go `error` return: the value on success, the error's message otherwise. */
  datatype Result<T> = Ok(value: T) | Err(msg: string)

  /** One note as the writer builds it; CreatedAt (the clock) is not part of this model. */
  datatype JotNote = JotNote(Label: string, Content: string, HighSeverity: bool)

  /** What a command asks of the database. */
  datatype Statement =
    | TableLookup(name: string)          // the sqlite_master query of isTableExist
    | Exec(sql: string)                  // db.Exec without arguments
    | Insert(sql: string, note: JotNote) // db.Exec with the note as the four arguments
    | Select(sql: string)                // db.Query

  /** The environment every command reads before touching the database. */
  datatype Env = Env(home: string, openErr: Option<string>)

  const HomeMissing := "HOME Env Var not set"

  /** The error, if any, from resolving HOME and opening the database file. */
  function OpenError(env: Env): (err: Option<string>)
    ensures err.None? <==> env.home != "" && env.openErr.None?
    ensures env.home == "" ==> err == Some(HomeMissing)
    ensures env.home != "" && env.openErr.Some? ==> err == env.openErr
  {
    if env.home == "" then Some(HomeMissing) else env.openErr
  }

  class Database {
    /** Every statement sent so far, oldest first. */
    var sent: seq<Statement>

    constructor ()
      ensures sent == []
    {
      sent := [];
    }

    method Send(s: Statement)
      modifies this
      ensures sent == old(sent) + [s]
    {
      sent := sent + [s];
    }
  }
}
