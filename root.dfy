/**
 * The root command, `jot <text>`: write one note. It resolves the table,
 * creates it when writing (checkTableStatus), assembles the note from the
 * arguments and any piped text, and inserts it. The SQL is produced by
 * substituting the table name into fixed templates.
 */
module Root {
  import opened Text
  import opened Notes

  // ------------------------------------------------------------ templates

  const Placeholder := "{{tableName}}"

  const CreateHead := "\nCREATE TABLE IF NOT EXISTS "
  const CreateTail := " (\n    id INTEGER PRIMARY KEY AUTOINCREMENT,\n    Label TEXT,\n    Content TEXT,\n    CreatedAt TIMESTAMP,\n    HighSeverity BOOLEAN\n)\n"
  /** The schema statement; note that it names the key `id`. */
  const CreateTemplate := CreateHead + Placeholder + CreateTail

  const InsertHead := "\n  INSERT INTO "
  const InsertTail := " (Label, Content, CreatedAt, HighSeverity)\n  VALUES (?, ?, ?, ?)\n  "
  const InsertTemplate := InsertHead + Placeholder + InsertTail

  /** The CREATE statement for a table: the name lands, verbatim, in the one placeholder. */
  function CreateStatement(tableName: string): (sql: string)
    ensures sql == CreateHead + tableName + CreateTail
  {
    assert '{' !in CreateHead;
    ReplaceFirstAt(CreateHead, Placeholder, CreateTail, tableName);
    ReplaceFirst(CreateTemplate, Placeholder, tableName)
  }

  /** The INSERT statement for a table: the name lands, verbatim, in the one placeholder. */
  function InsertStatement(tableName: string): (sql: string)
    ensures sql == InsertHead + tableName + InsertTail
  {
    assert '{' !in InsertHead;
    ReplaceFirstAt(InsertHead, Placeholder, InsertTail, tableName);
    ReplaceFirst(InsertTemplate, Placeholder, tableName)
  }

  // ------------------------------------------------------- table lookup

  /** What the sqlite_master lookup's Scan gives. */
  datatype Lookup = Found(name: string) | NoRows | LookupFailed(msg: string)

  const ErrNoRows := "sql: no rows in result set"

  /**
   * isTableExist as written: the first test is inverted, so a found table
   * and any other failure both read as "absent, no error", and "no rows"
   * comes back as an error. It never answers true.
   */
  function IsTableExist(lookup: Lookup): (r: (bool, Option<string>))
    ensures !r.0
    ensures r.1.Some? <==> lookup.NoRows?
    ensures r.1.Some? ==> r.1.value == ErrNoRows
  {
    if !lookup.NoRows? then (false, None)
    else if !lookup.Found? then (false, Some(ErrNoRows))
    else (true, None)  // unreachable, as the `return true, nil` it mirrors
  }

  // ------------------------------------------------------- table status

  /** The defaultTable of the writeConfig, readConfig and clearConfig sections. */
  datatype TableDefaults = TableDefaults(write: string, read: string, clear: string)

  const InvalidConfigType := "Invalid configType"

  function MissingTable(tableName: string): string
  {
    "Table " + tableName + " does not exist. Make sure it exists before performing read or clear operations"
  }

  /**
   * checkTableStatus. `lookup` is the database's answer to the existence
   * query and `createFault` its answer to the CREATE statement. Because
   * isTableExist never answers true, writing always sends the CREATE and
   * reading or clearing always fails with an error naming the table.
   */
  method CheckTableStatus(db: Database, tableName: string, configType: string, defaults: TableDefaults,
                          lookup: Lookup, createFault: Option<string>)
    returns (r: Result<string>)
    modifies db
    ensures configType !in {"write", "read", "clear"} ==> r == Err(InvalidConfigType) && db.sent == old(db.sent)
    ensures configType == "write" ==>
      var name := if tableName == "" then defaults.write else tableName;
      && db.sent == old(db.sent) + [TableLookup(name), Exec(CreateStatement(name))]
      && r == if createFault.Some? then Err(createFault.value) else Ok(name)
    ensures configType == "read" ==>
      var name := if tableName == "" then defaults.read else tableName;
      db.sent == old(db.sent) + [TableLookup(name)] && r == Err(MissingTable(name))
    ensures configType == "clear" ==>
      var name := if tableName == "" then defaults.clear else tableName;
      db.sent == old(db.sent) + [TableLookup(name)] && r == Err(MissingTable(name))
  {
    var defaultTable;
    if configType == "write" {
      defaultTable := defaults.write;
    } else if configType == "read" {
      defaultTable := defaults.read;
    } else if configType == "clear" {
      defaultTable := defaults.clear;
    } else {
      return Err(InvalidConfigType);
    }

    var name := tableName;
    if name == "" {
      name := defaultTable;
    }

    db.Send(TableLookup(name));
    var (tableExist, _) := IsTableExist(lookup);
    if !tableExist {
      if configType == "write" {
        var query := ReplaceFirst(CreateTemplate, Placeholder, name);
        db.Send(Exec(query));
        if createFault.Some? {
          return Err(createFault.value);
        }
      } else {
        return Err(MissingTable(name));
      }
    }
    return Ok(name);
  }

  // ------------------------------------------------------------ writing

  /** The label a note is written with: an empty --label becomes "default". */
  function WriteLabel(labelFlag: string): (l: string)
    ensures l != ""
    ensures labelFlag != "" ==> l == labelFlag
  {
    if labelFlag == "" then "default" else labelFlag
  }

  /** The content of a note: the arguments joined by spaces, then the piped text after a blank line. */
  function NoteContent(args: seq<string>, piped: string): (content: string)
    ensures var joined := Join(args, " ");
      && |joined| <= |content| && content[..|joined|] == joined
      && (piped != "" <==> |joined| < |content|)
  {
    if piped != "" then Join(args, " ") + "\n\n" + piped else Join(args, " ")
  }

  /** Without piped text, the arguments can be read back from the content when none holds a space. */
  lemma NoteContentKeepsArgs(args: seq<string>)
    requires |args| > 0 && forall i :: 0 <= i < |args| ==> ' ' !in args[i]
    ensures Split(NoteContent(args, ""), ' ') == args
  {
    SplitJoin(args, ' ');
  }

  /**
   * With piped text, the first blank line of the content is where the
   * arguments end, provided no argument holds a line break: the arguments
   * come before it and the piped text, whole, after it.
   */
  lemma NoteContentSplitsAtBlankLine(args: seq<string>, piped: string)
    requires piped != ""
    requires forall i :: 0 <= i < |args| ==> '\n' !in args[i]
    ensures var content, joined := NoteContent(args, piped), Join(args, " ");
      && FindFirst(content, "\n\n") == Some(|joined|)
      && content[..|joined|] == joined
      && content[|joined| + 2..] == piped
  {
    var content, joined := NoteContent(args, piped), Join(args, " ");
    assert content == joined + "\n\n" + piped;
    JoinWithout(args, " ", '\n');
    assert content[|joined|..|joined| + 2] == "\n\n";
    assert OccursAt(content, "\n\n", |joined|);
    forall j | 0 <= j < |joined|
      ensures !OccursAt(content, "\n\n", j)
    {
      assert content[j] == joined[j];
      assert joined[j] != '\n';
    }
    assert content[|joined| + 2..] == piped;
  }

  /** The errors runCommand meets before the table is resolved, in the order it checks them. */
  function SetupError(env: Env, fileErr: Option<string>): (err: Option<string>)
    ensures err.None? <==> env.home != "" && fileErr.None? && env.openErr.None?
    ensures env.home == "" ==> err == Some(HomeMissing)
    ensures env.home != "" && fileErr.Some? ==> err == fileErr
    ensures env.home != "" && fileErr.None? ==> err == env.openErr
  {
    if env.home == "" then Some(HomeMissing)
    else if fileErr.Some? then fileErr
    else env.openErr
  }

  /** insertJotNote: one INSERT into the named table, the note passed as its arguments. */
  method InsertJotNote(db: Database, note: JotNote, tableName: string, insertFault: Option<string>)
    returns (err: Option<string>)
    modifies db
    ensures db.sent == old(db.sent) + [Insert(InsertStatement(tableName), note)]
    ensures err == insertFault
  {
    var query := ReplaceFirst(InsertTemplate, Placeholder, tableName);
    db.Send(Insert(query, note));
    err := insertFault;
  }

  /**
   * runCommand. `piped` is the text read from a pipe ("" when stdin is a
   * terminal), `fileErr` the outcome of creating the database file, and
   * `lookup`, `createFault`, `insertFault` the database's answers. With no
   * arguments only the banner is printed.
   */
  method RunCommand(db: Database, args: seq<string>, table: string, labelFlag: string, highSeverity: bool,
                    piped: string, env: Env, fileErr: Option<string>, defaults: TableDefaults,
                    lookup: Lookup, createFault: Option<string>, insertFault: Option<string>)
    returns (err: Option<string>)
    modifies db
    ensures |args| == 0 ==> err == None && db.sent == old(db.sent)
    ensures |args| > 0 && SetupError(env, fileErr).Some? ==>
      err == SetupError(env, fileErr) && db.sent == old(db.sent)
    ensures |args| > 0 && SetupError(env, fileErr).None? ==>
      var name := if table == "" then defaults.write else table;
      var note := JotNote(WriteLabel(labelFlag), NoteContent(args, piped), highSeverity);
      && db.sent == old(db.sent) + [TableLookup(name), Exec(CreateStatement(name))]
                    + (if createFault.None? then [Insert(InsertStatement(name), note)] else [])
      && err == if createFault.Some? then createFault else insertFault
  {
    if |args| == 0 {
      return None;
    }

    var noteLabel := labelFlag;
    if noteLabel == "" {
      noteLabel := "default";
    }

    var contentToWrite := Join(args, " ");
    if piped != "" {
      contentToWrite := contentToWrite + "\n\n";
      contentToWrite := contentToWrite + piped;
    }
    var jotToWrite := JotNote(noteLabel, contentToWrite, highSeverity);

    if env.home == "" {
      return Some(HomeMissing);
    }
    if fileErr.Some? {
      return fileErr;
    }
    if env.openErr.Some? {
      return env.openErr;
    }

    var tableStatus := CheckTableStatus(db, table, "write", defaults, lookup, createFault);
    if tableStatus.Err? {
      return Some(tableStatus.msg);
    }
    err := InsertJotNote(db, jotToWrite, tableStatus.value, insertFault);
  }
}
