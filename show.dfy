/**
 * `jot show`: list the notes of a table. The flags of the command are the
 * fields of ShowCommand; building the query fills in the configured label
 * and count and writes them back to those fields, as the command does with
 * its package-level variables.
 */
module Show {
  import opened Text
  import opened Notes
  import opened Query

  /** The showConfig section of the configuration file. */
  datatype ShowConfig = ShowConfig(defaultLabel: string, notesToDisplay: Int64, defaultViewPreference: string)

  /** What rows.Scan gives for one result row. */
  datatype Row = Scanned(Label: string, Content: string, HighSeverity: bool) | ScanFailed(error: string)

  /** What is printed for one note (colours and layout are not part of this model). */
  datatype Shown = Shown(Label: string, Content: string, Severity: string)

  const BothOrders := "Cant show both Oldest and Recent. Please pass one of the args"

  /** The severity word printed for a note. */
  function SeverityToken(highSeverity: bool): (token: string)
    ensures token in {"low", "high"}
    ensures token == "high" <==> highSeverity
  {
    if highSeverity then "high" else "low"
  }

  function Display(row: Row): Shown
    requires row.Scanned?
  {
    Shown(row.Label, row.Content, SeverityToken(row.HighSeverity))
  }

  /**
   * `shown` and `err` are what printing `rows` produces: every row before
   * the first one that fails to scan is displayed, in order; the failure, if
   * any, is the error.
   */
  ghost predicate DisplayedUntilFailure(rows: seq<Row>, shown: seq<Shown>, err: Option<string>)
  {
    && |shown| <= |rows|
    && (forall i :: 0 <= i < |shown| ==> rows[i].Scanned? && shown[i] == Display(rows[i]))
    && if |shown| < |rows| then rows[|shown|].ScanFailed? && err == Some(rows[|shown|].error)
       else err == None
  }

  /** The rows.Next loop of showJotNote: display each row, stop at the first scan error. */
  method DisplayRows(rows: seq<Row>) returns (shown: seq<Shown>, err: Option<string>)
    ensures DisplayedUntilFailure(rows, shown, err)
  {
    shown := [];
    var i := 0;
    while i < |rows|
      invariant i <= |rows| && |shown| == i
      invariant forall k :: 0 <= k < i ==> rows[k].Scanned? && shown[k] == Display(rows[k])
    {
      match rows[i]
      case ScanFailed(e) =>
        return shown, Some(e);
      case Scanned(_, _, _) =>
        shown := shown + [Display(rows[i])];
      i := i + 1;
    }
    err := None;
  }

  class ShowCommand {
    var table: string
    var labelFlag: string
    var numNotes: Int64
    var afterTimeline: string
    var beforeTimeline: string
    var high: bool
    var low: bool
    var showOldest: bool
    var showRecent: bool

    /** The flags before parsing: the defaults they are registered with. */
    constructor ()
      ensures table == "" && labelFlag == "" && numNotes == 0
      ensures afterTimeline == "" && beforeTimeline == ""
      ensures !high && !low && !showOldest && !showRecent
    {
      table, labelFlag, numNotes := "", "", 0;
      afterTimeline, beforeTimeline := "", "";
      high, low, showOldest, showRecent := false, false, false, false;
    }

    /**
     * showQueryBuilder: default the label and the count from the
     * configuration (written back), then emit the two-stage query.
     */
    method BuildQuery(tableName: string, viewPreference: string, cfg: ShowConfig) returns (query: string)
      modifies this`labelFlag, this`numNotes
      ensures labelFlag == if old(labelFlag) == "" then cfg.defaultLabel else old(labelFlag)
      ensures numNotes == if old(numNotes) == 0 then cfg.notesToDisplay else old(numNotes)
      ensures query == ShowQuery(tableName, RenderAll(Filters(labelFlag, afterTimeline, beforeTimeline, high, low)),
                                 viewPreference, numNotes as int)
    {
      if labelFlag == "" {
        labelFlag := cfg.defaultLabel;
      }
      var queryFilter := CollectFilters(labelFlag, afterTimeline, beforeTimeline, high, low);

      var orderBy, revOrderBy;
      if viewPreference == "recent" {
        orderBy, revOrderBy := "DESC", "ASC";
      } else if viewPreference == "oldest" {
        orderBy, revOrderBy := "ASC", "DESC";
      } else {
        orderBy, revOrderBy := "DESC", "ASC";
      }
      assert (orderBy, revOrderBy) == Directions(viewPreference);

      if numNotes == 0 {
        numNotes := cfg.notesToDisplay;
      }

      var inner := "SELECT Label, Content, HighSeverity, CreatedAt FROM " + tableName;
      if |queryFilter| > 0 {
        inner := inner + (" WHERE " + Join(queryFilter, " AND "));
      }
      assert inner == "SELECT Label, Content, HighSeverity, CreatedAt FROM " + tableName + WhereClause(queryFilter);
      inner := inner + (" ORDER BY CreatedAt " + orderBy + " LIMIT " + Decimal(numNotes as int));
      query := "SELECT Label, Content, HighSeverity FROM  (" + inner + ") AS  subquery " + "ORDER BY CreatedAt " + revOrderBy;
      ShowQueryAround(tableName, queryFilter, viewPreference, numNotes as int, inner);
    }

    /**
     * The part of showJotNote after the flags are checked: build the query,
     * send it, and display what comes back.
     */
    method Fetch(db: Database, tableName: string, viewPref: string, cfg: ShowConfig,
                 queryFault: Option<string>, rows: seq<Row>)
      returns (err: Option<string>, shown: seq<Shown>)
      modifies this`labelFlag, this`numNotes, db
      ensures labelFlag == (if old(labelFlag) == "" then cfg.defaultLabel else old(labelFlag))
      ensures numNotes == (if old(numNotes) == 0 then cfg.notesToDisplay else old(numNotes))
      ensures db.sent == old(db.sent) + [Select(ShowQuery(tableName,
                RenderAll(Filters(labelFlag, afterTimeline, beforeTimeline, high, low)), viewPref, numNotes as int))]
      ensures queryFault.Some? ==> err == queryFault && shown == []
      ensures queryFault.None? ==> DisplayedUntilFailure(rows, shown, err)
    {
      var queryToExec := BuildQuery(tableName, viewPref, cfg);
      db.Send(Select(queryToExec));
      if queryFault.Some? {
        return queryFault, [];
      }
      shown, err := DisplayRows(rows);
    }

    /**
     * showJotNote. `ensured` is the answer of EnsureTableExists(db, table,
     * "show") for the `table` field, so the field is read only through it; `queryFault` and `rows` are what the database answers to the query.
     */
    method Run(db: Database, env: Env, ensured: Result<string>, cfg: ShowConfig,
               queryFault: Option<string>, rows: seq<Row>)
      returns (err: Option<string>, shown: seq<Shown>)
      modifies this`labelFlag, this`numNotes, db
      ensures OpenError(env).Some? ==> err == OpenError(env)
      ensures OpenError(env).None? && ensured.Err? ==> err == Some(ensured.msg)
      ensures OpenError(env).None? && ensured.Ok? && showOldest && showRecent ==> err == Some(BothOrders)
      ensures OpenError(env).Some? || ensured.Err? || (showOldest && showRecent) ==>
        shown == [] && db.sent == old(db.sent) && labelFlag == old(labelFlag) && numNotes == old(numNotes)
      ensures OpenError(env).None? && ensured.Ok? && !(showOldest && showRecent) ==>
        && labelFlag == (if old(labelFlag) == "" then cfg.defaultLabel else old(labelFlag))
        && numNotes == (if old(numNotes) == 0 then cfg.notesToDisplay else old(numNotes))
        && db.sent == old(db.sent) + [Select(ShowQuery(ensured.value,
             RenderAll(Filters(labelFlag, afterTimeline, beforeTimeline, high, low)),
             ViewPreference(showOldest, showRecent, cfg.defaultViewPreference).value, numNotes as int))]
        && (queryFault.Some? ==> err == queryFault && shown == [])
        && (queryFault.None? ==> DisplayedUntilFailure(rows, shown, err))
    {
      shown := [];
      var openErr := OpenError(env);
      if openErr.Some? {
        return openErr, shown;
      }
      if ensured.Err? {
        return Some(ensured.msg), shown;
      }
      var tableName := ensured.value;

      if showOldest && showRecent {
        return Some(BothOrders), shown;
      }
      var viewPref;
      if showOldest {
        viewPref := "oldest";
      } else if showRecent {
        viewPref := "recent";
      } else {
        viewPref := cfg.defaultViewPreference;
      }
      assert viewPref == ViewPreference(showOldest, showRecent, cfg.defaultViewPreference).value;

      err, shown := Fetch(db, tableName, viewPref, cfg, queryFault, rows);
    }
  }
}
