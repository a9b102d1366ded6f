/**
 * `jot clear`: delete notes. The fields of ClearCommand are the command's
 * flags (the c-prefixed package variables: cTable, cLabel, ...). The same
 * filter, order and bound as `jot show` pick the rows, unless a row id is
 * given, which overrides every other flag.
 */
module Clear {
  import opened Text
  import opened Notes
  import opened Query

  /** The clearConfig section of the configuration file. */
  datatype ClearConfig = ClearConfig(defaultLabel: string, notesToClear: Int64, defaultClearPreference: string)

  const BothOrders := "ERROR: Cant show both Oldest and Recent. Please pass one of the args"

  class ClearCommand {
    var table: string
    var labelFlag: string
    var numNotes: Int64
    var afterTimeline: string
    var beforeTimeline: string
    var high: bool
    var low: bool
    var showOldest: bool
    var showRecent: bool
    var rowId: Int64

    /** The flags before parsing: the defaults they are registered with. */
    constructor ()
      ensures table == "" && labelFlag == "" && numNotes == 0 && rowId == 0
      ensures afterTimeline == "" && beforeTimeline == ""
      ensures !high && !low && !showOldest && !showRecent
    {
      table, labelFlag, numNotes, rowId := "", "", 0, 0;
      afterTimeline, beforeTimeline := "", "";
      high, low, showOldest, showRecent := false, false, false, false;
    }

    /**
     * clearQueryBuilder: a non-zero row id deletes exactly that row and
     * nothing is defaulted; otherwise the label and the count are defaulted
     * from the configuration (written back) and the rows of the bounded
     * fetch are deleted.
     */
    method BuildQuery(tableName: string, viewPreference: string, cfg: ClearConfig) returns (query: string)
      modifies this`labelFlag, this`numNotes
      ensures rowId != 0 ==>
        query == DeleteRowQuery(tableName, rowId as int) && labelFlag == old(labelFlag) && numNotes == old(numNotes)
      ensures rowId == 0 ==>
        && labelFlag == (if old(labelFlag) == "" then cfg.defaultLabel else old(labelFlag))
        && numNotes == (if old(numNotes) == 0 then cfg.notesToClear else old(numNotes))
        && query == ClearQuery(tableName, RenderAll(Filters(labelFlag, afterTimeline, beforeTimeline, high, low)),
                               viewPreference, numNotes as int)
    {
      if rowId != 0 {
        query := "DELETE FROM " + tableName + " WHERE row_id = " + Decimal(rowId as int);
        return;
      }

      if labelFlag == "" {
        labelFlag := cfg.defaultLabel;
      }
      var queryFilter := CollectFilters(labelFlag, afterTimeline, beforeTimeline, high, low);

      var orderBy;
      if viewPreference == "recent" {
        orderBy := "DESC";
      } else if viewPreference == "oldest" {
        orderBy := "ASC";
      } else {
        orderBy := "DESC";
      }
      assert orderBy == Directions(viewPreference).0;

      if numNotes == 0 {
        numNotes := cfg.notesToClear;
      }

      var selection := "";
      if |queryFilter| > 0 {
        selection := " WHERE " + Join(queryFilter, " AND ");
      }
      assert selection == WhereClause(queryFilter);
      selection := selection + (" ORDER BY CreatedAt " + orderBy + " LIMIT " + Decimal(numNotes as int));
      query := "DELETE FROM " + tableName + " WHERE row_id IN ( SELECT row_id FROM " + tableName + " " + selection + ");";
      ClearQueryAround(tableName, queryFilter, viewPreference, numNotes as int, selection);
    }

    /**
     * clearJotNote. `ensured` is the answer of EnsureTableExists(db, table,
     * "clear") for the `table` field, so the field is read only through it; `execFault` is what the database answers to the delete.
     */
    method Run(db: Database, env: Env, ensured: Result<string>, cfg: ClearConfig, execFault: Option<string>)
      returns (err: Option<string>)
      modifies this`labelFlag, this`numNotes, db
      ensures OpenError(env).Some? ==> err == OpenError(env)
      ensures OpenError(env).None? && ensured.Err? ==> err == Some(ensured.msg)
      ensures OpenError(env).None? && ensured.Ok? && showOldest && showRecent ==> err == Some(BothOrders)
      ensures OpenError(env).Some? || ensured.Err? || (showOldest && showRecent) ==>
        db.sent == old(db.sent) && labelFlag == old(labelFlag) && numNotes == old(numNotes)
      ensures OpenError(env).None? && ensured.Ok? && !(showOldest && showRecent) ==>
        var viewPref := ViewPreference(showOldest, showRecent, cfg.defaultClearPreference).value;
        && err == execFault
        && (rowId != 0 ==>
              && db.sent == old(db.sent) + [Exec(DeleteRowQuery(ensured.value, rowId as int))]
              && labelFlag == old(labelFlag) && numNotes == old(numNotes))
        && (rowId == 0 ==>
              && labelFlag == (if old(labelFlag) == "" then cfg.defaultLabel else old(labelFlag))
              && numNotes == (if old(numNotes) == 0 then cfg.notesToClear else old(numNotes))
              && db.sent == old(db.sent) + [Exec(ClearQuery(ensured.value,
                   RenderAll(Filters(labelFlag, afterTimeline, beforeTimeline, high, low)), viewPref, numNotes as int))])
    {
      var openErr := OpenError(env);
      if openErr.Some? {
        return openErr;
      }
      if ensured.Err? {
        return Some(ensured.msg);
      }
      var tableName := ensured.value;

      if showOldest && showRecent {
        return Some(BothOrders);
      }
      var viewPref;
      if showOldest {
        viewPref := "oldest";
      } else if showRecent {
        viewPref := "recent";
      } else {
        viewPref := cfg.defaultClearPreference;
      }
      assert viewPref == ViewPreference(showOldest, showRecent, cfg.defaultClearPreference).value;

      var queryToExec := BuildQuery(tableName, viewPref, cfg);
      db.Send(Exec(queryToExec));
      err := execFault;
    }
  }
}
