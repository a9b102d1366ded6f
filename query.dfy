/**
 * The query language shared by `jot show` and `jot clear`: the filter
 * predicates and the order they are collected in, the sort directions a view
 * preference selects, how the --oldest/--recent flags and the configuration
 * decide that preference, and the exact SQL text each builder emits.
 *
 * Values are interpolated raw, with no quoting or escaping, as the commands do.
 */
module Query {
  import opened Text
  import opened Notes

  /** The label value that asks for no label filter at all. */
  const NoLabel := "no-label"

  // ------------------------------------------------------------ predicates

  /** One conjunct of the WHERE clause. */
  datatype Predicate =
    | LabelIs(value: string)
    | CreatedAfter(after: string)
    | CreatedBefore(before: string)
    | HighOnly
    | LowOnly

  /** The SQL text of a predicate. */
  function Render(p: Predicate): string
  {
    match p
    case LabelIs(l) => "Label = '" + l + "'"
    case CreatedAfter(t) => "CreatedAt > '" + t + "'"
    case CreatedBefore(t) => "CreatedAt < '" + t + "'"
    case HighOnly => "HighSeverity = 1"
    case LowOnly => "HighSeverity = 0"
  }

  function RenderAll(ps: seq<Predicate>): (r: seq<string>)
    ensures |r| == |ps|
    ensures forall i :: 0 <= i < |ps| ==> r[i] == Render(ps[i])
  {
    seq(|ps|, i requires 0 <= i < |ps| => Render(ps[i]))
  }

  lemma RenderAllAppend(ps: seq<Predicate>, p: Predicate)
    ensures RenderAll(ps + [p]) == RenderAll(ps) + [Render(p)]
  {
  }

  predicate Wraps(s: string, pre: string, post: string)
  {
    |pre| + |post| <= |s| && s[..|pre|] == pre && s[|s| - |post|..] == post
  }

  /** Reads a predicate back from its SQL text: the inverse of Render. */
  function ParsePredicate(s: string): Option<Predicate>
  {
    if s == "HighSeverity = 1" then Some(HighOnly)
    else if s == "HighSeverity = 0" then Some(LowOnly)
    else if Wraps(s, "Label = '", "'") then Some(LabelIs(s[9..|s| - 1]))
    else if Wraps(s, "CreatedAt > '", "'") then Some(CreatedAfter(s[13..|s| - 1]))
    else if Wraps(s, "CreatedAt < '", "'") then Some(CreatedBefore(s[13..|s| - 1]))
    else None
  }

  /** A quoted value is recovered from `pre + v + "'"`, whatever characters it holds. */
  lemma QuotedValue(pre: string, v: string)
    ensures Wraps(pre + v + "'", pre, "'")
    ensures (pre + v + "'")[|pre|..|pre + v + "'"| - 1] == v
  {
    var s := pre + v + "'";
    assert s[..|pre|] == pre;
    assert s[|s| - 1..] == "'";
  }

  /** No predicate's text is lost: each one reads back as itself. */
  lemma ParseRender(p: Predicate)
    ensures ParsePredicate(Render(p)) == Some(p)
  {
    var s := Render(p);
    match p
    case LabelIs(l) =>
      QuotedValue("Label = '", l);
      assert s[0] == 'L';
    case CreatedAfter(t) =>
      QuotedValue("CreatedAt > '", t);
      assert s[0] == 'C' && s[10] == '>';
    case CreatedBefore(t) =>
      QuotedValue("CreatedAt < '", t);
      assert s[0] == 'C' && s[10] == '<';
    case HighOnly =>
    case LowOnly =>
  }

  /** Position of each kind of predicate in the filter list. */
  function Rank(p: Predicate): nat
  {
    match p
    case LabelIs(_) => 0
    case CreatedAfter(_) => 1
    case CreatedBefore(_) => 2
    case HighOnly => 3
    case LowOnly => 4
  }

  /** The filter flags (the label already defaulted) as conjuncts, collected in the builders' order. */
  function Filters(noteLabel: string, after: string, before: string, high: bool, low: bool): seq<Predicate>
  {
    var withLabel := if noteLabel != NoLabel then [LabelIs(noteLabel)] else [];
    var withAfter := if after != "" then withLabel + [CreatedAfter(after)] else withLabel;
    var withBefore := if before != "" then withAfter + [CreatedBefore(before)] else withAfter;
    var withHigh := if high then withBefore + [HighOnly] else withBefore;
    if low then withHigh + [LowOnly] else withHigh
  }

  /** Each kind of predicate occurs at most once, and the kinds come in Rank order. */
  ghost predicate InRankOrder(fs: seq<Predicate>)
  {
    forall i, j :: 0 <= i < j < |fs| ==> Rank(fs[i]) < Rank(fs[j])
  }

  ghost predicate RanksBelow(fs: seq<Predicate>, bound: nat)
  {
    forall i :: 0 <= i < |fs| ==> Rank(fs[i]) < bound
  }

  lemma AppendInRankOrder(fs: seq<Predicate>, p: Predicate)
    requires InRankOrder(fs) && RanksBelow(fs, Rank(p))
    ensures InRankOrder(fs + [p]) && RanksBelow(fs + [p], Rank(p) + 1)
  {
  }

  /** The kinds come in the fixed order label, after, before, high, low, each at most once. */
  lemma FiltersInRankOrder(noteLabel: string, after: string, before: string, high: bool, low: bool)
    ensures InRankOrder(Filters(noteLabel, after, before, high, low))
  {
    var withLabel := if noteLabel != NoLabel then [LabelIs(noteLabel)] else [];
    var withAfter := if after != "" then withLabel + [CreatedAfter(after)] else withLabel;
    if after != "" { AppendInRankOrder(withLabel, CreatedAfter(after)); }
    var withBefore := if before != "" then withAfter + [CreatedBefore(before)] else withAfter;
    if before != "" { AppendInRankOrder(withAfter, CreatedBefore(before)); }
    var withHigh := if high then withBefore + [HighOnly] else withBefore;
    if high { AppendInRankOrder(withBefore, HighOnly); }
    if low { AppendInRankOrder(withHigh, LowOnly); }
  }

  /**
   * Each conjunct is present exactly when its input is set, and there is
   * nothing else. High and low are independent, so both may be present.
   */
  lemma FiltersPresence(noteLabel: string, after: string, before: string, high: bool, low: bool)
    ensures var fs := Filters(noteLabel, after, before, high, low);
      && (LabelIs(noteLabel) in fs <==> noteLabel != NoLabel)
      && (CreatedAfter(after) in fs <==> after != "")
      && (CreatedBefore(before) in fs <==> before != "")
      && (HighOnly in fs <==> high)
      && (LowOnly in fs <==> low)
      && forall p :: p in fs ==>
           p == LabelIs(noteLabel) || p == CreatedAfter(after) || p == CreatedBefore(before) || p == HighOnly || p == LowOnly
  {
  }

  /**
   * The filter-collecting part of both query builders: append each conjunct's
   * text, one flag at a time, in the fixed order.
   */
  method CollectFilters(noteLabel: string, after: string, before: string, high: bool, low: bool)
    returns (queryFilter: seq<string>)
    ensures queryFilter == RenderAll(Filters(noteLabel, after, before, high, low))
  {
    queryFilter := [];
    ghost var conjuncts: seq<Predicate> := [];
    if noteLabel != NoLabel {
      RenderAllAppend(conjuncts, LabelIs(noteLabel));
      queryFilter, conjuncts := queryFilter + ["Label = '" + noteLabel + "'"], conjuncts + [LabelIs(noteLabel)];
    }
    if after != "" {
      RenderAllAppend(conjuncts, CreatedAfter(after));
      queryFilter, conjuncts := queryFilter + ["CreatedAt > '" + after + "'"], conjuncts + [CreatedAfter(after)];
    }
    if before != "" {
      RenderAllAppend(conjuncts, CreatedBefore(before));
      queryFilter, conjuncts := queryFilter + ["CreatedAt < '" + before + "'"], conjuncts + [CreatedBefore(before)];
    }
    if high {
      RenderAllAppend(conjuncts, HighOnly);
      queryFilter, conjuncts := queryFilter + ["HighSeverity = 1"], conjuncts + [HighOnly];
    }
    if low {
      RenderAllAppend(conjuncts, LowOnly);
      queryFilter, conjuncts := queryFilter + ["HighSeverity = 0"], conjuncts + [LowOnly];
    }
    assert conjuncts == Filters(noteLabel, after, before, high, low);
  }

  // ------------------------------------------------------------ ordering

  /**
   * The sort direction of the bounded fetch and the opposite one used to
   * display it: "oldest" sorts ascending, "recent" and every other value
   * descending.
   */
  function Directions(viewPreference: string): (d: (string, string))
    ensures d.0 == "ASC" <==> viewPreference == "oldest"
    ensures d.0 in {"ASC", "DESC"} && d.1 in {"ASC", "DESC"} && d.0 != d.1
  {
    match viewPreference
    case "recent" => ("DESC", "ASC")
    case "oldest" => ("ASC", "DESC")
    case _ => ("DESC", "ASC")
  }

  /**
   * The view preference of show and clear: --oldest wins over --recent, which
   * wins over the configured value; both flags together are a user error
   * (None), raised before any query is run.
   */
  function ViewPreference(oldest: bool, recent: bool, configured: string): (vp: Option<string>)
    ensures vp.None? <==> oldest && recent
    ensures oldest && !recent ==> vp == Some("oldest")
    ensures recent && !oldest ==> vp == Some("recent")
    ensures !oldest && !recent ==> vp == Some(configured)
  {
    if oldest && recent then None
    else if oldest then Some("oldest")
    else if recent then Some("recent")
    else Some(configured)
  }

  /** A flag given on the command line fixes the direction, whatever the configuration says. */
  lemma FlagDecidesDirection(oldest: bool, recent: bool, configured: string)
    requires oldest != recent
    ensures Directions(ViewPreference(oldest, recent, configured).value).0 == (if oldest then "ASC" else "DESC")
  {
  }

  // ------------------------------------------------------------ statements

  /** The conjuncts as a WHERE clause, or nothing when there are none. */
  function WhereClause(filters: seq<string>): string
  {
    if |filters| > 0 then " WHERE " + Join(filters, " AND ") else ""
  }

  /** Filter, order and bound: what selects the rows, shared by show and clear. */
  function Selection(filters: seq<string>, order: string, limit: int): string
  {
    WhereClause(filters) + (" ORDER BY CreatedAt " + order + " LIMIT " + Decimal(limit))
  }

  /** The text show sends: the bounded fetch, re-sorted the opposite way in an outer query. */
  function ShowQuery(tableName: string, filters: seq<string>, viewPreference: string, limit: int): string
  {
    var (orderBy, revOrderBy) := Directions(viewPreference);
    var query := "SELECT Label, Content, HighSeverity, CreatedAt FROM " + tableName
      + WhereClause(filters)
      + (" ORDER BY CreatedAt " + orderBy + " LIMIT " + Decimal(limit));
    "SELECT Label, Content, HighSeverity FROM  (" + query + ") AS  subquery " + "ORDER BY CreatedAt " + revOrderBy
  }

  /**
   * Proof step for ShowCommand.BuildQuery: ShowQuery in terms of its inner,
   * bounded query, grouped the way the builder appends to it.
   */
  lemma ShowQueryAround(tableName: string, filters: seq<string>, viewPreference: string, limit: int, inner: string)
    requires inner == "SELECT Label, Content, HighSeverity, CreatedAt FROM " + tableName + WhereClause(filters)
      + (" ORDER BY CreatedAt " + Directions(viewPreference).0 + " LIMIT " + Decimal(limit))
    ensures ShowQuery(tableName, filters, viewPreference, limit)
      == "SELECT Label, Content, HighSeverity FROM  (" + inner + ") AS  subquery " + "ORDER BY CreatedAt " + Directions(viewPreference).1
  {
  }

  /** The text clear sends: a delete of the rows the bounded fetch selects. */
  function ClearQuery(tableName: string, filters: seq<string>, viewPreference: string, limit: int): string
  {
    var orderBy := Directions(viewPreference).0;
    var query := WhereClause(filters)
      + (" ORDER BY CreatedAt " + orderBy + " LIMIT " + Decimal(limit));
    "DELETE FROM " + tableName + " WHERE row_id IN ( SELECT row_id FROM " + tableName + " " + query + ");"
  }

  /**
   * Proof step for ClearCommand.BuildQuery: ClearQuery in terms of the
   * selection of its subquery, grouped the way the builder appends to it.
   */
  lemma ClearQueryAround(tableName: string, filters: seq<string>, viewPreference: string, limit: int, selection: string)
    requires selection == WhereClause(filters) + (" ORDER BY CreatedAt " + Directions(viewPreference).0 + " LIMIT " + Decimal(limit))
    ensures ClearQuery(tableName, filters, viewPreference, limit)
      == "DELETE FROM " + tableName + " WHERE row_id IN ( SELECT row_id FROM " + tableName + " " + selection + ");"
  {
  }

  /** The text clear sends for --row-id. */
  function DeleteRowQuery(tableName: string, rowId: int): (q: string)
    ensures var head := "DELETE FROM " + tableName + " WHERE row_id = ";
      |head| < |q| && q[..|head|] == head && ParseDecimal(q[|head|..]) == Some(rowId)
  {
    var head := "DELETE FROM " + tableName + " WHERE row_id = ";
    var q := head + Decimal(rowId);
    assert q[|head|..] == Decimal(rowId);
    DecimalRoundTrip(rowId);
    q
  }

  /**
   * Show and clear select the same rows in the same order up to the bound:
   * both embed the same Selection; show then displays it in the opposite
   * direction.
   */
  lemma SameSelection(tableName: string, filters: seq<string>, viewPreference: string, limit: int)
    ensures var sel := Selection(filters, Directions(viewPreference).0, limit);
      && ShowQuery(tableName, filters, viewPreference, limit)
         == "SELECT Label, Content, HighSeverity FROM  (" + ("SELECT Label, Content, HighSeverity, CreatedAt FROM "
            + tableName + sel) + ") AS  subquery " + "ORDER BY CreatedAt " + Directions(viewPreference).1
      && ClearQuery(tableName, filters, viewPreference, limit)
         == "DELETE FROM " + tableName + " WHERE row_id IN ( SELECT row_id FROM " + tableName + " " + sel + ");"
  {
    var (orderBy, revOrderBy) := Directions(viewPreference);
    var head := "SELECT Label, Content, HighSeverity, CreatedAt FROM " + tableName;
    var where := WhereClause(filters);
    var tail := " ORDER BY CreatedAt " + orderBy + " LIMIT " + Decimal(limit);
    assert head + where + tail == head + (where + tail);
  }

  /** The selection starts with a WHERE clause exactly when there is at least one conjunct. */
  lemma WhereIffFilters(filters: seq<string>, order: string, limit: int)
    ensures var sel := Selection(filters, order, limit);
      |sel| >= 7 && (sel[..7] == " WHERE " <==> |filters| > 0)
  {
    var sel := Selection(filters, order, limit);
    if |filters| == 0 {
      assert sel[..7] == " ORDER ";
    } else {
      assert sel[..7] == " WHERE ";
    }
  }

  /** A count written after " LIMIT ", at the end of a selection of any shape, reads back as itself. */
  lemma LimitSuffix(where: string, order: string, limit: int)
    ensures var sel, digits := where + (" ORDER BY CreatedAt " + order + " LIMIT " + Decimal(limit)), Decimal(limit);
      var k := |sel| - |digits|;
      k >= 7 && sel[k - 7..k] == " LIMIT " && ParseDecimal(sel[k..]) == Some(limit)
  {
    var digits := Decimal(limit);
    var front := where + " ORDER BY CreatedAt " + order;
    var sel := where + (" ORDER BY CreatedAt " + order + " LIMIT " + digits);
    assert sel == front + " LIMIT " + digits;
    var k := |front| + 7;
    assert sel[k..] == digits;
    assert sel[k - 7..k] == " LIMIT ";
    DecimalRoundTrip(limit);
  }

  /** The bound is written verbatim, sign included, as the last token of the selection. */
  lemma LimitReadsBack(filters: seq<string>, order: string, limit: int)
    ensures var sel := Selection(filters, order, limit);
      var k := |sel| - |Decimal(limit)|;
      k >= 7 && sel[k - 7..k] == " LIMIT " && ParseDecimal(sel[k..]) == Some(limit)
  {
    LimitSuffix(WhereClause(filters), order, limit);
  }
}
