/**
 * The instructor panel's data flow: load the store, and when it holds rows,
 * derive the class selector, the selected rows, the feeling distribution,
 * the trend series and the comment feed from them.
 */
module Dashboard {
  import opened Wrappers
  import opened Rows
  import Store
  import ClassFilter
  import Distribution
  import Trend
  import CommentFeed

  /** Everything the panel shows below the summary, for one selection. */
  datatype View = View(
    options: seq<string>,
    selected: seq<Row>,
    counts: seq<(string, nat)>,
    series: seq<Trend.Point>,
    feed: seq<CommentFeed.Comment>)

  /** The panel for loaded rows: nothing when there are no rows yet;
      otherwise the selector built from all rows and the charts and feed
      built from the selected rows. */
  function Panel(rows: seq<Row>, selection: string): (v: Option<View>)
    ensures v.None? <==> |rows| == 0
  {
    if |rows| == 0 then None
    else
      var selected := ClassFilter.Select(rows, selection);
      Some(View(ClassFilter.Options(rows), selected, Distribution.Counts(selected),
                Trend.Series(selected), CommentFeed.Feed(selected)))
  }

  /** The parts of a panel agree with each other: one trend point per
      selected row, six counts adding up to at most the selected rows (all
      of them when every feeling is a catalog label), at most one feed line
      per selected row, and selecting every class keeps every row. */
  lemma PanelAgrees(rows: seq<Row>, selection: string)
    requires |rows| > 0
    ensures var v := Panel(rows, selection).value;
      && |v.series| == |v.selected|
      && |v.counts| == 6
      && Distribution.Total(v.counts) <= |v.selected|
      && |v.feed| <= |v.selected|
      && (selection == ClassFilter.AllClasses ==> |v.selected| == |rows|)
  {
    var selected := ClassFilter.Select(rows, selection);
    Distribution.CountsTotal(selected);
    FeedBound(selected);
  }

  /** The feed has at most one line per row. */
  lemma FeedBound(rows: seq<Row>)
    ensures |CommentFeed.Feed(rows)| <= |rows|
  {
    var lines := CommentFeed.ProjectAll(CommentFeed.Commented(rows));
    assert multiset(CommentFeed.Feed(rows)) == multiset(lines);
    assert |CommentFeed.Feed(rows)| == |multiset(lines)|;
  }

  /** Opening the panel reads the store first; a file that cannot be read
      is an error for the instructor, and an absent file shows no panel. */
  function Open(s: Store.Store, selection: string): (r: Result<Option<View>, Store.LoadError>)
    ensures s.None? ==> r == Success(None)
    ensures r.Failure? <==> Store.Load(s).Failure?
    ensures r.Success? ==> (r.value.None? <==> |Store.Load(s).value| == 0)
  {
    match Store.Load(s)
    case Failure(e) => Failure(e)
    case Success(rows) => Success(Panel(rows, selection))
  }
}
