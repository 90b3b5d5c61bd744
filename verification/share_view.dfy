/** The public, read-only view of a shared collection: the share id comes
    from the page path, and the shared cards are dealt into columns without
    any filtering. */
module ShareView {
  import opened Options
  import opened JsStrings
  import opened Content
  import opened Layout

  /** The owner's name and cards returned for a share id. */
  datatype SharedData = SharedData(username: string, content: seq<Card>)

  /** `window.location.pathname.split('/').pop()` */
  function ShareId(pathname: string): (id: string)
    ensures '/' !in id
    ensures |id| <= |pathname| && pathname[|pathname| - |id|..] == id
    ensures |id| == |pathname| || pathname[|pathname| - |id| - 1] == '/'
  {
    var parts := Split(pathname, '/');
    SplitLast(pathname, '/');
    parts[|parts| - 1]
  }

  /** The id is what follows the last slash; a trailing slash leaves it
      empty. */
  lemma ShareIdAfterLastSlash(prefix: string, id: string)
    requires '/' !in id
    ensures ShareId(prefix + "/" + id) == id
  {
    var path := prefix + "/" + id;
    assert path[|path| - |id|..] == id;
    assert path[|path| - |id| - 1] == '/';
  }

  /** The grid of the share page: no data yet means no columns; otherwise
      every shared card is dealt round-robin, unfiltered. */
  method ShareColumns(data: Option<SharedData>, columns: nat) returns (grid: seq<seq<Card>>)
    requires columns >= 1
    ensures data.None? ==> grid == []
    ensures data.Some? ==> IsRoundRobin(grid, data.value.content, columns)
  {
    if data.None? {
      grid := [];
    } else {
      grid := DistributeCards(data.value.content, columns);
      DealIsRoundRobin(data.value.content, columns);
    }
  }
}
