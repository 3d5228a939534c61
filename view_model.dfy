/** The small value-level rules of the discover view: the persisted view
    state and the defaults loadState fills in, the single configuration
    panel slot, and the chart points built from the histogram buckets. */
module ViewModel {
  import opened Options
  import opened QueryText
  import opened Columns

  /** The part of the view that `state.set` persists: the query string, the
      ordered columns, and the sort as a (field, direction) pair. */
  datatype ViewState = ViewState(query: string, columns: seq<string>, sort: (string, string))

  /** What `state.get()` hands back: each key may be missing (None). */
  datatype Stored = Stored(query: Option<string>, columns: Option<seq<string>>, sort: Option<(string, string)>)

  /** The sort used when none is stored: by score, descending. */
  const DEFAULT_SORT: (string, string) := ("_score", "desc")

  /** loadState: `_.defaults` over the stored state, which fills only the keys
      that are missing: the query from the saved search's initial query (or
      empty), the columns `['_source']` and the sort `['_score', 'desc']`.
      A stored value is never overwritten. */
  function Defaults(stored: Stored, initialQuery: Option<QueryBody>): (v: ViewState)
    ensures stored.query.Some? ==> v.query == stored.query.value
    ensures stored.query.None? ==> v.query == InitialText(initialQuery)
    ensures stored.columns.Some? ==> v.columns == stored.columns.value
    ensures stored.columns.None? ==> v.columns == [SOURCE]
    ensures stored.sort.Some? ==> v.sort == stored.sort.value
    ensures stored.sort.None? ==> v.sort == ("_score", "desc")
  {
    ViewState(stored.query.GetOr(InitialText(initialQuery)),
              stored.columns.GetOr([SOURCE]),
              stored.sort.GetOr(DEFAULT_SORT))
  }

  /** What `state.set(view)` leaves for the next `state.get()`: every key present. */
  function Store(v: ViewState): (s: Stored)
    ensures s.query.Some? && s.columns.Some? && s.sort.Some?
  {
    Stored(Some(v.query), Some(v.columns), Some(v.sort))
  }

  /** Loading a view that was saved gives back exactly that view, whatever
      the saved search's initial query: no default overrides a saved value. */
  lemma LoadAfterStore(v: ViewState, initialQuery: Option<QueryBody>)
    ensures Defaults(Store(v), initialQuery) == v
  {
  }

  /** Loading is idempotent: storing a loaded view and loading it again
      changes nothing. */
  lemma DefaultsIdempotent(stored: Stored, initialQuery: Option<QueryBody>)
    ensures Defaults(Store(Defaults(stored, initialQuery)), initialQuery) == Defaults(stored, initialQuery)
  {
    LoadAfterStore(Defaults(stored, initialQuery), initialQuery);
  }

  /** The two panel templates the view can show in its single slot. */
  datatype Template = Settings | Timepicker

  /** toggleConfig / toggleTimepicker on the slot: showing `t` closes it when
      `t` is already shown, otherwise `t` replaces whatever was shown. */
  function Toggled(slot: Option<Template>, t: Template): (r: Option<Template>)
    ensures r == None <==> slot == Some(t)
    ensures r != None ==> r == Some(t)
  {
    if slot == Some(t) then None else Some(t)
  }

  /** Opening a panel and toggling it again closes it: from closed, two
      toggles of the same panel return to closed. */
  lemma ToggledTwice(slot: Option<Template>, t: Template)
    requires slot == None || slot == Some(t)
    ensures Toggled(Toggled(slot, t), t) == slot
  {
  }

  /** Opening one panel while the other is shown replaces it: the slot
      holds at most one template, the one toggled last. */
  lemma ToggledReplaces(t: Template, u: Template)
    requires t != u
    ensures Toggled(Some(u), t) == Some(t)
  {
  }

  /** A histogram bucket of the `events` aggregation. */
  datatype Bucket = Bucket(keyAsString: string, docCount: nat)

  /** A chart point: the bucket's key on x, its document count on y. */
  datatype Point = Point(x: string, y: nat)

  /** The `_.map` of the result handler from buckets to chart points. */
  function ChartPoints(buckets: seq<Bucket>): (ps: seq<Point>)
    ensures |ps| == |buckets|
  {
    if buckets == [] then []
    else [Point(buckets[0].keyAsString, buckets[0].docCount)] + ChartPoints(buckets[1..])
  }

  /** The buckets a list of chart points was built from. */
  function BucketsOf(ps: seq<Point>): (bs: seq<Bucket>)
    ensures |bs| == |ps|
  {
    if ps == [] then []
    else [Bucket(ps[0].x, ps[0].y)] + BucketsOf(ps[1..])
  }

  /** The mapping loses nothing: point i carries exactly bucket i's key and
      count, and the buckets can be rebuilt from the points. */
  lemma {:induction false} ChartPointsAt(buckets: seq<Bucket>)
    ensures forall i :: 0 <= i < |buckets| ==>
      ChartPoints(buckets)[i] == Point(buckets[i].keyAsString, buckets[i].docCount)
    ensures BucketsOf(ChartPoints(buckets)) == buckets
    decreases |buckets|
  {
    if buckets != [] {
      ChartPointsAt(buckets[1..]);
      var ps := ChartPoints(buckets);
      forall i | 0 <= i < |buckets| ensures ps[i] == Point(buckets[i].keyAsString, buckets[i].docCount) {
        if i > 0 {
          assert ps[i] == ChartPoints(buckets[1..])[i - 1];
        }
      }
      assert ps[1..] == ChartPoints(buckets[1..]);
    }
  }

  /** Total document count of the buckets. */
  function TotalDocs(buckets: seq<Bucket>): nat {
    if buckets == [] then 0 else buckets[0].docCount + TotalDocs(buckets[1..])
  }

  /** Total height of the chart points. */
  function TotalHeight(ps: seq<Point>): nat {
    if ps == [] then 0 else ps[0].y + TotalHeight(ps[1..])
  }

  /** The chart shows every hit the histogram counted: the heights of the
      points add up to the buckets' document counts. */
  lemma {:induction false} ChartKeepsTotal(buckets: seq<Bucket>)
    ensures TotalHeight(ChartPoints(buckets)) == TotalDocs(buckets)
    decreases |buckets|
  {
    if buckets != [] {
      ChartKeepsTotal(buckets[1..]);
      assert ChartPoints(buckets)[1..] == ChartPoints(buckets[1..]);
    }
  }
}
