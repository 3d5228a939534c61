/** The discover controller's scope: the field list, the view state
    (query, columns, sort), the configuration panel slot, and what the
    controller last handed to the search source and to the state store. */
module Discover {
  import opened Options
  import opened QueryText
  import opened Columns
  import opened FieldList
  import opened ViewModel

  class DiscoverState {
    /** `$scope.fields`: the field records, in display order. */
    var fields: seq<Field>
    /** `$scope.state.columns`: the names shown as table columns, in order. */
    var columns: seq<string>
    /** `$scope.state.query`: the free-text query. */
    var query: string
    /** `$scope.state.sort`: the sort field and direction. */
    var sort: (string, string)
    /** `$scope.configTemplate`: the panel shown, if any. */
    var configTemplate: Option<Template>
    /** The query and sort last configured on the search source. */
    var source: Request
    /** The view state last passed to `state.set` (updateState), if any. */
    var saved: Option<ViewState>
    /** How many times the view has asked the courier to fetch. */
    var fetches: nat
    /** The saved search's initial query, read once when the view opens. */
    const initialQuery: Option<QueryBody>

    /** The persisted part of the scope. */
    function View(): (v: ViewState)
      reads this
      ensures v.query == query && v.columns == columns && v.sort == sort
    {
      ViewState(query, columns, sort)
    }

    /** Opening the view: loadState fills the defaults into the stored state,
        there is no field list yet, no panel is shown, and updateDataSource
        configures the search source from the loaded state. */
    constructor (stored: Stored, initialQuery: Option<QueryBody>)
      ensures this.initialQuery == initialQuery
      ensures View() == Defaults(stored, initialQuery)
      ensures fields == [] && configTemplate == None
      ensures source == Describe(query, sort)
      ensures saved == None && fetches == 0
    {
      var v := Defaults(stored, initialQuery);
      this.initialQuery := initialQuery;
      query := v.query;
      columns := v.columns;
      sort := v.sort;
      fields := [];
      configTemplate := None;
      saved := None;
      fetches := 0;
      source := Describe(v.query, v.sort);
    }

    /** updateDataSource: the search source gets the current query (none
        when the query string is empty) and the current sort. */
    method UpdateDataSource()
      modifies this`source
      ensures source == Describe(query, sort)
      ensures RequestQuery(source) == query && |source.sort[0].Keys| == 1 && RequestSort(source) == sort
    {
      source := Describe(query, sort);
      DescribeReadBack(query, sort);
    }

    /** updateState: the current view state goes to the state store. */
    method UpdateState()
      modifies this`saved
      ensures saved == Some(View())
    {
      saved := Some(View());
    }

    /** fetch: configure the search source, save the state, and ask the
        courier for new results. */
    method Fetch()
      modifies this`source, this`saved, this`fetches
      ensures source == Describe(query, sort)
      ensures saved == Some(View())
      ensures fetches == old(fetches) + 1
    {
      UpdateDataSource();
      UpdateState();
      fetches := fetches + 1;
    }

    /** getSort: the current sort pair. */
    method GetSort() returns (s: (string, string))
      ensures s == sort && s == View().sort
    {
      s := sort;
    }

    /** setSort(field, order): the state's sort becomes the pair, nothing else
        in the state changes, and the view is fetched with that sort. */
    method SetSort(field: string, order: string)
      modifies this
      ensures sort == (field, order)
      ensures query == old(query) && columns == old(columns) && fields == old(fields)
      ensures configTemplate == old(configTemplate)
      ensures source == Describe(query, (field, order))
      ensures saved == Some(View()) && fetches == old(fetches) + 1
    {
      source := Request(source.query, [map[field := order]]);
      sort := (field, order);
      Fetch();
    }

    /** toggleConfig: show the settings panel, or close it when it is shown. */
    method ToggleConfig()
      modifies this`configTemplate
      ensures configTemplate == Toggled(old(configTemplate), Settings)
    {
      if configTemplate == Some(Settings) {
        configTemplate := None;
      } else {
        configTemplate := Some(Settings);
      }
    }

    /** toggleTimepicker: show the timepicker, or close it when it is shown. */
    method ToggleTimepicker()
      modifies this`configTemplate
      ensures configTemplate == Toggled(old(configTemplate), Timepicker)
    {
      if configTemplate == Some(Timepicker) {
        configTemplate := None;
      } else {
        configTemplate := Some(Timepicker);
      }
    }

    /** resetQuery: the query goes back to the saved search's initial query
        string, and the view is fetched. */
    method ResetQuery()
      modifies this
      ensures query == InitialText(initialQuery)
      ensures columns == old(columns) && sort == old(sort) && fields == old(fields)
      ensures configTemplate == old(configTemplate)
      ensures source == Describe(query, sort)
      ensures source.query == if initialQuery.Some? && initialQuery.value.query != [] then initialQuery else None
      ensures saved == Some(View()) && fetches == old(fetches) + 1
    {
      query := InitialText(initialQuery);
      Fetch();
      ResetReissuesInitialQuery(initialQuery, sort);
    }

    /** filterQuery(field, value, operation): one clause per value, in the
        order given, appended to the query; then the view is fetched. The
        old query is a prefix of the new one. */
    method FilterQuery(field: string, value: FilterValue, operation: Option<string>)
      modifies this
      ensures query == old(query) + Clauses(Operation(operation), field, FilterValues(value))
      ensures old(query) <= query
      ensures source == Describe(query, sort)
      ensures columns == old(columns) && sort == old(sort) && fields == old(fields)
      ensures configTemplate == old(configTemplate)
      ensures saved == Some(View()) && fetches == old(fetches) + 1
    {
      query := AppendClauses(query, field, FilterValues(value), Operation(operation));
      Fetch();
    }

    /** toggleField(name): flip the named field's display flag; from the
        `_source`-only layout the name replaces `_source` (whose flag is
        cleared), otherwise the name is toggled in or out of the columns;
        then refreshColumns. A name with no field record throws (Missing),
        leaving whatever was already changed. */
    method ToggleField(name: string) returns (outcome: Outcome)
      modifies this
      ensures Layout(fields, columns, outcome) == ToggleSpec(old(fields), old(columns), name)
      ensures outcome.Done? ==> saved == Some(View())
      ensures outcome.Missing? ==> saved == old(saved)
      ensures query == old(query) && sort == old(sort) && configTemplate == old(configTemplate)
      ensures source == old(source) && fetches == old(fetches)
      decreases ToggleRank(fields, columns, name), 1
    {
      ghost var prep := TogglePrep(fields, columns, name);
      match FindIndex(fields, name)
      case None =>
        outcome := Missing(name);
      case Some(k) =>
        fields := Flip(fields, k);
        if columns == [SOURCE] {
          columns := ToggleInOut(columns, name);
          columns := ToggleInOut(columns, SOURCE);
          match FindIndex(fields, SOURCE)
          case None =>
            outcome := Missing(SOURCE);
            assert Layout(fields, columns, outcome) == prep;
            return;
          case Some(j) =>
            fields := SetDisplay(fields, j, false);
        } else {
          columns := ToggleInOut(columns, name);
        }
        assert Layout(fields, columns, Done) == prep;
        outcome := RefreshColumns();
    }

    /** refreshColumns: keep the columns that name shown fields, in their
        order and without repeats; when none is left fall back to `_source`
        through toggleField('_source'); then save the state. */
    method RefreshColumns() returns (outcome: Outcome)
      modifies this
      ensures Layout(fields, columns, outcome) == RefreshSpec(old(fields), old(columns))
      ensures outcome.Done? ==> saved == Some(View())
      ensures outcome.Missing? ==> saved == old(saved)
      ensures query == old(query) && sort == old(sort) && configTemplate == old(configTemplate)
      ensures source == old(source) && fetches == old(fetches)
      decreases RefreshRank(fields, columns), 0
    {
      var kept := Intersection(columns, Displayed(fields));
      if kept == [] {
        RefreshFallback(fields, columns);
        columns := kept;
        outcome := ToggleField(SOURCE);
        if outcome.Missing? {
          return;
        }
      } else {
        columns := kept;
        outcome := Done;
      }
      UpdateState();
    }

    /** The request half of getFields: the snapshot of every known name's
        display flag, taken before the search source is asked for fields. */
    method SnapshotDisplays() returns (known: map<string, bool>)
      ensures forall x :: x in known <==> HasField(fields, x)
      ensures forall i: nat :: LastOfName(fields, i) ==> fields[i].name in known && known[fields[i].name] == fields[i].display
    {
      known := KnownDisplays(fields);
      KnownDisplaysKeys(fields);
      forall i: nat | LastOfName(fields, i) ensures fields[i].name in known && known[fields[i].name] == fields[i].display {
        KnownDisplaysValues(fields, i);
      }
    }

    /** The response half of getFields, given the snapshot `known` and the
        field map the search source resolved with. No map leaves everything
        as it was. Otherwise the list is rebuilt (`_source` first, then the
        discovered names in ascending order, each merged with its previous
        flag or its column membership) and refreshColumns reconciles it. */
    method ReceiveFields(known: map<string, bool>, discovered: Option<map<string, Descriptor>>)
      modifies this
      ensures discovered.None? ==> fields == old(fields) && columns == old(columns) && saved == old(saved)
      ensures discovered.Some? ==>
        Layout(fields, columns, Done) == FieldsResult(known, old(columns), discovered.value)
      ensures discovered.Some? ==> saved == Some(View())
      ensures query == old(query) && sort == old(sort) && configTemplate == old(configTemplate)
      ensures source == old(source) && fetches == old(fetches)
    {
      if discovered.None? {
        return;
      }
      var found := discovered.value;
      var list := BuildFields(known, columns, found);
      fields := list;
      FieldsResultPost(known, columns, found);
      var outcome := RefreshColumns();
    }
  }
}
