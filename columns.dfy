/** The field list and the displayed columns of the discover view: the list
    operations `toggleField` and `refreshColumns` use, and the closed form of
    what those two mutually recursive operations do to the field list and the
    columns (the class in module Discover runs the recursion itself and is
    proved to end in exactly these states). */
module Columns {
  import opened Options

  /** The synthetic field that shows each whole document. */
  const SOURCE: string := "_source"

  /** One record of the field list: name, type and whether it is shown as a
      column. */
  datatype Field = Field(name: string, kind: string, display: bool)

  /** How toggleField or refreshColumns ended: normally, or with the TypeError
      raised when `_.find` finds no field called `name` and its result is
      dereferenced. */
  datatype Outcome = Done | Missing(name: string)

  /** The field list and columns after an operation, with how it ended. On
      Missing the lists are those the operation had reached when it threw. */
  datatype Layout = Layout(fields: seq<Field>, columns: seq<string>, outcome: Outcome)

  predicate HasField(fields: seq<Field>, name: string) {
    exists i :: 0 <= i < |fields| && fields[i].name == name
  }

  /** `_.pluck(_.filter(fields, display), 'name')`: the names of the shown
      fields, in list order. */
  function Displayed(fields: seq<Field>): (r: seq<string>)
    ensures forall x :: x in r <==>
      exists i :: 0 <= i < |fields| && fields[i].name == x && fields[i].display
  {
    if fields == [] then []
    else
      var rest := Displayed(fields[1..]);
      assert forall i :: 1 <= i < |fields| ==> fields[i] == fields[1..][i - 1];
      if fields[0].display then [fields[0].name] + rest else rest
  }

  /** `_.find(fields, {name: name})`: the index of the first field so named. */
  function FindIndex(fields: seq<Field>, name: string): (r: Option<nat>)
    ensures r.Some? ==> r.value < |fields| && fields[r.value].name == name
    ensures r.Some? ==> forall i :: 0 <= i < r.value ==> fields[i].name != name
    ensures r.None? ==> !HasField(fields, name)
  {
    if fields == [] then None
    else if fields[0].name == name then Some(0)
    else
      match FindIndex(fields[1..], name)
      case None =>
        assert forall i :: 1 <= i < |fields| ==> fields[i] == fields[1..][i - 1];
        None
      case Some(k) => Some(k + 1)
  }

  /** Two field lists with the same names, position by position. */
  predicate SameNames(f: seq<Field>, g: seq<Field>) {
    |f| == |g| && forall i :: 0 <= i < |f| ==> f[i].name == g[i].name
  }

  lemma FindIndexSameNames(f: seq<Field>, g: seq<Field>, name: string)
    requires SameNames(f, g)
    ensures FindIndex(f, name) == FindIndex(g, name)
  {
    var a, b := FindIndex(f, name), FindIndex(g, name);
    if a.Some? {
      assert g[a.value].name == name;
    }
  }

  /** `field.display = !field.display` on the record at index k. */
  function Flip(fields: seq<Field>, k: nat): (r: seq<Field>)
    requires k < |fields|
    ensures SameNames(fields, r)
  {
    fields[k := fields[k].(display := !fields[k].display)]
  }

  /** `field.display = v` on the record at index k. */
  function SetDisplay(fields: seq<Field>, k: nat, v: bool): (r: seq<Field>)
    requires k < |fields|
    ensures SameNames(fields, r)
  {
    fields[k := fields[k].(display := v)]
  }

  /** No value occurs twice. */
  predicate NoDuplicates(s: seq<string>) {
    forall i, j :: 0 <= i < j < |s| ==> s[i] != s[j]
  }

  /** `_.without(s, x)`: every occurrence of x removed, the rest in order. */
  function Without(s: seq<string>, x: string): (r: seq<string>)
    ensures forall y :: y in r <==> y in s && y != x
  {
    if s == [] then []
    else
      var rest := Without(s[1..], x);
      assert forall y :: y in s <==> y == s[0] || y in s[1..];
      if s[0] == x then rest else [s[0]] + rest
  }

  /** `_.toggleInOut(s, x)` from the project's lodash mixins (not part of this
      model), with its assumed behaviour: remove x when present, otherwise
      append it. */
  function ToggleInOut(s: seq<string>, x: string): (r: seq<string>)
    ensures x in r <==> x !in s
    ensures forall y :: y != x ==> (y in r <==> y in s)
  {
    if x in s then Without(s, x) else s + [x]
  }

  lemma {:induction false} WithoutAppended(s: seq<string>, x: string)
    requires x !in s
    ensures Without(s + [x], x) == s
    decreases |s|
  {
    if s == [] {
      assert Without([x][1..], x) == [];
    } else {
      assert (s + [x])[1..] == s[1..] + [x];
      WithoutAppended(s[1..], x);
      assert s == [s[0]] + s[1..];
    }
  }

  /** Toggling a value that is absent twice gives back the list unchanged. */
  lemma ToggleInOutTwice(s: seq<string>, x: string)
    requires x !in s
    ensures ToggleInOut(ToggleInOut(s, x), x) == s
  {
    WithoutAppended(s, x);
  }

  /** The index of the first occurrence of x in s, or |s| when x is absent. */
  function IndexOf(s: seq<string>, x: string): (k: nat)
    ensures k <= |s|
    ensures k < |s| ==> s[k] == x && forall j :: 0 <= j < k ==> s[j] != x
    ensures k == |s| ==> x !in s
  {
    if s == [] then 0
    else if s[0] == x then 0
    else
      var k := IndexOf(s[1..], x);
      assert forall j :: 1 <= j < |s| ==> s[j] == s[1..][j - 1];
      k + 1
  }

  lemma IndexOfSnoc(s: seq<string>, x: string, y: string)
    requires y in s
    ensures IndexOf(s + [x], y) == IndexOf(s, y)
  {
    var a, b := IndexOf(s + [x], y), IndexOf(s, y);
    assert (s + [x])[b] == y;
  }

  /** The order of r follows the order of first occurrences in a. */
  predicate KeepsOrder(a: seq<string>, r: seq<string>) {
    forall i, j :: 0 <= i < j < |r| ==> IndexOf(a, r[i]) < IndexOf(a, r[j])
  }

  /** `_.intersection(a, b)`: the distinct values of a that occur in b, in the
      order of their first occurrence in a. */
  function Intersection(a: seq<string>, b: seq<string>): (r: seq<string>)
    ensures forall x :: x in r <==> x in a && x in b
    ensures NoDuplicates(r)
    decreases |a|
  {
    if a == [] then []
    else
      var front := a[..|a| - 1];
      var x := a[|a| - 1];
      var r := Intersection(front, b);
      assert a == front + [x];
      if x in b && x !in r then r + [x] else r
  }

  lemma {:induction false} IntersectionKeepsOrder(a: seq<string>, b: seq<string>)
    ensures KeepsOrder(a, Intersection(a, b))
    decreases |a|
  {
    if a != [] {
      var front := a[..|a| - 1];
      var x := a[|a| - 1];
      var r := Intersection(front, b);
      assert a == front + [x];
      IntersectionKeepsOrder(front, b);
      forall y | y in r ensures IndexOf(a, y) == IndexOf(front, y) < |front| {
        IndexOfSnoc(front, x, y);
      }
      if x in b && x !in r {
        assert x !in front;
        assert IndexOf(a, x) == |front|;
        var r' := r + [x];
        forall i, j | 0 <= i < j < |r'| ensures IndexOf(a, r'[i]) < IndexOf(a, r'[j]) {
          assert r'[i] in r;
          if j < |r| {
            assert r'[j] in r;
          }
        }
      }
    }
  }

  /** A list already free of duplicates and contained in b is its own
      intersection with b. */
  lemma {:induction false} IntersectionOfContained(s: seq<string>, b: seq<string>)
    requires NoDuplicates(s)
    requires forall x :: x in s ==> x in b
    ensures Intersection(s, b) == s
    decreases |s|
  {
    if s != [] {
      var front := s[..|s| - 1];
      var x := s[|s| - 1];
      assert s == front + [x];
      IntersectionOfContained(front, b);
      assert x !in front;
    }
  }

  lemma IntersectionSingle(x: string, b: seq<string>)
    ensures Intersection([x], b) == if x in b then [x] else []
  {
    assert [x][..0] == [];
  }

  /** The columns are non-empty, free of duplicates, and each is the name of
      a shown field. */
  predicate Reconciled(fields: seq<Field>, columns: seq<string>) {
    && columns != []
    && NoDuplicates(columns)
    && forall c :: c in columns ==> c in Displayed(fields)
  }

  /** `after` differs from `before` only in the display flags of fields whose
      names are in `names`. */
  predicate OnlyDisplaysOf(before: seq<Field>, after: seq<Field>, names: set<string>) {
    && SameNames(before, after)
    && forall i :: 0 <= i < |before| ==>
         after[i].kind == before[i].kind &&
         (before[i].name !in names ==> after[i].display == before[i].display)
  }

  /** What refreshColumns leaves behind, in closed form. The columns become
      their intersection with the shown names. If nothing is left, it calls
      toggleField('_source') with empty columns, which flips the first
      `_source` record and sets the columns to `['_source']`, and refreshes
      again; if that flip hid `_source`, the second refresh toggles it once
      more, flipping it back. With no `_source` record the toggle throws. */
  function RefreshSpec(fields: seq<Field>, columns: seq<string>): Layout {
    var kept := Intersection(columns, Displayed(fields));
    if kept != [] then Layout(fields, kept, Done)
    else
      match FindIndex(fields, SOURCE)
      case None => Layout(fields, [], Missing(SOURCE))
      case Some(k) =>
        var flipped := Flip(fields, k);
        if SOURCE in Displayed(flipped) then Layout(flipped, [SOURCE], Done)
        else Layout(fields, [SOURCE], Done)
  }

  /** The state toggleField(name) has reached when it calls refreshColumns
      (outcome Done), or when it throws (outcome Missing). */
  function TogglePrep(fields: seq<Field>, columns: seq<string>, name: string): Layout {
    match FindIndex(fields, name)
    case None => Layout(fields, columns, Missing(name))
    case Some(k) =>
      var flipped := Flip(fields, k);
      if columns == [SOURCE] then
        var cols := ToggleInOut(ToggleInOut(columns, name), SOURCE);
        match FindIndex(flipped, SOURCE)
        case None => Layout(flipped, cols, Missing(SOURCE))
        case Some(j) => Layout(SetDisplay(flipped, j, false), cols, Done)
      else Layout(flipped, ToggleInOut(columns, name), Done)
  }

  /** What toggleField(name) leaves behind: its own updates, then refreshColumns. */
  function ToggleSpec(fields: seq<Field>, columns: seq<string>, name: string): Layout {
    var p := TogglePrep(fields, columns, name);
    if p.outcome.Missing? then p else RefreshSpec(p.fields, p.columns)
  }

  /** Termination measure of refreshColumns: an upper bound on the calls of
      toggleField and refreshColumns still nested inside it. */
  function RefreshRank(fields: seq<Field>, columns: seq<string>): nat {
    if Intersection(columns, Displayed(fields)) != [] then 0
    else
      match FindIndex(fields, SOURCE)
      case None => 1
      case Some(k) => if SOURCE in Displayed(Flip(fields, k)) then 2 else 4
  }

  /** Termination measure of toggleField(name). */
  function ToggleRank(fields: seq<Field>, columns: seq<string>, name: string): nat {
    var p := TogglePrep(fields, columns, name);
    if p.outcome.Missing? then 0 else 1 + RefreshRank(p.fields, p.columns)
  }

  /** The fallback of refreshColumns: toggling `_source` with empty columns
      ends where RefreshSpec says, and is ranked below the refresh that calls
      it, so the mutual recursion nests at most two toggles of `_source`. */
  lemma RefreshFallback(fields: seq<Field>, columns: seq<string>)
    requires Intersection(columns, Displayed(fields)) == []
    ensures ToggleSpec(fields, [], SOURCE) == RefreshSpec(fields, columns)
    ensures ToggleRank(fields, [], SOURCE) < RefreshRank(fields, columns)
  {
    match FindIndex(fields, SOURCE)
    case None =>
    case Some(k) =>
      var flipped := Flip(fields, k);
      FindIndexSameNames(fields, flipped, SOURCE);
      assert ToggleInOut([], SOURCE) == [SOURCE];
      assert TogglePrep(fields, [], SOURCE) == Layout(flipped, [SOURCE], Done);
      IntersectionSingle(SOURCE, Displayed(flipped));
      if SOURCE !in Displayed(flipped) {
        assert Flip(flipped, k) == fields;
        assert fields[k].display;
        assert SOURCE in Displayed(fields);
        assert RefreshRank(flipped, [SOURCE]) == 2;
      }
  }

  /** refreshColumns, given a `_source` record: it ends normally; the columns
      are non-empty, free of duplicates and all shown; surviving columns keep
      their previous relative order; and only `_source` display flags change. */
  lemma RefreshColumnsPost(fields: seq<Field>, columns: seq<string>)
    requires HasField(fields, SOURCE)
    ensures RefreshSpec(fields, columns).outcome == Done
    ensures Reconciled(RefreshSpec(fields, columns).fields, RefreshSpec(fields, columns).columns)
    ensures KeepsOrder(columns, RefreshSpec(fields, columns).columns)
    ensures OnlyDisplaysOf(fields, RefreshSpec(fields, columns).fields, {SOURCE})
  {
    var kept := Intersection(columns, Displayed(fields));
    IntersectionKeepsOrder(columns, Displayed(fields));
    if kept == [] {
      var k := FindIndex(fields, SOURCE).value;
      var flipped := Flip(fields, k);
      if SOURCE !in Displayed(flipped) {
        assert fields[k].display;
        assert SOURCE in Displayed(fields);
      }
    }
  }

  /** Refreshing twice gives the same result as refreshing once. */
  lemma RefreshIdempotent(fields: seq<Field>, columns: seq<string>)
    requires RefreshSpec(fields, columns).outcome == Done
    ensures RefreshSpec(RefreshSpec(fields, columns).fields, RefreshSpec(fields, columns).columns)
      == RefreshSpec(fields, columns)
  {
    var kept := Intersection(columns, Displayed(fields));
    if kept != [] {
      IntersectionOfContained(kept, Displayed(fields));
    } else {
      var k := FindIndex(fields, SOURCE).value;
      var flipped := Flip(fields, k);
      if SOURCE in Displayed(flipped) {
        IntersectionSingle(SOURCE, Displayed(flipped));
      } else {
        assert fields[k].display;
        assert SOURCE in Displayed(fields);
        IntersectionSingle(SOURCE, Displayed(fields));
      }
    }
  }

  lemma OnlyDisplaysOfTrans(f: seq<Field>, g: seq<Field>, h: seq<Field>, a: set<string>, b: set<string>)
    requires OnlyDisplaysOf(f, g, a) && OnlyDisplaysOf(g, h, b)
    ensures OnlyDisplaysOf(f, h, a + b)
  {
  }

  /** The flags toggleField(name) leaves before it calls refreshColumns:
      record k (the named field) flipped and, from `_source`-only mode,
      record j (`_source`) hidden. */
  function ToggledFlags(fields: seq<Field>, k: nat, j: nat, sourceOnly: bool): (r: seq<Field>)
    requires k < |fields| && j < |fields|
    ensures SameNames(fields, r)
    ensures forall i :: 0 <= i < |fields| && i != k && i != j ==> r[i] == fields[i]
    ensures forall i :: 0 <= i < |fields| ==> r[i].kind == fields[i].kind
    ensures j != k || !sourceOnly ==> r[k].display == !fields[k].display
    ensures sourceOnly ==> !r[j].display
  {
    var flipped := Flip(fields, k);
    if sourceOnly then SetDisplay(flipped, j, false) else flipped
  }

  /** On an existing field, given a `_source` record, toggleField does not
      throw before refreshColumns, and leaves the flags ToggledFlags says. */
  lemma TogglePrepFields(fields: seq<Field>, columns: seq<string>, name: string)
    requires HasField(fields, SOURCE) && HasField(fields, name)
    ensures TogglePrep(fields, columns, name).outcome == Done
    ensures TogglePrep(fields, columns, name).fields ==
      ToggledFlags(fields, FindIndex(fields, name).value, FindIndex(fields, SOURCE).value, columns == [SOURCE])
  {
    var k := FindIndex(fields, name).value;
    FindIndexSameNames(fields, Flip(fields, k), SOURCE);
  }

  /** What toggleField(name) does before it calls refreshColumns, on an
      existing field and given a `_source` record: it does not throw, keeps
      the `_source` record, negates the named field's flag (unless it is
      `_source` toggled from `_source`-only mode), and changes no
      flag but those of that field and of `_source`. */
  lemma TogglePrepPost(fields: seq<Field>, columns: seq<string>, name: string)
    requires HasField(fields, SOURCE) && HasField(fields, name)
    ensures TogglePrep(fields, columns, name).outcome == Done
    ensures HasField(TogglePrep(fields, columns, name).fields, SOURCE)
    ensures OnlyDisplaysOf(fields, TogglePrep(fields, columns, name).fields, {name, SOURCE})
    ensures !(name == SOURCE && columns == [SOURCE]) ==>
      (TogglePrep(fields, columns, name).fields[FindIndex(fields, name).value].display
       == !fields[FindIndex(fields, name).value].display)
  {
    var k := FindIndex(fields, name).value;
    var j := FindIndex(fields, SOURCE).value;
    TogglePrepFields(fields, columns, name);
    var after := ToggledFlags(fields, k, j, columns == [SOURCE]);
    assert after[j].name == SOURCE;
  }

  /** toggleField on an existing field, given a `_source` record: it ends
      normally with reconciled columns, and only the display flags of that
      field and of `_source` change. */
  lemma ToggleFieldPost(fields: seq<Field>, columns: seq<string>, name: string)
    requires HasField(fields, SOURCE) && HasField(fields, name)
    ensures ToggleSpec(fields, columns, name).outcome == Done
    ensures Reconciled(ToggleSpec(fields, columns, name).fields, ToggleSpec(fields, columns, name).columns)
    ensures OnlyDisplaysOf(fields, ToggleSpec(fields, columns, name).fields, {name, SOURCE})
  {
    var p := TogglePrep(fields, columns, name);
    TogglePrepPost(fields, columns, name);
    RefreshColumnsPost(p.fields, p.columns);
    OnlyDisplaysOfTrans(fields, p.fields, RefreshSpec(p.fields, p.columns).fields, {name, SOURCE}, {SOURCE});
    assert {name, SOURCE} + {SOURCE} == {name, SOURCE};
  }

  /** toggleField on a missing field throws before changing anything. */
  lemma ToggleMissingField(fields: seq<Field>, columns: seq<string>, name: string)
    requires !HasField(fields, name)
    ensures ToggleSpec(fields, columns, name) == Layout(fields, columns, Missing(name))
  {
    assert FindIndex(fields, name).None?;
  }

  /** Leaving `_source`-only mode: when the columns are exactly `['_source']`
      and the field called `name` is hidden, toggling it shows it, makes it
      the only column, and hides `_source`. */
  lemma ToggleOutOfSourceOnly(fields: seq<Field>, name: string)
    requires name != SOURCE && HasField(fields, SOURCE)
    requires FindIndex(fields, name).Some? && !fields[FindIndex(fields, name).value].display
    ensures ToggleSpec(fields, [SOURCE], name).outcome == Done
    ensures ToggleSpec(fields, [SOURCE], name).columns == [name]
    ensures ToggleSpec(fields, [SOURCE], name).fields[FindIndex(fields, name).value].display
    ensures !ToggleSpec(fields, [SOURCE], name).fields[FindIndex(fields, SOURCE).value].display
  {
    var k := FindIndex(fields, name).value;
    var j := FindIndex(fields, SOURCE).value;
    var flipped := Flip(fields, k);
    FindIndexSameNames(fields, flipped, SOURCE);
    var cols := ToggleInOut(ToggleInOut([SOURCE], name), SOURCE);
    assert ToggleInOut([SOURCE], name) == [SOURCE, name];
    assert Without([SOURCE, name], SOURCE) == [name] by {
      assert [name][1..] == [];
      assert Without([name], SOURCE) == [name];
      assert [SOURCE, name][1..] == [name];
    }
    assert cols == [name];
    var shown := SetDisplay(flipped, j, false);
    assert shown[k].display;
    assert name in Displayed(shown);
    IntersectionSingle(name, Displayed(shown));
  }

  /** toggleField negates the display flag of the field it is given (any
      field but `_source`), and nothing later undoes that. */
  lemma ToggleNegatesDisplay(fields: seq<Field>, columns: seq<string>, name: string)
    requires name != SOURCE && HasField(fields, SOURCE) && HasField(fields, name)
    ensures ToggleSpec(fields, columns, name).fields[FindIndex(fields, name).value].display
      == !fields[FindIndex(fields, name).value].display
  {
    var p := TogglePrep(fields, columns, name);
    TogglePrepPost(fields, columns, name);
    RefreshColumnsPost(p.fields, p.columns);
  }

  /** The columns are not always either `['_source']` or free of `_source`:
      toggling `_source` while another column is shown adds it beside that
      column. */
  lemma SourceJoinsOtherColumns()
    ensures ToggleSpec([Field(SOURCE, "source", false), Field("a", "string", true)], ["a"], SOURCE).columns
      == ["a", SOURCE]
  {
    var fields := [Field(SOURCE, "source", false), Field("a", "string", true)];
    var flipped := Flip(fields, 0);
    assert FindIndex(fields, SOURCE) == Some(0);
    assert ToggleInOut(["a"], SOURCE) == ["a", SOURCE];
    assert flipped == [Field(SOURCE, "source", true), Field("a", "string", true)];
    assert Displayed(flipped) == [SOURCE, "a"] by {
      assert flipped[1..] == [Field("a", "string", true)];
      assert flipped[1..][1..] == [];
      assert Displayed(flipped[1..]) == ["a"];
    }
    var d := Displayed(flipped);
    assert Intersection(["a", SOURCE], d) == ["a", SOURCE] by {
      assert ["a", SOURCE][..1] == ["a"];
      IntersectionSingle("a", d);
    }
  }
}
