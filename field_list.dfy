/** The field list `getFields` rebuilds from a discovery result: `_source`
    first, then one record per discovered name in ascending order, each
    keeping the display flag its name had before. */
module FieldList {
  import opened Options
  import opened StringOrder
  import opened Columns

  /** A field descriptor as the search source reports it: its type, and the
      display flag it may already carry (the search source hands back the
      same objects the view keeps in its field list, so a field discovered
      again can arrive with its flag already set). */
  datatype Descriptor = Descriptor(kind: string, preset: Option<bool>)

  /** The record injected at the head of every rebuilt field list. */
  function SourceField(): Field {
    Field(SOURCE, "source", false)
  }

  /** Record i is the last one carrying its name. */
  predicate LastOfName(fields: seq<Field>, i: nat) {
    i < |fields| && forall j :: i < j < |fields| ==> fields[j].name != fields[i].name
  }

  /** The snapshot getFields takes of the field list when it is called: each
      name's display flag, a later record of the same name overriding an
      earlier one. */
  function KnownDisplays(fields: seq<Field>): map<string, bool>
    decreases |fields|
  {
    if fields == [] then map[]
    else
      var n := |fields| - 1;
      KnownDisplays(fields[..n])[fields[n].name := fields[n].display]
  }

  /** The snapshot has a key for every name in the list and no other. */
  lemma {:induction false} KnownDisplaysKeys(fields: seq<Field>)
    ensures forall x :: x in KnownDisplays(fields) <==> HasField(fields, x)
    decreases |fields|
  {
    if fields != [] {
      var n := |fields| - 1;
      var front := fields[..n];
      KnownDisplaysKeys(front);
      assert KnownDisplays(fields) == KnownDisplays(front)[fields[n].name := fields[n].display];
      forall x ensures x in KnownDisplays(fields) <==> HasField(fields, x) {
        if HasField(fields, x) && x != fields[n].name {
          var i :| 0 <= i < |fields| && fields[i].name == x;
          assert front[i].name == x;
        }
        if HasField(front, x) {
          var i :| 0 <= i < |front| && front[i].name == x;
          assert fields[i].name == x;
        }
      }
    }
  }

  /** Each name in the snapshot maps to the flag of its last record. */
  lemma {:induction false} KnownDisplaysValues(fields: seq<Field>, i: nat)
    requires LastOfName(fields, i)
    ensures fields[i].name in KnownDisplays(fields) && KnownDisplays(fields)[fields[i].name] == fields[i].display
    decreases |fields|
  {
    var n := |fields| - 1;
    var front := fields[..n];
    assert KnownDisplays(fields) == KnownDisplays(front)[fields[n].name := fields[n].display];
    if i < n {
      assert front[i] == fields[i];
      assert fields[i].name != fields[n].name;
      assert LastOfName(front, i) by {
        forall j | i < j < |front| ensures front[j].name != front[i].name {
          assert front[j] == fields[j];
        }
      }
      KnownDisplaysValues(front, i);
    }
  }

  /** arrayToKeys(array): an object with every element of the array as a key
      mapped to true (the one call passes no value, and `value || true` is
      then true). */
  function ArrayToKeys(a: seq<string>): (m: map<string, bool>)
    ensures forall x :: x in m <==> x in a
    ensures forall x :: x in m ==> m[x]
    decreases |a|
  {
    if a == [] then map[]
    else
      var n := |a| - 1;
      assert a == a[..n] + [a[n]];
      ArrayToKeys(a[..n])[a[n] := true]
  }

  /** The display flag a discovered field ends with: the flag its descriptor
      carries, else the flag its name had in the snapshot, else whether its
      name is a column (the two `_.defaults` calls, in order). */
  function MergedDisplay(name: string, d: Descriptor, known: map<string, bool>, shown: map<string, bool>): bool {
    if d.preset.Some? then d.preset.value
    else if name in known then known[name]
    else name in shown && shown[name]
  }

  /** The record pushed for a discovered name. */
  function MergedField(name: string, d: Descriptor, known: map<string, bool>, shown: map<string, bool>): Field {
    Field(name, d.kind, MergedDisplay(name, d, known, shown))
  }

  /** The records pushed for a list of discovered names, in that order. */
  function MergedRecords(names: seq<string>, found: map<string, Descriptor>,
                         known: map<string, bool>, shown: map<string, bool>): (r: seq<Field>)
    requires forall x :: x in names ==> x in found
    ensures |r| == |names|
    decreases |names|
  {
    if names == [] then []
    else
      var n := |names| - 1;
      MergedRecords(names[..n], found, known, shown) + [MergedField(names[n], found[names[n]], known, shown)]
  }

  /** Record i is the one built for name i. */
  lemma {:induction false} MergedRecordsAt(names: seq<string>, found: map<string, Descriptor>,
                                           known: map<string, bool>, shown: map<string, bool>, i: nat)
    requires forall x :: x in names ==> x in found
    requires i < |names|
    ensures MergedRecords(names, found, known, shown)[i] == MergedField(names[i], found[names[i]], known, shown)
    decreases |names|
  {
    var n := |names| - 1;
    if i < n {
      MergedRecordsAt(names[..n], found, known, shown, i);
    }
  }

  /** The field list getFields builds before it calls refreshColumns:
      `_source` (type `source`, hidden) followed by one record per discovered
      name, in ascending name order. */
  ghost function MergedFields(known: map<string, bool>, columns: seq<string>,
                              found: map<string, Descriptor>): (m: seq<Field>)
    ensures |m| == 1 + |found.Keys|
    ensures m[0] == Field(SOURCE, "source", false)
  {
    SortedKeysSpec(found.Keys);
    [SourceField()] + MergedRecords(SortedKeys(found.Keys), found, known, ArrayToKeys(columns))
  }

  /** Record p of the rebuilt list, past `_source`, is the record built for the
      p-th discovered name in ascending order. */
  lemma MergedFieldsAt(known: map<string, bool>, columns: seq<string>,
                       found: map<string, Descriptor>, p: nat)
    requires 1 <= p < |MergedFields(known, columns, found)|
    ensures SortedKeys(found.Keys)[p - 1] in found
    ensures MergedFields(known, columns, found)[p] ==
      MergedField(SortedKeys(found.Keys)[p - 1], found[SortedKeys(found.Keys)[p - 1]], known, ArrayToKeys(columns))
  {
    SortedKeysSpec(found.Keys);
    MergedRecordsAt(SortedKeys(found.Keys), found, known, ArrayToKeys(columns), p - 1);
  }

  /** The discovered records come in strictly ascending name order, so no
      name is listed twice. */
  lemma MergedFieldsAscending(known: map<string, bool>, columns: seq<string>, found: map<string, Descriptor>)
    ensures forall i, j :: 1 <= i < j < |MergedFields(known, columns, found)| ==>
      Less(MergedFields(known, columns, found)[i].name, MergedFields(known, columns, found)[j].name)
  {
    var m := MergedFields(known, columns, found);
    var names := SortedKeys(found.Keys);
    SortedKeysSpec(found.Keys);
    forall i, j | 1 <= i < j < |m| ensures Less(m[i].name, m[j].name) {
      MergedFieldsAt(known, columns, found, i);
      MergedFieldsAt(known, columns, found, j);
    }
  }

  /** Past `_source`, the rebuilt list names exactly the discovered fields,
      and each record carries its descriptor's type. */
  lemma MergedFieldsNames(known: map<string, bool>, columns: seq<string>, found: map<string, Descriptor>)
    ensures forall i :: 1 <= i < |MergedFields(known, columns, found)| ==>
      MergedFields(known, columns, found)[i].name in found &&
      MergedFields(known, columns, found)[i].kind == found[MergedFields(known, columns, found)[i].name].kind
    ensures forall x :: x in found <==>
      exists i :: 1 <= i < |MergedFields(known, columns, found)| && MergedFields(known, columns, found)[i].name == x
  {
    var m := MergedFields(known, columns, found);
    var names := SortedKeys(found.Keys);
    SortedKeysSpec(found.Keys);
    forall i | 1 <= i < |m| ensures m[i].name == names[i - 1] && m[i].name in found && m[i].kind == found[m[i].name].kind {
      MergedFieldsAt(known, columns, found, i);
    }
    forall x | x in found ensures exists i :: 1 <= i < |m| && m[i].name == x {
      var k :| 0 <= k < |names| && names[k] == x;
      assert m[k + 1].name == x;
    }
  }

  /** One step of walking a set in ascending order: moving its least
      remaining name to the walked prefix keeps the prefix and the rest
      together equal to the whole ascending list. */
  lemma SortedKeysStep(pushed: seq<string>, remaining: set<string>, all: set<string>, name: string)
    requires pushed + SortedKeys(remaining) == SortedKeys(all)
    requires IsLeast(name, remaining)
    ensures (pushed + [name]) + SortedKeys(remaining - {name}) == SortedKeys(all)
  {
    SortedKeysUnfold(name, remaining);
    assert (pushed + [name]) + SortedKeys(remaining - {name}) == pushed + ([name] + SortedKeys(remaining - {name}));
  }

  /** Pushing the record for one more name extends the records by that one. */
  lemma MergedRecordsSnoc(names: seq<string>, x: string, found: map<string, Descriptor>,
                          known: map<string, bool>, shown: map<string, bool>)
    requires forall y :: y in names ==> y in found
    requires x in found
    ensures MergedRecords(names + [x], found, known, shown) ==
      MergedRecords(names, found, known, shown) + [MergedField(x, found[x], known, shown)]
  {
    assert (names + [x])[..|names|] == names;
  }

  /** The loop of getFields: `_source` first, then, for each discovered name
      in ascending order, its descriptor merged with the snapshot and the
      column set, pushed onto the new list. */
  method BuildFields(known: map<string, bool>, columns: seq<string>, found: map<string, Descriptor>)
    returns (list: seq<Field>)
    ensures list == MergedFields(known, columns, found)
  {
    var shown := ArrayToKeys(columns);
    list := [SourceField()];
    var remaining := found.Keys;
    ghost var pushed: seq<string> := [];
    while remaining != {}
      invariant remaining <= found.Keys
      invariant pushed + SortedKeys(remaining) == SortedKeys(found.Keys)
      invariant forall x :: x in pushed ==> x in found
      invariant list == [SourceField()] + MergedRecords(pushed, found, known, shown)
      decreases remaining
    {
      LeastExists(remaining);
      var name :| name in remaining && IsLeast(name, remaining);
      SortedKeysStep(pushed, remaining, found.Keys, name);
      MergedRecordsSnoc(pushed, name, found, known, shown);
      pushed := pushed + [name];
      list := list + [MergedField(name, found[name], known, shown)];
      remaining := remaining - {name};
    }
    assert SortedKeys(remaining) == [];
    assert pushed == SortedKeys(found.Keys);
  }

  /** A field that was already in the list (its last record is `before[i]`)
      and whose descriptor carries no flag keeps its previous display flag. */
  lemma MergeKeepsKnownDisplay(before: seq<Field>, columns: seq<string>, found: map<string, Descriptor>, i: nat, p: nat)
    requires LastOfName(before, i)
    requires before[i].name in found && found[before[i].name].preset.None?
    requires 1 <= p < |MergedFields(KnownDisplays(before), columns, found)|
    requires MergedFields(KnownDisplays(before), columns, found)[p].name == before[i].name
    ensures MergedFields(KnownDisplays(before), columns, found)[p].display == before[i].display
  {
    KnownDisplaysValues(before, i);
    MergedFieldsAt(KnownDisplays(before), columns, found, p);
  }

  /** A field that was not in the list and whose descriptor carries no flag is
      shown exactly when its name is one of the columns. */
  lemma MergeNewFieldDisplay(before: seq<Field>, columns: seq<string>, found: map<string, Descriptor>, x: string, p: nat)
    requires x in found && found[x].preset.None? && !HasField(before, x)
    requires 1 <= p < |MergedFields(KnownDisplays(before), columns, found)|
    requires MergedFields(KnownDisplays(before), columns, found)[p].name == x
    ensures MergedFields(KnownDisplays(before), columns, found)[p].display <==> x in columns
  {
    KnownDisplaysKeys(before);
    MergedFieldsAt(KnownDisplays(before), columns, found, p);
  }

  /** A descriptor that arrives with a display flag keeps that flag. */
  lemma MergePresetDisplay(known: map<string, bool>, columns: seq<string>, found: map<string, Descriptor>, x: string, p: nat)
    requires x in found && found[x].preset.Some?
    requires 1 <= p < |MergedFields(known, columns, found)|
    requires MergedFields(known, columns, found)[p].name == x
    ensures MergedFields(known, columns, found)[p].display == found[x].preset.value
  {
    MergedFieldsAt(known, columns, found, p);
  }

  /** What getFields leaves behind once discovery returns a field map: the
      rebuilt list, reconciled with the columns by refreshColumns. */
  ghost function FieldsResult(known: map<string, bool>, columns: seq<string>,
                              found: map<string, Descriptor>): Layout
  {
    RefreshSpec(MergedFields(known, columns, found), columns)
  }

  /** getFields always ends normally with reconciled columns, and
      refreshColumns changes nothing in the rebuilt list but `_source` flags. */
  lemma FieldsResultPost(known: map<string, bool>, columns: seq<string>, found: map<string, Descriptor>)
    ensures FieldsResult(known, columns, found).outcome == Done
    ensures Reconciled(FieldsResult(known, columns, found).fields, FieldsResult(known, columns, found).columns)
    ensures OnlyDisplaysOf(MergedFields(known, columns, found), FieldsResult(known, columns, found).fields, {SOURCE})
  {
    var m := MergedFields(known, columns, found);
    assert m[0].name == SOURCE;
    RefreshColumnsPost(m, columns);
  }
}
