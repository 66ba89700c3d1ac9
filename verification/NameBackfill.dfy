/**
 The JSON walkers of migration 0032: `uz_latn` filled in from `uz_cyrl` wherever a name
 lacks it, and the downgrade that strips what it takes for its own writing.

 A JSON object is a map: jsonb keeps no key order, and the walkers do not depend on one.
 */
module NameBackfill {
  import opened Collections
  import opened PythonText
  import opened UzbekLatin
  import opened Wrappers

  datatype Json =
    | Null
    | Bool(b: bool)
    | Number(n: real)
    | Str(s: string)
    | List(items: seq<Json>)
    | Object(fields: map<string, Json>)

  /** The walkers' transliteration. What they promise holds of any. */
  type Rule = string -> string

  function RuleOf(abc: Alphabet): Rule {
    (text: string) => Transliterated(abc, text)
  }

  const CYRL := "uz_cyrl"
  const LATN := "uz_latn"

  lemma KeysDiffer()
    ensures CYRL != LATN
  {
    assert CYRL[3] != LATN[3];
  }

  predicate HasText(fields: map<string, Json>, key: string) {
    key in fields && fields[key].Str? && !IsBlank(fields[key].s)
  }

  // `_is_localized_dict`
  predicate Localized(fields: map<string, Json>) {
    HasText(fields, CYRL)
  }

  function Latinized(rule: Rule, fields: map<string, Json>): string
    requires Localized(fields)
  {
    rule(fields[CYRL].s)
  }

  predicate Fills(fields: map<string, Json>) {
    Localized(fields) && !HasText(fields, LATN)
  }

  function Filled(rule: Rule, fields: map<string, Json>): map<string, Json> {
    if Fills(fields) then fields[LATN := Str(Latinized(rule, fields))] else fields
  }

  predicate Strips(rule: Rule, fields: map<string, Json>) {
    Localized(fields) && LATN in fields && fields[LATN] == Str(Latinized(rule, fields))
  }

  function Stripped(rule: Rule, fields: map<string, Json>): map<string, Json> {
    if Strips(rule, fields) then fields - {LATN} else fields
  }

  // ---------------------------------------------------------------------------
  // What the walkers compute
  // ---------------------------------------------------------------------------

  function Backfill(rule: Rule, v: Json): Json {
    match v
    case List(items) => List(seq(|items|, i requires 0 <= i < |items| => Backfill(rule, items[i])))
    case Object(fields) =>
      Object(map k | k in Filled(rule, fields) ::
               if k == LATN && Fills(fields) then Filled(rule, fields)[k] else Backfill(rule, fields[k]))
    case _ => v
  }

  predicate BackfillChanges(v: Json) {
    match v
    case List(items) => exists i :: 0 <= i < |items| && BackfillChanges(items[i])
    case Object(fields) => Fills(fields) || exists k :: k in fields && BackfillChanges(fields[k])
    case _ => false
  }

  function Revert(rule: Rule, v: Json): Json {
    match v
    case List(items) => List(seq(|items|, i requires 0 <= i < |items| => Revert(rule, items[i])))
    case Object(fields) => Object(map k | k in Stripped(rule, fields) :: Revert(rule, fields[k]))
    case _ => v
  }

  predicate RevertChanges(rule: Rule, v: Json) {
    match v
    case List(items) => exists i :: 0 <= i < |items| && RevertChanges(rule, items[i])
    case Object(fields) =>
      Strips(rule, fields) || exists k :: k in Stripped(rule, fields) && RevertChanges(rule, fields[k])
    case _ => false
  }

  // ---------------------------------------------------------------------------
  // The flags
  // ---------------------------------------------------------------------------

  /** A false flag means the value is the same. */
  lemma {:induction false} UnchangedByBackfill(rule: Rule, v: Json)
    requires !BackfillChanges(v)
    ensures Backfill(rule, v) == v
  {
    match v
    case List(items) =>
      forall i | 0 <= i < |items| ensures Backfill(rule, items[i]) == items[i] { UnchangedByBackfill(rule, items[i]); }
      assert Backfill(rule, v).items == items;
    case Object(fields) =>
      forall k | k in fields ensures Backfill(rule, fields[k]) == fields[k] { UnchangedByBackfill(rule, fields[k]); }
      assert Backfill(rule, v).fields == fields;
    case _ =>
  }

  lemma {:induction false} UnchangedByRevert(rule: Rule, v: Json)
    requires !RevertChanges(rule, v)
    ensures Revert(rule, v) == v
  {
    match v
    case List(items) =>
      forall i | 0 <= i < |items| ensures Revert(rule, items[i]) == items[i] { UnchangedByRevert(rule, items[i]); }
      assert Revert(rule, v).items == items;
    case Object(fields) =>
      forall k | k in fields ensures Revert(rule, fields[k]) == fields[k] { UnchangedByRevert(rule, fields[k]); }
      assert Revert(rule, v).fields == fields;
    case _ =>
  }

  // ---------------------------------------------------------------------------
  // The walkers as they run
  // ---------------------------------------------------------------------------

  method BackfillValue(abc: Alphabet, v: Json) returns (result: Json, changed: bool)
    ensures result == Backfill(RuleOf(abc), v) && (changed <==> BackfillChanges(v))
    decreases v, 2
  {
    match v
    case Object(fields) =>
      result, changed := BackfillObject(abc, v);
    case List(items) =>
      var newList;
      newList, changed := BackfillItems(abc, v);
      result := List(newList);
      assert newList == Backfill(RuleOf(abc), v).items;
    case _ =>
      result, changed := v, false;
  }

  ghost predicate BackfillAnyItem(items: seq<Json>, n: nat) {
    exists j :: 0 <= j < n && j < |items| && BackfillChanges(items[j])
  }

  method BackfillItems(abc: Alphabet, v: Json) returns (newList: seq<Json>, changed: bool)
    requires v.List?
    ensures |newList| == |v.items|
    ensures forall j :: 0 <= j < |v.items| ==> newList[j] == Backfill(RuleOf(abc), v.items[j])
    ensures changed <==> BackfillAnyItem(v.items, |v.items|)
    decreases v, 1
  {
    newList, changed := v.items, false;
    for i := 0 to |v.items|
      invariant |newList| == |v.items|
      invariant forall j :: 0 <= j < i ==> newList[j] == Backfill(RuleOf(abc), v.items[j])
      invariant forall j :: i <= j < |v.items| ==> newList[j] == v.items[j]
      invariant changed <==> BackfillAnyItem(v.items, i)
    {
      var newItem, itemChanged := BackfillValue(abc, v.items[i]);
      if itemChanged {
        newList := newList[i := newItem];
        changed := true;
      } else {
        UnchangedByBackfill(RuleOf(abc), v.items[i]);
      }
    }
  }

  // `base` with the children of `done` walked.
  function BackfilledSo(rule: Rule, fields: map<string, Json>, base: map<string, Json>,
                        done: set<string>): map<string, Json> {
    map k | k in base :: if k in done && k in fields then Backfill(rule, fields[k]) else base[k]
  }

  ghost predicate BackfilledAny(fields: map<string, Json>, done: set<string>) {
    exists k :: k in done && k in fields && BackfillChanges(fields[k])
  }

  lemma BackfilledOneMore(rule: Rule, fields: map<string, Json>, base: map<string, Json>,
                          keys: set<string>, rest: set<string>, key: string)
    requires key in rest && rest <= keys && key in fields && key in base && base[key] == fields[key]
    ensures BackfilledSo(rule, fields, base, keys - (rest - {key}))
            == if BackfillChanges(fields[key]) then
                 BackfilledSo(rule, fields, base, keys - rest)[key := Backfill(rule, fields[key])]
               else BackfilledSo(rule, fields, base, keys - rest)
    ensures BackfilledAny(fields, keys - (rest - {key}))
            <==> BackfilledAny(fields, keys - rest) || BackfillChanges(fields[key])
  {
    OneMoreDone(keys, rest, key);
    if !BackfillChanges(fields[key]) {
      UnchangedByBackfill(rule, fields[key]);
    }
  }

  method BackfillChildren(abc: Alphabet, v: Json, base: map<string, Json>, keys: set<string>)
    returns (updated: map<string, Json>, changed: bool)
    requires v.Object? && keys <= base.Keys && keys <= v.fields.Keys
    requires forall k :: k in keys ==> base[k] == v.fields[k]
    ensures updated == BackfilledSo(RuleOf(abc), v.fields, base, keys)
    ensures changed <==> BackfilledAny(v.fields, keys)
    decreases v, 0
  {
    updated, changed := base, false;
    var rest := keys;
    assert keys - keys == {} && updated == BackfilledSo(RuleOf(abc), v.fields, base, {});
    while rest != {}
      invariant rest <= keys
      invariant updated == BackfilledSo(RuleOf(abc), v.fields, base, keys - rest)
      invariant changed <==> BackfilledAny(v.fields, keys - rest)
      decreases rest
    {
      var key :| key in rest;
      BackfilledOneMore(RuleOf(abc), v.fields, base, keys, rest, key);
      var newChild, childChanged := BackfillValue(abc, v.fields[key]);
      if childChanged {
        updated := updated[key := newChild];
        changed := true;
      }
      rest := rest - {key};
    }
    assert keys - rest == keys;
  }

  lemma ObjectBackfilled(rule: Rule, fields: map<string, Json>, keys: set<string>)
    requires keys == if Fills(fields) then fields.Keys - {LATN} else fields.Keys
    ensures BackfilledSo(rule, fields, Filled(rule, fields), keys) == Backfill(rule, Object(fields)).fields
    ensures BackfillChanges(Object(fields)) <==> Fills(fields) || BackfilledAny(fields, keys)
  {
  }

  method BackfillObject(abc: Alphabet, v: Json) returns (result: Json, changed: bool)
    requires v.Object?
    ensures result == Backfill(RuleOf(abc), v) && (changed <==> BackfillChanges(v))
    decreases v, 1
  {
    var fields := v.fields;
    var updated := fields;
    var changedHere := false;
    var keys := fields.Keys;
    if Fills(fields) {
      var latin := Transliterate(abc, fields[CYRL].s);
      updated := updated[LATN := Str(latin)];
      changedHere := true;
      keys := keys - {LATN};  // the new string has no children
    }
    ObjectBackfilled(RuleOf(abc), fields, keys);
    var anyChildChanged;
    updated, anyChildChanged := BackfillChildren(abc, v, updated, keys);
    result, changed := Object(updated), changedHere || anyChildChanged;
  }

  method RevertValue(abc: Alphabet, v: Json) returns (result: Json, changed: bool)
    ensures result == Revert(RuleOf(abc), v) && (changed <==> RevertChanges(RuleOf(abc), v))
    decreases v, 2
  {
    match v
    case Object(fields) =>
      result, changed := RevertObject(abc, v);
    case List(items) =>
      var newList;
      newList, changed := RevertItems(abc, v);
      result := List(newList);
      assert newList == Revert(RuleOf(abc), v).items;
    case _ =>
      result, changed := v, false;
  }

  ghost predicate RevertAnyItem(rule: Rule, items: seq<Json>, n: nat) {
    exists j :: 0 <= j < n && j < |items| && RevertChanges(rule, items[j])
  }

  method RevertItems(abc: Alphabet, v: Json) returns (newList: seq<Json>, changed: bool)
    requires v.List?
    ensures |newList| == |v.items|
    ensures forall j :: 0 <= j < |v.items| ==> newList[j] == Revert(RuleOf(abc), v.items[j])
    ensures changed <==> RevertAnyItem(RuleOf(abc), v.items, |v.items|)
    decreases v, 1
  {
    newList, changed := v.items, false;
    for i := 0 to |v.items|
      invariant |newList| == |v.items|
      invariant forall j :: 0 <= j < i ==> newList[j] == Revert(RuleOf(abc), v.items[j])
      invariant forall j :: i <= j < |v.items| ==> newList[j] == v.items[j]
      invariant changed <==> RevertAnyItem(RuleOf(abc), v.items, i)
    {
      var newItem, itemChanged := RevertValue(abc, v.items[i]);
      if itemChanged {
        newList := newList[i := newItem];
        changed := true;
      } else {
        UnchangedByRevert(RuleOf(abc), v.items[i]);
      }
    }
  }

  // `base` with the children of `done` walked.
  function RevertedSo(rule: Rule, base: map<string, Json>, done: set<string>): map<string, Json> {
    map k | k in base :: if k in done then Revert(rule, base[k]) else base[k]
  }

  ghost predicate RevertedAny(rule: Rule, base: map<string, Json>, done: set<string>) {
    exists k :: k in done && k in base && RevertChanges(rule, base[k])
  }

  lemma RevertedOneMore(rule: Rule, base: map<string, Json>, keys: set<string>,
                        rest: set<string>, key: string)
    requires key in rest && rest <= keys <= base.Keys
    ensures RevertedSo(rule, base, keys - (rest - {key}))
            == if RevertChanges(rule, base[key]) then
                 RevertedSo(rule, base, keys - rest)[key := Revert(rule, base[key])]
               else RevertedSo(rule, base, keys - rest)
    ensures RevertedAny(rule, base, keys - (rest - {key}))
            <==> RevertedAny(rule, base, keys - rest) || RevertChanges(rule, base[key])
  {
    OneMoreDone(keys, rest, key);
    if !RevertChanges(rule, base[key]) {
      UnchangedByRevert(rule, base[key]);
    }
  }

  method RevertChildren(abc: Alphabet, v: Json, base: map<string, Json>, keys: set<string>)
    returns (updated: map<string, Json>, changed: bool)
    requires v.Object? && keys <= base.Keys && keys <= v.fields.Keys
    requires forall k :: k in keys ==> base[k] == v.fields[k]
    ensures updated == RevertedSo(RuleOf(abc), base, keys)
    ensures changed <==> RevertedAny(RuleOf(abc), base, keys)
    decreases v, 0
  {
    updated, changed := base, false;
    var rest := keys;
    assert keys - keys == {} && updated == RevertedSo(RuleOf(abc), base, {});
    while rest != {}
      invariant rest <= keys
      invariant updated == RevertedSo(RuleOf(abc), base, keys - rest)
      invariant changed <==> RevertedAny(RuleOf(abc), base, keys - rest)
      decreases rest
    {
      var key :| key in rest;
      RevertedOneMore(RuleOf(abc), base, keys, rest, key);
      var newChild, childChanged := RevertValue(abc, v.fields[key]);
      if childChanged {
        updated := updated[key := newChild];
        changed := true;
      }
      rest := rest - {key};
    }
    assert keys - rest == keys;
  }

  lemma ObjectReverted(rule: Rule, fields: map<string, Json>, base: map<string, Json>)
    requires base == Stripped(rule, fields)
    ensures RevertedSo(rule, base, base.Keys) == Revert(rule, Object(fields)).fields
    ensures RevertChanges(rule, Object(fields)) <==> Strips(rule, fields) || RevertedAny(rule, base, base.Keys)
  {
  }

  method RevertObject(abc: Alphabet, v: Json) returns (result: Json, changed: bool)
    requires v.Object?
    ensures result == Revert(RuleOf(abc), v) && (changed <==> RevertChanges(RuleOf(abc), v))
    decreases v, 1
  {
    var fields := v.fields;
    var updated := fields;
    var changedHere := false;
    if Localized(fields) && LATN in fields && fields[LATN].Str? {
      var latin := Transliterate(abc, fields[CYRL].s);
      if fields[LATN].s == latin {
        updated := updated - {LATN};
        changedHere := true;
      }
    }
    ObjectReverted(RuleOf(abc), fields, updated);
    var anyChildChanged;
    updated, anyChildChanged := RevertChildren(abc, v, updated, updated.Keys);
    result, changed := Object(updated), changedHere || anyChildChanged;
  }

  // ---------------------------------------------------------------------------
  // Round trip, idempotence, locality
  // ---------------------------------------------------------------------------

  /** Every name with Cyrillic text either lacks `uz_latn`, or has a non-blank text there
      that is not the transliteration. */
  predicate Clean(rule: Rule, v: Json) {
    match v
    case List(items) => forall i :: 0 <= i < |items| ==> Clean(rule, items[i])
    case Object(fields) =>
      && (Localized(fields) && LATN in fields ==> HasText(fields, LATN) && !Strips(rule, fields))
      && forall k :: k in fields ==> Clean(rule, fields[k])
    case _ => true
  }

  // Backfill leaves strings alone, so it keeps what the tests on a node look at.
  lemma BackfilledNode(rule: Rule, fields: map<string, Json>)
    ensures var after := Backfill(rule, Object(fields)).fields;
            && after.Keys == Filled(rule, fields).Keys
            && (Localized(after) <==> Localized(fields))
            && (Localized(fields) ==> after[CYRL] == fields[CYRL])
            && (LATN in fields && fields[LATN].Str? && !Fills(fields) ==> after[LATN] == fields[LATN])
            && (HasText(fields, LATN) ==> HasText(after, LATN))
            && (HasText(after, LATN) && !Fills(fields) ==> HasText(fields, LATN))
            && (Fills(fields) ==> after[LATN] == Str(Latinized(rule, fields)))
  {
    KeysDiffer();
  }

  lemma {:induction false} RevertUndoesBackfill(rule: Rule, v: Json)
    requires Clean(rule, v)
    ensures Revert(rule, Backfill(rule, v)) == v
  {
    match v
    case List(items) =>
      forall i | 0 <= i < |items| ensures Revert(rule, Backfill(rule, items[i])) == items[i]
      {
        RevertUndoesBackfill(rule, items[i]);
      }
      assert Revert(rule, Backfill(rule, v)).items == items;
    case Object(fields) =>
      var after := Backfill(rule, v).fields;
      BackfilledNode(rule, fields);
      forall k | k in fields ensures Revert(rule, Backfill(rule, fields[k])) == fields[k]
      {
        RevertUndoesBackfill(rule, fields[k]);
      }
      assert Stripped(rule, after).Keys == fields.Keys;
      assert Revert(rule, Backfill(rule, v)).fields == fields;
    case _ =>
  }

  lemma {:induction false} OnlyCleanIsRestored(rule: Rule, v: Json)
    requires Revert(rule, Backfill(rule, v)) == v
    ensures Clean(rule, v)
  {
    match v
    case List(items) =>
      forall i | 0 <= i < |items| ensures Clean(rule, items[i])
      {
        assert Revert(rule, Backfill(rule, v)).items[i] == Revert(rule, Backfill(rule, items[i]));
        OnlyCleanIsRestored(rule, items[i]);
      }
    case Object(fields) =>
      var after := Backfill(rule, v).fields;
      BackfilledNode(rule, fields);
      assert Revert(rule, Backfill(rule, v)).fields.Keys == Stripped(rule, after).Keys;
      assert LATN in fields ==> !Strips(rule, after);
      forall k | k in fields ensures Clean(rule, fields[k])
      {
        if !(k == LATN && Fills(fields)) {
          assert Revert(rule, Backfill(rule, v)).fields[k] == Revert(rule, Backfill(rule, fields[k]));
          OnlyCleanIsRestored(rule, fields[k]);
        }
      }
    case _ =>
  }

  /** The downgrade restores a value if and only if every name in it was clean. */
  lemma {:induction false} RoundTrip(rule: Rule, v: Json)
    ensures Revert(rule, Backfill(rule, v)) == v <==> Clean(rule, v)
  {
    if Clean(rule, v) {
      RevertUndoesBackfill(rule, v);
    } else if Revert(rule, Backfill(rule, v)) == v {
      OnlyCleanIsRestored(rule, v);
    }
  }

  lemma BackfilledObjectTwice(rule: Rule, fields: map<string, Json>)
    requires forall k :: k in fields ==> Backfill(rule, Backfill(rule, fields[k])) == Backfill(rule, fields[k])
    ensures var after := Backfill(rule, Object(fields)); Backfill(rule, after) == after
  {
    var after := Backfill(rule, Object(fields)).fields;
    BackfilledNode(rule, fields);
    assert Filled(rule, after) == after;
    assert Backfill(rule, Object(after)).fields == after;
  }

  /** Backfilling twice is backfilling once. */
  lemma {:induction false} BackfillIsIdempotent(rule: Rule, v: Json)
    ensures Backfill(rule, Backfill(rule, v)) == Backfill(rule, v)
  {
    match v
    case List(items) =>
      forall i | 0 <= i < |items| ensures Backfill(rule, Backfill(rule, items[i])) == Backfill(rule, items[i])
      {
        BackfillIsIdempotent(rule, items[i]);
      }
      assert Backfill(rule, Backfill(rule, v)).items == Backfill(rule, v).items;
    case Object(fields) =>
      forall k | k in fields ensures Backfill(rule, Backfill(rule, fields[k])) == Backfill(rule, fields[k])
      {
        BackfillIsIdempotent(rule, fields[k]);
      }
      BackfilledObjectTwice(rule, fields);
    case _ =>
  }

  /** A value with the `uz_latn` of every name with Cyrillic text forgotten. */
  function WithoutLatin(v: Json): Json {
    match v
    case List(items) => List(seq(|items|, i requires 0 <= i < |items| => WithoutLatin(items[i])))
    case Object(fields) =>
      Object(map k | k in fields && !(k == LATN && Localized(fields)) :: WithoutLatin(fields[k]))
    case _ => v
  }

  /** Backfill touches nothing but the `uz_latn` of names with Cyrillic text. */
  lemma {:induction false} BackfillOnlyWritesLatin(rule: Rule, v: Json)
    ensures WithoutLatin(Backfill(rule, v)) == WithoutLatin(v)
  {
    match v
    case List(items) =>
      forall i | 0 <= i < |items| ensures WithoutLatin(Backfill(rule, items[i])) == WithoutLatin(items[i])
      {
        BackfillOnlyWritesLatin(rule, items[i]);
      }
      assert WithoutLatin(Backfill(rule, v)).items == WithoutLatin(v).items;
    case Object(fields) =>
      BackfilledNode(rule, fields);
      forall k | k in fields ensures WithoutLatin(Backfill(rule, fields[k])) == WithoutLatin(fields[k])
      {
        BackfillOnlyWritesLatin(rule, fields[k]);
      }
      assert WithoutLatin(Backfill(rule, v)).fields == WithoutLatin(v).fields;
    case _ =>
  }

  /** The downgrade, too, touches nothing but the `uz_latn` of names with Cyrillic text. */
  lemma {:induction false} RevertOnlyStripsLatin(rule: Rule, v: Json)
    ensures WithoutLatin(Revert(rule, v)) == WithoutLatin(v)
  {
    match v
    case List(items) =>
      forall i | 0 <= i < |items| ensures WithoutLatin(Revert(rule, items[i])) == WithoutLatin(items[i])
      {
        RevertOnlyStripsLatin(rule, items[i]);
      }
      assert WithoutLatin(Revert(rule, v)).items == WithoutLatin(v).items;
    case Object(fields) =>
      KeysDiffer();
      forall k | k in fields ensures WithoutLatin(Revert(rule, fields[k])) == WithoutLatin(fields[k])
      {
        RevertOnlyStripsLatin(rule, fields[k]);
      }
      assert Localized(Revert(rule, v).fields) <==> Localized(fields);
      assert WithoutLatin(Revert(rule, v)).fields == WithoutLatin(v).fields;
    case _ =>
  }

  // The text of a field, if it is one and not all white space.
  ghost function TextAt(fields: map<string, Json>, key: string): Option<string> {
    if key in fields && fields[key].Str? && exists i :: 0 <= i < |fields[key].s| && !IsSpace(fields[key].s[i])
    then Some(fields[key].s) else None
  }

  lemma TextAtIsText(fields: map<string, Json>, key: string)
    ensures TextAt(fields, key).Some? <==> HasText(fields, key)
  {
    if key in fields && fields[key].Str? { BlankIsAllSpaces(fields[key].s); }
  }

  /** `after` is `before` with, at any depth, the `uz_latn` of every name that has a Cyrillic text:
      its own Latin text where it had one, and otherwise `rule` of the Cyrillic one. */
  ghost predicate NamesFilled(rule: Rule, before: Json, after: Json) {
    match before
    case List(items) =>
      && after.List? && |after.items| == |items|
      && forall i :: 0 <= i < |items| ==> NamesFilled(rule, items[i], after.items[i])
    case Object(fields) =>
      var cyrl, latn := TextAt(fields, "uz_cyrl"), TextAt(fields, "uz_latn");
      && after.Object? && after.fields.Keys == fields.Keys + (if cyrl.Some? then {"uz_latn"} else {})
      && (cyrl.Some? ==>
            after.fields["uz_latn"] == Str(if latn.Some? then latn.value else rule(cyrl.value)))
      && forall k :: k in fields && !(k == "uz_latn" && cyrl.Some?) ==>
                       NamesFilled(rule, fields[k], after.fields[k])
    case _ => after == before
  }

  /** After the upgrade every name holds its Latin text, filled in exactly where it had none. */
  lemma {:induction false} BackfillFillsNames(rule: Rule, v: Json)
    ensures NamesFilled(rule, v, Backfill(rule, v))
  {
    match v
    case List(items) =>
      forall i | 0 <= i < |items| ensures NamesFilled(rule, items[i], Backfill(rule, items[i]))
      {
        BackfillFillsNames(rule, items[i]);
      }
    case Object(fields) =>
      BackfilledNode(rule, fields);
      TextAtIsText(fields, CYRL);
      TextAtIsText(fields, LATN);
      forall k | k in fields ensures NamesFilled(rule, fields[k], Backfill(rule, fields[k]))
      {
        BackfillFillsNames(rule, fields[k]);
      }
    case _ =>
  }

  /** `after` is `before` without, at any depth, each `uz_latn` that is `rule` of the Cyrillic text
      beside it. */
  ghost predicate NamesStripped(rule: Rule, before: Json, after: Json) {
    match before
    case List(items) =>
      && after.List? && |after.items| == |items|
      && forall i :: 0 <= i < |items| ==> NamesStripped(rule, items[i], after.items[i])
    case Object(fields) =>
      var cyrl := TextAt(fields, "uz_cyrl");
      var own := cyrl.Some? && "uz_latn" in fields && fields["uz_latn"] == Str(rule(cyrl.value));
      && after.Object? && after.fields.Keys == fields.Keys - (if own then {"uz_latn"} else {})
      && forall k :: k in after.fields ==> NamesStripped(rule, fields[k], after.fields[k])
    case _ => after == before
  }

  /** The downgrade strips exactly those. */
  lemma {:induction false} RevertStripsOwn(rule: Rule, v: Json)
    ensures NamesStripped(rule, v, Revert(rule, v))
  {
    match v
    case List(items) =>
      forall i | 0 <= i < |items| ensures NamesStripped(rule, items[i], Revert(rule, items[i]))
      {
        RevertStripsOwn(rule, items[i]);
      }
    case Object(fields) =>
      TextAtIsText(fields, CYRL);
      forall k | k in fields ensures NamesStripped(rule, fields[k], Revert(rule, fields[k]))
      {
        RevertStripsOwn(rule, fields[k]);
      }
    case _ =>
  }

  /** Every non-blank `uz_latn` of `before` stands in `after`, at any depth; a name that is
      filled may lose what else its `uz_latn` held. */
  ghost predicate KeepsLatinText(before: Json, after: Json) {
    match before
    case List(items) =>
      && after.List? && |after.items| == |items|
      && forall i :: 0 <= i < |items| ==> KeepsLatinText(items[i], after.items[i])
    case Object(fields) =>
      && after.Object? && fields.Keys <= after.fields.Keys
      && (HasText(fields, LATN) ==> after.fields[LATN] == fields[LATN])
      && forall k :: k in fields && !(k == LATN && Fills(fields)) ==> KeepsLatinText(fields[k], after.fields[k])
    case _ => after == before
  }

  /** Backfill never overwrites a non-blank text. */
  lemma {:induction false} BackfillKeepsLatinText(rule: Rule, v: Json)
    ensures KeepsLatinText(v, Backfill(rule, v))
  {
    match v
    case List(items) =>
      forall i | 0 <= i < |items| ensures KeepsLatinText(items[i], Backfill(rule, items[i]))
      {
        BackfillKeepsLatinText(rule, items[i]);
      }
    case Object(fields) =>
      BackfilledNode(rule, fields);
      forall k | k in fields ensures KeepsLatinText(fields[k], Backfill(rule, fields[k]))
      {
        BackfillKeepsLatinText(rule, fields[k]);
      }
    case _ =>
  }
}
