/** The field-evolution rules at the bottom of the policy pack. */
module Evolution {
  import opened Prelude
  import opened Json

  // ---------- reading a schema dictionary ----------

  /** `{field["name"]: field ...}` over the entries that are dictionaries with a string name. */
  function NamedFields(items: seq<Value>): (t: map<string, Value>)
    ensures forall n :: n in t ==> t[n] in items && t[n].VObj?
  {
    if items == [] then map[]
    else
      var rest, last := NamedFields(items[..|items| - 1]), items[|items| - 1];
      if last.VObj? && "name" in last.m && last.m["name"].VStr? then rest[last.m["name"].s := last] else rest
  }

  /** `_field_map`: empty when `fields` is missing or not a list. */
  function FieldMap(schema: Value): (t: map<string, Value>)
    ensures forall n :: n in t ==> t[n].VObj?
  {
    if schema.VObj? && "fields" in schema.m && schema.m["fields"].VArr?
    then NamedFields(schema.m["fields"].items)
    else map[]
  }

  /** `field.get("type")`. */
  function TypeOf(field: Value): Value
  {
    if field.VObj? && "type" in field.m then field.m["type"] else VNull
  }

  predicate IsEnum(t: Value)
  {
    t.VObj? && "type" in t.m && t.m["type"] == VStr("enum")
  }

  function Strings(items: seq<Value>): (r: set<string>)
    ensures forall s :: s in r <==> VStr(s) in items
  {
    if items == [] then {}
    else Strings(items[1..]) + if items[0].VStr? then {items[0].s} else {}
  }

  /** `for symbol in symbols` raises unless symbols is a list, a string or a dictionary. */
  predicate Iterable(v: Value)
  {
    v.VArr? || v.VStr? || v.VObj?
  }

  function Iterated(v: Value): set<string>
  {
    match v
    case VArr(items) => Strings(items)
    case VStr(s) => set i | 0 <= i < |s| :: [s[i]]
    case VObj(m) => m.Keys
    case _ => {}
  }

  /** `_enum_symbols` returns; otherwise it raises. */
  predicate Readable(t: Value)
  {
    match t
    case VObj(m) => IsEnum(t) && "symbols" in m ==> Iterable(m["symbols"])
    case VArr(items) => AllItemsReadable(items)
    case _ => true
  }

  predicate AllItemsReadable(items: seq<Value>)
  {
    items == [] || (Readable(items[0]) && AllItemsReadable(items[1..]))
  }

  /** `_enum_symbols` */
  function EnumSymbols(t: Value): set<string>
  {
    match t
    case VObj(m) => if IsEnum(t) && "symbols" in m then Iterated(m["symbols"]) else {}
    case VArr(items) => EnumSymbolsOfAll(items)
    case _ => {}
  }

  function EnumSymbolsOfAll(items: seq<Value>): set<string>
  {
    if items == [] then {} else EnumSymbols(items[0]) + EnumSymbolsOfAll(items[1..])
  }

  predicate SameEnumFamily(before: Value, after: Value)
  {
    EnumSymbols(before) != {} && EnumSymbols(after) != {}
  }

  /** `_normalized_type` */
  function NormalizedType(t: Value): Text
  {
    DumpsSorted(t)
  }

  // ---------- the three rules ----------

  predicate TypeChanged(before: Value, after: Value)
  {
    !SameEnumFamily(before, after) && NormalizedType(before) != NormalizedType(after)
  }

  predicate EnumNarrowed(before: Value, after: Value)
  {
    SameEnumFamily(before, after) && !(EnumSymbols(before) <= EnumSymbols(after))
  }

  /** The field tables of two versions of a schema. */
  type Fields = map<string, Value>

  /** Both enum rules read the symbols of every common field, so one unreadable field makes them raise. */
  predicate CommonReadable(o: Fields, a: Fields)
  {
    forall n :: n in o && n in a ==> Readable(TypeOf(o[n])) && Readable(TypeOf(a[n]))
  }

  predicate FlaggedType(o: Fields, a: Fields, n: string)
  {
    n in o && n in a && TypeChanged(TypeOf(o[n]), TypeOf(a[n]))
  }

  predicate FlaggedEnum(o: Fields, a: Fields, n: string)
  {
    n in o && n in a && EnumNarrowed(TypeOf(o[n]), TypeOf(a[n]))
  }

  predicate FlaggedRequired(o: Fields, a: Fields, n: string)
  {
    n in a && n !in o && !(a[n].VObj? && "default" in a[n].m)
  }

  /** `_added_required_fields_without_default` */
  function AddedRequired(o: Fields, a: Fields): (r: seq<string>)
    ensures Ascending(r) && forall n :: n in r <==> FlaggedRequired(o, a, n)
  {
    Sorted(set n | n in a && FlaggedRequired(o, a, n))
  }

  /** The names flagged as changed type, in order; None when the source raises. */
  function ChangedFieldTypes(o: Fields, a: Fields): (r: Option<seq<string>>)
    ensures r.Some? <==> CommonReadable(o, a)
    ensures r.Some? ==> Ascending(r.value) && forall n :: n in r.value <==> FlaggedType(o, a, n)
  {
    if CommonReadable(o, a) then Some(Sorted(set n | n in o && FlaggedType(o, a, n))) else None
  }

  function EnumNarrowingFields(o: Fields, a: Fields): (r: Option<seq<string>>)
    ensures r.Some? <==> CommonReadable(o, a)
    ensures r.Some? ==> Ascending(r.value) && forall n :: n in r.value <==> FlaggedEnum(o, a, n)
  {
    if CommonReadable(o, a) then Some(Sorted(set n | n in o && FlaggedEnum(o, a, n))) else None
  }

  /** An ascending sequence is determined by its elements. */
  lemma {:induction false} AscendingUnique(r: seq<string>, q: seq<string>)
    requires Ascending(r) && Ascending(q) && forall n :: n in r <==> n in q
    ensures r == q
  {
    if q != [] { NonEmpty(q, r); }
    if r != [] { NonEmpty(r, q); }
    if r != [] {
      assert r[0] in q && q[0] in r;
      var i :| 0 <= i < |q| && q[i] == r[0];
      var j :| 0 <= j < |r| && r[j] == q[0];
      if i > 0 && j > 0 { LeqAntisymmetric(r[0], q[0]); }
      forall n ensures n in r[1..] <==> n in q[1..] {
        TailElements(r, n);
        TailElements(q, n);
      }
      AscendingUnique(r[1..], q[1..]);
      HeadTail(r);
      HeadTail(q);
    }
  }

  lemma NonEmpty(r: seq<string>, q: seq<string>)
    requires r != [] && forall n :: n in r ==> n in q
    ensures q != []
  {
    assert r[0] in r;
  }

  lemma TailElements(r: seq<string>, n: string)
    requires Ascending(r) && r != []
    ensures n in r[1..] <==> n in r && n != r[0]
  {
  }

  /** `r` holds, in order, the flagged names among the first `i`. */
  ghost predicate Selected(names: seq<string>, i: nat, flagged: set<string>, r: seq<string>)
    requires i <= |names|
  {
    Ascending(r) && forall n :: n in r <==> n in names[..i] && n in flagged
  }

  lemma SelectNone(names: seq<string>, flagged: set<string>)
    ensures Selected(names, 0, flagged, [])
  {
  }

  lemma SelectStep(names: seq<string>, i: nat, flagged: set<string>, r: seq<string>)
    requires i < |names| && Ascending(names) && Selected(names, i, flagged, r)
    ensures Selected(names, i + 1, flagged, if names[i] in flagged then r + [names[i]] else r)
  {
    assert names[..i + 1] == names[..i] + [names[i]];
    if names[i] in flagged {
      forall k | 0 <= k < |r| ensures Leq(r[k], names[i]) && r[k] != names[i] {
        assert r[k] in names[..i];
      }
    }
  }

  lemma SelectAll(names: seq<string>, flagged: set<string>, r: seq<string>, q: seq<string>)
    requires Selected(names, |names|, flagged, r) && forall n :: n in flagged ==> n in names
    requires Ascending(q) && forall n :: n in q <==> n in flagged
    ensures r == q
  {
    assert names[..|names|] == names;
    AscendingUnique(r, q);
  }

  /** The loop of `_changed_field_types`. */
  method ComputeChangedFieldTypes(before: Value, after: Value) returns (r: Option<seq<string>>)
    ensures r == ChangedFieldTypes(FieldMap(before), FieldMap(after))
  {
    var o: Fields, a: Fields := FieldMap(before), FieldMap(after);
    var names := Sorted(o.Keys * a.Keys);
    var changed: seq<string> := [];
    ghost var flagged := set n | n in o && FlaggedType(o, a, n);
    SelectNone(names, flagged);
    for i := 0 to |names|
      invariant ReadableUpTo(o, a, names, i)
      invariant Selected(names, i, flagged, changed)
    {
      var n := names[i];
      assert n in o.Keys * a.Keys;
      var oldType, newType := TypeOf(o[n]), TypeOf(a[n]);
      if !Readable(oldType) || !Readable(newType) { return None; }
      ReadStep(o, a, names, i);
      SelectStep(names, i, flagged, changed);
      if !SameEnumFamily(oldType, newType) && NormalizedType(oldType) != NormalizedType(newType) {
        changed := changed + [n];
      }
    }
    AllReadable(o, a, names);
    SelectAll(names, flagged, changed, ChangedFieldTypes(o, a).value);
    return Some(changed);
  }

  /** The loop of `_enum_narrowing_fields`. */
  method ComputeEnumNarrowingFields(before: Value, after: Value) returns (r: Option<seq<string>>)
    ensures r == EnumNarrowingFields(FieldMap(before), FieldMap(after))
  {
    var o: Fields, a: Fields := FieldMap(before), FieldMap(after);
    var names := Sorted(o.Keys * a.Keys);
    var narrowed: seq<string> := [];
    ghost var flagged := set n | n in o && FlaggedEnum(o, a, n);
    SelectNone(names, flagged);
    for i := 0 to |names|
      invariant ReadableUpTo(o, a, names, i)
      invariant Selected(names, i, flagged, narrowed)
    {
      var n := names[i];
      assert n in o.Keys * a.Keys;
      var oldType, newType := TypeOf(o[n]), TypeOf(a[n]);
      if !Readable(oldType) || !Readable(newType) { return None; }
      ReadStep(o, a, names, i);
      var oldSymbols, newSymbols := EnumSymbols(oldType), EnumSymbols(newType);
      SelectStep(names, i, flagged, narrowed);
      if oldSymbols != {} && newSymbols != {} && !(oldSymbols <= newSymbols) {
        narrowed := narrowed + [n];
      }
    }
    AllReadable(o, a, names);
    SelectAll(names, flagged, narrowed, EnumNarrowingFields(o, a).value);
    return Some(narrowed);
  }

  predicate ReadableAt(o: Fields, a: Fields, n: string)
  {
    n in o && n in a && Readable(TypeOf(o[n])) && Readable(TypeOf(a[n]))
  }

  ghost predicate ReadableUpTo(o: Fields, a: Fields, names: seq<string>, i: nat)
    requires i <= |names|
  {
    forall k :: 0 <= k < i ==> ReadableAt(o, a, names[k])
  }

  lemma ReadStep(o: Fields, a: Fields, names: seq<string>, i: nat)
    requires i < |names| && ReadableUpTo(o, a, names, i) && ReadableAt(o, a, names[i])
    ensures ReadableUpTo(o, a, names, i + 1)
  {
  }

  lemma AllReadable(o: Fields, a: Fields, names: seq<string>)
    requires forall n :: n in names <==> n in o.Keys * a.Keys
    requires ReadableUpTo(o, a, names, |names|)
    ensures CommonReadable(o, a)
  {
    forall n | n in o && n in a ensures Readable(TypeOf(o[n])) && Readable(TypeOf(a[n])) {
      assert n in names;
    }
  }

  // ---------- the rules, from the two schemas alone ----------

  predicate IsNamed(v: Value, n: string)
  {
    v.VObj? && "name" in v.m && v.m["name"] == VStr(n)
  }

  /** The schema's last dictionary of that name in a `fields` list. */
  ghost predicate IsField(schema: Value, n: string, f: Value)
  {
    && schema.VObj? && "fields" in schema.m && schema.m["fields"].VArr?
    && IsLastNamed(schema.m["fields"].items, n, f)
  }

  ghost predicate IsLastNamed(items: seq<Value>, n: string, f: Value)
  {
    exists i :: IsLastAt(items, n, f, i)
  }

  ghost predicate IsLastAt(items: seq<Value>, n: string, f: Value, i: int)
  {
    0 <= i < |items| && items[i] == f && IsNamed(f, n) && forall j :: i < j < |items| ==> !IsNamed(items[j], n)
  }

  ghost predicate HasType(f: Value, t: Value)
  {
    f.VObj? && t == if "type" in f.m then f.m["type"] else VNull
  }

  /** A symbol of an enum, or of some member of a union. A text of symbols is read letter by letter. */
  ghost predicate IsSymbol(t: Value, s: string)
    decreases t
  {
    match t
    case VObj(m) =>
      && "type" in m && m["type"] == VStr("enum") && "symbols" in m
      && (match m["symbols"]
          case VArr(items) => VStr(s) in items
          case VStr(letters) => exists i :: 0 <= i < |letters| && s == [letters[i]]
          case VObj(keys) => s in keys
          case _ => false)
    case VArr(items) => exists i :: 0 <= i < |items| && IsSymbol(items[i], s)
    case _ => false
  }

  /** Reading the symbols raises: they are null, a boolean or a number, here or in some member of a union. */
  ghost predicate RaisesOn(t: Value)
    decreases t
  {
    match t
    case VObj(m) =>
      "type" in m && m["type"] == VStr("enum") && "symbols" in m && (m["symbols"].VNull? || m["symbols"].VBool? || m["symbols"].VNum?)
    case VArr(items) => exists i :: 0 <= i < |items| && RaisesOn(items[i])
    case _ => false
  }

  lemma {:induction false} NamedFieldsExactly(items: seq<Value>, n: string, f: Value)
    ensures n in NamedFields(items) && NamedFields(items)[n] == f <==> IsLastNamed(items, n, f)
  {
    if items != [] {
      var k := |items| - 1;
      NamedFieldsExactly(items[..k], n, f);
      if IsNamed(items[k], n) {
        assert f == items[k] ==> IsLastAt(items, n, f, k);
      } else {
        LastNamedStep(items, n, f);
      }
    }
  }

  lemma LastNamedStep(items: seq<Value>, n: string, f: Value)
    requires items != [] && !IsNamed(items[|items| - 1], n)
    ensures IsLastNamed(items, n, f) <==> IsLastNamed(items[..|items| - 1], n, f)
  {
    var front := items[..|items| - 1];
    forall i ensures IsLastAt(items, n, f, i) <==> IsLastAt(front, n, f, i) {
      assert forall j :: 0 <= j < |front| ==> front[j] == items[j];
    }
  }

  lemma FieldMapExactly(schema: Value, n: string, f: Value)
    ensures n in FieldMap(schema) && FieldMap(schema)[n] == f <==> IsField(schema, n, f)
  {
    if schema.VObj? && "fields" in schema.m && schema.m["fields"].VArr? {
      NamedFieldsExactly(schema.m["fields"].items, n, f);
    }
  }

  lemma FieldOnce(schema: Value, n: string)
    ensures n in FieldMap(schema) ==> IsField(schema, n, FieldMap(schema)[n])
    ensures forall f :: IsField(schema, n, f) ==> n in FieldMap(schema) && FieldMap(schema)[n] == f
  {
    if n in FieldMap(schema) { FieldMapExactly(schema, n, FieldMap(schema)[n]); }
    forall f | IsField(schema, n, f) ensures n in FieldMap(schema) && FieldMap(schema)[n] == f {
      FieldMapExactly(schema, n, f);
    }
  }

  lemma {:induction false} EnumSymbolsExactly(t: Value, s: string)
    ensures s in EnumSymbols(t) <==> IsSymbol(t, s)
    decreases t, 1
  {
    if t.VArr? { EnumSymbolsOfAllExactly(t.items, s); }
  }

  lemma {:induction false} EnumSymbolsOfAllExactly(items: seq<Value>, s: string)
    ensures s in EnumSymbolsOfAll(items) <==> exists i :: 0 <= i < |items| && IsSymbol(items[i], s)
    decreases items, 0
  {
    if items != [] {
      EnumSymbolsExactly(items[0], s);
      EnumSymbolsOfAllExactly(items[1..], s);
      assert forall i :: 0 < i < |items| ==> items[1..][i - 1] == items[i];
    }
  }

  lemma {:induction false} ReadableExactly(t: Value)
    ensures Readable(t) <==> !RaisesOn(t)
    decreases t, 1
  {
    if t.VArr? { AllReadableExactly(t.items); }
  }

  lemma {:induction false} AllReadableExactly(items: seq<Value>)
    ensures AllItemsReadable(items) <==> forall i :: 0 <= i < |items| ==> !RaisesOn(items[i])
    decreases items, 0
  {
    if items != [] {
      ReadableExactly(items[0]);
      AllReadableExactly(items[1..]);
      assert forall i :: 0 < i < |items| ==> items[1..][i - 1] == items[i];
    }
  }

  /** A field is flagged as required exactly when the new schema has it, without a default, and the old one has not. */
  lemma RequiredExactly(before: Value, after: Value, n: string)
    ensures n in AddedRequired(FieldMap(before), FieldMap(after))
       <==> && (forall f :: !IsField(before, n, f))
            && exists f :: IsField(after, n, f) && "default" !in f.m
  {
    FieldOnce(before, n);
    FieldOnce(after, n);
  }

  /** What the type and enum rules look at: the two types of a common field. */
  ghost predicate AreTypes(before: Value, after: Value, n: string, t: Value, u: Value)
  {
    exists f, g :: IsField(before, n, f) && IsField(after, n, g) && HasType(f, t) && HasType(g, u)
  }

  lemma TypesExactly(before: Value, after: Value, n: string, t: Value, u: Value)
    ensures AreTypes(before, after, n, t, u)
       <==> n in FieldMap(before) && n in FieldMap(after) && TypeOf(FieldMap(before)[n]) == t && TypeOf(FieldMap(after)[n]) == u
  {
    FieldOnce(before, n);
    FieldOnce(after, n);
    if n in FieldMap(before) && n in FieldMap(after) {
      var f, g := FieldMap(before)[n], FieldMap(after)[n];
      assert HasType(f, TypeOf(f)) && HasType(g, TypeOf(g));
    }
  }

  ghost predicate HasSymbols(t: Value)
  {
    exists s :: IsSymbol(t, s)
  }

  lemma HasSymbolsExactly(t: Value)
    ensures HasSymbols(t) <==> EnumSymbols(t) != {}
  {
    forall s ensures s in EnumSymbols(t) <==> IsSymbol(t, s) { EnumSymbolsExactly(t, s); }
    if s :| s in EnumSymbols(t) { assert IsSymbol(t, s); }
  }

  /** The rules raise exactly when the symbols of some common field cannot be read in one of the schemas. */
  lemma RulesRaiseExactly(before: Value, after: Value)
    ensures ChangedFieldTypes(FieldMap(before), FieldMap(after)).None? <==> EnumNarrowingFields(FieldMap(before), FieldMap(after)).None?
    ensures ChangedFieldTypes(FieldMap(before), FieldMap(after)).None? <==> exists n :: FieldRaises(before, after, n)
  {
    var o, a := FieldMap(before), FieldMap(after);
    forall n ensures FieldRaises(before, after, n) <==>
      n in o && n in a && !(Readable(TypeOf(o[n])) && Readable(TypeOf(a[n])))
    {
      FieldRaisesExactly(before, after, n);
    }
  }

  ghost predicate FieldRaises(before: Value, after: Value, n: string)
  {
    exists t, u :: AreTypes(before, after, n, t, u) && (RaisesOn(t) || RaisesOn(u))
  }

  lemma FieldRaisesExactly(before: Value, after: Value, n: string)
    ensures FieldRaises(before, after, n)
       <==> n in FieldMap(before) && n in FieldMap(after)
            && !(Readable(TypeOf(FieldMap(before)[n])) && Readable(TypeOf(FieldMap(after)[n])))
  {
    forall t, u | AreTypes(before, after, n, t, u)
      ensures n in FieldMap(before) && n in FieldMap(after) && TypeOf(FieldMap(before)[n]) == t && TypeOf(FieldMap(after)[n]) == u
    {
      TypesExactly(before, after, n, t, u);
    }
    if n in FieldMap(before) && n in FieldMap(after) {
      var t, u := TypeOf(FieldMap(before)[n]), TypeOf(FieldMap(after)[n]);
      TypesExactly(before, after, n, t, u);
      ReadableExactly(t);
      ReadableExactly(u);
    }
  }

  /** The two types differ, and not both have enum symbols. */
  ghost predicate IsChanged(t: Value, u: Value)
  {
    t != u && !(HasSymbols(t) && HasSymbols(u))
  }

  /** Both have enum symbols, and one symbol is lost. */
  ghost predicate IsNarrowed(t: Value, u: Value)
  {
    HasSymbols(t) && HasSymbols(u) && exists s :: IsSymbol(t, s) && !IsSymbol(u, s)
  }

  lemma SymbolsExactly(t: Value)
    ensures forall s :: s in EnumSymbols(t) <==> IsSymbol(t, s)
  {
    forall s ensures s in EnumSymbols(t) <==> IsSymbol(t, s) { EnumSymbolsExactly(t, s); }
  }

  lemma ChangeExactly(t: Value, u: Value)
    ensures TypeChanged(t, u) <==> IsChanged(t, u)
  {
    HasSymbolsExactly(t);
    HasSymbolsExactly(u);
    DumpsSortedInjective(t, u);
  }

  lemma NarrowingExactly(t: Value, u: Value)
    ensures EnumNarrowed(t, u) <==> IsNarrowed(t, u)
  {
    HasSymbolsExactly(t);
    HasSymbolsExactly(u);
    SymbolsExactly(t);
    SymbolsExactly(u);
  }

  /** The rules flag exactly the common fields whose types changed, or whose enums were narrowed. */
  lemma FlagsExactly(before: Value, after: Value, n: string)
    ensures var changed := ChangedFieldTypes(FieldMap(before), FieldMap(after));
            changed.Some? ==> (n in changed.value <==> exists t, u :: AreTypes(before, after, n, t, u) && IsChanged(t, u))
    ensures var narrowed := EnumNarrowingFields(FieldMap(before), FieldMap(after));
            narrowed.Some? ==> (n in narrowed.value <==> exists t, u :: AreTypes(before, after, n, t, u) && IsNarrowed(t, u))
  {
    forall t, u | AreTypes(before, after, n, t, u)
      ensures n in FieldMap(before) && n in FieldMap(after) && TypeOf(FieldMap(before)[n]) == t && TypeOf(FieldMap(after)[n]) == u
    {
      TypesExactly(before, after, n, t, u);
    }
    if n in FieldMap(before) && n in FieldMap(after) {
      var t, u := TypeOf(FieldMap(before)[n]), TypeOf(FieldMap(after)[n]);
      TypesExactly(before, after, n, t, u);
      ChangeExactly(t, u);
      NarrowingExactly(t, u);
    }
  }

  // ---------- what an unflagged step preserves ----------

  /** No field is flagged by both rules, and an unflagged common field is a grown enum or is unchanged. */
  lemma StepVerdict(o: Fields, a: Fields, n: string)
    requires n in o && n in a
    ensures !(FlaggedType(o, a, n) && FlaggedEnum(o, a, n))
    ensures var t, u := TypeOf(o[n]), TypeOf(a[n]);
            !FlaggedType(o, a, n) && !FlaggedEnum(o, a, n) <==>
            (SameEnumFamily(t, u) && EnumSymbols(t) <= EnumSymbols(u)) || (!SameEnumFamily(t, u) && t == u)
  {
    DumpsSortedInjective(TypeOf(o[n]), TypeOf(a[n]));
  }

  /** One step keeps the field, raises nothing and leaves it unflagged by the type and enum rules. */
  ghost predicate CleanStep(o: Fields, a: Fields, n: string)
  {
    && n in o && n in a
    && ChangedFieldTypes(o, a).Some? && n !in ChangedFieldTypes(o, a).value
    && EnumNarrowingFields(o, a).Some? && n !in EnumNarrowingFields(o, a).value
  }

  lemma CleanStepTypes(o: Fields, a: Fields, n: string)
    requires CleanStep(o, a, n)
    ensures var t, u := TypeOf(o[n]), TypeOf(a[n]);
            EnumSymbols(t) <= EnumSymbols(u) && (EnumSymbols(t) == {} ==> t == u)
  {
    StepVerdict(o, a, n);
  }

  ghost predicate CleanTables(tables: seq<Fields>, n: string)
  {
    && (forall i :: 0 <= i < |tables| ==> n in tables[i])
    && (forall i :: 0 < i < |tables| ==> CleanAt(tables, n, i))
  }

  ghost predicate CleanAt(tables: seq<Fields>, n: string, i: nat)
    requires 0 < i < |tables|
  {
    CleanStep(tables[i - 1], tables[i], n)
  }

  /** Enum symbols only grow, and a type without any stays as it is. */
  ghost predicate Keeps(t: Value, u: Value)
  {
    EnumSymbols(t) <= EnumSymbols(u) && (EnumSymbols(t) == {} ==> t == u)
  }

  /** A reflexive and transitive relation between neighbours holds between any two, the earlier first. */
  lemma {:induction false} ChainRelated<T(!new)>(ts: seq<T>, related: (T, T) -> bool, i: nat, j: nat)
    requires forall t :: related(t, t)
    requires forall t, u, v :: related(t, u) && related(u, v) ==> related(t, v)
    requires forall k :: 0 < k < |ts| ==> related(ts[k - 1], ts[k])
    requires i <= j < |ts|
    ensures related(ts[i], ts[j])
    decreases j - i
  {
    if i < j {
      ChainRelated(ts, related, i, j - 1);
      assert related(ts[j - 1], ts[j]);
    }
  }

  lemma KeepsOrders()
    ensures forall t :: Keeps(t, t)
    ensures forall t, u, v :: Keeps(t, u) && Keeps(u, v) ==> Keeps(t, v)
  {
  }

  lemma TypesKept(types: seq<Value>, i: nat, j: nat)
    requires forall k :: 0 < k < |types| ==> Keeps(types[k - 1], types[k])
    requires i <= j < |types|
    ensures Keeps(types[i], types[j])
  {
    KeepsOrders();
    ChainRelated(types, (t, u) => Keeps(t, u), i, j);
  }

  lemma CleanStepKeeps(tables: seq<Fields>, n: string, j: nat)
    requires CleanTables(tables, n) && 0 < j < |tables|
    ensures Keeps(TypeOf(tables[j - 1][n]), TypeOf(tables[j][n]))
  {
    assert CleanAt(tables, n, j);
    CleanStepTypes(tables[j - 1], tables[j], n);
  }

  lemma ChainTypes(tables: seq<Fields>, n: string, i: nat, j: nat)
    requires CleanTables(tables, n) && i <= j < |tables|
    ensures Keeps(TypeOf(tables[i][n]), TypeOf(tables[j][n]))
  {
    var types := seq(|tables|, k requires 0 <= k < |tables| => TypeOf(tables[k][n]));
    forall k | 0 < k < |types| ensures Keeps(types[k - 1], types[k]) {
      CleanStepKeeps(tables, n, k);
    }
    TypesKept(types, i, j);
  }

  /** Every version keeps the field, and every step is clean for it. */
  ghost predicate CleanChain(versions: seq<Value>, n: string)
  {
    CleanTables(seq(|versions|, i requires 0 <= i < |versions| => FieldMap(versions[i])), n)
  }

  /**
   Along a clean chain of any length the enum symbols of the field only grow, and a field that
   starts without enum symbols has the same normalised type at both ends.
   */
  lemma ChainPreserves(versions: seq<Value>, n: string, i: nat, j: nat)
    requires CleanChain(versions, n) && i <= j < |versions|
    ensures n in FieldMap(versions[i]) && n in FieldMap(versions[j])
    ensures var t, u := TypeOf(FieldMap(versions[i])[n]), TypeOf(FieldMap(versions[j])[n]);
            EnumSymbols(t) <= EnumSymbols(u) && (EnumSymbols(t) == {} ==> NormalizedType(t) == NormalizedType(u))
  {
    var tables := seq(|versions|, i requires 0 <= i < |versions| => FieldMap(versions[i]));
    assert tables[i] == FieldMap(versions[i]) && tables[j] == FieldMap(versions[j]);
    ChainTypes(tables, n, i, j);
  }
}
