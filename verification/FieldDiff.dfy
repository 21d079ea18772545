/** The structural diff of two schemas: `get_field_diff` inside the planner. */
module FieldDiff {
  import opened Prelude
  import opened Json

  /** A dotted path, one field name per level. Any hashable JSON value can be a name. */
  type Path = seq<Value>

  datatype Kind = Added | Removed | ChangedType(oldType: Value, newType: Value) | Modified

  datatype Change = Change(path: Path, kind: Kind)

  predicate Hashable(v: Value)
  {
    !v.VArr? && !v.VObj?
  }

  /** `d.get(key)`: absent and null look the same. */
  function GetOrNull(v: Value, key: string): Value
    requires v.VObj?
  {
    if key in v.m then v.m[key] else VNull
  }

  /** `{f["name"]: f for f in items}`; None stands for an exception. The last field of a name wins. */
  function Table(items: seq<Value>): (t: Option<map<Value, Value>>)
    ensures t.Some? ==> forall n :: n in t.value ==> t.value[n] in items && t.value[n].VObj?
  {
    if items == [] then Some(map[])
    else
      var last := items[|items| - 1];
      match Table(items[..|items| - 1])
      case None => None
      case Some(t) =>
        if last.VObj? && "name" in last.m && Hashable(last.m["name"]) then Some(t[last.m["name"] := last])
        else None
  }

  /** The name table of `schema.get("fields", [])`. An empty string or dictionary iterates like an empty list. */
  function FieldsOf(schema: Value): (t: Option<map<Value, Value>>)
    ensures t.Some? ==> forall n :: n in t.value ==> t.value[n].VObj? && t.value[n] < schema
  {
    if !schema.VObj? then None
    else if "fields" !in schema.m then Some(map[])
    else
      match schema.m["fields"]
      case VArr(items) =>
        assert schema.m["fields"] < schema;
        assert forall f :: f in items ==> f < schema.m["fields"];
        Table(items)
      case VObj(m) => if m == map[] then Some(map[]) else None
      case VStr(s) => if s == "" then Some(map[]) else None
      case _ => None
  }

  /** The nested record schema of a field, when its type is one. */
  predicate IsRecordField(f: Value)
    requires f.VObj?
  {
    var t := GetOrNull(f, "type");
    t.VObj? && GetOrNull(t, "type") == VStr("record")
  }

  predicate BothRecords(f: Value, g: Value)
    requires f.VObj? && g.VObj?
  {
    IsRecordField(f) && IsRecordField(g)
  }

  /** The name is common, its field differs, and the diff goes inside it. */
  predicate Descends(before: map<Value, Value>, after: map<Value, Value>, name: Value)
    requires forall n :: n in before ==> before[n].VObj?
    requires forall n :: n in after ==> after[n].VObj?
  {
    name in before && name in after && before[name] != after[name] && BothRecords(before[name], after[name])
  }

  /** No level the diff visits raises. */
  predicate Diffable(before: Value, after: Value)
    decreases before
  {
    && FieldsOf(before).Some? && FieldsOf(after).Some?
    && var o, n := FieldsOf(before).value, FieldsOf(after).value;
       forall name | name in o && Descends(o, n, name) ::
         Diffable(o[name].m["type"], n[name].m["type"])
  }

  /** What the diff says about one field, from its two versions. */
  predicate KindOf(before: map<Value, Value>, after: map<Value, Value>, name: Value, kind: Kind)
    requires forall n :: n in before ==> before[n].VObj?
    requires forall n :: n in after ==> after[n].VObj?
  {
    if name !in before then name in after && kind == Added
    else if name !in after then kind == Removed
    else
      && before[name] != after[name]
      && !BothRecords(before[name], after[name])
      && var o, n := GetOrNull(before[name], "type"), GetOrNull(after[name], "type");
         kind == if o != n then ChangedType(o, n) else Modified
  }

  /** The diff of `before` and `after` reports `kind` at `path`. */
  predicate Reports(before: Value, after: Value, path: Path, kind: Kind)
    decreases |path|
  {
    path != [] && FieldsOf(before).Some? && FieldsOf(after).Some? &&
    var o, n := FieldsOf(before).value, FieldsOf(after).value;
    if |path| == 1 then KindOf(o, n, path[0], kind)
    else
      && Descends(o, n, path[0])
      && Reports(o[path[0]].m["type"], n[path[0]].m["type"], path[1..], kind)
  }

  predicate Contributes(before: Value, after: Value, prefix: Path, names: set<Value>, c: Change)
  {
    && |prefix| < |c.path| && prefix <= c.path && c.path[|prefix|] in names
    && Reports(before, after, c.path[|prefix|..], c.kind)
  }

  ghost predicate DistinctPaths(diffs: seq<Change>)
  {
    forall i, j :: 0 <= i < j < |diffs| ==> diffs[i].path != diffs[j].path
  }

  /** `diffs` is what the fields in `names` contribute, each path once. */
  ghost predicate Collected(before: Value, after: Value, prefix: Path, names: set<Value>, diffs: seq<Change>)
  {
    && DistinctPaths(diffs)
    && forall c :: c in diffs <==> Contributes(before, after, prefix, names, c)
  }

  /**
   `get_field_diff`. The iteration order over the name sets is arbitrary, as in the source.
   `ok` is false when the source raises.
   */
  method GetFieldDiff(before: Value, after: Value, prefix: Path) returns (ok: bool, diffs: seq<Change>)
    ensures ok <==> Diffable(before, after)
    ensures ok ==> DistinctPaths(diffs)
    ensures ok ==> forall c :: c in diffs <==>
                     prefix <= c.path && Reports(before, after, c.path[|prefix|..], c.kind)
    decreases before, 2
  {
    if FieldsOf(before).None? || FieldsOf(after).None? { return false, []; }
    var o, n := FieldsOf(before).value, FieldsOf(after).value;
    diffs := OneSided(before, after, prefix, n.Keys - o.Keys, Added, {}, []);
    diffs := OneSided(before, after, prefix, o.Keys - n.Keys, Removed, n.Keys - o.Keys, diffs);
    ghost var done := (n.Keys - o.Keys) + (o.Keys - n.Keys);
    ok, diffs := CommonFields(before, after, prefix, done, diffs);
    if ok { AllFields(before, after, prefix, done + o.Keys * n.Keys, diffs); }
  }

  /** The loops over the added and over the removed names: one line each. */
  method OneSided(before: Value, after: Value, prefix: Path, names: set<Value>, kind: Kind,
                  ghost done: set<Value>, collected: seq<Change>) returns (diffs: seq<Change>)
    requires FieldsOf(before).Some? && FieldsOf(after).Some? && names !! done
    requires forall name <- names :: KindOf(FieldsOf(before).value, FieldsOf(after).value, name, kind)
    requires Collected(before, after, prefix, done, collected)
    ensures Collected(before, after, prefix, done + names, diffs)
  {
    diffs := collected;
    var todo := names;
    while todo != {}
      invariant todo <= names && Collected(before, after, prefix, done + (names - todo), diffs)
    {
      var name :| name in todo;
      OneField(before, after, prefix, name, kind, done + (names - todo), diffs);
      diffs := diffs + [Change(prefix + [name], kind)];
      OneNameLess(done, names, todo, name);
      todo := todo - {name};
    }
    OneNameLeft(done, names);
  }

  /** The common fields among `names` the diff goes inside of do not raise. */
  predicate InsideDiffable(before: map<Value, Value>, after: map<Value, Value>, names: set<Value>)
    requires forall n :: n in before ==> before[n].VObj?
    requires forall n :: n in after ==> after[n].VObj?
  {
    forall name | name in names && Descends(before, after, name) :: Diffable(before[name].m["type"], after[name].m["type"])
  }

  /** The loop over the common names, going inside fields that are records on both sides. */
  method CommonFields(before: Value, after: Value, prefix: Path, ghost done: set<Value>, collected: seq<Change>)
    returns (ok: bool, diffs: seq<Change>)
    requires FieldsOf(before).Some? && FieldsOf(after).Some?
    requires FieldsOf(before).value.Keys * FieldsOf(after).value.Keys !! done
    requires Collected(before, after, prefix, done, collected)
    ensures ok <==> Diffable(before, after)
    ensures ok ==> Collected(before, after, prefix, done + FieldsOf(before).value.Keys * FieldsOf(after).value.Keys, diffs)
    decreases before, 1
  {
    var o, n := FieldsOf(before).value, FieldsOf(after).value;
    var common := o.Keys * n.Keys;
    diffs := collected;
    var todo := common;
    while todo != {}
      invariant todo <= common && Collected(before, after, prefix, done + (common - todo), diffs)
      invariant InsideDiffable(o, n, common - todo)
    {
      var name :| name in todo;
      ok, diffs := CommonOne(before, after, prefix, name, done + (common - todo), diffs);
      if !ok {
        InsideRaises(before, after, name);
        return false, [];
      }
      OneNameLess(done, common, todo, name);
      InsideStep(o, n, common - todo, name);
      todo := todo - {name};
    }
    OneNameLeft(done, common);
    AllInside(before, after);
    return true, diffs;
  }

  /** The level below the common field, if the diff goes inside it, does not raise. */
  predicate NameDiffable(before: map<Value, Value>, after: map<Value, Value>, name: Value)
    requires forall n :: n in before ==> before[n].VObj?
    requires forall n :: n in after ==> after[n].VObj?
  {
    Descends(before, after, name) ==> Diffable(before[name].m["type"], after[name].m["type"])
  }

  /** The body of that loop. */
  method CommonOne(before: Value, after: Value, prefix: Path, name: Value, ghost done: set<Value>, collected: seq<Change>)
    returns (ok: bool, diffs: seq<Change>)
    requires FieldsOf(before).Some? && FieldsOf(after).Some? && name !in done
    requires name in FieldsOf(before).value && name in FieldsOf(after).value
    requires Collected(before, after, prefix, done, collected)
    ensures ok <==> NameDiffable(FieldsOf(before).value, FieldsOf(after).value, name)
    ensures ok ==> Collected(before, after, prefix, done + {name}, diffs)
    decreases before, 0
  {
    var o, n := FieldsOf(before).value, FieldsOf(after).value;
    if Descends(o, n, name) {
      assert o[name].m["type"] < o[name];
      var nested;
      ok, nested := GetFieldDiff(o[name].m["type"], n[name].m["type"], prefix + [name]);
      if !ok { return false, []; }
      NestedFields(before, after, prefix, name, nested, done, collected);
      return true, collected + nested;
    }
    CommonField(before, after, prefix, name, done, collected);
    return true, collected + OwnChange(o, n, prefix, name);
  }

  lemma OneNameLess(done: set<Value>, names: set<Value>, todo: set<Value>, name: Value)
    requires name in todo && todo <= names
    ensures names - (todo - {name}) == names - todo + {name}
    ensures done + (names - (todo - {name})) == done + (names - todo) + {name}
  {
  }

  lemma OneNameLeft(done: set<Value>, names: set<Value>)
    ensures names - {} == names && done + (names - {}) == done + names
  {
  }

  lemma InsideStep(before: map<Value, Value>, after: map<Value, Value>, names: set<Value>, name: Value)
    requires forall n :: n in before ==> before[n].VObj?
    requires forall n :: n in after ==> after[n].VObj?
    requires InsideDiffable(before, after, names)
    requires NameDiffable(before, after, name)
    ensures InsideDiffable(before, after, names + {name})
  {
  }

  lemma InsideRaises(before: Value, after: Value, name: Value)
    requires FieldsOf(before).Some? && FieldsOf(after).Some?
    requires !NameDiffable(FieldsOf(before).value, FieldsOf(after).value, name)
    ensures !Diffable(before, after)
  {
  }

  lemma AllInside(before: Value, after: Value)
    requires FieldsOf(before).Some? && FieldsOf(after).Some?
    requires InsideDiffable(FieldsOf(before).value, FieldsOf(after).value, FieldsOf(before).value.Keys * FieldsOf(after).value.Keys)
    ensures Diffable(before, after)
  {
  }

  /** What a common field adds at its own level. */
  function OwnChange(before: map<Value, Value>, after: map<Value, Value>, prefix: Path, name: Value): seq<Change>
    requires name in before && name in after && before[name].VObj? && after[name].VObj?
  {
    if before[name] == after[name] then []
    else
      var o, n := GetOrNull(before[name], "type"), GetOrNull(after[name], "type");
      [Change(prefix + [name], if o != n then ChangedType(o, n) else Modified)]
  }

  lemma CommonField(before: Value, after: Value, prefix: Path, name: Value, done: set<Value>, diffs: seq<Change>)
    requires FieldsOf(before).Some? && FieldsOf(after).Some? && name !in done
    requires name in FieldsOf(before).value && name in FieldsOf(after).value
    requires !Descends(FieldsOf(before).value, FieldsOf(after).value, name)
    requires Collected(before, after, prefix, done, diffs)
    ensures Collected(before, after, prefix, done + {name},
                      diffs + OwnChange(FieldsOf(before).value, FieldsOf(after).value, prefix, name))
  {
    var o, n := FieldsOf(before).value[name], FieldsOf(after).value[name];
    if o == n {
      assert diffs + [] == diffs;
      NoField(before, after, prefix, name, done, diffs);
    } else {
      var ot, nt := GetOrNull(o, "type"), GetOrNull(n, "type");
      OneField(before, after, prefix, name, if ot != nt then ChangedType(ot, nt) else Modified, done, diffs);
    }
  }

  lemma OneField(before: Value, after: Value, prefix: Path, name: Value, kind: Kind, done: set<Value>, diffs: seq<Change>)
    requires FieldsOf(before).Some? && FieldsOf(after).Some? && name !in done
    requires KindOf(FieldsOf(before).value, FieldsOf(after).value, name, kind)
    requires Collected(before, after, prefix, done, diffs)
    ensures Collected(before, after, prefix, done + {name}, diffs + [Change(prefix + [name], kind)])
  {
    var mine := Change(prefix + [name], kind);
    var r := diffs + [mine];
    forall c ensures c in r <==> Contributes(before, after, prefix, done + {name}, c) {
      if |prefix| < |c.path| && prefix <= c.path && c.path[|prefix|] == name {
        var p := c.path[|prefix|..];
        assert c.path == prefix + p && p[0] == name;
        if Reports(before, after, p, c.kind) {
          assert |p| == 1;
          assert p == [name];
        }
        if c == mine { assert p == [name]; }
      }
    }
    assert forall c :: c in diffs ==> c.path[|prefix|] != name;
    assert mine.path[|prefix|] == name;
  }

  lemma NoField(before: Value, after: Value, prefix: Path, name: Value, done: set<Value>, diffs: seq<Change>)
    requires FieldsOf(before).Some? && FieldsOf(after).Some? && name !in done
    requires name in FieldsOf(before).value && name in FieldsOf(after).value
    requires FieldsOf(before).value[name] == FieldsOf(after).value[name]
    requires Collected(before, after, prefix, done, diffs)
    ensures Collected(before, after, prefix, done + {name}, diffs)
  {
  }

  lemma NestedFields(before: Value, after: Value, prefix: Path, name: Value, nested: seq<Change>, done: set<Value>, diffs: seq<Change>)
    requires FieldsOf(before).Some? && FieldsOf(after).Some? && name !in done
    requires Descends(FieldsOf(before).value, FieldsOf(after).value, name)
    requires var o, n := FieldsOf(before).value[name].m["type"], FieldsOf(after).value[name].m["type"];
             forall c :: c in nested <==>
               prefix + [name] <= c.path && Reports(o, n, c.path[|prefix| + 1..], c.kind)
    requires DistinctPaths(nested)
    requires Collected(before, after, prefix, done, diffs)
    ensures Collected(before, after, prefix, done + {name}, diffs + nested)
  {
    var o, n := FieldsOf(before).value[name].m["type"], FieldsOf(after).value[name].m["type"];
    forall c ensures c in nested <==> Contributes(before, after, prefix, {name}, c) {
      if |prefix| < |c.path| && prefix <= c.path && c.path[|prefix|] == name {
        var p := c.path[|prefix|..];
        assert p[1..] == c.path[|prefix| + 1..];
        assert prefix + [name] <= c.path;
      }
    }
    assert forall c :: c in diffs ==> c.path[|prefix|] != name;
    assert forall c :: c in nested ==> c.path[|prefix|] == name;
  }

  lemma AllFields(before: Value, after: Value, prefix: Path, done: set<Value>, diffs: seq<Change>)
    requires FieldsOf(before).Some? && FieldsOf(after).Some?
    requires FieldsOf(before).value.Keys + FieldsOf(after).value.Keys <= done
    requires Collected(before, after, prefix, done, diffs)
    ensures DistinctPaths(diffs)
    ensures forall c :: c in diffs <==> prefix <= c.path && Reports(before, after, c.path[|prefix|..], c.kind)
  {
  }

  // ---------- the field table, from the schema alone ----------

  /** `f["name"]: f` raises on the entry. */
  ghost predicate IsBadEntry(v: Value)
  {
    !v.VObj? || "name" !in v.m || v.m["name"].VArr? || v.m["name"].VObj?
  }

  ghost predicate IsLastAt(items: seq<Value>, name: Value, f: Value, i: int)
  {
    && 0 <= i < |items| && items[i] == f && IsNamed(f, name)
    && forall j :: i < j < |items| ==> !IsNamed(items[j], name)
  }

  predicate IsNamed(v: Value, name: Value)
  {
    v.VObj? && "name" in v.m && v.m["name"] == name
  }

  lemma {:induction false} TableRaisesExactly(items: seq<Value>)
    ensures Table(items).None? <==> exists i :: 0 <= i < |items| && IsBadEntry(items[i])
  {
    if items != [] {
      var n := |items| - 1;
      TableRaisesExactly(items[..n]);
      assert forall i :: 0 <= i < n ==> items[..n][i] == items[i];
    }
  }

  /** The last entry of that name. */
  ghost predicate IsLastNamed(items: seq<Value>, name: Value, f: Value)
  {
    exists i :: IsLastAt(items, name, f, i)
  }

  lemma LastNamedStep(items: seq<Value>, name: Value, f: Value)
    requires items != []
    ensures var n := |items| - 1;
            IsLastNamed(items, name, f) <==>
              if IsNamed(items[n], name) then f == items[n] else IsLastNamed(items[..n], name, f)
  {
    var n := |items| - 1;
    var front := items[..n];
    assert forall j :: 0 <= j < n ==> front[j] == items[j];
    if IsNamed(items[n], name) {
      assert f == items[n] ==> IsLastAt(items, name, f, n);
    } else {
      forall i ensures IsLastAt(items, name, f, i) <==> IsLastAt(front, name, f, i) {
      }
    }
  }

  lemma {:induction false} TableExactly(items: seq<Value>, name: Value, f: Value)
    requires Table(items).Some?
    ensures name in Table(items).value && Table(items).value[name] == f <==> IsLastNamed(items, name, f)
  {
    if items != [] {
      TableExactly(items[..|items| - 1], name, f);
      LastNamedStep(items, name, f);
    }
  }

  /** The diff of a schema with its `fields` raises exactly here. */
  ghost predicate HasNoTable(schema: Value)
  {
    || !schema.VObj?
    || ("fields" in schema.m
        && match schema.m["fields"]
           case VArr(items) => exists i :: 0 <= i < |items| && IsBadEntry(items[i])
           case VStr(s) => s != ""
           case VObj(m) => m != map[]
           case _ => true)
  }

  /** A schema is diffed by its last dictionary of each name, if every entry is a dictionary with a hashable name. */
  lemma FieldsOfExactly(schema: Value, name: Value, f: Value)
    ensures FieldsOf(schema).None? <==> HasNoTable(schema)
    ensures FieldsOf(schema).Some? ==>
              (name in FieldsOf(schema).value && FieldsOf(schema).value[name] == f
               <==> "fields" in schema.m && schema.m["fields"].VArr? && IsLastNamed(schema.m["fields"].items, name, f))
  {
    if schema.VObj? && "fields" in schema.m && schema.m["fields"].VArr? {
      var items := schema.m["fields"].items;
      TableRaisesExactly(items);
      if Table(items).Some? { TableExactly(items, name, f); }
    }
  }

  /** The diff goes inside two fields of a name exactly when the type of both is a dictionary that says it is a record. */
  lemma BothRecordsExactly(f: Value, g: Value)
    requires f.VObj? && g.VObj?
    ensures BothRecords(f, g)
       <==> && "type" in f.m && f.m["type"].VObj? && "type" in f.m["type"].m && f.m["type"].m["type"] == VStr("record")
            && "type" in g.m && g.m["type"].VObj? && "type" in g.m["type"].m && g.m["type"].m["type"] == VStr("record")
  {
  }

  // ---------- the diff is exact ----------

  /** The field table found by following `parent` through record-typed fields. */
  function Level(schema: Value, parent: Path): (t: Option<map<Value, Value>>)
    ensures t.Some? ==> forall n :: n in t.value ==> t.value[n].VObj?
    decreases |parent|
  {
    match FieldsOf(schema)
    case None => None
    case Some(t) =>
      if parent == [] then Some(t)
      else if parent[0] in t && IsRecordField(t[parent[0]]) then Level(t[parent[0]].m["type"], parent[1..])
      else None
  }

  /**
   A field is reported exactly when its ancestors are records in both schemas and, at its own
   level, it is new, missing, differently typed or otherwise unequal, and not a record on both sides.
   */
  lemma {:induction false} DiffExact(before: Value, after: Value, parent: Path, name: Value, kind: Kind)
    ensures Reports(before, after, parent + [name], kind) <==>
              && Level(before, parent).Some? && Level(after, parent).Some?
              && KindOf(Level(before, parent).value, Level(after, parent).value, name, kind)
    decreases |parent|
  {
    var path := parent + [name];
    if FieldsOf(before).Some? && FieldsOf(after).Some? && parent != [] {
      var o, n := FieldsOf(before).value, FieldsOf(after).value;
      assert path[1..] == parent[1..] + [name] && path[0] == parent[0];
      if parent[0] in o && parent[0] in n && BothRecords(o[parent[0]], n[parent[0]]) {
        var f, g := o[parent[0]], n[parent[0]];
        DiffExact(f.m["type"], g.m["type"], parent[1..], name, kind);
        if f == g { DiffSame(f.m["type"]); }
      }
    }
  }

  function Dual(kind: Kind): Kind
  {
    match kind
    case Added => Removed
    case Removed => Added
    case ChangedType(o, n) => ChangedType(n, o)
    case Modified => Modified
  }

  /** Swapping the schemas swaps Added with Removed and keeps the other two kinds. */
  lemma {:induction false} DiffDual(before: Value, after: Value, path: Path, kind: Kind)
    ensures Reports(before, after, path, kind) <==> Reports(after, before, path, Dual(kind))
    decreases |path|
  {
    if |path| > 1 && FieldsOf(before).Some? && FieldsOf(after).Some? {
      var o, n := FieldsOf(before).value, FieldsOf(after).value;
      if Descends(o, n, path[0]) {
        DiffDual(o[path[0]].m["type"], n[path[0]].m["type"], path[1..], kind);
      }
    }
  }

  /** A path has at most one kind. */
  lemma {:induction false} DiffFunctional(before: Value, after: Value, path: Path, kind: Kind, kind': Kind)
    requires Reports(before, after, path, kind) && Reports(before, after, path, kind')
    ensures kind == kind'
    decreases |path|
  {
    if |path| > 1 {
      var o, n := FieldsOf(before).value, FieldsOf(after).value;
      DiffFunctional(o[path[0]].m["type"], n[path[0]].m["type"], path[1..], kind, kind');
    }
  }

  /** A schema never differs from itself. */
  lemma DiffSame(schema: Value)
    ensures Diffable(schema, schema) <==> FieldsOf(schema).Some?
    ensures forall path, kind :: !Reports(schema, schema, path, kind)
  {
  }

  /** The diff has nothing to say. */
  ghost predicate Silent(before: Value, after: Value)
  {
    forall path, kind :: !Reports(before, after, path, kind)
  }

  /** The same field names at every level, each field equal or a record on both sides with the same fields. */
  predicate SameFields(before: Value, after: Value)
    decreases before
  {
    && FieldsOf(before).Some? && FieldsOf(after).Some?
    && var o, n := FieldsOf(before).value, FieldsOf(after).value;
       && o.Keys == n.Keys
       && forall name | name in o && o[name] != n[name] ::
            BothRecords(o[name], n[name]) && SameFields(o[name].m["type"], n[name].m["type"])
  }

  lemma {:induction false} SameFieldsSilent(before: Value, after: Value, path: Path, kind: Kind)
    requires SameFields(before, after)
    ensures !Reports(before, after, path, kind)
    decreases |path|
  {
    if |path| > 1 {
      var o, n := FieldsOf(before).value, FieldsOf(after).value;
      if Descends(o, n, path[0]) {
        SameFieldsSilent(o[path[0]].m["type"], n[path[0]].m["type"], path[1..], kind);
      }
    }
  }

  lemma {:induction false} OtherFieldsReported(before: Value, after: Value) returns (path: Path, kind: Kind)
    requires Diffable(before, after) && !SameFields(before, after)
    ensures Reports(before, after, path, kind)
    decreases before
  {
    var o, n := FieldsOf(before).value, FieldsOf(after).value;
    if name :| name in n && name !in o {
      path, kind := [name], Added;
    } else if name :| name in o && name !in n {
      path, kind := [name], Removed;
    } else {
      assert o.Keys == n.Keys;
      var name :| name in o && o[name] != n[name]
        && !(BothRecords(o[name], n[name]) && SameFields(o[name].m["type"], n[name].m["type"]));
      if BothRecords(o[name], n[name]) {
        assert o[name].m["type"] < o[name];
        assert Descends(o, n, name);
        var rest, k := OtherFieldsReported(o[name].m["type"], n[name].m["type"]);
        path, kind := [name] + rest, k;
        assert path[1..] == rest;
      } else {
        var ot, nt := GetOrNull(o[name], "type"), GetOrNull(n[name], "type");
        path, kind := [name], if ot != nt then ChangedType(ot, nt) else Modified;
      }
    }
  }

  /**
   The diff is empty exactly when the two schemas have the same fields; two record-typed fields of
   the same name count as the same whatever else they declare, and so does everything outside `fields`.
   */
  lemma SilentExactly(before: Value, after: Value)
    requires Diffable(before, after)
    ensures Silent(before, after) <==> SameFields(before, after)
  {
    if SameFields(before, after) {
      forall path, kind ensures !Reports(before, after, path, kind) { SameFieldsSilent(before, after, path, kind); }
    } else {
      var path, kind := OtherFieldsReported(before, after);
    }
  }

  /** So unequal schemas can have an empty diff: a record-typed field can change its default or its documentation unreported. */
  lemma EmptyDiffOfUnequalSchemas()
    ensures exists before, after :: before != after && Diffable(before, after) && Silent(before, after)
  {
    var inner := VObj(map["type" := VStr("record")]);
    var f := VObj(map["name" := VStr("a"), "type" := inner]);
    var g := VObj(map["name" := VStr("a"), "type" := inner, "doc" := VStr("d")]);
    var before, after := VObj(map["fields" := VArr([f])]), VObj(map["fields" := VArr([g])]);
    SingleField(f);
    SingleField(g);
    assert FieldsOf(inner) == Some(map[]);
    assert f.m["type"] == inner == g.m["type"];
    assert "doc" in g.m && "doc" !in f.m;
    assert FieldsOf(before).value[VStr("a")] == f && FieldsOf(after).value[VStr("a")] == g;
    DiffSame(inner);
    forall path, kind ensures !Reports(before, after, path, kind) {
    }
    assert before.m["fields"].items[0] != after.m["fields"].items[0];
    assert before != after && Diffable(before, after) && Silent(before, after);
  }

  lemma SingleField(f: Value)
    requires f.VObj? && "name" in f.m && Hashable(f.m["name"])
    ensures FieldsOf(VObj(map["fields" := VArr([f])])) == Some(map[f.m["name"] := f])
  {
    assert [f][..0] == [];
    assert Table([f][..0]) == Some(map[]);
    assert Table([f]) == Some(map[f.m["name"] := f]);
  }
}
