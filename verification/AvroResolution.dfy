/**
 What an unflagged evolution is worth to readers: the policy pack's three field rules against section
 "Schema Resolution" of the Apache Avro 1.11 specification.
 */
module AvroResolution {
  import opened Prelude
  import opened Json
  import Evolution

  // ---------- Avro types ----------

  datatype Primitive = PNull | PBoolean | PInt | PLong | PFloat | PDouble | PBytes | PString

  /** Self-contained types: no reference to a type named elsewhere. */
  datatype AvroType =
    | Prim(kind: Primitive)
    | Array(items: AvroType)
    | Map(values: AvroType)
    | Enum(name: string, symbols: seq<string>, fallback: Option<string>)
    | Fixed(name: string, size: string)
    | Record(name: string, fields: seq<Field>)
    | Union(branches: seq<AvroType>)

  datatype Field = Field(name: string, t: AvroType, default: Option<Value>)

  function PrimitiveOf(s: string): Option<AvroType>
  {
    if s == "null" then Some(Prim(PNull))
    else if s == "boolean" then Some(Prim(PBoolean))
    else if s == "int" then Some(Prim(PInt))
    else if s == "long" then Some(Prim(PLong))
    else if s == "float" then Some(Prim(PFloat))
    else if s == "double" then Some(Prim(PDouble))
    else if s == "bytes" then Some(Prim(PBytes))
    else if s == "string" then Some(Prim(PString))
    else None
  }

  function TextAt(v: Value, key: string): Option<string>
    requires v.VObj?
  {
    if key in v.m && v.m[key].VStr? then Some(v.m[key].s) else None
  }

  function Symbols(items: seq<Value>): Option<seq<string>>
  {
    if items == [] then Some([])
    else if !items[0].VStr? then None
    else
      var rest :- Symbols(items[1..]);
      Some([items[0].s] + rest)
  }

  /** The type a JSON value declares. */
  function ParseType(v: Value): Option<AvroType>
    decreases v, 1
  {
    match v
    case VStr(s) => PrimitiveOf(s)
    case VArr(items) =>
      var branches :- ParseAll(items);
      Some(Union(branches))
    case VObj(m) =>
      var word :- TextAt(v, "type");
      if word == "record" then ParseRecord(v)
      else if word == "enum" then ParseEnum(v)
      else if word == "fixed" then ParseFixed(v)
      else if word == "array" && "items" in m then
        var t :- ParseType(m["items"]);
        Some(Array(t))
      else if word == "map" && "values" in m then
        var t :- ParseType(m["values"]);
        Some(Map(t))
      else PrimitiveOf(word)
    case _ => None
  }

  function ParseAll(items: seq<Value>): Option<seq<AvroType>>
    decreases items, 0
  {
    if items == [] then Some([])
    else
      var t :- ParseType(items[0]);
      var rest :- ParseAll(items[1..]);
      Some([t] + rest)
  }

  function ParseEnum(v: Value): Option<AvroType>
    requires v.VObj?
  {
    var name :- TextAt(v, "name");
    if "symbols" in v.m && v.m["symbols"].VArr? then
      var symbols :- Symbols(v.m["symbols"].items);
      Some(Enum(name, symbols, TextAt(v, "default")))
    else None
  }

  function ParseFixed(v: Value): Option<AvroType>
    requires v.VObj?
  {
    var name :- TextAt(v, "name");
    if "size" in v.m && v.m["size"].VNum? then Some(Fixed(name, v.m["size"].n)) else None
  }

  function ParseRecord(v: Value): Option<AvroType>
    requires v.VObj?
    decreases v, 0
  {
    var name :- TextAt(v, "name");
    if "fields" in v.m && v.m["fields"].VArr? then
      var fields :- ParseFields(v.m["fields"].items);
      Some(Record(name, fields))
    else None
  }

  function ParseFields(items: seq<Value>): Option<seq<Field>>
    decreases items, 0
  {
    if items == [] then Some([])
    else
      var last := items[|items| - 1];
      var front :- ParseFields(items[..|items| - 1]);
      if last.VObj? && "type" in last.m then
        var name :- TextAt(last, "name");
        var t :- ParseType(last.m["type"]);
        Some(front + [Field(name, t, if "default" in last.m then Some(last.m["default"]) else None)])
      else None
  }

  // ---------- every type can be written down and parsed back ----------

  function PrimitiveName(p: Primitive): string
  {
    match p
    case PNull => "null"
    case PBoolean => "boolean"
    case PInt => "int"
    case PLong => "long"
    case PFloat => "float"
    case PDouble => "double"
    case PBytes => "bytes"
    case PString => "string"
  }

  /** Exactly these eight names are primitive types. */
  lemma PrimitiveOfExactly(s: string, t: AvroType)
    ensures PrimitiveOf(s) == Some(t) <==> t.Prim? && s == PrimitiveName(t.kind)
  {
  }

  function TextValues(symbols: seq<string>): seq<Value>
  {
    if symbols == [] then [] else [VStr(symbols[0])] + TextValues(symbols[1..])
  }

  function RecordOf(name: string, fields: seq<Value>): Value
  {
    VObj(map["type" := VStr("record"), "name" := VStr(name), "fields" := VArr(fields)])
  }

  /** The JSON declaration of a type. */
  function Declaration(t: AvroType): Value
    decreases t, 1
  {
    match t
    case Prim(p) => VStr(PrimitiveName(p))
    case Array(u) => VObj(map["type" := VStr("array"), "items" := Declaration(u)])
    case Map(u) => VObj(map["type" := VStr("map"), "values" := Declaration(u)])
    case Enum(name, symbols, None) =>
      VObj(map["type" := VStr("enum"), "name" := VStr(name), "symbols" := VArr(TextValues(symbols))])
    case Enum(name, symbols, Some(s)) =>
      VObj(map["type" := VStr("enum"), "name" := VStr(name), "symbols" := VArr(TextValues(symbols)), "default" := VStr(s)])
    case Fixed(name, size) => VObj(map["type" := VStr("fixed"), "name" := VStr(name), "size" := VNum(size)])
    case Record(name, fields) => RecordOf(name, FieldDeclarations(fields))
    case Union(branches) => VArr(Declarations(branches))
  }

  function Declarations(ts: seq<AvroType>): seq<Value>
    decreases ts, 0
  {
    if ts == [] then [] else [Declaration(ts[0])] + Declarations(ts[1..])
  }

  function FieldDeclaration(f: Field): Value
    decreases f, 2
  {
    match f.default
    case None => VObj(map["name" := VStr(f.name), "type" := Declaration(f.t)])
    case Some(d) => VObj(map["name" := VStr(f.name), "type" := Declaration(f.t), "default" := d])
  }

  function FieldDeclarations(fields: seq<Field>): seq<Value>
    decreases fields, 0
  {
    if fields == [] then [] else FieldDeclarations(fields[..|fields| - 1]) + [FieldDeclaration(fields[|fields| - 1])]
  }

  lemma {:induction false} TextValuesParsed(symbols: seq<string>)
    ensures Symbols(TextValues(symbols)) == Some(symbols)
  {
    if symbols != [] {
      TextValuesParsed(symbols[1..]);
      assert TextValues(symbols)[1..] == TextValues(symbols[1..]);
      HeadTail(symbols);
    }
  }

  /** Parsing the declaration of any type gives the type back. */
  lemma {:induction false} DeclarationParsed(t: AvroType)
    ensures ParseType(Declaration(t)) == Some(t)
    decreases t, 1
  {
    var v := Declaration(t);
    match t {
      case Prim(p) =>
      case Array(u) =>
        DeclarationParsed(u);
        assert TextAt(v, "type") == Some("array") && v.m["items"] == Declaration(u);
      case Map(u) =>
        DeclarationParsed(u);
        assert TextAt(v, "type") == Some("map") && v.m["values"] == Declaration(u);
      case Enum(name, symbols, fallback) => EnumDeclared(name, symbols, fallback);
      case Fixed(name, size) =>
        assert TextAt(v, "type") == Some("fixed") && TextAt(v, "name") == Some(name) && v.m["size"] == VNum(size);
      case Record(name, fields) =>
        FieldsDeclared(fields);
        RecordParsed(name, FieldDeclarations(fields));
      case Union(branches) => BranchesDeclared(branches);
    }
  }

  lemma EnumDeclared(name: string, symbols: seq<string>, fallback: Option<string>)
    ensures ParseType(Declaration(Enum(name, symbols, fallback))) == Some(Enum(name, symbols, fallback))
  {
    var v := Declaration(Enum(name, symbols, fallback));
    TextValuesParsed(symbols);
    assert TextAt(v, "type") == Some("enum") && TextAt(v, "name") == Some(name);
    assert v.m["symbols"] == VArr(TextValues(symbols)) && TextAt(v, "default") == fallback;
  }

  lemma {:induction false} BranchesDeclared(ts: seq<AvroType>)
    ensures ParseAll(Declarations(ts)) == Some(ts)
    decreases ts, 0
  {
    if ts != [] {
      DeclarationParsed(ts[0]);
      BranchesDeclared(ts[1..]);
      assert Declarations(ts)[1..] == Declarations(ts[1..]);
      HeadTail(ts);
    }
  }

  lemma {:induction false} FieldsDeclared(fields: seq<Field>)
    ensures ParseFields(FieldDeclarations(fields)) == Some(fields)
    decreases fields, 0
  {
    if fields != [] {
      var n := |fields| - 1;
      FieldsDeclared(fields[..n]);
      DeclarationParsed(fields[n].t);
      FieldDeclared(fields[n], FieldDeclaration(fields[n]));
      OneMoreField(FieldDeclarations(fields[..n]), fields[..n], FieldDeclaration(fields[n]), fields[n]);
      assert fields == fields[..n] + [fields[n]];
    }
  }

  lemma OneMoreField(items: seq<Value>, fields: seq<Field>, v: Value, f: Field)
    requires ParseFields(items) == Some(fields)
    requires v.VObj? && "type" in v.m && ParseType(v.m["type"]) == Some(f.t) && TextAt(v, "name") == Some(f.name)
    requires f.default == if "default" in v.m then Some(v.m["default"]) else None
    ensures ParseFields(items + [v]) == Some(fields + [f])
  {
    assert (items + [v])[..|items|] == items;
  }

  lemma FieldDeclared(f: Field, v: Value)
    requires v == FieldDeclaration(f)
    ensures v.VObj? && "type" in v.m && v.m["type"] == Declaration(f.t) && TextAt(v, "name") == Some(f.name)
    ensures f.default == if "default" in v.m then Some(v.m["default"]) else None
  {
  }

  // ---------- names and well-formedness ----------

  /** The part of a name after its last dot. */
  function Unqualified(name: string): string
  {
    if name == [] || name[|name| - 1] == '.' then [] else Unqualified(name[..|name| - 1]) + [name[|name| - 1]]
  }

  predicate SameName(a: string, b: string)
  {
    Unqualified(a) == Unqualified(b)
  }

  /** Named types that resolution takes for each other: it does not look at namespaces. */
  predicate Alike(a: AvroType, b: AvroType)
  {
    match (a, b)
    case (Enum(n, _, _), Enum(m, _, _)) => SameName(n, m)
    case (Fixed(n, _), Fixed(m, _)) => SameName(n, m)
    case (Record(n, _), Record(m, _)) => SameName(n, m)
    case _ => false
  }

  /**
   No branch of a union is a union, at most one is an array and one a map, unions and enums are not
   empty, field names differ. Named branches may share a name: they may differ in their namespaces.
   */
  ghost predicate WellFormed(t: AvroType)
    decreases t, 1
  {
    match t
    case Prim(_) => true
    case Array(u) => WellFormed(u)
    case Map(u) => WellFormed(u)
    case Enum(_, symbols, _) => symbols != []
    case Fixed(_, _) => true
    case Record(_, fields) => WellFormedFields(fields)
    case Union(branches) => branches != [] && Separate(branches) && WellFormedAll(branches)
  }

  ghost predicate Separate(branches: seq<AvroType>)
  {
    && (forall i :: 0 <= i < |branches| ==> !branches[i].Union?)
    && (forall i, j :: 0 <= i < j < |branches| ==>
          !(branches[i].Array? && branches[j].Array?) && !(branches[i].Map? && branches[j].Map?))
  }

  ghost predicate WellFormedAll(ts: seq<AvroType>)
    decreases ts, 0
  {
    ts == [] || (WellFormed(ts[0]) && WellFormedAll(ts[1..]))
  }

  function Names(fields: seq<Field>): set<string>
  {
    if fields == [] then {} else Names(fields[..|fields| - 1]) + {fields[|fields| - 1].name}
  }

  ghost predicate WellFormedFields(fields: seq<Field>)
    decreases fields, 0
  {
    fields == [] ||
    (WellFormedFields(fields[..|fields| - 1])
     && fields[|fields| - 1].name !in Names(fields[..|fields| - 1])
     && WellFormed(fields[|fields| - 1].t))
  }

  /** No union at any depth has two named branches that differ in their namespaces only. */
  ghost predicate Unambiguous(t: AvroType)
    decreases t, 1
  {
    match t
    case Array(u) => Unambiguous(u)
    case Map(u) => Unambiguous(u)
    case Record(_, fields) => UnambiguousFields(fields)
    case Union(branches) => NamesApart(branches) && UnambiguousAll(branches)
    case _ => true
  }

  ghost predicate NamesApart(branches: seq<AvroType>)
  {
    forall i, j :: 0 <= i < |branches| && 0 <= j < |branches| && i != j ==> !Alike(branches[i], branches[j])
  }

  ghost predicate UnambiguousAll(ts: seq<AvroType>)
    decreases ts, 0
  {
    ts == [] || (Unambiguous(ts[0]) && UnambiguousAll(ts[1..]))
  }

  ghost predicate UnambiguousFields(fields: seq<Field>)
    decreases fields, 0
  {
    fields == [] || (UnambiguousFields(fields[..|fields| - 1]) && Unambiguous(fields[|fields| - 1].t))
  }

  // ---------- data ----------

  /** A value as it was written, or the default a reader fills in. */
  datatype Datum =
    | DPrim(kind: Primitive, text: string)
    | DEnum(symbol: string)
    | DFixed(bytes: string)
    | DArray(elements: seq<Datum>)
    | DMap(entries: map<string, Datum>)
    | DRecord(fields: map<string, Datum>)
    | DUnion(branch: nat, value: Datum)
    | DDefault(json: Value)

  /** `d` is a value of type `t`, as its writer writes it. */
  ghost predicate Valid(t: AvroType, d: Datum)
    decreases t, 1
  {
    match t
    case Prim(p) => d.DPrim? && d.kind == p
    case Array(u) => d.DArray? && forall x :: x in d.elements ==> Valid(u, x)
    case Map(u) => d.DMap? && forall k :: k in d.entries ==> Valid(u, d.entries[k])
    case Enum(_, symbols, _) => d.DEnum? && d.symbol in symbols
    case Fixed(_, _) => d.DFixed?
    case Record(_, fields) => d.DRecord? && ValidFields(fields, d.fields)
    case Union(branches) => d.DUnion? && d.branch < |branches| && Valid(branches[d.branch], d.value)
  }

  ghost predicate ValidFields(fields: seq<Field>, m: map<string, Datum>)
    decreases fields, 0
  {
    fields == [] ||
    (ValidFields(fields[..|fields| - 1], m)
     && fields[|fields| - 1].name in m
     && Valid(fields[|fields| - 1].t, m[fields[|fields| - 1].name]))
  }

  // ---------- schema resolution ----------

  predicate Promotable(p: Primitive, q: Primitive)
  {
    || p == q
    || (p.PInt? && (q.PLong? || q.PFloat? || q.PDouble?))
    || (p.PLong? && (q.PFloat? || q.PDouble?))
    || (p.PFloat? && q.PDouble?)
    || (p.PString? && q.PBytes?)
    || (p.PBytes? && q.PString?)
  }

  /** The writer's and the reader's schema match. */
  predicate Matches(w: AvroType, r: AvroType)
  {
    if w.Union? || r.Union? then true
    else
      match (w, r)
      case (Prim(p), Prim(q)) => Promotable(p, q)
      case (Array(u), Array(v)) => Matches(u, v)
      case (Map(u), Map(v)) => Matches(u, v)
      case (Enum(n, _, _), Enum(m, _, _)) => SameName(n, m)
      case (Fixed(n, size), Fixed(m, size')) => SameName(n, m) && size == size'
      case (Record(n, _), Record(m, _)) => SameName(n, m)
      case _ => false
  }

  /** The first branch of the reader's union that matches. */
  function FirstMatch(w: AvroType, branches: seq<AvroType>, from: nat): (j: Option<nat>)
    requires from <= |branches|
    ensures j.Some? ==> from <= j.value < |branches| && Matches(w, branches[j.value])
    ensures j.None? ==> forall i :: from <= i < |branches| ==> !Matches(w, branches[i])
    decreases |branches| - from
  {
    if from == |branches| then None
    else if Matches(w, branches[from]) then Some(from)
    else FirstMatch(w, branches, from + 1)
  }

  function FieldIn(fields: seq<Field>, name: string): (f: Option<Field>)
    ensures f.Some? <==> name in Names(fields)
    ensures f.Some? ==> f.value in fields && f.value.name == name
  {
    if fields == [] then None
    else if fields[|fields| - 1].name == name then Some(fields[|fields| - 1])
    else FieldIn(fields[..|fields| - 1], name)
  }

  /** Reading with schema `r` what was written with schema `w`; None is the specification's error. */
  function Resolve(w: AvroType, r: AvroType, d: Datum): Option<Datum>
    decreases d, r, 2
  {
    if w.Union? then
      if d.DUnion? && d.branch < |w.branches| then Resolve(w.branches[d.branch], r, d.value) else None
    else if r.Union? then
      var j :- FirstMatch(w, r.branches, 0);
      var x :- Resolve(w, r.branches[j], d);
      Some(DUnion(j, x))
    else if !Matches(w, r) then None
    else
      match (r, d)
      case (Prim(q), DPrim(_, text)) => Some(DPrim(q, text))
      case (Enum(_, symbols, fallback), DEnum(s)) =>
        if s in symbols then Some(d) else if fallback.Some? then Some(DEnum(fallback.value)) else None
      case (Fixed(_, _), DFixed(_)) => Some(d)
      case (Array(v), DArray(elements)) =>
        var xs :- ResolveAll(w.items, v, elements);
        Some(DArray(xs))
      case (Map(v), DMap(entries)) =>
        if forall k :: k in entries ==> Resolve(w.values, v, entries[k]).Some?
        then Some(DMap(map k | k in entries :: Resolve(w.values, v, entries[k]).value))
        else None
      case (Record(_, fields), DRecord(_)) =>
        var m :- ResolveFields(w.fields, fields, d);
        Some(DRecord(m))
      case _ => None
  }

  function ResolveAll(w: AvroType, r: AvroType, elements: seq<Datum>): Option<seq<Datum>>
    decreases elements, r, 0
  {
    if elements == [] then Some([])
    else
      var x :- Resolve(w, r, elements[0]);
      var rest :- ResolveAll(w, r, elements[1..]);
      Some([x] + rest)
  }

  /** The reader's fields: resolved when the writer has the field, filled with the default otherwise. */
  function ResolveFields(wfields: seq<Field>, fields: seq<Field>, d: Datum): Option<map<string, Datum>>
    requires d.DRecord?
    decreases d, fields, 0
  {
    if fields == [] then Some(map[])
    else
      var f := fields[|fields| - 1];
      var front :- ResolveFields(wfields, fields[..|fields| - 1], d);
      var x :- ResolveField(wfields, f, d);
      Some(front[f.name := x])
  }

  function ResolveField(wfields: seq<Field>, f: Field, d: Datum): Option<Datum>
    requires d.DRecord?
    decreases d, f, 1
  {
    match FieldIn(wfields, f.name)
    case Some(wf) => if f.name in d.fields then Resolve(wf.t, f.t, d.fields[f.name]) else None
    case None => if f.default.Some? then Some(DDefault(f.default.value)) else None
  }

  /** Everything written with `w` can be read with `r`. */
  ghost predicate Reads(w: AvroType, r: AvroType)
  {
    forall d :: Valid(w, d) ==> Resolve(w, r, d).Some?
  }

  /** The same question asked of the two schemas alone, without any data. */
  predicate CanRead(w: AvroType, r: AvroType)
    decreases w, r, 2
  {
    if w.Union? then CanReadAll(w.branches, r)
    else if r.Union? then
      var j := FirstMatch(w, r.branches, 0);
      j.Some? && CanRead(w, r.branches[j.value])
    else
      Matches(w, r) && CanReadParts(w, r)
  }

  /** For two schemas that match and are not unions. */
  predicate CanReadParts(w: AvroType, r: AvroType)
    requires !w.Union? && !r.Union? && Matches(w, r)
    decreases w, r, 1
  {
    match r
    case Enum(_, symbols, fallback) => fallback.Some? || forall s :: s in w.symbols ==> s in symbols
    case Array(v) => CanRead(w.items, v)
    case Map(v) => CanRead(w.values, v)
    case Record(_, fields) => AllServed(w.fields, fields)
    case _ => true
  }

  predicate CanReadAll(branches: seq<AvroType>, r: AvroType)
    decreases branches, r, 0
  {
    branches == [] || (CanRead(branches[0], r) && CanReadAll(branches[1..], r))
  }

  predicate AllServed(wfields: seq<Field>, fields: seq<Field>)
    decreases wfields, fields, 1
  {
    fields == [] || (AllServed(wfields, fields[..|fields| - 1]) && Served(wfields, fields[|fields| - 1]))
  }

  /** A reader's field can be served: the writer has it and it reads it, or it has a default. */
  predicate Served(wfields: seq<Field>, f: Field)
    decreases wfields, f, 0
  {
    match FieldIn(wfields, f.name)
    case Some(wf) => CanRead(wf.t, f.t)
    case None => f.default.Some?
  }

  // ---------- a type reads its own data ----------

  lemma {:induction false} MatchesSelf(t: AvroType)
    ensures Matches(t, t)
  {
    match t {
      case Array(u) => MatchesSelf(u);
      case Map(u) => MatchesSelf(u);
      case _ =>
    }
  }

  lemma {:induction false} BranchWellFormed(ts: seq<AvroType>, i: nat)
    requires WellFormedAll(ts) && i < |ts|
    ensures WellFormed(ts[i])
  {
    if i > 0 { BranchWellFormed(ts[1..], i - 1); }
  }

  lemma {:induction false} FieldWellFormed(fields: seq<Field>, f: Field)
    requires WellFormedFields(fields) && f in fields
    ensures FieldIn(fields, f.name) == Some(f) && WellFormed(f.t)
  {
    var n := |fields| - 1;
    if f != fields[n] {
      assert f in fields[..n];
      FieldWellFormed(fields[..n], f);
    }
  }

  lemma {:induction false} BranchUnambiguous(ts: seq<AvroType>, i: nat)
    requires UnambiguousAll(ts) && i < |ts|
    ensures Unambiguous(ts[i])
  {
    if i > 0 { BranchUnambiguous(ts[1..], i - 1); }
  }

  lemma {:induction false} FieldUnambiguous(fields: seq<Field>, f: Field)
    requires UnambiguousFields(fields) && f in fields
    ensures Unambiguous(f.t)
  {
    var n := |fields| - 1;
    if f != fields[n] {
      assert f in fields[..n];
      FieldUnambiguous(fields[..n], f);
    }
  }

  lemma {:induction false} FieldValid(fields: seq<Field>, m: map<string, Datum>, f: Field)
    requires ValidFields(fields, m) && f in fields
    ensures f.name in m && Valid(f.t, m[f.name])
  {
    var n := |fields| - 1;
    if f != fields[n] {
      assert f in fields[..n];
      FieldValid(fields[..n], m, f);
    }
  }

  /** A record resolves exactly when each of the reader's fields does. */
  lemma {:induction false} FieldsResolveExactly(wfields: seq<Field>, fields: seq<Field>, d: Datum)
    requires d.DRecord?
    ensures ResolveFields(wfields, fields, d).Some? <==> forall f :: f in fields ==> ResolveField(wfields, f, d).Some?
  {
    if fields != [] {
      var n := |fields| - 1;
      var front, last := fields[..n], fields[n];
      FieldsResolveExactly(wfields, front, d);
      assert ResolveFields(wfields, fields, d).Some?
        <==> ResolveFields(wfields, front, d).Some? && ResolveField(wfields, last, d).Some?;
      if forall f :: f in fields ==> ResolveField(wfields, f, d).Some? {
        assert last in fields;
        assert forall f :: f in front ==> f in fields;
      } else {
        var f :| f in fields && ResolveField(wfields, f, d).None?;
        assert f in front || f == last;
      }
    }
  }

  lemma {:induction false} AllResolve(w: AvroType, r: AvroType, elements: seq<Datum>)
    requires forall x :: x in elements ==> Resolve(w, r, x).Some?
    ensures ResolveAll(w, r, elements).Some?
  {
    if elements != [] { AllResolve(w, r, elements[1..]); }
  }

  /** In an unambiguous union the branch that reads a value is its own, or a primitive it promotes to. */
  lemma UnionReadsBranch(branches: seq<AvroType>, i: nat, d: Datum)
    requires i < |branches| && Separate(branches) && NamesApart(branches) && Valid(branches[i], d)
    requires Resolve(branches[i], branches[i], d).Some?
    ensures Resolve(branches[i], Union(branches), d).Some?
  {
  }

  lemma {:induction false} ReadsOwn(t: AvroType, d: Datum)
    requires WellFormed(t) && Unambiguous(t) && Valid(t, d)
    ensures Resolve(t, t, d).Some?
    decreases d, t
  {
    MatchesSelf(t);
    match t {
      case Array(u) =>
        forall x | x in d.elements ensures Resolve(u, u, x).Some? { ReadsOwn(u, x); }
        AllResolve(u, u, d.elements);
      case Map(u) => forall k | k in d.entries ensures Resolve(u, u, d.entries[k]).Some? { ReadsOwn(u, d.entries[k]); }
      case Record(_, fields) =>
        forall f | f in fields ensures ResolveField(fields, f, d).Some? {
          FieldWellFormed(fields, f);
          FieldUnambiguous(fields, f);
          FieldValid(fields, d.fields, f);
          ReadsOwn(f.t, d.fields[f.name]);
        }
        FieldsResolveExactly(fields, fields, d);
      case Union(branches) =>
        BranchWellFormed(branches, d.branch);
        BranchUnambiguous(branches, d.branch);
        ReadsOwn(branches[d.branch], d.value);
        UnionReadsBranch(branches, d.branch, d.value);
      case _ =>
    }
  }

  /** A nullable field, the usual union, is never ambiguous by itself. */
  lemma NullableIsUnambiguous(t: AvroType)
    requires Unambiguous(t)
    ensures Unambiguous(Union([Prim(PNull), t])) && Unambiguous(Union([t, Prim(PNull)]))
  {
    assert [Prim(PNull), t][1..] == [t] && [t, Prim(PNull)][1..] == [Prim(PNull)] && [t][1..] == [];
    assert UnambiguousAll([]) && UnambiguousAll([t]) && UnambiguousAll([Prim(PNull)]);
  }

  /** Without that a type can fail on its own data: here the second branch is read with the first. */
  lemma AmbiguousUnionFailsOwn(first: string, second: string, k: string, t: AvroType)
    requires SameName(first, second) && WellFormed(t)
    ensures var u := Union([Record(first, [Field(k, t, None)]), Record(second, [])]);
            WellFormed(u) && !Unambiguous(u) && !Reads(u, u)
  {
    var a, b := Record(first, [Field(k, t, None)]), Record(second, []);
    var u := Union([a, b]);
    OneFieldWellFormed(k, t);
    assert [a, b][1..] == [b] && [b][1..] == [] && WellFormed(b) && WellFormedAll([]);
    assert WellFormedAll([b]);
    assert Alike(u.branches[0], u.branches[1]);
    var d := DUnion(1, DRecord(map[]));
    assert Valid(u, d);
    assert FirstMatch(b, u.branches, 0) == Some(0);
    assert ResolveFields([], a.fields, d.value).None?;
    assert Resolve(b, a, d.value).None?;
    assert Resolve(b, u, d.value).None?;
  }

  lemma OneFieldWellFormed(k: string, t: AvroType)
    requires WellFormed(t)
    ensures WellFormedFields([Field(k, t, None)])
  {
    var fields := [Field(k, t, None)];
    assert fields[..0] == [] && WellFormedFields(fields[..0]) && Names(fields[..0]) == {};
  }

  // ---------- every well-formed type has data ----------

  lemma {:induction false} SomeDatum(t: AvroType) returns (d: Datum)
    requires WellFormed(t)
    ensures Valid(t, d)
    decreases t, 1
  {
    match t {
      case Prim(p) => d := DPrim(p, "");
      case Array(_) => d := DArray([]);
      case Map(_) => d := DMap(map[]);
      case Enum(_, symbols, _) => d := DEnum(symbols[0]);
      case Fixed(_, _) => d := DFixed("");
      case Record(_, fields) =>
        var m := SomeFields(fields);
        d := DRecord(m);
      case Union(branches) =>
        var x := SomeDatum(branches[0]);
        d := DUnion(0, x);
    }
  }

  lemma {:induction false} SomeFields(fields: seq<Field>) returns (m: map<string, Datum>)
    requires WellFormedFields(fields)
    ensures ValidFields(fields, m)
    decreases fields, 0
  {
    if fields == [] {
      m := map[];
    } else {
      var n := |fields| - 1;
      var front := SomeFields(fields[..n]);
      var x := SomeDatum(fields[n].t);
      m := front[fields[n].name := x];
      OtherFieldsKept(fields[..n], front, fields[n].name, x);
    }
  }

  lemma {:induction false} OtherFieldsKept(fields: seq<Field>, m: map<string, Datum>, name: string, x: Datum)
    requires ValidFields(fields, m) && name !in Names(fields)
    ensures ValidFields(fields, m[name := x])
  {
    if fields != [] { OtherFieldsKept(fields[..|fields| - 1], m, name, x); }
  }

  lemma {:induction false} OneFieldChanged(fields: seq<Field>, m: map<string, Datum>, f: Field, x: Datum)
    requires WellFormedFields(fields) && ValidFields(fields, m) && f in fields && Valid(f.t, x)
    ensures ValidFields(fields, m[f.name := x])
  {
    var n := |fields| - 1;
    if f == fields[n] {
      OtherFieldsKept(fields[..n], m, f.name, x);
    } else {
      assert f in fields[..n];
      OneFieldChanged(fields[..n], m, f, x);
      NameIn(fields[..n], f);
    }
  }

  lemma {:induction false} NameIn(fields: seq<Field>, f: Field)
    requires f in fields
    ensures f.name in Names(fields)
  {
    var n := |fields| - 1;
    if f != fields[n] {
      assert f in fields[..n];
      NameIn(fields[..n], f);
    }
  }

  // ---------- the static check is exact ----------

  lemma {:induction false} CanReadBranch(branches: seq<AvroType>, r: AvroType, i: nat)
    requires CanReadAll(branches, r) && i < |branches|
    ensures CanRead(branches[i], r)
  {
    if i > 0 { CanReadBranch(branches[1..], r, i - 1); }
  }

  lemma {:induction false} SomeBranchFails(branches: seq<AvroType>, r: AvroType) returns (i: nat)
    requires !CanReadAll(branches, r)
    ensures i < |branches| && !CanRead(branches[i], r)
  {
    if !CanRead(branches[0], r) {
      i := 0;
    } else {
      var k := SomeBranchFails(branches[1..], r);
      i := k + 1;
    }
  }

  lemma {:induction false} AllServedExactly(wfields: seq<Field>, fields: seq<Field>)
    ensures AllServed(wfields, fields) <==> forall f :: f in fields ==> Served(wfields, f)
  {
    if fields != [] {
      var n := |fields| - 1;
      var front, last := fields[..n], fields[n];
      AllServedExactly(wfields, front);
      if forall f :: f in fields ==> Served(wfields, f) {
        assert last in fields;
        assert forall f :: f in front ==> f in fields;
      } else {
        var f :| f in fields && !Served(wfields, f);
        assert f in front || f == last;
      }
    }
  }

  /** Whatever the static check lets through, every value written is read. */
  lemma {:induction false} CanReadResolves(w: AvroType, r: AvroType, d: Datum)
    requires CanRead(w, r) && Valid(w, d)
    ensures Resolve(w, r, d).Some?
    decreases d, r
  {
    if w.Union? {
      CanReadBranch(w.branches, r, d.branch);
      CanReadResolves(w.branches[d.branch], r, d.value);
    } else if r.Union? {
      CanReadResolves(w, r.branches[FirstMatch(w, r.branches, 0).value], d);
    } else {
      match r {
        case Array(v) =>
          forall x | x in d.elements ensures Resolve(w.items, v, x).Some? { CanReadResolves(w.items, v, x); }
          AllResolve(w.items, v, d.elements);
        case Map(v) =>
          forall k | k in d.entries ensures Resolve(w.values, v, d.entries[k]).Some? { CanReadResolves(w.values, v, d.entries[k]); }
        case Record(_, fields) =>
          AllServedExactly(w.fields, fields);
          forall f | f in fields ensures ResolveField(w.fields, f, d).Some? {
            var wf := FieldIn(w.fields, f.name);
            if wf.Some? {
              FieldValid(w.fields, d.fields, wf.value);
              CanReadResolves(wf.value.t, f.t, d.fields[f.name]);
            }
          }
          FieldsResolveExactly(w.fields, fields, d);
        case _ =>
      }
    }
  }

  /** Whatever it stops, some value written cannot be read. */
  lemma {:induction false} CannotReadFails(w: AvroType, r: AvroType) returns (d: Datum)
    requires !CanRead(w, r) && WellFormed(w)
    ensures Valid(w, d) && Resolve(w, r, d).None?
    decreases w, r
  {
    if w.Union? {
      var i := SomeBranchFails(w.branches, r);
      BranchWellFormed(w.branches, i);
      var x := CannotReadFails(w.branches[i], r);
      d := DUnion(i, x);
    } else if r.Union? && FirstMatch(w, r.branches, 0).Some? {
      d := CannotReadFails(w, r.branches[FirstMatch(w, r.branches, 0).value]);
    } else if r.Union? || !Matches(w, r) {
      d := SomeDatum(w);
    } else {
      d := MatchingFails(w, r);
    }
  }

  lemma {:induction false} MatchingFails(w: AvroType, r: AvroType) returns (d: Datum)
    requires !CanRead(w, r) && WellFormed(w) && !w.Union? && !r.Union? && Matches(w, r)
    ensures Valid(w, d) && Resolve(w, r, d).None?
    decreases w, r, 0
  {
    match r {
      case Enum(_, symbols, _) =>
        var s :| s in w.symbols && s !in symbols;
        d := DEnum(s);
      case Array(v) =>
        var x := CannotReadFails(w.items, v);
        d := DArray([x]);
        assert ResolveAll(w.items, v, [x]).None?;
      case Map(v) =>
        var x := CannotReadFails(w.values, v);
        d := DMap(map["key" := x]);
        assert d.entries["key"] == x && Resolve(w.values, v, d.entries["key"]).None?;
      case Record(_, fields) =>
        AllServedExactly(w.fields, fields);
        var f :| f in fields && !Served(w.fields, f);
        d := UnservedFails(w.fields, f);
        FieldsResolveExactly(w.fields, fields, d);
    }
  }

  lemma {:induction false} UnservedFails(wfields: seq<Field>, f: Field) returns (d: Datum)
    requires WellFormedFields(wfields) && !Served(wfields, f)
    ensures d.DRecord? && ValidFields(wfields, d.fields) && ResolveField(wfields, f, d).None?
    decreases wfields, f, 0
  {
    var m := SomeFields(wfields);
    var wf := FieldIn(wfields, f.name);
    if wf.Some? {
      FieldWellFormed(wfields, wf.value);
      var x := CannotReadFails(wf.value.t, f.t);
      OneFieldChanged(wfields, m, wf.value, x);
      d := DRecord(m[f.name := x]);
    } else {
      d := DRecord(m);
    }
  }

  /** The reader's schema reads all of the writer's data exactly when the static check says so. */
  lemma CanReadExactly(w: AvroType, r: AvroType)
    requires WellFormed(w)
    ensures CanRead(w, r) <==> Reads(w, r)
  {
    if CanRead(w, r) {
      forall d | Valid(w, d) ensures Resolve(w, r, d).Some? { CanReadResolves(w, r, d); }
    } else {
      var d := CannotReadFails(w, r);
    }
  }

  /** int, long, float and double in this order; the other primitives have no rank. */
  function Rank(p: Primitive): Option<nat>
  {
    match p
    case PInt => Some(0)
    case PLong => Some(1)
    case PFloat => Some(2)
    case PDouble => Some(3)
    case _ => None
  }

  /** A primitive reads another exactly when it is the same, a wider number, or the other one of string and bytes. */
  lemma PrimitiveReadsExactly(p: Primitive, q: Primitive)
    ensures Reads(Prim(p), Prim(q)) <==>
              || p == q
              || (Rank(p).Some? && Rank(q).Some? && Rank(p).value < Rank(q).value)
              || {p, q} == {PString, PBytes}
  {
    CanReadExactly(Prim(p), Prim(q));
    assert {p, q} == {PString, PBytes} <==> (p == PString && q == PBytes) || (p == PBytes && q == PString) by {
      assert PString in {PString, PBytes} && PBytes in {PString, PBytes};
      assert p in {p, q} && q in {p, q};
    }
  }

  /** Named types read each other only if their names end alike after the last dot; fixed types need one size, too. */
  lemma NamedReads(first: string, x: string, second: string, y: string, size: string, size': string)
    requires NoDot(x) && NoDot(y)
    ensures Reads(Fixed(first + "." + x, size), Fixed(second + "." + y, size')) <==> x == y && size == size'
    ensures Reads(Fixed(first + "." + x, size), Fixed(y, size')) <==> x == y && size == size'
  {
    LastPart(first, x);
    LastPart(second, y);
    NoDotIsWhole(y);
    CanReadExactly(Fixed(first + "." + x, size), Fixed(second + "." + y, size'));
    CanReadExactly(Fixed(first + "." + x, size), Fixed(y, size'));
  }

  ghost predicate NoDot(x: string)
  {
    forall i :: 0 <= i < |x| ==> x[i] != '.'
  }

  lemma {:induction false} NoDotIsWhole(x: string)
    requires NoDot(x)
    ensures Unqualified(x) == x
  {
    if x != [] {
      NoDotIsWhole(x[..|x| - 1]);
      assert x == x[..|x| - 1] + [x[|x| - 1]];
    }
  }

  lemma {:induction false} LastPart(pre: string, x: string)
    requires NoDot(x)
    ensures Unqualified(pre + "." + x) == x
  {
    var name := pre + "." + x;
    if x == [] {
      assert name[|name| - 1] == '.';
    } else {
      var n := |x| - 1;
      LastPart(pre, x[..n]);
      assert name[..|name| - 1] == pre + "." + x[..n];
      assert name[|name| - 1] == x[n] && x == x[..n] + [x[n]];
    }
  }

  // ---------- the policy pack's tables and the parsed fields ----------

  /** The dictionary declares the field. */
  ghost predicate Declares(v: Value, f: Field)
  {
    && v.VObj? && "type" in v.m && ParseType(v.m["type"]) == Some(f.t)
    && (f.default.Some? <==> "default" in v.m)
  }

  lemma {:induction false} TableDeclares(items: seq<Value>)
    requires ParseFields(items).Some? && WellFormedFields(ParseFields(items).value)
    ensures var t, fields := Evolution.NamedFields(items), ParseFields(items).value;
            t.Keys == Names(fields) && forall f :: f in fields ==> f.name in t && Declares(t[f.name], f)
  {
    if items != [] {
      var n := |items| - 1;
      var fields := ParseFields(items).value;
      var front := ParseFields(items[..n]).value;
      assert fields[..|fields| - 1] == front;
      TableDeclares(items[..n]);
      forall f | f in front ensures f.name in Names(front) { NameIn(front, f); }
    }
  }

  /** A record schema of the policy pack, parsed. */
  ghost predicate IsRecord(schema: Value, t: AvroType)
  {
    schema.VObj? && TextAt(schema, "type") == Some("record") && ParseRecord(schema) == Some(t) && WellFormed(t)
  }

  lemma SchemaDeclares(schema: Value, t: AvroType)
    requires IsRecord(schema, t)
    ensures t.Record? && Evolution.FieldMap(schema).Keys == Names(t.fields)
    ensures forall f :: f in t.fields ==> f.name in Evolution.FieldMap(schema) && Declares(Evolution.FieldMap(schema)[f.name], f)
  {
    TableDeclares(schema.m["fields"].items);
  }

  lemma {:induction false} SymbolsParsed(items: seq<Value>)
    requires Symbols(items).Some?
    ensures forall s :: s in Evolution.Strings(items) <==> s in Symbols(items).value
  {
    if items != [] { SymbolsParsed(items[1..]); }
  }

  // ---------- unflagged evolutions ----------

  /** The policy pack finds nothing to say about the fields. */
  ghost predicate Unflagged(o: Evolution.Fields, a: Evolution.Fields)
  {
    && Evolution.AddedRequired(o, a) == []
    && Evolution.ChangedFieldTypes(o, a) == Some([])
    && Evolution.EnumNarrowingFields(o, a) == Some([])
  }

  /** The field has enum symbols in both versions, so that the type rule does not look at it. */
  predicate EnumField(o: Evolution.Fields, a: Evolution.Fields, n: string)
  {
    n in o && n in a && Evolution.SameEnumFamily(Evolution.TypeOf(o[n]), Evolution.TypeOf(a[n]))
  }

  /** The new type of a field reads the old one. */
  predicate FieldReads(o: Evolution.Fields, a: Evolution.Fields, n: string)
    requires n in o && n in a
  {
    match (ParseType(Evolution.TypeOf(o[n])), ParseType(Evolution.TypeOf(a[n])))
    case (Some(t), Some(u)) => CanRead(t, u)
    case _ => false
  }

  /** The unchanged type of a field may fail on its own data. */
  ghost predicate MayFailOwn(o: Evolution.Fields, n: string)
    requires n in o
  {
    match ParseType(Evolution.TypeOf(o[n]))
    case Some(t) => !Unambiguous(t)
    case None => true
  }

  /** What the policy pack's rules leave to look at: fields with enum symbols, and ambiguous unions. */
  ghost predicate Unsettled(o: Evolution.Fields, a: Evolution.Fields, n: string)
  {
    n in o && n in a && (EnumField(o, a, n) || MayFailOwn(o, n))
  }

  /** An unflagged field without enum symbols or ambiguous unions keeps its type and so reads its old data. */
  lemma PlainFieldReads(o: Evolution.Fields, a: Evolution.Fields, n: string, t: AvroType)
    requires n in o && n in a && Unflagged(o, a) && !EnumField(o, a, n)
    requires ParseType(Evolution.TypeOf(o[n])) == Some(t) && WellFormed(t) && Unambiguous(t)
    ensures FieldReads(o, a, n)
  {
    assert n !in Evolution.ChangedFieldTypes(o, a).value && n !in Evolution.EnumNarrowingFields(o, a).value;
    Evolution.StepVerdict(o, a, n);
    forall d | Valid(t, d) ensures Resolve(t, t, d).Some? { ReadsOwn(t, d); }
    CanReadExactly(t, t);
  }

  lemma FieldServed(o: Evolution.Fields, a: Evolution.Fields, wfields: seq<Field>, f: Field)
    requires Unflagged(o, a) && WellFormedFields(wfields) && o.Keys == Names(wfields)
    requires forall wf :: wf in wfields ==> wf.name in o && Declares(o[wf.name], wf)
    requires f.name in a && Declares(a[f.name], f)
    ensures Served(wfields, f) <==> (Unsettled(o, a, f.name) ==> FieldReads(o, a, f.name))
  {
    var wf := FieldIn(wfields, f.name);
    if wf.Some? {
      FieldWellFormed(wfields, wf.value);
      if !Unsettled(o, a, f.name) { PlainFieldReads(o, a, f.name, wf.value.t); }
    } else {
      assert f.name !in Evolution.AddedRequired(o, a);
    }
  }

  /**
   If the policy pack flags no added required field, no type change and no enum narrowing, then the new
   schema reads every record written with the old one exactly when the record kept its name and the new
   type reads the old one for each common field with enum symbols or with an ambiguous union.
   */
  lemma UnflaggedReadsExactly(before: Value, after: Value, w: AvroType, r: AvroType)
    requires IsRecord(before, w) && IsRecord(after, r)
    requires Unflagged(Evolution.FieldMap(before), Evolution.FieldMap(after))
    ensures w.Record? && r.Record?
    ensures var o, a := Evolution.FieldMap(before), Evolution.FieldMap(after);
            Reads(w, r) <==> SameName(w.name, r.name) && forall n :: Unsettled(o, a, n) ==> FieldReads(o, a, n)
  {
    var o, a := Evolution.FieldMap(before), Evolution.FieldMap(after);
    SchemaDeclares(before, w);
    SchemaDeclares(after, r);
    CanReadExactly(w, r);
    AllServedExactly(w.fields, r.fields);
    forall f | f in r.fields ensures Served(w.fields, f) <==> (Unsettled(o, a, f.name) ==> FieldReads(o, a, f.name)) {
      FieldServed(o, a, w.fields, f);
    }
    forall n | Unsettled(o, a, n) ensures exists f :: f in r.fields && f.name == n {
      var f := FieldIn(r.fields, n).value;
    }
  }

  // ---------- plain enums, and others ----------

  function EnumName(v: Value): string
  {
    if v.VObj? && "name" in v.m && v.m["name"].VStr? then v.m["name"].s else []
  }

  lemma EnumParsed(v: Value, t: AvroType)
    requires Evolution.IsEnum(v) && ParseType(v) == Some(t)
    ensures t.Enum? && t.name == EnumName(v) && forall s :: s in Evolution.EnumSymbols(v) <==> s in t.symbols
  {
    SymbolsParsed(v.m["symbols"].items);
  }

  /** For a plain enum on both sides the policy pack checks everything but the name. */
  lemma PlainEnumReadsExactly(o: Evolution.Fields, a: Evolution.Fields, n: string)
    requires EnumField(o, a, n) && Unflagged(o, a)
    requires Evolution.IsEnum(Evolution.TypeOf(o[n])) && Evolution.IsEnum(Evolution.TypeOf(a[n]))
    requires ParseType(Evolution.TypeOf(o[n])).Some? && ParseType(Evolution.TypeOf(a[n])).Some?
    ensures FieldReads(o, a, n) <==> SameName(EnumName(Evolution.TypeOf(o[n])), EnumName(Evolution.TypeOf(a[n])))
  {
    var v, v' := Evolution.TypeOf(o[n]), Evolution.TypeOf(a[n]);
    var t, u := ParseType(v).value, ParseType(v').value;
    EnumParsed(v, t);
    EnumParsed(v', u);
    assert n !in Evolution.EnumNarrowingFields(o, a).value && !Evolution.FlaggedEnum(o, a, n);
    assert forall s :: s in t.symbols ==> s in u.symbols;
    assert CanRead(t, u) <==> Matches(t, u);
  }

  /** The fields with enum symbols in both versions are plain enums in both. */
  predicate PlainEnums(o: Evolution.Fields, a: Evolution.Fields)
  {
    forall n | n in o && EnumField(o, a, n) :: Evolution.IsEnum(Evolution.TypeOf(o[n])) && Evolution.IsEnum(Evolution.TypeOf(a[n]))
  }

  /** Both types of the shared enum have one name. */
  predicate NameKept(o: Evolution.Fields, a: Evolution.Fields, n: string)
    requires n in o && n in a
  {
    SameName(EnumName(Evolution.TypeOf(o[n])), EnumName(Evolution.TypeOf(a[n])))
  }

  /** A field of a parsed record has a type that parses. */
  lemma FieldParses(schema: Value, t: AvroType, n: string)
    requires IsRecord(schema, t) && n in Evolution.FieldMap(schema)
    ensures ParseType(Evolution.TypeOf(Evolution.FieldMap(schema)[n])).Some?
  {
    SchemaDeclares(schema, t);
    var f := FieldIn(t.fields, n).value;
    assert Declares(Evolution.FieldMap(schema)[f.name], f);
  }

  /**
   Where all shared enums are plain ones, a new schema in which the policy pack flags nothing reads
   every old record exactly when the record and each shared enum kept their names and each unchanged
   type with an ambiguous union reads its own data.
   */
  lemma UnflaggedPlainReadsExactly(before: Value, after: Value, w: AvroType, r: AvroType)
    requires IsRecord(before, w) && IsRecord(after, r)
    requires Unflagged(Evolution.FieldMap(before), Evolution.FieldMap(after))
    requires PlainEnums(Evolution.FieldMap(before), Evolution.FieldMap(after))
    ensures w.Record? && r.Record?
    ensures var o, a := Evolution.FieldMap(before), Evolution.FieldMap(after);
            Reads(w, r) <==>
              && SameName(w.name, r.name)
              && (forall n :: EnumField(o, a, n) ==> NameKept(o, a, n))
              && (forall n :: Unsettled(o, a, n) && !EnumField(o, a, n) ==> FieldReads(o, a, n))
  {
    UnflaggedReadsExactly(before, after, w, r);
    var o, a := Evolution.FieldMap(before), Evolution.FieldMap(after);
    forall n | EnumField(o, a, n) ensures Unsettled(o, a, n) && (FieldReads(o, a, n) <==> NameKept(o, a, n)) {
      FieldParses(before, w, n);
      FieldParses(after, r, n);
      PlainEnumReadsExactly(o, a, n);
    }
  }

  /**
   For a union with an enum the rules can miss a lost branch: dropping null from ["null", enum] is
   neither a type change nor a narrowing, and a null written before cannot be read any more.
   */
  lemma UnionLosesBranchUnflagged(e: Value, t: AvroType)
    requires Evolution.IsEnum(e) && ParseType(e) == Some(t) && Evolution.EnumSymbols(e) != {}
    ensures var v, v' := VArr([VStr("null"), e]), VArr([e]);
            && !Evolution.TypeChanged(v, v') && !Evolution.EnumNarrowed(v, v')
            && ParseType(v) == Some(Union([Prim(PNull), t])) && ParseType(v') == Some(Union([t]))
            && !Reads(Union([Prim(PNull), t]), Union([t]))
  {
    EnumParsed(e, t);
    TwoSymbolSets(VStr("null"), e);
    assert ParseType(VStr("null")) == Some(Prim(PNull));
    OneParsed(e);
    TwoParsed(VStr("null"), e);
    var w, r := Union([Prim(PNull), t]), Union([t]);
    var d := DUnion(0, DPrim(PNull, ""));
    assert Valid(w, d);
    assert FirstMatch(Prim(PNull), [t], 0) == None;
    assert Resolve(Prim(PNull), r, d.value).None?;
  }

  /**
   Nor do they look at an unchanged type that fails on its own data: a union of a.X with a required
   field and b.X without fields is flagged by no rule, and the second branch cannot be read.
   */
  lemma AmbiguousUnionUnflagged()
    ensures var v := VArr([RecordOf("a.X", [VObj(map["name" := VStr("k"), "type" := VStr("int")])]), RecordOf("b.X", [])]);
            var u := Union([Record("a.X", [Field("k", Prim(PInt), None)]), Record("b.X", [])]);
            && ParseType(v) == Some(u) && WellFormed(u) && !Reads(u, u)
            && !Evolution.TypeChanged(v, v) && !Evolution.EnumNarrowed(v, v)
  {
    var f := VObj(map["name" := VStr("k"), "type" := VStr("int")]);
    IntFieldParsed("k");
    RecordParsed("a.X", [f]);
    RecordParsed("b.X", []);
    TwoParsed(RecordOf("a.X", [f]), RecordOf("b.X", []));
    ShortNames();
    AmbiguousUnionFailsOwn("a.X", "b.X", "k", Prim(PInt));
  }

  lemma RecordParsed(name: string, fields: seq<Value>)
    requires ParseFields(fields).Some?
    ensures ParseType(RecordOf(name, fields)) == Some(Record(name, ParseFields(fields).value))
  {
    var v := RecordOf(name, fields);
    assert TextAt(v, "type") == Some("record") && TextAt(v, "name") == Some(name);
    assert v.m["fields"] == VArr(fields);
    assert ParseRecord(v) == Some(Record(name, ParseFields(fields).value));
  }

  lemma IntFieldParsed(name: string)
    ensures ParseFields([VObj(map["name" := VStr(name), "type" := VStr("int")])]) == Some([Field(name, Prim(PInt), None)])
  {
    var f := VObj(map["name" := VStr(name), "type" := VStr("int")]);
    assert TextAt(f, "name") == Some(name) && f.m["type"] == VStr("int") && "default" !in f.m;
    assert ParseType(f.m["type"]) == Some(Prim(PInt));
    assert [f][..0] == [] && ParseFields([f][..0]) == Some([]);
    var parsed := Field(name, Prim(PInt), None);
    assert ParseFields([f]) == Some([] + [parsed]);
    assert [] + [parsed] == [parsed];
  }

  lemma ShortNames()
    ensures SameName("a.X", "b.X")
  {
    assert "a.X"[..2] == "a." && "b.X"[..2] == "b.";
    assert Unqualified("a.X") == "X" && Unqualified("b.X") == "X";
  }

  lemma TwoSymbolSets(x: Value, e: Value)
    ensures Evolution.EnumSymbols(VArr([x, e])) == Evolution.EnumSymbols(x) + Evolution.EnumSymbols(e)
    ensures Evolution.EnumSymbols(VArr([e])) == Evolution.EnumSymbols(e)
  {
    assert [x, e][1..] == [e] && [e][1..] == [];
    assert Evolution.EnumSymbolsOfAll([]) == {};
    assert Evolution.EnumSymbolsOfAll([e]) == Evolution.EnumSymbols(e) + Evolution.EnumSymbolsOfAll([]);
    assert Evolution.EnumSymbolsOfAll([x, e]) == Evolution.EnumSymbols(x) + Evolution.EnumSymbolsOfAll([e]);
  }

  lemma OneParsed(e: Value)
    requires ParseType(e).Some?
    ensures ParseAll([e]) == Some([ParseType(e).value])
  {
    assert [e][1..] == [];
    assert ParseAll([]) == Some([]);
    assert [ParseType(e).value] + [] == [ParseType(e).value];
  }

  lemma TwoParsed(x: Value, e: Value)
    requires ParseType(x).Some? && ParseType(e).Some?
    ensures ParseAll([x, e]) == Some([ParseType(x).value, ParseType(e).value])
  {
    OneParsed(e);
    assert [x, e][1..] == [e];
    assert ParseAll([x, e]) == Some([ParseType(x).value] + ParseAll([e]).value);
    assert [ParseType(x).value] + [ParseType(e).value] == [ParseType(x).value, ParseType(e).value];
  }
}
