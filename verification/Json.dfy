/**
 JSON texts, their parse trees and the Python values they load to.

 A text is taken after lexing: string and number literals are single tokens that carry the
 decoded value and the spelling used in the text (spelling 0 is the one `json.dumps` writes).
 Punctuation, whitespace and every other character are tokens of their own, so the grammar,
 the whitespace rules and duplicate keys are all inside the model.
 */
module Json {
  import opened Prelude

  datatype Token =
    | LBrace | RBrace | LBracket | RBracket | Comma | Colon
    | TNull | TTrue | TFalse
    | TNum(num: string, numSpelling: nat)
    | TStr(str: string, strSpelling: nat)
    | TChar(c: char)

  /** A text is the list of its tokens. */
  datatype Text = End | Cons(head: Token, tail: Text)

  /** What `json.loads` builds, with dictionary keys in insertion order. */
  datatype Doc =
    | DNull
    | DBool(b: bool)
    | DNum(n: string)
    | DStr(s: string)
    | DArr(items: seq<Doc>)
    | DObj(members: seq<Member>)

  datatype Member = Member(key: string, value: Doc)

  /** The same data as Python compares it: `==` on dictionaries ignores key order. */
  datatype Value =
    | VNull
    | VBool(b: bool)
    | VNum(n: string)
    | VStr(s: string)
    | VArr(items: seq<Value>)
    | VObj(m: map<string, Value>)

  // ---------- printing (json.dumps with separators "," and ":") ----------

  /** Writes `d` in front of `k`. */
  function Write(d: Doc, k: Text): Text
    decreases d, 1
  {
    match d
    case DNull => Cons(TNull, k)
    case DBool(b) => Cons(if b then TTrue else TFalse, k)
    case DNum(n) => Cons(TNum(n, 0), k)
    case DStr(s) => Cons(TStr(s, 0), k)
    case DArr(items) => Cons(LBracket, WriteItems(items, Cons(RBracket, k)))
    case DObj(members) => Cons(LBrace, WriteMembers(members, Cons(RBrace, k)))
  }

  function WriteItems(items: seq<Doc>, k: Text): Text
    decreases items, 0
  {
    if items == [] then k
    else if |items| == 1 then Write(items[0], k)
    else Write(items[0], Cons(Comma, WriteItems(items[1..], k)))
  }

  function WriteMember(m: Member, k: Text): Text
    decreases m, 2
  {
    Cons(TStr(m.key, 0), Cons(Colon, Write(m.value, k)))
  }

  function WriteMembers(members: seq<Member>, k: Text): Text
    decreases members, 0
  {
    if members == [] then k
    else if |members| == 1 then WriteMember(members[0], k)
    else WriteMember(members[0], Cons(Comma, WriteMembers(members[1..], k)))
  }

  /** `json.dumps(d, separators=(",", ":"))`. */
  function Print(d: Doc): Text
  {
    Write(d, End)
  }

  // ---------- parsing (json.loads) ----------

  /** The four whitespace characters of the JSON grammar. */
  predicate IsJsonSpace(c: char)
  {
    c == ' ' || c == '\t' || c == '\n' || c == '\r'
  }

  function Length(t: Text): nat
  {
    if t.End? then 0 else 1 + Length(t.tail)
  }

  function SkipSpace(t: Text): (r: Text)
    ensures Length(r) <= Length(t)
    ensures r.Cons? ==> !(r.head.TChar? && IsJsonSpace(r.head.c))
  {
    if t.Cons? && t.head.TChar? && IsJsonSpace(t.head.c) then SkipSpace(t.tail) else t
  }

  datatype Parsed<+T> = Fail | Got(value: T, rest: Text)

  /** Python keeps a repeated key at its first position, with its last value. */
  function Put(members: seq<Member>, m: Member): (r: seq<Member>)
    ensures Distinct(members) ==> Distinct(r)
    ensures Keys(r) == Keys(members) + {m.key}
  {
    if members == [] then [m]
    else if members[0].key == m.key then
      assert Keys(members) == {m.key} + Keys(members[1..]);
      [m] + members[1..]
    else [members[0]] + Put(members[1..], m)
  }

  function Keys(members: seq<Member>): set<string>
  {
    if members == [] then {} else {members[0].key} + Keys(members[1..])
  }

  predicate Distinct(members: seq<Member>)
  {
    members == [] || (members[0].key !in Keys(members[1..]) && Distinct(members[1..]))
  }

  /** `dict(pairs)`. */
  function DictOf(pairs: seq<Member>): (r: seq<Member>)
    ensures Distinct(r)
  {
    if pairs == [] then [] else Put(DictOf(pairs[..|pairs| - 1]), pairs[|pairs| - 1])
  }

  function ParseValue(t: Text): (r: Parsed<Doc>)
    ensures r.Got? ==> Length(r.rest) < Length(t)
    decreases Length(t), 0
  {
    var u := SkipSpace(t);
    if u.End? then Fail
    else match u.head {
      case TNull => Got(DNull, u.tail)
      case TTrue => Got(DBool(true), u.tail)
      case TFalse => Got(DBool(false), u.tail)
      case TNum(n, _) => Got(DNum(n), u.tail)
      case TStr(s, _) => Got(DStr(s), u.tail)
      case LBracket =>
        var v := SkipSpace(u.tail);
        if v.Cons? && v.head == RBracket then Got(DArr([]), v.tail)
        else (match ParseItems(u.tail) case Fail => Fail case Got(items, rest) => Got(DArr(items), rest))
      case LBrace =>
        var v := SkipSpace(u.tail);
        if v.Cons? && v.head == RBrace then Got(DObj([]), v.tail)
        else (match ParseMembers(u.tail) case Fail => Fail case Got(pairs, rest) => Got(DObj(DictOf(pairs)), rest))
      case _ => Fail
    }
  }

  function ParseItems(t: Text): (r: Parsed<seq<Doc>>)
    ensures r.Got? ==> Length(r.rest) < Length(t)
    decreases Length(t), 1
  {
    match ParseValue(t)
    case Fail => Fail
    case Got(d, rest) =>
      var u := SkipSpace(rest);
      if u.End? then Fail
      else if u.head == RBracket then Got([d], u.tail)
      else if u.head == Comma then
        match ParseItems(u.tail)
        case Fail => Fail
        case Got(ds, rest') => Got([d] + ds, rest')
      else Fail
  }

  function ParseMembers(t: Text): (r: Parsed<seq<Member>>)
    ensures r.Got? ==> Length(r.rest) < Length(t)
    decreases Length(t), 1
  {
    var u := SkipSpace(t);
    if u.End? || !u.head.TStr? then Fail
    else
      var v := SkipSpace(u.tail);
      if v.End? || v.head != Colon then Fail
      else
        match ParseValue(v.tail)
        case Fail => Fail
        case Got(d, rest) =>
          var w := SkipSpace(rest);
          if w.End? then Fail
          else if w.head == RBrace then Got([Member(u.head.str, d)], w.tail)
          else if w.head == Comma then
            match ParseMembers(w.tail)
            case Fail => Fail
            case Got(ms, rest') => Got([Member(u.head.str, d)] + ms, rest')
          else Fail
  }

  /** `json.loads`: one value, surrounded by nothing but whitespace. */
  function Loads(t: Text): Option<Doc>
  {
    match ParseValue(t)
    case Fail => None
    case Got(d, rest) => if SkipSpace(rest).End? then Some(d) else None
  }

  // ---------- round trip ----------

  /** No dictionary of the document repeats a key. */
  predicate WellFormed(d: Doc)
    decreases d, 1
  {
    match d
    case DArr(items) => WellFormedItems(items)
    case DObj(members) => Distinct(members) && WellFormedMembers(members)
    case _ => true
  }

  predicate WellFormedItems(items: seq<Doc>)
    decreases items, 0
  {
    items == [] || (WellFormed(items[0]) && WellFormedItems(items[1..]))
  }

  predicate WellFormedMembers(members: seq<Member>)
    decreases members, 0
  {
    members == [] || (WellFormed(members[0].value) && WellFormedMembers(members[1..]))
  }

  lemma {:induction false} DictOfDistinct(pairs: seq<Member>)
    requires Distinct(pairs)
    ensures DictOf(pairs) == pairs
  {
    if pairs != [] {
      var front, last := pairs[..|pairs| - 1], pairs[|pairs| - 1];
      assert pairs == front + [last];
      DistinctSplit(front, last);
      DictOfDistinct(front);
      PutFresh(front, last);
    }
  }

  lemma {:induction false} DistinctSplit(front: seq<Member>, last: Member)
    requires Distinct(front + [last])
    ensures Distinct(front) && last.key !in Keys(front)
  {
    if front != [] {
      assert (front + [last])[1..] == front[1..] + [last];
      DistinctSplit(front[1..], last);
      KeysAppend(front[1..], last);
    }
  }

  lemma {:induction false} KeysAppend(front: seq<Member>, last: Member)
    ensures Keys(front + [last]) == Keys(front) + {last.key}
  {
    if front != [] {
      assert (front + [last])[1..] == front[1..] + [last];
      KeysAppend(front[1..], last);
    }
  }

  lemma {:induction false} PutFresh(members: seq<Member>, m: Member)
    requires m.key !in Keys(members)
    ensures Put(members, m) == members + [m]
  {
    if members != [] {
      PutFresh(members[1..], m);
    }
  }

  // One step of the parser at a time, away from the printer.

  lemma ItemsEnd(t: Text, d: Doc, k: Text)
    requires ParseValue(t) == Got(d, Cons(RBracket, k))
    ensures ParseItems(t) == Got([d], k)
  {
  }

  lemma ItemsMore(t: Text, d: Doc, more: Text, ds: seq<Doc>, k: Text)
    requires ParseValue(t) == Got(d, Cons(Comma, more)) && ParseItems(more) == Got(ds, k)
    ensures ParseItems(t) == Got([d] + ds, k)
  {
  }

  lemma MembersEnd(key: string, t: Text, d: Doc, k: Text)
    requires ParseValue(t) == Got(d, Cons(RBrace, k))
    ensures ParseMembers(Cons(TStr(key, 0), Cons(Colon, t))) == Got([Member(key, d)], k)
  {
  }

  lemma MembersMore(key: string, t: Text, d: Doc, more: Text, ms: seq<Member>, k: Text)
    requires ParseValue(t) == Got(d, Cons(Comma, more)) && ParseMembers(more) == Got(ms, k)
    ensures ParseMembers(Cons(TStr(key, 0), Cons(Colon, t))) == Got([Member(key, d)] + ms, k)
  {
  }

  lemma ArrayOf(body: Text, items: seq<Doc>, k: Text)
    requires body.Cons? && !body.head.TChar? && body.head != RBracket && ParseItems(body) == Got(items, k)
    ensures ParseValue(Cons(LBracket, body)) == Got(DArr(items), k)
  {
  }

  lemma ObjectOf(body: Text, members: seq<Member>, k: Text)
    requires body.Cons? && body.head.TStr? && ParseMembers(body) == Got(members, k) && Distinct(members)
    ensures ParseValue(Cons(LBrace, body)) == Got(DObj(members), k)
  {
    DictOfDistinct(members);
  }

  lemma Leaf(d: Doc, k: Text)
    requires !d.DArr? && !d.DObj?
    ensures ParseValue(Write(d, k)) == Got(d, k)
  {
  }

  lemma WriteHead(d: Doc, k: Text)
    ensures Write(d, k).Cons? && !Write(d, k).head.TChar? && Write(d, k).head != RBracket
  {
  }

  lemma {:induction false} ParseWrite(d: Doc, k: Text)
    requires WellFormed(d)
    ensures ParseValue(Write(d, k)) == Got(d, k)
    decreases d, 1
  {
    match d {
      case DArr(items) => ParseWriteArray(items, k);
      case DObj(members) => ParseWriteObject(members, k);
      case _ => Leaf(d, k);
    }
  }

  lemma {:induction false} ParseWriteArray(items: seq<Doc>, k: Text)
    requires WellFormedItems(items)
    ensures ParseValue(Write(DArr(items), k)) == Got(DArr(items), k)
    decreases items, 1
  {
    if items != [] {
      ParseWriteItems(items, k);
      ArrayOf(WriteItems(items, Cons(RBracket, k)), items, k);
    }
  }

  lemma {:induction false} ParseWriteObject(members: seq<Member>, k: Text)
    requires Distinct(members) && WellFormedMembers(members)
    ensures ParseValue(Write(DObj(members), k)) == Got(DObj(members), k)
    decreases members, 1
  {
    if members != [] {
      ParseWriteMembers(members, k);
      ObjectOf(WriteMembers(members, Cons(RBrace, k)), members, k);
    }
  }

  lemma {:induction false} ParseWriteItems(items: seq<Doc>, k: Text)
    requires items != [] && WellFormedItems(items)
    ensures ParseItems(WriteItems(items, Cons(RBracket, k))) == Got(items, k)
    ensures WriteItems(items, Cons(RBracket, k)).Cons?
    ensures var h := WriteItems(items, Cons(RBracket, k)).head; !h.TChar? && h != RBracket
    decreases items, 0
  {
    var d := items[0];
    HeadTail(items);
    if |items| == 1 {
      ParseWrite(d, Cons(RBracket, k));
      ItemsEnd(Write(d, Cons(RBracket, k)), d, k);
      WriteHead(d, Cons(RBracket, k));
    } else {
      var more := WriteItems(items[1..], Cons(RBracket, k));
      ParseWriteItems(items[1..], k);
      ParseWrite(d, Cons(Comma, more));
      ItemsMore(Write(d, Cons(Comma, more)), d, more, items[1..], k);
      WriteHead(d, Cons(Comma, more));
    }
  }

  lemma {:induction false} ParseWriteMembers(members: seq<Member>, k: Text)
    requires members != [] && WellFormedMembers(members)
    ensures ParseMembers(WriteMembers(members, Cons(RBrace, k))) == Got(members, k)
    ensures WriteMembers(members, Cons(RBrace, k)).Cons?
    ensures WriteMembers(members, Cons(RBrace, k)).head.TStr?
    decreases members, 0
  {
    var m := members[0];
    HeadTail(members);
    if |members| == 1 {
      ParseWrite(m.value, Cons(RBrace, k));
      MembersEnd(m.key, Write(m.value, Cons(RBrace, k)), m.value, k);
    } else {
      var more := WriteMembers(members[1..], Cons(RBrace, k));
      ParseWriteMembers(members[1..], k);
      ParseWrite(m.value, Cons(Comma, more));
      MembersMore(m.key, Write(m.value, Cons(Comma, more)), m.value, more, members[1..], k);
    }
  }

  /** `json.loads(json.dumps(d)) == d`, insertion order included. */
  lemma LoadsPrint(d: Doc)
    requires WellFormed(d)
    ensures Loads(Print(d)) == Some(d)
  {
    ParseWrite(d, End);
  }

  /** A document is the whole text: one more token after it, other than whitespace, and nothing is loaded. */
  lemma TrailingTokenRefused(d: Doc, x: Token, k: Text)
    requires WellFormed(d) && (x.TChar? ==> x.c !in {' ', '\t', '\n', '\r'})
    ensures Loads(Write(d, Cons(x, k))).None?
  {
    ParseWrite(d, Cons(x, k));
  }

  lemma JsonSpaceExactly(c: char)
    ensures IsJsonSpace(c) <==> c in {' ', '\t', '\n', '\r'}
  {
  }

  // ---------- documents that come out of the parser are well formed ----------

  lemma {:induction false} ParsedWellFormed(t: Text)
    ensures ParseValue(t).Got? ==> WellFormed(ParseValue(t).value)
    decreases Length(t), 0
  {
    var u := SkipSpace(t);
    if u.Cons? {
      if u.head == LBracket { ParsedItemsWellFormed(u.tail); }
      if u.head == LBrace {
        ParsedMembersWellFormed(u.tail);
        if ParseMembers(u.tail).Got? {
          DictOfWellFormed(ParseMembers(u.tail).value);
        }
      }
    }
  }

  lemma {:induction false} ParsedItemsWellFormed(t: Text)
    ensures ParseItems(t).Got? ==> WellFormedItems(ParseItems(t).value)
    decreases Length(t), 1
  {
    ParsedWellFormed(t);
    if ParseValue(t).Got? {
      var u := SkipSpace(ParseValue(t).rest);
      if u.Cons? && u.head == Comma { ParsedItemsWellFormed(u.tail); }
    }
  }

  lemma {:induction false} ParsedMembersWellFormed(t: Text)
    ensures ParseMembers(t).Got? ==> WellFormedMembers(ParseMembers(t).value)
    decreases Length(t), 1
  {
    var u := SkipSpace(t);
    if u.Cons? && u.head.TStr? {
      var v := SkipSpace(u.tail);
      if v.Cons? && v.head == Colon {
        ParsedWellFormed(v.tail);
        if ParseValue(v.tail).Got? {
          var w := SkipSpace(ParseValue(v.tail).rest);
          if w.Cons? && w.head == Comma { ParsedMembersWellFormed(w.tail); }
        }
      }
    }
  }

  lemma {:induction false} DictOfWellFormed(pairs: seq<Member>)
    requires WellFormedMembers(pairs)
    ensures WellFormedMembers(DictOf(pairs))
  {
    if pairs != [] {
      var front, last := pairs[..|pairs| - 1], pairs[|pairs| - 1];
      assert pairs == front + [last];
      SplitWellFormed(front, last);
      DictOfWellFormed(front);
      PutWellFormed(DictOf(front), last);
    }
  }

  lemma {:induction false} SplitWellFormed(front: seq<Member>, last: Member)
    requires WellFormedMembers(front + [last])
    ensures WellFormedMembers(front) && WellFormed(last.value)
  {
    if front != [] {
      assert (front + [last])[1..] == front[1..] + [last];
      SplitWellFormed(front[1..], last);
    }
  }

  lemma {:induction false} PutWellFormed(members: seq<Member>, m: Member)
    requires WellFormedMembers(members) && WellFormed(m.value)
    ensures WellFormedMembers(Put(members, m))
  {
    if members != [] && members[0].key != m.key {
      PutWellFormed(members[1..], m);
    }
  }

  // ---------- documents and values ----------

  function ToValue(d: Doc): Value
    decreases d, 1
  {
    match d
    case DNull => VNull
    case DBool(b) => VBool(b)
    case DNum(n) => VNum(n)
    case DStr(s) => VStr(s)
    case DArr(items) => VArr(ToValues(items))
    case DObj(members) => VObj(ToMap(members))
  }

  function ToValues(items: seq<Doc>): (r: seq<Value>)
    ensures |r| == |items|
    decreases items, 0
  {
    if items == [] then [] else [ToValue(items[0])] + ToValues(items[1..])
  }

  function ToMap(members: seq<Member>): (r: map<string, Value>)
    ensures r.Keys == Keys(members)
    decreases members, 0
  {
    if members == [] then map[]
    else ToMap(members[1..])[members[0].key := ToValue(members[0].value)]
  }

  /** The document that `json.dumps(..., sort_keys=True)` writes out for a value. */
  function FromValue(v: Value): Doc
    decreases v, 1, 0
  {
    match v
    case VNull => DNull
    case VBool(b) => DBool(b)
    case VNum(n) => DNum(n)
    case VStr(s) => DStr(s)
    case VArr(items) => DArr(FromValues(items))
    case VObj(m) => DObj(FromMap(v, Sorted(m.Keys)))
  }

  function FromValues(items: seq<Value>): (r: seq<Doc>)
    ensures |r| == |items|
    decreases items, 0, 0
  {
    if items == [] then [] else [FromValue(items[0])] + FromValues(items[1..])
  }

  function FromMap(v: Value, keys: seq<string>): (r: seq<Member>)
    requires v.VObj? && forall k :: k in keys ==> k in v.m
    ensures Keys(r) == (set k | k in keys)
    decreases v, 0, |keys|
  {
    if keys == [] then [] else [Member(keys[0], FromValue(v.m[keys[0]]))] + FromMap(v, keys[1..])
  }

  /** `json.dumps(v, sort_keys=True, separators=(",", ":"))`. */
  function DumpsSorted(v: Value): Text
  {
    Print(FromValue(v))
  }

  lemma {:induction false} FromValueInverse(v: Value)
    ensures WellFormed(FromValue(v)) && ToValue(FromValue(v)) == v
    decreases v, 1, 0
  {
    match v {
      case VArr(items) => FromValuesInverse(items);
      case VObj(m) =>
        FromMapInverse(v, Sorted(m.Keys));
        AllEntries(m, Sorted(m.Keys));
      case _ =>
    }
  }

  lemma AllEntries(m: map<string, Value>, keys: seq<string>)
    requires forall k :: k in keys <==> k in m
    ensures Restricted(m, keys) == m
  {
  }

  lemma {:induction false} FromValuesInverse(items: seq<Value>)
    ensures ToValues(FromValues(items)) == items
    ensures WellFormedItems(FromValues(items))
    decreases items, 0, 0
  {
    if items != [] {
      FromValueInverse(items[0]);
      FromValuesInverse(items[1..]);
    }
  }

  function Restricted(m: map<string, Value>, keys: seq<string>): map<string, Value>
    requires forall k :: k in keys ==> k in m
  {
    map k | k in keys :: m[k]
  }

  lemma RestrictedStep(m: map<string, Value>, keys: seq<string>)
    requires keys != [] && forall k :: k in keys ==> k in m
    ensures Restricted(m, keys) == Restricted(m, keys[1..])[keys[0] := m[keys[0]]]
  {
  }

  lemma {:induction false} FromMapInverse(v: Value, keys: seq<string>)
    requires v.VObj? && (forall k :: k in keys ==> k in v.m) && Ascending(keys)
    ensures Distinct(FromMap(v, keys))
    ensures WellFormedMembers(FromMap(v, keys))
    ensures ToMap(FromMap(v, keys)) == Restricted(v.m, keys)
    decreases v, 0, |keys|
  {
    if keys != [] {
      var rest := keys[1..];
      FromValueInverse(v.m[keys[0]]);
      FromMapInverse(v, rest);
      var ms := FromMap(v, rest);
      assert FromMap(v, keys) == [Member(keys[0], FromValue(v.m[keys[0]]))] + ms;
      assert keys[0] !in Keys(ms);
      RestrictedStep(v.m, keys);
    }
  }

  /** The sorted printer decides value equality, and what it prints loads back to the value. */
  lemma LoadsDumpsSorted(v: Value)
    ensures Loads(DumpsSorted(v)) == Some(FromValue(v))
    ensures ToValue(FromValue(v)) == v
  {
    FromValueInverse(v);
    LoadsPrint(FromValue(v));
  }

  lemma DumpsSortedInjective(v: Value, w: Value)
    ensures DumpsSorted(v) == DumpsSorted(w) <==> v == w
  {
    LoadsDumpsSorted(v);
    LoadsDumpsSorted(w);
  }
}
