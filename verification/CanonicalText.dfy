/**
 The two schema-text normalisers: the planner's, which decides "no change", and the registry
 adapter's, which rewrites the text on the way to the registry.
 */
module CanonicalText {
  import opened Prelude
  import opened Json

  datatype SchemaType = AVRO | JSON | PROTOBUF

  /** The characters `str.strip` removes. */
  predicate IsPySpace(c: char)
  {
    var n := c as int;
    || (0x09 <= n <= 0x0d) || (0x1c <= n <= 0x20) || n == 0x85 || n == 0xa0 || n == 0x1680
    || (0x2000 <= n <= 0x200a) || n == 0x2028 || n == 0x2029 || n == 0x202f || n == 0x205f || n == 0x3000
  }

  predicate IsSpaceToken(x: Token)
  {
    x.TChar? && IsPySpace(x.c)
  }

  function TrimStart(t: Text): (r: Text)
    ensures r.Cons? ==> !IsSpaceToken(r.head)
  {
    if t.Cons? && IsSpaceToken(t.head) then TrimStart(t.tail) else t
  }

  function TrimEnd(t: Text): Text
  {
    if t.End? then End
    else
      var rest := TrimEnd(t.tail);
      if rest.End? && IsSpaceToken(t.head) then End else Cons(t.head, rest)
  }

  /** `str.strip`. */
  function Strip(t: Text): Text
  {
    TrimEnd(TrimStart(t))
  }

  /** `_normalize_schema_text`: sorted compact JSON when the text is JSON, the stripped text otherwise. */
  function Normalize(text: Option<Text>, schemaType: SchemaType): Option<Text>
  {
    match text
    case None => None
    case Some(t) =>
      var stripped := Strip(t);
      if schemaType == AVRO || schemaType == JSON then
        match Loads(stripped)
        case Some(d) => Some(DumpsSorted(ToValue(d)))
        case None => Some(stripped)
      else Some(stripped)
  }

  // ---------- stripping ----------

  lemma {:induction false} TrimEndIdempotent(t: Text)
    ensures TrimEnd(TrimEnd(t)) == TrimEnd(t)
  {
    if t.Cons? { TrimEndIdempotent(t.tail); }
  }

  lemma StripIdempotent(t: Text)
    ensures Strip(Strip(t)) == Strip(t)
  {
    var u := TrimStart(t);
    TrimEndIdempotent(u);
    assert TrimStart(TrimEnd(u)) == TrimEnd(u);
  }

  /** The code points `str.isspace` accepts. */
  const PY_SPACES: set<int> :=
    {0x09, 0x0a, 0x0b, 0x0c, 0x0d, 0x1c, 0x1d, 0x1e, 0x1f, 0x20, 0x85, 0xa0, 0x1680,
     0x2000, 0x2001, 0x2002, 0x2003, 0x2004, 0x2005, 0x2006, 0x2007, 0x2008, 0x2009, 0x200a,
     0x2028, 0x2029, 0x202f, 0x205f, 0x3000}

  lemma SpaceTokenExactly(x: Token)
    ensures IsSpaceToken(x) <==> x.TChar? && x.c as int in PY_SPACES
  {
  }

  function TokensOf(t: Text): seq<Token>
  {
    if t.End? then [] else [t.head] + TokensOf(t.tail)
  }

  lemma {:induction false} TokensInjective(a: Text, b: Text)
    requires TokensOf(a) == TokensOf(b)
    ensures a == b
  {
    if a.Cons? && b.Cons? {
      assert TokensOf(a)[1..] == TokensOf(a.tail) && TokensOf(b)[1..] == TokensOf(b.tail);
      assert TokensOf(a)[0] == a.head && TokensOf(b)[0] == b.head;
      TokensInjective(a.tail, b.tail);
    }
  }

  lemma {:induction false} TrimStartSplits(t: Text) returns (pre: seq<Token>)
    ensures TokensOf(t) == pre + TokensOf(TrimStart(t)) && forall x :: x in pre ==> IsSpaceToken(x)
  {
    if t.Cons? && IsSpaceToken(t.head) {
      var rest := TrimStartSplits(t.tail);
      pre := [t.head] + rest;
    } else {
      pre := [];
    }
  }

  lemma {:induction false} TrimEndSplits(t: Text) returns (post: seq<Token>)
    ensures TokensOf(t) == TokensOf(TrimEnd(t)) + post && forall x :: x in post ==> IsSpaceToken(x)
    ensures var kept := TokensOf(TrimEnd(t)); kept != [] ==> !IsSpaceToken(kept[|kept| - 1]) && t.Cons? && kept[0] == t.head
  {
    if t.End? {
      post := [];
    } else {
      var rest := TrimEndSplits(t.tail);
      post := if TrimEnd(t).End? then [t.head] + rest else rest;
    }
  }

  /** `Strip` takes off the whitespace at both ends, all of it and nothing else. */
  lemma StripExactly(t: Text, x: Text)
    ensures x == Strip(t) <==> IsTrimmed(TokensOf(t), TokensOf(x), IsSpaceToken)
  {
    var pre := TrimStartSplits(t);
    var post := TrimEndSplits(TrimStart(t));
    var kept := TokensOf(Strip(t));
    assert TokensOf(t) == pre + kept + post;
    TrimmedAround(pre, kept, post, IsSpaceToken);
    if IsTrimmed(TokensOf(t), TokensOf(x), IsSpaceToken) {
      TrimmedUnique(TokensOf(t), kept, TokensOf(x), IsSpaceToken);
      TokensInjective(Strip(t), x);
    }
  }

  /** Texts that differ in the whitespace around them only normalise alike, whatever their type. */
  lemma SurroundingSpaceIgnored(a: Text, b: Text, x: Text, schemaType: SchemaType)
    requires IsTrimmed(TokensOf(a), TokensOf(x), IsSpaceToken) && IsTrimmed(TokensOf(b), TokensOf(x), IsSpaceToken)
    ensures Normalize(Some(a), schemaType) == Normalize(Some(b), schemaType)
  {
    StripExactly(a, x);
    StripExactly(b, x);
  }

  /** Printed JSON holds no whitespace outside its literals. */
  lemma {:induction false} TrimEndWrite(d: Doc, k: Text)
    ensures TrimEnd(Write(d, k)) == Write(d, TrimEnd(k))
    decreases d, 1
  {
    match d {
      case DArr(items) => TrimEndWriteItems(items, Cons(RBracket, k));
      case DObj(members) => TrimEndWriteMembers(members, Cons(RBrace, k));
      case _ =>
    }
  }

  lemma {:induction false} TrimEndWriteItems(items: seq<Doc>, k: Text)
    ensures TrimEnd(WriteItems(items, k)) == WriteItems(items, TrimEnd(k))
    decreases items, 0
  {
    if |items| == 1 {
      TrimEndWrite(items[0], k);
    } else if items != [] {
      TrimEndWrite(items[0], Cons(Comma, WriteItems(items[1..], k)));
      TrimEndWriteItems(items[1..], k);
    }
  }

  lemma {:induction false} TrimEndWriteMembers(members: seq<Member>, k: Text)
    ensures TrimEnd(WriteMembers(members, k)) == WriteMembers(members, TrimEnd(k))
    decreases members, 0
  {
    if |members| == 1 {
      TrimEndWrite(members[0].value, k);
    } else if members != [] {
      TrimEndWrite(members[0].value, Cons(Comma, WriteMembers(members[1..], k)));
      TrimEndWriteMembers(members[1..], k);
    }
  }

  lemma StripPrint(d: Doc)
    ensures Strip(Print(d)) == Print(d)
  {
    TrimEndWrite(d, End);
    WriteHead(d, End);
  }

  // ---------- the planner's normaliser decides JSON equality ----------

  /** Both texts load to the same JSON value, or neither is JSON and the stripped texts are equal. */
  predicate SameSchemaText(a: Text, b: Text, schemaType: SchemaType)
  {
    if schemaType == PROTOBUF then Strip(a) == Strip(b)
    else
      match (Loads(Strip(a)), Loads(Strip(b)))
      case (Some(x), Some(y)) => ToValue(x) == ToValue(y)
      case (None, None) => Strip(a) == Strip(b)
      case _ => false
  }

  /** What the normaliser returns: a text that is its own strip, and JSON exactly when the input was. */
  lemma NormalForm(t: Text, schemaType: SchemaType)
    requires schemaType != PROTOBUF
    ensures var n := Normalize(Some(t), schemaType).value;
            && Strip(n) == n
            && (match Loads(Strip(t))
                case Some(d) => Loads(n).Some? && ToValue(Loads(n).value) == ToValue(d)
                case None => Loads(n).None? && n == Strip(t))
  {
    match Loads(Strip(t)) {
      case Some(d) =>
        LoadsDumpsSorted(ToValue(d));
        StripPrint(FromValue(ToValue(d)));
      case None => StripIdempotent(t);
    }
  }

  /** Two normalised texts are equal exactly when the texts say the same. */
  lemma NormalizeDecides(a: Text, b: Text, schemaType: SchemaType)
    ensures Normalize(Some(a), schemaType) == Normalize(Some(b), schemaType) <==> SameSchemaText(a, b, schemaType)
  {
    if schemaType != PROTOBUF {
      NormalForm(a, schemaType);
      NormalForm(b, schemaType);
    }
  }

  lemma NormalizeIdempotent(text: Option<Text>, schemaType: SchemaType)
    ensures Normalize(Normalize(text, schemaType), schemaType) == Normalize(text, schemaType)
  {
    if text.Some? {
      if schemaType == PROTOBUF {
        StripIdempotent(text.value);
      } else {
        NormalForm(text.value, schemaType);
        NormalizeDecides(Normalize(text, schemaType).value, text.value, schemaType);
      }
    }
  }

  // ---------- JSON whitespace never matters ----------

  /** The text with every JSON whitespace character outside literals removed. */
  function Squeeze(t: Text): Text
  {
    if t.End? then End
    else if t.head.TChar? && IsJsonSpace(t.head.c) then Squeeze(t.tail)
    else Cons(t.head, Squeeze(t.tail))
  }

  lemma {:induction false} SqueezeSkip(t: Text)
    ensures var u := SkipSpace(t);
            if u.End? then Squeeze(t).End?
            else Squeeze(t) == Cons(u.head, Squeeze(u.tail)) && SkipSpace(Squeeze(t)) == Squeeze(t)
  {
    if t.Cons? && t.head.TChar? && IsJsonSpace(t.head.c) { SqueezeSkip(t.tail); }
  }

  function SqueezeRest<T>(p: Parsed<T>): Parsed<T>
  {
    match p case Fail => Fail case Got(v, rest) => Got(v, Squeeze(rest))
  }

  lemma {:induction false} ParseSqueezed(t: Text)
    ensures ParseValue(Squeeze(t)) == SqueezeRest(ParseValue(t))
    decreases Length(t), 0
  {
    var u := SkipSpace(t);
    SqueezeSkip(t);
    if u.Cons? {
      SqueezeSkip(u.tail);
      if u.head == LBracket { ParseSqueezedItems(u.tail); }
      if u.head == LBrace { ParseSqueezedMembers(u.tail); }
    }
  }

  lemma {:induction false} ParseSqueezedItems(t: Text)
    ensures ParseItems(Squeeze(t)) == SqueezeRest(ParseItems(t))
    decreases Length(t), 1
  {
    ParseSqueezed(t);
    if ParseValue(t).Got? {
      var u := SkipSpace(ParseValue(t).rest);
      SqueezeSkip(ParseValue(t).rest);
      if u.Cons? && u.head == Comma { ParseSqueezedItems(u.tail); }
    }
  }

  lemma {:induction false} ParseSqueezedMembers(t: Text)
    ensures ParseMembers(Squeeze(t)) == SqueezeRest(ParseMembers(t))
    decreases Length(t), 1
  {
    var u := SkipSpace(t);
    SqueezeSkip(t);
    if u.Cons? && u.head.TStr? {
      var v := SkipSpace(u.tail);
      SqueezeSkip(u.tail);
      if v.Cons? && v.head == Colon {
        ParseSqueezed(v.tail);
        if ParseValue(v.tail).Got? {
          var w := SkipSpace(ParseValue(v.tail).rest);
          SqueezeSkip(ParseValue(v.tail).rest);
          if w.Cons? && w.head == Comma { ParseSqueezedMembers(w.tail); }
        }
      }
    }
  }

  /** Adding or removing JSON whitespace changes neither whether a text loads nor what it loads to. */
  lemma LoadsIgnoresSpace(t: Text)
    ensures Loads(Squeeze(t)) == Loads(t)
  {
    ParseSqueezed(t);
    if ParseValue(t).Got? { SqueezeSkip(ParseValue(t).rest); }
  }

  // ---------- a text that loads needs no stripping ----------

  /** Every character outside literals is JSON whitespace. */
  predicate OnlyJsonSpace(t: Text)
  {
    t.Cons? ==> (t.head.TChar? ==> IsJsonSpace(t.head.c)) && OnlyJsonSpace(t.tail)
  }

  lemma {:induction false} OnlyJsonSpaceSkip(t: Text)
    ensures OnlyJsonSpace(SkipSpace(t)) ==> OnlyJsonSpace(t)
  {
    if t.Cons? && t.head.TChar? && IsJsonSpace(t.head.c) { OnlyJsonSpaceSkip(t.tail); }
  }

  lemma {:induction false} ParsedSpace(t: Text)
    ensures ParseValue(t).Got? && OnlyJsonSpace(ParseValue(t).rest) ==> OnlyJsonSpace(t)
    decreases Length(t), 0
  {
    var u := SkipSpace(t);
    OnlyJsonSpaceSkip(t);
    if u.Cons? {
      OnlyJsonSpaceSkip(u.tail);
      if u.head == LBracket { ParsedItemsSpace(u.tail); }
      if u.head == LBrace { ParsedMembersSpace(u.tail); }
    }
  }

  lemma {:induction false} ParsedItemsSpace(t: Text)
    ensures ParseItems(t).Got? && OnlyJsonSpace(ParseItems(t).rest) ==> OnlyJsonSpace(t)
    decreases Length(t), 1
  {
    ParsedSpace(t);
    if ParseValue(t).Got? {
      var u := SkipSpace(ParseValue(t).rest);
      OnlyJsonSpaceSkip(ParseValue(t).rest);
      if u.Cons? && u.head == Comma { ParsedItemsSpace(u.tail); }
    }
  }

  lemma {:induction false} ParsedMembersSpace(t: Text)
    ensures ParseMembers(t).Got? && OnlyJsonSpace(ParseMembers(t).rest) ==> OnlyJsonSpace(t)
    decreases Length(t), 1
  {
    var u := SkipSpace(t);
    OnlyJsonSpaceSkip(t);
    if u.Cons? && u.head.TStr? {
      var v := SkipSpace(u.tail);
      OnlyJsonSpaceSkip(u.tail);
      if v.Cons? && v.head == Colon {
        ParsedSpace(v.tail);
        if ParseValue(v.tail).Got? {
          var w := SkipSpace(ParseValue(v.tail).rest);
          OnlyJsonSpaceSkip(ParseValue(v.tail).rest);
          if w.Cons? && w.head == Comma { ParsedMembersSpace(w.tail); }
        }
      }
    }
  }

  lemma {:induction false} SqueezeTrimStart(t: Text)
    requires OnlyJsonSpace(t)
    ensures Squeeze(TrimStart(t)) == Squeeze(t) && OnlyJsonSpace(TrimStart(t))
  {
    if t.Cons? && IsSpaceToken(t.head) { SqueezeTrimStart(t.tail); }
  }

  lemma {:induction false} SqueezeTrimEnd(t: Text)
    requires OnlyJsonSpace(t)
    ensures Squeeze(TrimEnd(t)) == Squeeze(t)
  {
    if t.Cons? { SqueezeTrimEnd(t.tail); }
  }

  lemma LoadsStrip(t: Text)
    requires Loads(t).Some?
    ensures Loads(Strip(t)) == Loads(t)
  {
    OnlyJsonSpaceSkip(ParseValue(t).rest);
    ParsedSpace(t);
    SqueezeTrimStart(t);
    SqueezeTrimEnd(TrimStart(t));
    LoadsIgnoresSpace(t);
    LoadsIgnoresSpace(Strip(t));
  }

  // ---------- the adapter's normaliser ----------

  const BOM := TChar('\U{feff}')

  predicate StartsWithBom(t: Text)
  {
    t.Cons? && t.head == BOM
  }

  function DropBom(t: Text): Text
  {
    if StartsWithBom(t) then t.tail else t
  }

  /** `replace("\r\n", "\n").replace("\r", "\n")`. */
  function Newlines(t: Text): Text
  {
    if t.End? then End
    else if t.head == TChar('\r') then
      if t.tail.Cons? && t.tail.head == TChar('\n') then Cons(TChar('\n'), Newlines(t.tail.tail))
      else Cons(TChar('\n'), Newlines(t.tail))
    else Cons(t.head, Newlines(t.tail))
  }

  /**
   `_normalize_schema_string` for a text that is JSON: compact JSON, keys in the author's order.
   None stands for the other branch, where the raw text goes out with its non-ASCII characters escaped.
   */
  function RegistryText(t: Text): Option<Text>
  {
    match Loads(Strip(Newlines(DropBom(t))))
    case Some(d) => Some(Print(d))
    case None => None
  }

  /** Only a byte order mark at the front is dropped. */
  lemma DropBomExactly(t: Text, u: Text)
    ensures DropBom(t) == u <==> if t.Cons? && t.head == BOM then t == Cons(BOM, u) else t == u
  {
  }

  function Prepend(pre: seq<Token>, t: Text): Text
  {
    if pre == [] then t else Cons(pre[0], Prepend(pre[1..], t))
  }

  lemma {:induction false} PrependTokens(pre: seq<Token>, t: Text)
    ensures TokensOf(Prepend(pre, t)) == pre + TokensOf(t)
  {
    if pre != [] { PrependTokens(pre[1..], t); }
  }

  /** Wherever they stand, a CR LF and a lone CR become an LF; nothing else changes. */
  lemma {:induction false} NewlinesAt(pre: seq<Token>, t: Text)
    requires TChar('\r') !in pre
    ensures Newlines(Prepend(pre, End)) == Prepend(pre, End)
    ensures Newlines(Prepend(pre, Cons(TChar('\r'), Cons(TChar('\n'), t)))) == Prepend(pre, Cons(TChar('\n'), Newlines(t)))
    ensures t.End? || t.head != TChar('\n') ==>
              Newlines(Prepend(pre, Cons(TChar('\r'), t))) == Prepend(pre, Cons(TChar('\n'), Newlines(t)))
  {
    if pre != [] {
      assert forall x :: x in pre[1..] ==> x in pre;
      NewlinesAt(pre[1..], t);
    }
  }

  lemma {:induction false} TrimStartNewlines(t: Text)
    ensures TrimStart(Newlines(t)) == Newlines(TrimStart(t))
    decreases t
  {
    if t.Cons? && IsSpaceToken(t.head) {
      if t.head == TChar('\r') && t.tail.Cons? && t.tail.head == TChar('\n') {
        TrimStartNewlines(t.tail.tail);
      } else {
        TrimStartNewlines(t.tail);
      }
    }
  }

  lemma {:induction false} TrimEndNewlines(t: Text)
    ensures TrimEnd(Newlines(t)) == Newlines(TrimEnd(t))
    decreases t
  {
    if t.Cons? {
      if t.head == TChar('\r') && t.tail.Cons? && t.tail.head == TChar('\n') {
        TrimEndNewlines(t.tail.tail);
      } else {
        TrimEndNewlines(t.tail);
      }
    }
  }

  lemma {:induction false} SqueezeNewlines(t: Text)
    ensures Squeeze(Newlines(t)) == Squeeze(t)
    decreases t
  {
    if t.Cons? {
      if t.head == TChar('\r') && t.tail.Cons? && t.tail.head == TChar('\n') {
        SqueezeNewlines(t.tail.tail);
      } else {
        SqueezeNewlines(t.tail);
      }
    }
  }

  /** Rewriting line ends never changes what a text loads to. */
  lemma LoadsNewlines(t: Text)
    ensures Loads(Strip(Newlines(t))) == Loads(Strip(t))
  {
    TrimStartNewlines(t);
    TrimEndNewlines(TrimStart(t));
    LoadsIgnoresSpace(Newlines(Strip(t)));
    SqueezeNewlines(Strip(t));
    LoadsIgnoresSpace(Strip(t));
  }

  /**
   The adapter and the planner agree on what a schema text means, except for a leading byte order
   mark: the adapter drops it, and for the planner it makes the text something other than JSON.
   */
  lemma RegistryTextMeaning(t: Text)
    ensures RegistryText(t).Some? <==> Loads(Strip(DropBom(t))).Some?
    ensures RegistryText(t).Some? ==> Loads(RegistryText(t).value) == Loads(Strip(DropBom(t)))
    ensures StartsWithBom(t) ==> Loads(Strip(t)).None?
  {
    LoadsNewlines(DropBom(t));
    var loaded := Loads(Strip(DropBom(t)));
    if loaded.Some? {
      ParsedWellFormed(Strip(DropBom(t)));
      LoadsPrint(loaded.value);
    }
  }

  // ---------- the canonical text behind every hash ----------

  /** What `_canonicalize_and_hash` feeds to SHA-256, in the catalog and in the adapter alike. */
  function CanonicalForHash(t: Text): Text
  {
    match Loads(t)
    case Some(d) => DumpsSorted(ToValue(d))
    case None => t
  }

  /** The hashed text tells two schema texts apart exactly when they do not load to the same value. */
  lemma CanonicalForHashDecides(a: Text, b: Text)
    ensures CanonicalForHash(a) == CanonicalForHash(b)
      <==> (match (Loads(a), Loads(b))
            case (Some(x), Some(y)) => ToValue(x) == ToValue(y)
            case (None, None) => a == b
            case _ => false)
  {
    if Loads(a).Some? { LoadsDumpsSorted(ToValue(Loads(a).value)); }
    if Loads(b).Some? { LoadsDumpsSorted(ToValue(Loads(b).value)); }
  }
}
