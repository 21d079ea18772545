/**
 The metadata rows of subjects. Tags and compatibility mode share one JSON column; the module shows
 that this payload behaves like a plain record.
 */
module MetadataStore {
  import opened Prelude
  import Json
  import CanonicalText
  import opened Models

  // ---------- text normalisers ----------

  function StripFront(s: string): (r: string)
    ensures r != [] ==> !CanonicalText.IsPySpace(r[0])
    ensures |r| <= |s|
  {
    if s != [] && CanonicalText.IsPySpace(s[0]) then StripFront(s[1..]) else s
  }

  function StripBack(s: string): (r: string)
    ensures r != [] ==> !CanonicalText.IsPySpace(r[|r| - 1])
    ensures |r| <= |s| && r == s[..|r|]
  {
    if s != [] && CanonicalText.IsPySpace(s[|s| - 1]) then StripBack(s[..|s| - 1]) else s
  }

  /** `str.strip`. */
  function Strip(s: string): string
  {
    StripBack(StripFront(s))
  }

  lemma {:induction false} StripFrontSplits(s: string) returns (pre: string)
    ensures s == pre + StripFront(s) && forall c :: c in pre ==> CanonicalText.IsPySpace(c)
  {
    if s != [] && CanonicalText.IsPySpace(s[0]) {
      var rest := StripFrontSplits(s[1..]);
      pre := [s[0]] + rest;
    } else {
      pre := [];
    }
  }

  lemma {:induction false} StripBackSplits(s: string) returns (post: string)
    ensures s == StripBack(s) + post && forall c :: c in post ==> CanonicalText.IsPySpace(c)
  {
    if s != [] && CanonicalText.IsPySpace(s[|s| - 1]) {
      var rest := StripBackSplits(s[..|s| - 1]);
      post := rest + [s[|s| - 1]];
    } else {
      post := [];
    }
  }

  /** `strip` takes off the whitespace at both ends, all of it and nothing else. */
  lemma StripExactly(s: string, x: string)
    ensures x == Strip(s) <==> IsTrimmed(s, x, CanonicalText.IsPySpace)
  {
    var pre := StripFrontSplits(s);
    var post := StripBackSplits(StripFront(s));
    assert s == pre + Strip(s) + post;
    TrimmedAround(pre, Strip(s), post, CanonicalText.IsPySpace);
    if IsTrimmed(s, x, CanonicalText.IsPySpace) {
      TrimmedUnique(s, x, Strip(s), CanonicalText.IsPySpace);
    }
  }

  lemma StripIdempotent(s: string)
    ensures Strip(Strip(s)) == Strip(s)
  {
  }

  /** `part in s`. */
  predicate Contains(s: string, part: string)
  {
    part <= s || (s != [] && Contains(s[1..], part))
  }

  predicate IsPlaceholder(s: string)
  {
    Contains(Lower(s), "placeholder")
  }

  /** `_normalize_owner`. */
  function NormalOwner(owner: Option<string>): Option<string>
  {
    match owner
    case None => None
    case Some(o) => if Strip(o) == [] || IsPlaceholder(Strip(o)) then None else Some(Strip(o))
  }

  /** The part occurs somewhere in `s`. */
  ghost predicate Occurs(s: string, part: string)
  {
    exists pre, post :: s == pre + part + post
  }

  lemma {:induction false} ContainedOccurs(s: string, part: string)
    requires Contains(s, part)
    ensures Occurs(s, part)
  {
    if part <= s {
      assert s == [] + part + s[|part|..];
    } else {
      ContainedOccurs(s[1..], part);
      var pre, post :| s[1..] == pre + part + post;
      assert s == ([s[0]] + pre) + part + post;
    }
  }

  lemma {:induction false} OccurringContained(pre: string, part: string, post: string)
    ensures Contains(pre + part + post, part)
  {
    var s := pre + part + post;
    if pre == [] {
      assert s == part + post;
      assert s[..|part|] == part;
    } else {
      assert s[1..] == pre[1..] + part + post;
      OccurringContained(pre[1..], part, post);
    }
  }

  lemma ContainsExactly(s: string, part: string)
    ensures Contains(s, part) <==> Occurs(s, part)
  {
    if Contains(s, part) { ContainedOccurs(s, part); }
    if pre, post :| s == pre + part + post {
      OccurringContained(pre, part, post);
    }
  }

  /** What is stored for a given owner: its text without surrounding whitespace, unless that is empty or a placeholder. */
  ghost predicate IsOwner(given: string, x: string)
  {
    IsTrimmed(given, x, CanonicalText.IsPySpace) && x != [] && !Occurs(Lower(x), "placeholder")
  }

  lemma NormalOwnerExactly(owner: Option<string>, x: string)
    ensures NormalOwner(owner) == Some(x) <==> owner.Some? && IsOwner(owner.value, x)
  {
    if owner.Some? {
      StripExactly(owner.value, x);
      ContainsExactly(Lower(x), "placeholder");
    }
  }

  lemma NormalOwnerIdempotent(owner: Option<string>)
    ensures NormalOwner(NormalOwner(owner)) == NormalOwner(owner)
  {
  }

  /** `_normalize_compatibility_mode_str`, giving the mode itself. */
  function NormalMode(mode: Option<string>): Option<CompatibilityMode>
  {
    match mode
    case None => None
    case Some(m) => if Strip(m) == [] || IsPlaceholder(Strip(m)) then None else ModeOf(Strip(m))
  }

  predicate Plain(c: char)
  {
    c == '_' || ('A' <= c <= 'Z' && c != 'P')
  }

  lemma {:induction false} NoPlaceholder(s: string)
    requires forall i :: 0 <= i < |s| ==> Plain(s[i])
    ensures !Contains(Lower(s), "placeholder")
  {
    if s != [] {
      NoPlaceholder(s[1..]);
      assert Plain(s[0]);
      assert Lower(s)[0] != "placeholder"[0];
      assert Lower(s)[1..] == Lower(s[1..]);
    }
  }

  lemma PlainIsStripped(s: string)
    requires forall i :: 0 <= i < |s| ==> Plain(s[i])
    ensures Strip(s) == s
  {
  }

  lemma ModeValueIsPlain(mode: CompatibilityMode)
    ensures ModeValue(mode) != [] && forall i :: 0 <= i < |ModeValue(mode)| ==> Plain(ModeValue(mode)[i])
  {
  }

  /** A mode's own text normalises to the mode. */
  lemma NormalModeOfValue(mode: CompatibilityMode)
    ensures NormalMode(Some(ModeValue(mode))) == Some(mode)
  {
    ModeValueIsPlain(mode);
    PlainIsStripped(ModeValue(mode));
    NoPlaceholder(ModeValue(mode));
    assert ModeOf(ModeValue(mode)) == Some(mode);
  }

  /** A text names a mode exactly when the mode's value is left without surrounding whitespace. */
  lemma NormalModeExactly(m: string, mode: CompatibilityMode)
    ensures NormalMode(Some(m)) == Some(mode) <==> IsTrimmed(m, ModeValue(mode), CanonicalText.IsPySpace)
  {
    StripExactly(m, ModeValue(mode));
    ModeValueIsPlain(mode);
    NoPlaceholder(ModeValue(mode));
  }

  // ---------- the payload ----------

  type Payload = map<string, Json.Value>

  const ITEMS := "items"
  const MODE := "compatibility_mode"

  predicate Truthy(v: Json.Value)
  {
    match v
    case VNull => false
    case VBool(b) => b
    case VNum(n) => n != "0" && n != "0.0" && n != "-0.0"
    case VStr(s) => s != []
    case VArr(items) => items != []
    case VObj(m) => m != map[]
  }

  const FALSE_VALUES: set<Json.Value> :=
    {Json.VNull, Json.VBool(false), Json.VStr(""), Json.VArr([]), Json.VObj(map[]),
     Json.VNum("0"), Json.VNum("0.0"), Json.VNum("-0.0")}

  /** Null, false, empty texts, lists and objects, and zeros are falsy. */
  lemma TruthyExactly(v: Json.Value)
    ensures !Truthy(v) <==> v in FALSE_VALUES
  {
  }

  function TextOf(v: Json.Value): Option<string>
  {
    if v.VStr? then Some(v.s) else None
  }

  /** Both payloads say the same at the key. */
  ghost predicate SameAt(p: Payload, q: Payload, key: string)
  {
    (key in p <==> key in q) && (key in p ==> p[key] == q[key])
  }

  predicate Present(p: Payload, key: string)
  {
    key in p && Truthy(p[key])
  }

  function StoredMode(p: Payload): Option<CompatibilityMode>
  {
    if MODE in p then NormalMode(TextOf(p[MODE])) else None
  }

  /** `[item.strip() for item in items if isinstance(item, str) and item.strip()]`. */
  function CleanTags(items: seq<Json.Value>): (r: seq<string>)
  {
    if items == [] then []
    else
      var first := if items[0].VStr? && Strip(items[0].s) != [] then [Strip(items[0].s)] else [];
      first + CleanTags(items[1..])
  }

  ghost predicate IsTag(item: Json.Value, tag: string)
  {
    item.VStr? && IsTrimmed(item.s, tag, CanonicalText.IsPySpace) && tag != []
  }

  ghost predicate IsBlank(item: Json.Value)
  {
    !item.VStr? || IsTrimmed(item.s, [], CanonicalText.IsPySpace)
  }

  /** The tags are the texts among the items without surrounding whitespace, blank ones left out, in order. */
  ghost predicate AreTags(items: seq<Json.Value>, tags: seq<string>)
  {
    if items == [] then tags == []
    else if IsBlank(items[0]) then AreTags(items[1..], tags)
    else tags != [] && IsTag(items[0], tags[0]) && AreTags(items[1..], tags[1..])
  }

  lemma ItemMeaning(item: Json.Value)
    ensures IsBlank(item) <==> !item.VStr? || Strip(item.s) == []
    ensures item.VStr? && Strip(item.s) != [] ==> IsTag(item, Strip(item.s))
  {
    if item.VStr? {
      StripExactly(item.s, Strip(item.s));
      StripExactly(item.s, []);
    }
  }

  lemma {:induction false} CleanTagsMeaning(items: seq<Json.Value>)
    ensures AreTags(items, CleanTags(items))
  {
    if items != [] {
      var rest := CleanTags(items[1..]);
      CleanTagsMeaning(items[1..]);
      ItemMeaning(items[0]);
      if IsBlank(items[0]) {
        assert CleanTags(items) == rest;
      } else {
        assert CleanTags(items) == [Strip(items[0].s)] + rest;
        assert CleanTags(items)[1..] == rest;
      }
    }
  }

  function Texts(tags: seq<string>): (r: seq<Json.Value>)
    ensures |r| == |tags|
  {
    if tags == [] then [] else [Json.VStr(tags[0])] + Texts(tags[1..])
  }

  /** `_extract_tags`. */
  function ExtractTags(payload: Option<Payload>): seq<string>
  {
    match payload
    case None => []
    case Some(p) => if ITEMS in p && p[ITEMS].VArr? then CleanTags(p[ITEMS].items) else []
  }

  /** `_extract_compatibility_mode`. */
  function ExtractMode(payload: Option<Payload>): Option<CompatibilityMode>
  {
    match payload
    case None => None
    case Some(p) => StoredMode(p)
  }

  function WithoutBlanks(tags: seq<string>): (r: seq<string>)
    ensures forall t :: t in r ==> t != []
  {
    if tags == [] then [] else (if tags[0] != [] then [tags[0]] else []) + WithoutBlanks(tags[1..])
  }

  function StripAll(tags: seq<string>): seq<string>
  {
    if tags == [] then [] else (if Strip(tags[0]) != [] then [Strip(tags[0])] else []) + StripAll(tags[1..])
  }

  lemma {:induction false} CleanTexts(tags: seq<string>)
    ensures CleanTags(Texts(tags)) == StripAll(tags)
  {
    if tags != [] { CleanTexts(tags[1..]); }
  }

  lemma {:induction false} StripAllSkipsBlanks(tags: seq<string>)
    ensures StripAll(WithoutBlanks(tags)) == StripAll(tags)
  {
    if tags != [] {
      StripAllSkipsBlanks(tags[1..]);
      if tags[0] != [] {
        assert WithoutBlanks(tags) == [tags[0]] + WithoutBlanks(tags[1..]);
      } else {
        assert WithoutBlanks(tags) == WithoutBlanks(tags[1..]) && Strip(tags[0]) == [];
      }
    }
  }

  lemma {:induction false} StripAllOfClean(items: seq<Json.Value>)
    ensures StripAll(CleanTags(items)) == CleanTags(items)
  {
    if items != [] {
      StripAllOfClean(items[1..]);
      if items[0].VStr? && Strip(items[0].s) != [] {
        StripIdempotent(items[0].s);
        assert CleanTags(items) == [Strip(items[0].s)] + CleanTags(items[1..]);
      } else {
        assert CleanTags(items) == CleanTags(items[1..]);
      }
    }
  }

  /** A payload that is not kept has neither tags nor a mode to lose. */
  lemma NothingLost(p: Payload)
    requires !Present(p, ITEMS) && !Present(p, MODE)
    ensures ExtractTags(Some(p)) == [] && ExtractMode(Some(p)) == None
  {
  }

  /** Nothing is left to keep under the items: only empty tags are given, or a false value is there, or none. */
  ghost predicate NoItems(existing: Payload, tags: Option<seq<string>>)
  {
    match tags
    case Some(ts) => forall i :: 0 <= i < |ts| ==> ts[i] == ""
    case None => ITEMS !in existing || existing[ITEMS] in FALSE_VALUES
  }

  /** `_build_tags_payload`: what the new payload says, in terms of what the existing one said, and when there is none. */
  method BuildTagsPayload(existing: Option<Payload>, tags: Option<seq<string>>, mode: Option<string>) returns (r: Option<Payload>)
    ensures ExtractTags(r) == if tags.Some? then StripAll(tags.value) else ExtractTags(existing)
    ensures ExtractMode(r) == if mode.Some? then NormalMode(mode) else ExtractMode(existing)
    ensures r.None? <==>
              && NoItems(if existing.Some? then existing.value else map[], tags)
              && (if mode.Some? then NormalMode(mode) == None else ExtractMode(existing) == None)
    ensures r.Some? && existing.Some? ==> SameButItemsAndMode(r.value, existing.value)
  {
    var payload := if existing.Some? then existing.value else map[];
    payload := FillPayload(payload, tags, mode);
    if !Present(payload, ITEMS) && !Present(payload, MODE) {
      NothingLost(payload);
      return None;
    }
    return Some(payload);
  }

  /** The part of it that fills in the items and the mode. */
  method FillPayload(existing: Payload, tags: Option<seq<string>>, mode: Option<string>) returns (r: Payload)
    ensures ExtractTags(Some(r)) == if tags.Some? then StripAll(tags.value) else ExtractTags(Some(existing))
    ensures StoredMode(r) == if mode.Some? then NormalMode(mode) else StoredMode(existing)
    ensures !Present(r, ITEMS) <==> NoItems(existing, tags)
    ensures Present(r, MODE) <==> StoredMode(r).Some?
    ensures SameButItemsAndMode(r, existing)
  {
    var existingMode := StoredMode(existing);
    var kept := SetMode(existing, existingMode);
    assert SameAt(kept, existing, ITEMS);
    var filled := SetItems(kept, tags);
    ItemsMeaning(existing, tags, filled[ITEMS]);
    forall k | k != ITEMS && k != MODE ensures SameAt(filled, existing, k) {
      assert SameAt(filled, kept, k) && SameAt(kept, existing, k);
    }
    if mode.None? { return filled; }
    r := SetMode(filled, NormalMode(mode));
    assert SameAt(r, filled, ITEMS);
    forall k | k != ITEMS && k != MODE ensures SameAt(r, existing, k) {
      assert SameAt(r, filled, k) && SameAt(filled, existing, k);
    }
  }

  ghost predicate SameButItemsAndMode(p: Payload, q: Payload)
  {
    forall k :: k != ITEMS && k != MODE ==> SameAt(p, q, k)
  }

  lemma ItemsMeaning(existing: Payload, tags: Option<seq<string>>, items: Json.Value)
    requires items == if tags.Some? then Json.VArr(Texts(WithoutBlanks(tags.value)))
                      else if ITEMS in existing then existing[ITEMS] else Json.VArr([])
    ensures !Truthy(items) <==> NoItems(existing, tags)
  {
    TruthyExactly(items);
    if tags.Some? { BlanksOnly(tags.value); }
  }

  lemma {:induction false} BlanksOnly(tags: seq<string>)
    ensures Texts(WithoutBlanks(tags)) == [] <==> forall i :: 0 <= i < |tags| ==> tags[i] == ""
  {
    if tags != [] {
      BlanksOnly(tags[1..]);
      assert forall i :: 0 < i < |tags| ==> tags[1..][i - 1] == tags[i];
    }
  }

  /** Stores the tags without empty ones, or makes sure that the key is there. */
  method SetItems(p: Payload, tags: Option<seq<string>>) returns (r: Payload)
    ensures ExtractTags(Some(r)) == if tags.Some? then StripAll(tags.value) else ExtractTags(Some(p))
    ensures StoredMode(r) == StoredMode(p) && ITEMS in r
    ensures r[ITEMS] == if tags.Some? then Json.VArr(Texts(WithoutBlanks(tags.value))) else if ITEMS in p then p[ITEMS] else Json.VArr([])
    ensures forall k :: k != ITEMS ==> SameAt(r, p, k)
    ensures Present(r, MODE) <==> Present(p, MODE)
  {
    r := p;
    if tags.Some? {
      StripAllSkipsBlanks(tags.value);
      CleanTexts(WithoutBlanks(tags.value));
      r := r[ITEMS := Json.VArr(Texts(WithoutBlanks(tags.value)))];
    } else if ITEMS !in r {
      r := r[ITEMS := Json.VArr([])];
    }
    assert SameAt(r, p, MODE);
  }

  /** Stores a mode, or drops the key. */
  method SetMode(p: Payload, mode: Option<CompatibilityMode>) returns (r: Payload)
    ensures StoredMode(r) == mode && ExtractTags(Some(r)) == ExtractTags(Some(p))
    ensures Present(r, MODE) <==> mode.Some?
    ensures forall k :: k != MODE ==> SameAt(r, p, k)
  {
    match mode {
      case Some(m) =>
        NormalModeOfValue(m);
        r := p[MODE := Json.VStr(ModeValue(m))];
      case None => r := p - {MODE};
    }
    assert SameAt(r, p, ITEMS);
  }

  // ---------- rows ----------

  datatype MetaRow = MetaRow(owner: Option<string>, doc: Option<string>, tags: Option<Payload>)

  /**
   The dictionary handed to `save_schema_metadata`. The outer option of `owner` and `doc` is the
   presence of the key; `mode` is None unless a mode or a string was given, `tags` unless a list was.
   */
  datatype Save = Save(owner: Option<Option<string>>, doc: Option<Option<string>>, tags: Option<seq<Json.Value>>, mode: Option<string>)

  /** What the payload column stands for. */
  datatype Simple = Simple(tags: seq<string>, mode: Option<CompatibilityMode>, owner: Option<string>, doc: Option<string>)

  const BLANK := Simple([], None, None, None)

  function Abstract(row: Option<MetaRow>): Simple
  {
    match row
    case None => BLANK
    case Some(r) => Simple(ExtractTags(r.tags), ExtractMode(r.tags), NormalOwner(r.owner), r.doc)
  }

  /** One save on the simple record: each part changes only when it is given and valid. */
  function SaveSimple(s: Simple, m: Save): Simple
  {
    Simple(
      if m.tags.Some? then CleanTags(m.tags.value) else s.tags,
      if NormalMode(m.mode).Some? then NormalMode(m.mode) else s.mode,
      if m.owner.Some? then NormalOwner(m.owner.value) else s.owner,
      if m.doc.Some? then m.doc.value else s.doc)
  }

  function Row(rows: map<string, MetaRow>, subject: string): Option<MetaRow>
  {
    if subject in rows then Some(rows[subject]) else None
  }

  /** What one save does to the table: the subject's row follows the simple record, no other row changes. */
  ghost predicate Saved(before: map<string, MetaRow>, after: map<string, MetaRow>, subject: string, m: Save)
  {
    && Abstract(Row(after, subject)) == SaveSimple(Abstract(Row(before, subject)), m)
    && forall s :: s != subject ==> Row(after, s) == Row(before, s)
  }

  /** The owner text a save is about: the one given, or else the stored one. */
  ghost function GivenText(m: Save, stored: Option<string>): Option<string>
  {
    if m.owner.Some? then m.owner.value else stored
  }

  /** The owner stored is the text without surrounding whitespace, unless that is empty or a placeholder. */
  ghost predicate OwnerTold(given: Option<string>, stored: Option<string>)
  {
    forall x :: stored == Some(x) <==> given.Some? && IsOwner(given.value, x)
  }

  lemma OwnerMeaning(given: Option<string>)
    ensures OwnerTold(given, NormalOwner(given))
  {
    forall x ensures NormalOwner(given) == Some(x) <==> given.Some? && IsOwner(given.value, x) {
      NormalOwnerExactly(given, x);
    }
  }

  class MetadataRepository {
    var rows: map<string, MetaRow>

    constructor ()
      ensures rows == map[]
    {
      rows := map[];
    }

    /** `save_schema_metadata`: the stored row follows the simple record, and its owner is stored normalised. */
    method SaveSchemaMetadata(subject: string, m: Save)
      modifies this
      ensures Saved(old(rows), rows, subject, m)
      ensures subject in rows && NormalOwner(rows[subject].owner) == rows[subject].owner
      ensures OwnerTold(GivenText(m, if subject in old(rows) then old(rows)[subject].owner else None), rows[subject].owner)
    {
      OwnerMeaning(GivenText(m, if subject in rows then rows[subject].owner else None));
      var mode := NormalMode(m.mode);
      var modeText := if mode.Some? then Some(ModeValue(mode.value)) else None;
      if mode.Some? { NormalModeOfValue(mode.value); }
      var tags := if m.tags.Some? then Some(CleanTags(m.tags.value)) else None;
      if m.tags.Some? { StripAllOfClean(m.tags.value); }
      var owner := NormalOwner(if m.owner.Some? then m.owner.value else None);
      NormalOwnerIdempotent(if m.owner.Some? then m.owner.value else None);
      if subject in rows {
        var existing := rows[subject];
        NormalOwnerIdempotent(existing.owner);
        var payload := BuildTagsPayload(existing.tags, tags, modeText);
        rows := rows[subject := MetaRow(
          if m.owner.Some? then owner else NormalOwner(existing.owner),
          if m.doc.Some? then m.doc.value else existing.doc,
          payload)];
      } else {
        var payload := BuildTagsPayload(None, tags, modeText);
        rows := rows[subject := MetaRow(owner, if m.doc.Some? then m.doc.value else None, payload)];
      }
    }
  }

  // ---------- any sequence of saves ----------

  function AfterSaves(s: Simple, saves: seq<Save>): Simple
  {
    if saves == [] then s else SaveSimple(AfterSaves(s, saves[..|saves| - 1]), saves[|saves| - 1])
  }

  ghost function LastWith(saves: seq<Save>, gives: Save -> bool): (r: Option<Save>)
    ensures r.None? <==> forall i :: 0 <= i < |saves| ==> !gives(saves[i])
    ensures r.Some? ==>
      exists i :: 0 <= i < |saves| && saves[i] == r.value && gives(saves[i]) && forall j :: i < j < |saves| ==> !gives(saves[j])
  {
    if saves == [] then None
    else if gives(saves[|saves| - 1]) then Some(saves[|saves| - 1])
    else LastWith(saves[..|saves| - 1], gives)
  }

  ghost const GIVES_TAGS := (m: Save) => m.tags.Some?
  ghost const GIVES_MODE := (m: Save) => m.mode.Some? && exists mode :: NamesMode(m.mode.value, mode)
  ghost const GIVES_OWNER := (m: Save) => m.owner.Some?
  ghost const GIVES_DOC := (m: Save) => m.doc.Some?

  /** The text is the mode's value, up to surrounding whitespace. */
  ghost predicate NamesMode(given: string, mode: CompatibilityMode)
  {
    IsTrimmed(given, ModeValue(mode), CanonicalText.IsPySpace)
  }

  ghost predicate FollowsTags(saves: seq<Save>, tags: seq<string>)
  {
    match LastWith(saves, GIVES_TAGS)
    case None => tags == []
    case Some(m) => m.tags.Some? && AreTags(m.tags.value, tags)
  }

  ghost predicate FollowsMode(saves: seq<Save>, mode: Option<CompatibilityMode>)
  {
    match LastWith(saves, GIVES_MODE)
    case None => mode == None
    case Some(m) => m.mode.Some? && mode.Some? && NamesMode(m.mode.value, mode.value)
  }

  ghost predicate FollowsOwner(saves: seq<Save>, owner: Option<string>)
  {
    match LastWith(saves, GIVES_OWNER)
    case None => owner == None
    case Some(m) => m.owner.Some? && OwnerTold(m.owner.value, owner)
  }

  /** Each part as the last save that gave it leaves it. */
  ghost predicate FollowsLast(saves: seq<Save>, s: Simple)
  {
    && FollowsTags(saves, s.tags) && FollowsMode(saves, s.mode) && FollowsOwner(saves, s.owner)
    && s.doc == (match LastWith(saves, GIVES_DOC) case None => None case Some(m) => m.doc.value)
  }

  lemma {:induction false} FoldFollowsLast(saves: seq<Save>)
    ensures FollowsLast(saves, AfterSaves(BLANK, saves))
  {
    if saves != [] {
      var n := |saves| - 1;
      FoldFollowsLast(saves[..n]);
      FollowsOneMore(saves, AfterSaves(BLANK, saves[..n]));
    }
  }

  lemma GivesModeExactly(m: Save)
    ensures GIVES_MODE(m) <==> NormalMode(m.mode).Some?
    ensures NormalMode(m.mode).Some? ==> m.mode.Some? && NamesMode(m.mode.value, NormalMode(m.mode).value)
  {
    if m.mode.Some? {
      forall mode ensures NamesMode(m.mode.value, mode) <==> NormalMode(m.mode) == Some(mode) {
        NormalModeExactly(m.mode.value, mode);
      }
      if NormalMode(m.mode).Some? { assert NamesMode(m.mode.value, NormalMode(m.mode).value); }
    }
  }

  lemma GivenTags(m: Save)
    requires m.tags.Some?
    ensures AreTags(m.tags.value, CleanTags(m.tags.value))
  {
    CleanTagsMeaning(m.tags.value);
  }

  lemma FollowsOneMore(saves: seq<Save>, s: Simple)
    requires saves != [] && FollowsLast(saves[..|saves| - 1], s)
    ensures FollowsLast(saves, SaveSimple(s, saves[|saves| - 1]))
  {
    var m := saves[|saves| - 1];
    var s' := SaveSimple(s, m);
    GivesModeExactly(m);
    assert FollowsMode(saves, s'.mode);
    if m.tags.Some? { GivenTags(m); }
    assert FollowsTags(saves, s'.tags);
    if m.owner.Some? { OwnerMeaning(m.owner.value); }
    assert FollowsOwner(saves, s'.owner);
  }

  datatype Call = Call(subject: string, save: Save)

  /** The saves made for one subject, in order. */
  function SavesTo(calls: seq<Call>, subject: string): seq<Save>
  {
    if calls == [] then []
    else
      var n := |calls| - 1;
      SavesTo(calls[..n], subject) + if calls[n].subject == subject then [calls[n].save] else []
  }

  /** The tables an empty repository goes through, one more than there are calls. */
  ghost predicate IsRun(tables: seq<map<string, MetaRow>>, calls: seq<Call>)
  {
    && |tables| == |calls| + 1 && tables[0] == map[]
    && forall i :: 0 <= i < |calls| ==> Saved(tables[i], tables[i + 1], calls[i].subject, calls[i].save)
  }

  /** The row of a subject after any run stands for the fold of the saves made for it. */
  lemma {:induction false} RunFolds(tables: seq<map<string, MetaRow>>, calls: seq<Call>, subject: string)
    requires IsRun(tables, calls)
    ensures Abstract(Row(tables[|calls|], subject)) == AfterSaves(BLANK, SavesTo(calls, subject))
    decreases |calls|
  {
    if calls != [] {
      var n := |calls| - 1;
      var front := tables[..n + 1];
      forall i | 0 <= i < n ensures Saved(front[i], front[i + 1], calls[..n][i].subject, calls[..n][i].save) {
        assert Saved(tables[i], tables[i + 1], calls[i].subject, calls[i].save);
      }
      RunFolds(front, calls[..n], subject);
      assert Saved(tables[n], tables[n + 1], calls[n].subject, calls[n].save);
      if calls[n].subject == subject {
        var earlier := SavesTo(calls[..n], subject);
        assert (earlier + [calls[n].save])[..|earlier|] == earlier;
      } else {
        assert SavesTo(calls, subject) == SavesTo(calls[..n], subject);
      }
    }
  }

  /**
   After any calls of `save_schema_metadata` on an empty repository, for whatever subjects, a
   subject's tags are those of its last save that gave a list, its mode is the last valid one, and
   its owner and documentation are those of the last save that named one.
   */
  lemma LastGivenWins(tables: seq<map<string, MetaRow>>, calls: seq<Call>, subject: string)
    requires IsRun(tables, calls)
    ensures FollowsLast(SavesTo(calls, subject), Abstract(Row(tables[|calls|], subject)))
  {
    RunFolds(tables, calls, subject);
    FoldFollowsLast(SavesTo(calls, subject));
  }
}
