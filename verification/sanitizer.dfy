/** The insert-field clean-up run before rows go to the vector store: the deep sanitizer
    and the shallow per-value fixer of the V2 service, and the older fixer of the first
    service. Field values are a small algebra of what the columns hold; numbers are
    reals (no float rounding) and the clock reading used for "create_time" is a
    parameter. */
module Sanitizer {
  import opened Std
  import opened JavaText

  /** A column value: null, a string, a number, a list, or any other object (maps,
      booleans) kept as it is. */
  datatype Value = Null | Str(s: string) | Num(x: real) | Lst(items: seq<Value>) | Other(id: nat)

  /** A named column; a null value list is `None`. */
  datatype Field = Field(name: string, values: Option<seq<Value>>)

  const VectorField := "vector"
  const TextField := "text"
  const DocumentIdField := "document_id"
  const ChunkIdField := "chunk_id"
  const ImagesField := "images"
  const MetadataField := "metadata"
  const CreateTimeField := "create_time"

  /** `getDefaultForField` of the V2 service: "{}" for metadata, the current time for
      create_time, an empty list for the vector, and "" for every other name. */
  function DefaultFor(name: string, now: int): (v: Value)
    ensures v != Null
    ensures name == MetadataField ==> v == Str("{}")
    ensures name in {TextField, DocumentIdField, ChunkIdField, ImagesField} ==> v == Str("")
    ensures name == CreateTimeField ==> v == Num(now as real)
    ensures name == VectorField ==> v == Lst([])
    ensures name !in {MetadataField, TextField, DocumentIdField, ChunkIdField, ImagesField, CreateTimeField, VectorField}
            ==> v == Str("")
  {
    if name == MetadataField then Str("{}")
    else if name == TextField || name == DocumentIdField || name == ChunkIdField then Str("")
    else if name == CreateTimeField then Num(now as real)
    else if name == VectorField then Lst([])
    else if name == ImagesField then Str("")
    else Str("")
  }

  /** The list with its nulls removed, order kept. */
  function RemoveNulls(l: seq<Value>): (r: seq<Value>)
    ensures |r| <= |l|
    ensures Null !in r
    ensures Null !in l ==> r == l
  {
    if l == [] then [] else (if l[0] == Null then [] else [l[0]]) + RemoveNulls(l[1..])
  }

  /** Removing nulls distributes over concatenation, so `RemoveNulls` keeps exactly the
      non-null elements in their original order. */
  lemma {:induction false} RemoveNullsAppend(a: seq<Value>, b: seq<Value>)
    ensures RemoveNulls(a + b) == RemoveNulls(a) + RemoveNulls(b)
    decreases |a|
  {
    if a == [] {
      assert a + b == b;
    } else {
      assert (a + b)[0] == a[0];
      assert (a + b)[1..] == a[1..] + b;
      RemoveNullsAppend(a[1..], b);
    }
  }

  /** Removing nulls leaves nothing exactly when the list held only nulls. */
  lemma {:induction false} RemoveNullsEmpty(l: seq<Value>)
    ensures RemoveNulls(l) == [] <==> forall i :: 0 <= i < |l| ==> l[i] == Null
    decreases |l|
  {
    if l != [] {
      RemoveNullsEmpty(l[1..]);
      assert forall i :: 1 <= i < |l| ==> l[i] == l[1..][i - 1];
    }
  }

  // ---------------------------------------------------------------------------
  // The deep sanitizer of the V2 service

  /** The zero vector of the configured dimension. */
  function Zeros(dim: nat): (v: seq<Value>)
    ensures |v| == dim && forall i :: 0 <= i < dim ==> v[i] == Num(0.0)
  {
    seq(dim, i => Num(0.0))
  }

  /** A vector element as a float: a number as it is, anything else 0. */
  function AsFloat(o: Value): Value {
    if o.Num? then o else Num(0.0)
  }

  /** One entry of the vector column: a list of the right length converted element by
      element, anything else the zero vector. */
  function SanitizeVector(v: Value, dim: nat): (w: Value)
  {
    if v.Lst? then
      var vec := seq(|v.items|, i requires 0 <= i < |v.items| => AsFloat(v.items[i]));
      if |vec| != dim then Lst(Zeros(dim)) else Lst(vec)
    else Lst(Zeros(dim))
  }

  /** One entry of any other column: a null, a blank or "null" string and a list of only
      nulls become the default; a list loses its nulls; anything else is kept. */
  function SanitizeValue(name: string, v: Value, now: int): (w: Value)
  {
    match v
    case Null => DefaultFor(name, now)
    case Str(s) => if IsBlank(s) || EqualsIgnoreCase(Trim(s), "null") then DefaultFor(name, now) else v
    case Lst(l) => var cleaned := RemoveNulls(l); if cleaned == [] then DefaultFor(name, now) else Lst(cleaned)
    case _ => v
  }

  /** The last pass of the sanitizer: any null left is replaced by the default. */
  function ReplaceNulls(vals: seq<Value>, default: Value): (r: seq<Value>)
    ensures |r| == |vals|
  {
    seq(|vals|, i requires 0 <= i < |vals| => if vals[i] == Null then default else vals[i])
  }

  /** `sanitizeFieldsBeforeInsert` on one field; a null value list is read as empty.
      The field keeps its name and its number of values (none for a null list); every
      vector entry has the configured dimension and holds only numbers, and no other
      entry is null or a list with nulls. */
  function SanitizeField(f: Field, dim: nat, now: int): (g: Field)
    ensures g.name == f.name && g.values.Some?
    ensures |g.values.value| == if f.values.Some? then |f.values.value| else 0
    ensures f.name == VectorField ==> forall i :: 0 <= i < |g.values.value| ==> IsVector(g.values.value[i], dim)
    ensures f.name != VectorField ==> forall i :: 0 <= i < |g.values.value| ==> NullFree(g.values.value[i])
  {
    var values := f.values.GetOr([]);
    if f.name == VectorField then
      Field(f.name, Some(seq(|values|, i requires 0 <= i < |values| => SanitizeVector(values[i], dim))))
    else
      var newVals := seq(|values|, i requires 0 <= i < |values| => SanitizeValue(f.name, values[i], now));
      Field(f.name, Some(ReplaceNulls(newVals, DefaultFor(f.name, now))))
  }

  /** `sanitizeFieldsBeforeInsert`: every field in place, in order. */
  function SanitizeFields(fields: seq<Field>, dim: nat, now: int): (r: seq<Field>)
    ensures |r| == |fields|
    ensures forall i :: 0 <= i < |fields| ==> r[i] == SanitizeField(fields[i], dim, now)
  {
    seq(|fields|, i requires 0 <= i < |fields| => SanitizeField(fields[i], dim, now))
  }

  /** A well-formed vector entry: a list of exactly `dim` numbers. */
  predicate IsVector(v: Value, dim: nat) {
    v.Lst? && |v.items| == dim && forall i :: 0 <= i < |v.items| ==> v.items[i].Num?
  }

  /** A value fit for a non-vector column: not null, and a list has no nulls. */
  predicate NullFree(v: Value) {
    v != Null && (v.Lst? ==> Null !in v.items)
  }

  /** A vector entry: a well-formed one is kept, and a null, a non-list or a list of the
      wrong length becomes the zero vector; within a kept list a non-number becomes 0. */
  lemma SanitizeVectorSpec(v: Value, dim: nat)
    ensures IsVector(v, dim) ==> SanitizeVector(v, dim) == v
    ensures !v.Lst? || |v.items| != dim ==> SanitizeVector(v, dim) == Lst(Zeros(dim))
    ensures v.Lst? && |v.items| == dim ==>
              forall i :: 0 <= i < dim ==>
                SanitizeVector(v, dim).items[i] == (if v.items[i].Num? then v.items[i] else Num(0.0))
  {
    if IsVector(v, dim) {
      assert SanitizeVector(v, dim).items == v.items;
    }
  }

  /** A non-vector entry: null, blank or "null" strings and lists that hold only nulls
      become the default; other strings and other objects are kept; other lists lose
      their nulls. */
  lemma SanitizeValueSpec(name: string, v: Value, now: int)
    ensures var w := SanitizeValue(name, v, now);
            && (v == Null ==> w == DefaultFor(name, now))
            && (v.Str? && (IsBlank(v.s) || EqualsIgnoreCase(Trim(v.s), "null")) ==> w == DefaultFor(name, now))
            && (v.Str? && !IsBlank(v.s) && !EqualsIgnoreCase(Trim(v.s), "null") ==> w == v)
            && (v.Lst? && (forall i :: 0 <= i < |v.items| ==> v.items[i] == Null) ==> w == DefaultFor(name, now))
            && (v.Lst? && (exists i :: 0 <= i < |v.items| && v.items[i] != Null) ==> w == Lst(RemoveNulls(v.items)))
            && (v.Num? || v.Other? ==> w == v)
  {
    if v.Lst? {
      RemoveNullsEmpty(v.items);
    }
  }

  /** The final null-replacing pass never changes anything: the per-value step already
      leaves no null. */
  lemma ReplaceNullsIsIdentity(f: Field, dim: nat, now: int)
    requires f.name != VectorField
    ensures var values := f.values.GetOr([]);
            SanitizeField(f, dim, now).values.value
            == seq(|values|, i requires 0 <= i < |values| => SanitizeValue(f.name, values[i], now))
  {
  }

  /** Sanitizing is idempotent: a sanitized field is left as it is. */
  lemma SanitizeIdempotent(f: Field, dim: nat, now: int)
    ensures SanitizeField(SanitizeField(f, dim, now), dim, now) == SanitizeField(f, dim, now)
  {
    var g := SanitizeField(f, dim, now);
    var vals := g.values.value;
    var again := SanitizeField(g, dim, now).values.value;
    if f.name == VectorField {
      forall i | 0 <= i < |vals|
        ensures again[i] == vals[i]
      {
        SanitizeVectorSpec(f.values.value[i], dim);
        SanitizeVectorSpec(vals[i], dim);
      }
    } else {
      forall i | 0 <= i < |vals|
        ensures again[i] == vals[i]
      {
        SanitizeValueSpec(f.name, f.values.value[i], now);
        SanitizeValueSpec(f.name, vals[i], now);
        if vals[i].Lst? {
          RemoveNullsEmpty(vals[i].items);
        }
      }
    }
    assert again == vals;
  }

  // ---------------------------------------------------------------------------
  // The shallow fixer of the V2 service

  /** What the JSON parser makes of a trimmed metadata string: not JSON, an empty array,
      a non-empty array (with the text of the object `{"data": array}`), or any other
      JSON value. */
  datatype JsonVerdict = Invalid | EmptyArray | NonEmptyArray(wrapped: string) | NotArray

  /** The literal strings the JSON fix maps to "{}" without parsing. */
  predicate QuickEmpty(t: string) {
    t == [] || t == "[]" || EqualsIgnoreCase(t, "null") || EqualsIgnoreCase(t, "undefined")
  }

  /** `fixJsonStringForMilvus`: the literal quick path, then the parser's verdict. */
  function FixJson(str: string, parse: string -> JsonVerdict): (r: string)
    ensures var t := Trim(str);
            QuickEmpty(t) || parse(t).Invalid? || parse(t).EmptyArray? ==> r == "{}"
    ensures var t := Trim(str);
            !QuickEmpty(t) ==> (parse(t).NotArray? ==> r == t) && (parse(t).NonEmptyArray? ==> r == parse(t).wrapped)
  {
    var t := Trim(str);
    if QuickEmpty(t) then "{}"
    else
      match parse(t)
      case Invalid => "{}"
      case EmptyArray => "{}"
      case NonEmptyArray(w) => w
      case NotArray => t
  }

  /** `fixFieldValue` of the V2 service; only metadata is a JSON column there. */
  function FixValue(name: string, v: Value, now: int, parse: string -> JsonVerdict): (w: Value)
  {
    match v
    case Null => DefaultFor(name, now)
    case Str(s) =>
      if s == [] || EqualsIgnoreCase(s, "null") then DefaultFor(name, now)
      else if name == MetadataField then Str(FixJson(s, parse))
      else v
    case Lst(l) =>
      if l == [] then DefaultFor(name, now)
      else if Null in l then
        var cleaned := RemoveNulls(l);
        if cleaned == [] then DefaultFor(name, now) else Lst(cleaned)
      else v
    case _ => v
  }

  /** `validateAndFixAllFields` of the V2 service: a null value list becomes the one
      default value, and every other value is fixed in place; after the fix no value is
      null and no list has a null. */
  function FixField(f: Field, now: int, parse: string -> JsonVerdict): (g: Field)
    ensures g.name == f.name && g.values.Some?
    ensures f.values.None? ==> g.values.value == [DefaultFor(f.name, now)]
    ensures f.values.Some? ==> |g.values.value| == |f.values.value|
    ensures forall i :: 0 <= i < |g.values.value| ==> NullFree(g.values.value[i])
  {
    match f.values
    case None => Field(f.name, Some([DefaultFor(f.name, now)]))
    case Some(vals) => Field(f.name, Some(seq(|vals|, i requires 0 <= i < |vals| => FixValue(f.name, vals[i], now, parse))))
  }

  function FixFields(fields: seq<Field>, now: int, parse: string -> JsonVerdict): (r: seq<Field>)
    ensures |r| == |fields|
    ensures forall i :: 0 <= i < |fields| ==> r[i] == FixField(fields[i], now, parse)
  {
    seq(|fields|, i requires 0 <= i < |fields| => FixField(fields[i], now, parse))
  }

  /** The V2 fix of one value: empty or "null" strings and lists that are empty or hold
      only nulls become the default, metadata strings go through the JSON fix, and a
      list with some null keeps exactly its non-null elements in order. */
  lemma FixValueSpec(name: string, v: Value, now: int, parse: string -> JsonVerdict)
    ensures var w := FixValue(name, v, now, parse);
            && (v == Null ==> w == DefaultFor(name, now))
            && (v.Str? && (v.s == [] || EqualsIgnoreCase(v.s, "null")) ==> w == DefaultFor(name, now))
            && (v.Str? && v.s != [] && !EqualsIgnoreCase(v.s, "null") ==>
                  w == if name == MetadataField then Str(FixJson(v.s, parse)) else v)
            && (v.Lst? && (forall i :: 0 <= i < |v.items| ==> v.items[i] == Null) ==> w == DefaultFor(name, now))
            && (v.Lst? && (exists i :: 0 <= i < |v.items| && v.items[i] != Null) ==> w == Lst(RemoveNulls(v.items)))
            && (v.Num? || v.Other? ==> w == v)
  {
    if v.Lst? {
      RemoveNullsEmpty(v.items);
    }
  }

  // ---------------------------------------------------------------------------
  // The fixer of the first service

  /** `getDefaultForField` of the first service: "images" and "metadata" are JSON
      columns there and default to "{}". */
  function FirstDefaultFor(name: string, now: int): (v: Value)
    ensures name in {ImagesField, MetadataField} ==> v == Str("{}")
    ensures name in {TextField, DocumentIdField, ChunkIdField} ==> v == Str("")
    ensures name == CreateTimeField ==> v == Num(now as real)
    ensures name == VectorField ==> v == Lst([])
    ensures name !in {ImagesField, MetadataField, TextField, DocumentIdField, ChunkIdField, CreateTimeField, VectorField}
            ==> v == Str("")
  {
    if name == ImagesField || name == MetadataField then Str("{}")
    else if name == TextField || name == DocumentIdField || name == ChunkIdField then Str("")
    else if name == CreateTimeField then Num(now as real)
    else if name == VectorField then Lst([])
    else Str("")
  }

  /** `fixFieldValue` of the first service: only a null or the empty string becomes the
      default, a non-empty string of a JSON column goes through the JSON fix and any
      other non-empty string is kept, a list keeps exactly its non-null elements in order
      (even when nothing is left), and no value comes out null or holding a null. */
  function FirstFixValue(name: string, v: Value, now: int, parse: string -> JsonVerdict): (w: Value)
    ensures NullFree(w)
    ensures v == Null || v == Str("") ==> w == FirstDefaultFor(name, now)
    ensures v.Str? && v.s != [] && name in {ImagesField, MetadataField} ==> w == Str(FixJson(v.s, parse))
    ensures v.Str? && v.s != [] && name !in {ImagesField, MetadataField} ==> w == v
    ensures v.Lst? ==> w == Lst(RemoveNulls(v.items))
    ensures v.Num? || v.Other? ==> w == v
  {
    match v
    case Null => FirstDefaultFor(name, now)
    case Str(s) =>
      if s == [] then FirstDefaultFor(name, now)
      else if name == ImagesField || name == MetadataField then Str(FixJson(s, parse))
      else v
    case Lst(l) => if Null in l then Lst(RemoveNulls(l)) else v
    case _ => v
  }

  /** `validateAndFixAllFields` of the first service: iterating a null value list throws;
      otherwise every field keeps its name and its number of values, each value is fixed
      in place, and no fixed value is null or holds a null. */
  function FirstFixFields(fields: seq<Field>, now: int, parse: string -> JsonVerdict): (r: Result<seq<Field>>)
    ensures r.Ok? <==> forall i :: 0 <= i < |fields| ==> fields[i].values.Some?
    ensures r.Err? ==> r.error == NullPointer
    ensures r.Ok? ==> |r.value| == |fields|
    ensures r.Ok? ==> forall i :: 0 <= i < |fields| ==>
              && r.value[i].name == fields[i].name && r.value[i].values.Some?
              && |r.value[i].values.value| == |fields[i].values.value|
    ensures r.Ok? ==> forall i, j :: 0 <= i < |fields| && 0 <= j < |fields[i].values.value| ==>
              r.value[i].values.value[j] == FirstFixValue(fields[i].name, fields[i].values.value[j], now, parse)
    ensures r.Ok? ==> forall i, j :: 0 <= i < |r.value| && 0 <= j < |r.value[i].values.value| ==>
              NullFree(r.value[i].values.value[j])
  {
    if exists i :: 0 <= i < |fields| && fields[i].values.None? then Err(NullPointer)
    else
      Ok(seq(|fields|, i requires 0 <= i < |fields| && fields[i].values.Some? =>
        var vals := fields[i].values.value;
        Field(fields[i].name, Some(seq(|vals|, j requires 0 <= j < |vals| => FirstFixValue(fields[i].name, vals[j], now, parse))))))
  }
}
