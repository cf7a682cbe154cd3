/** Documents of the `pet` collection: field maps over a small universe of
    BSON values, with the two Python views the router takes of a value
    (`str(v)` and truthiness) and the order MongoDB sorts values in. */
module Documents {
  import opened ObjectIds
  import Decimal

  /** The BSON values a pet document holds. */
  datatype Value = Null | Int(i: int) | Str(s: string) | Oid(id: ObjectId) | Bool(b: bool)

  /** The names of document fields. The six fields the router uses by
      name have constructors of their own; `Named` covers every other
      field of the pet schema (and never spells one of the six). */
  datatype FieldName =
    | IdName            // "_id", the store's native key
    | ExposedIdName     // "id_", the key's string form in responses
    | CreatedAtName     // "created_at"
    | LastModifiedName  // "last_modified"
    | KindName          // "kind"
    | StatusName        // "status"
    | Named(name: string)

  /** The spelling of the six fields with constructors of their own. */
  function Spelling(f: FieldName): string {
    match f
    case IdName => "_id"
    case ExposedIdName => "id_"
    case CreatedAtName => "created_at"
    case LastModifiedName => "last_modified"
    case KindName => "kind"
    case StatusName => "status"
    case Named(n) => n
  }

  /** The spellings that belong to the six fields with constructors of
      their own. */
  const RESERVED_SPELLINGS: set<string> :=
    {Spelling(IdName), Spelling(ExposedIdName), Spelling(CreatedAtName),
     Spelling(LastModifiedName), Spelling(KindName), Spelling(StatusName)}

  /** A field name in its one canonical form: `Named` never spells one of
      the six fields that have constructors of their own. */
  predicate Canonical(f: FieldName) {
    f.Named? ==> f.name !in RESERVED_SPELLINGS
  }

  /** On canonical names the spelling determines the field, so the
      datatype is a faithful stand-in for the field's string key. */
  lemma SpellingInjective(f: FieldName, g: FieldName)
    requires Canonical(f) && Canonical(g) && Spelling(f) == Spelling(g)
    ensures f == g
  {
  }

  /** A document: field name to value. */
  type Doc = map<FieldName, Value>

  /** Every field name of the document is canonical. */
  predicate CanonicalDoc(d: Doc) {
    forall f | f in d :: Canonical(f)
  }

  /** An equality filter as passed to `find` and `count_documents`. */
  type Filter = map<FieldName, Value>

  /** Python truthiness of a value: the falsy values are exactly `None`,
      `0`, the empty string and `False`, so an ObjectId is always truthy. */
  function Truthy(v: Value): (t: bool)
    ensures !t <==> v == Null || v == Int(0) || v == Str("") || v == Bool(false)
    ensures v.Oid? ==> t
  {
    match v
    case Null => false
    case Int(i) => i != 0
    case Str(s) => s != ""
    case Oid(_) => true
    case Bool(b) => b
  }

  /** Python `str(v)`: a string is its own `str`, and the `str` of an
      ObjectId is its 24-digit lower-case form, which parses back to the
      ObjectId (with `ShowParse`, that determines the string). */
  function Repr(v: Value): (r: string)
    ensures v.Str? ==> r == v.s
    ensures v.Oid? ==> ValidId(r) && Parse(r) == v.id
    ensures v.Oid? ==> forall i | 0 <= i < |r| :: IsLowerHexDigit(r[i])
  {
    match v
    case Null => "None"
    case Int(i) => Decimal.IntToString(i)
    case Str(s) => s
    case Oid(id) => ParseShow(id); Show(id)
    case Bool(b) => if b then "True" else "False"
  }

  /** A document satisfies an equality filter when it carries every field
      of the filter with exactly the filter's value. */
  predicate Matches(d: Doc, f: Filter) {
    forall k | k in f :: k in d && d[k] == f[k]
  }

  // ---------------------------------------------------------------------
  // Sort order

  /** Position of a value's type in MongoDB's cross-type comparison order
      (null, numbers, strings, ObjectIds, booleans). */
  function Rank(v: Value): nat {
    match v
    case Null => 0
    case Int(_) => 1
    case Str(_) => 2
    case Oid(_) => 3
    case Bool(_) => 4
  }

  /** Lexicographic order on code sequences, a proper prefix first. */
  predicate LexLe(a: seq<int>, b: seq<int>) {
    if a == [] then true
    else if b == [] then false
    else if a[0] != b[0] then a[0] < b[0]
    else LexLe(a[1..], b[1..])
  }

  function Codes(s: string): (c: seq<int>)
    ensures |c| == |s|
  {
    seq(|s|, i requires 0 <= i < |s| => s[i] as int)
  }

  /** The comparison MongoDB sorts by: by type rank first, then within
      the type (integers numerically, strings by code point, ObjectIds
      bytewise, false before true). */
  predicate ValueLe(a: Value, b: Value) {
    if Rank(a) != Rank(b) then Rank(a) < Rank(b)
    else match (a, b)
      case (Int(x), Int(y)) => x <= y
      case (Str(x), Str(y)) => LexLe(Codes(x), Codes(y))
      case (Oid(x), Oid(y)) => LexLe(x.bytes, y.bytes)
      case (Bool(x), Bool(y)) => !x || y
      case _ => true
  }

  lemma {:induction false} LexLeReflexive(a: seq<int>)
    ensures LexLe(a, a)
  {
    if a != [] {
      LexLeReflexive(a[1..]);
    }
  }

  lemma ValueLeReflexive(a: Value)
    ensures ValueLe(a, a)
  {
    match a
    case Str(x) => LexLeReflexive(Codes(x));
    case Oid(x) => LexLeReflexive(x.bytes);
    case _ =>
  }

  lemma {:induction false} LexLeTotal(a: seq<int>, b: seq<int>)
    ensures LexLe(a, b) || LexLe(b, a)
  {
    if a != [] && b != [] && a[0] == b[0] {
      LexLeTotal(a[1..], b[1..]);
    }
  }

  lemma {:induction false} LexLeTransitive(a: seq<int>, b: seq<int>, c: seq<int>)
    requires LexLe(a, b) && LexLe(b, c)
    ensures LexLe(a, c)
  {
    if a != [] && b != [] && c != [] && a[0] == b[0] == c[0] {
      LexLeTransitive(a[1..], b[1..], c[1..]);
    }
  }

  /** Any two values are comparable. */
  lemma ValueLeTotal(a: Value, b: Value)
    ensures ValueLe(a, b) || ValueLe(b, a)
  {
    match (a, b)
    case (Str(x), Str(y)) => LexLeTotal(Codes(x), Codes(y));
    case (Oid(x), Oid(y)) => LexLeTotal(x.bytes, y.bytes);
    case _ =>
  }

  lemma ValueLeTransitive(a: Value, b: Value, c: Value)
    requires ValueLe(a, b) && ValueLe(b, c)
    ensures ValueLe(a, c)
  {
    if Rank(a) == Rank(b) == Rank(c) {
      match (a, b, c)
      case (Str(x), Str(y), Str(z)) => LexLeTransitive(Codes(x), Codes(y), Codes(z));
      case (Oid(x), Oid(y), Oid(z)) => LexLeTransitive(x.bytes, y.bytes, z.bytes);
      case _ =>
    }
  }
}
