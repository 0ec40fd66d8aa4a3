// How the document store reads a filter value against a stored field. The
// handlers pass request values into filters unchanged, so a value may be a
// plain value (compared for equality), an array (on a single-valued field,
// any of its elements) or an object whose keys are query operators. The
// store casts each compared value to the field's schema type and refuses
// the whole query when a cast fails.
module StoreQuery {
  import opened Common
  import opened Js

  predicate IsHexDigit(c: char)
  {
    ('0' <= c <= '9') || ('a' <= c <= 'f') || ('A' <= c <= 'F')
  }

  /** A well-formed store identifier: a string of 24 hexadecimal digits. */
  predicate IsValidObjectId(v: Value)
  {
    v.Str? && |v.s| == 24 && forall i :: 0 <= i < |v.s| ==> IsHexDigit(v.s[i])
  }

  /** How the store casts a value to a Boolean; None when it refuses the
      value. A Boolean is kept; only a few strings and numbers are accepted. */
  function CastBoolean(v: Value): (r: Option<bool>)
    ensures v.Bool? ==> r == Some(v.b)
    ensures r.Some? ==> v.Bool? || v.Str? || v.Num?
    ensures r == Some(true) ==> Truthy(v)
  {
    if v in {Bool(true), Str("true"), Num(1), Str("1"), Str("yes")} then Some(true)
    else if v in {Bool(false), Str("false"), Num(0), Str("0"), Str("no")} then Some(false)
    else None
  }

  /** The schema type of a field. */
  datatype Kind = StringKind | IdKind | BoolKind | ArrayKind

  /** A stored field and its schema type. */
  datatype Field =
    | StringPath(stored: Value)
    | IdPath(id: string)
    | BoolPath(flag: bool)
    | ArrayPath(elems: seq<Value>)

  function KindOf(f: Field): Kind
  {
    match f
    case StringPath(_) => StringKind
    case IdPath(_) => IdKind
    case BoolPath(_) => BoolKind
    case ArrayPath(_) => ArrayKind
  }

  /** The operators the model reads. */
  const Operators: set<string> := {"$eq", "$ne", "$in", "$nin", "$gt", "$gte", "$lt", "$lte", "$exists"}

  /** An object with a key that starts with '$' is read as operators. */
  predicate IsOperatorObject(v: Value)
  {
    v.Obj? && exists k :: k in v.fields && |k| > 0 && k[0] == '$'
  }

  /** The values an `$in` or `$nin` operand lists, and the values `$push`
      appends to an array field: an array's elements, or the single value. */
  function AsList(x: Value): seq<Value>
  {
    if x.Arr? then x.elems else [x]
  }

  /** Whether a single compared value casts to the schema type: null and
      undefined always do, an object never does, an identifier must be
      well-formed, a Boolean must be one the Boolean cast accepts. */
  predicate Castable(k: Kind, v: Value)
  {
    v.Undefined? || v.Null? ||
    match k
    case StringKind => !v.Obj? && !v.Arr?
    case IdKind => IsValidObjectId(v)
    case BoolKind => CastBoolean(v).Some?
    case ArrayKind => !v.Obj?
  }

  /** The operand of `$exists` is cast to a Boolean; a list operand is cast
      element by element; any other operand is cast to the field's type. */
  predicate OperandFaults(k: Kind, op: string, x: Value)
  {
    if op == "$in" || op == "$nin" then exists e :: e in AsList(x) && !Castable(k, e)
    else if op == "$exists" then !Castable(BoolKind, x)
    else !Castable(k, x)
  }

  /** Whether the store refuses the filter value `v` on a field of kind `k`:
      an array on a single-valued field with an element that does not cast,
      an operator object with an operator the model does not read or an
      operand that does not cast, or a plain value that does not cast. */
  predicate Faults(k: Kind, v: Value)
  {
    if v.Arr? && k != ArrayKind then exists e :: e in v.elems && !Castable(k, e)
    else if IsOperatorObject(v) then exists op :: op in v.fields && (op !in Operators || OperandFaults(k, op, v.fields[op]))
    else !Castable(k, v)
  }

  /** Equality of a plain value with a stored field: an identifier by its
      string, a Boolean through the Boolean cast, and an array field when it
      holds the value or is equal to it. */
  predicate Equals(f: Field, v: Value)
  {
    match f
    case StringPath(s) => s == v
    case IdPath(id) => v == Str(id)
    case BoolPath(b) => CastBoolean(v) == Some(b)
    case ArrayPath(es) => v in es || v == Arr(es)
  }

  /** The order of strings by character code, the first difference
      deciding. The store orders strings by their UTF-8 bytes, which is the
      order of their code points. */
  predicate StrLess(a: string, b: string)
  {
    b != [] && (a == [] || a[0] < b[0] || (a[0] == b[0] && StrLess(a[1..], b[1..])))
  }

  /** The store's order between two values of one type. Values of different
      types are not compared: no comparison between them holds. */
  predicate Less(a: Value, b: Value)
  {
    || (a.Num? && b.Num? && a.n < b.n)
    || (a.Str? && b.Str? && StrLess(a.s, b.s))
    || (a.Bool? && b.Bool? && !a.b && b.b)
  }

  /** The values of a field that a comparison looks at: an array's
      elements, or the single value. */
  function Stored(f: Field): seq<Value>
  {
    match f
    case StringPath(v) => [v]
    case IdPath(id) => [Str(id)]
    case BoolPath(b) => [Bool(b)]
    case ArrayPath(es) => es
  }

  /** A compared operand as the store sees it: cast to a Boolean on a
      Boolean field, as given elsewhere. */
  function Operand(f: Field, x: Value): Value
  {
    if f.BoolPath? && CastBoolean(x).Some? then Bool(CastBoolean(x).value) else x
  }

  /** Whether the document holds the field at all: only a string field that
      was never set is absent. */
  predicate Present(f: Field)
  {
    !(f.StringPath? && f.stored.Undefined?)
  }

  predicate OperatorHolds(f: Field, op: string, x: Value)
  {
    if op == "$eq" then Equals(f, x)
    else if op == "$ne" then !Equals(f, x)
    else if op == "$in" then exists e :: e in AsList(x) && Equals(f, e)
    else if op == "$nin" then forall e :: e in AsList(x) ==> !Equals(f, e)
    else if op == "$gt" then exists e :: e in Stored(f) && Less(Operand(f, x), e)
    else if op == "$gte" then exists e :: e in Stored(f) && (Less(Operand(f, x), e) || e == Operand(f, x))
    else if op == "$lt" then exists e :: e in Stored(f) && Less(e, Operand(f, x))
    else if op == "$lte" then exists e :: e in Stored(f) && (Less(e, Operand(f, x)) || e == Operand(f, x))
    else if op == "$exists" then Present(f) == (CastBoolean(x) == Some(true))
    else false
  }

  /** Whether the store finds field `f` for the filter value `v`: an array on
      a single-valued field matches when some element is equal, an operator
      object when every operator holds, a plain value when it is equal. */
  predicate Holds(f: Field, v: Value)
  {
    if v.Arr? && !f.ArrayPath? then exists e :: e in v.elems && Equals(f, e)
    else if IsOperatorObject(v) then forall op :: op in v.fields ==> OperatorHolds(f, op, v.fields[op])
    else Equals(f, v)
  }

  /** A plain value is compared for equality, and refused exactly when it
      does not cast. */
  lemma PlainValueIsEquality(f: Field, v: Value)
    requires !v.Obj? && (!v.Arr? || f.ArrayPath?)
    ensures Holds(f, v) <==> Equals(f, v)
    ensures Faults(KindOf(f), v) <==> !Castable(KindOf(f), v)
  {
  }

  /** On a single-valued field an array is read as `$in` of its elements. */
  lemma ArrayIsIn(f: Field, xs: seq<Value>)
    requires !f.ArrayPath?
    ensures Holds(f, Arr(xs)) <==> Holds(f, Obj(map["$in" := Arr(xs)]))
    ensures Faults(KindOf(f), Arr(xs)) <==> Faults(KindOf(f), Obj(map["$in" := Arr(xs)]))
  {
  }

  /** `$ne` holds exactly where `$eq` of the same operand does not. */
  lemma NeNegatesEq(f: Field, x: Value)
    ensures Holds(f, Obj(map["$ne" := x])) <==> !Holds(f, Obj(map["$eq" := x]))
  {
  }

  /** `$nin` holds exactly where `$in` of the same operand does not. */
  lemma NinNegatesIn(f: Field, x: Value)
    ensures Holds(f, Obj(map["$nin" := x])) <==> !Holds(f, Obj(map["$in" := x]))
  {
  }

  /** `$eq` of a plain value finds what the plain value finds. */
  lemma EqOfPlainValue(f: Field, x: Value)
    requires !x.Obj? && (!x.Arr? || f.ArrayPath?)
    ensures Holds(f, Obj(map["$eq" := x])) <==> Holds(f, x)
  {
  }

  /** The order of strings is strict and total: of two strings exactly one
      comes first, unless they are equal. */
  lemma {:induction false} StrLessTrichotomy(a: string, b: string)
    ensures StrLess(a, b) ==> a != b && !StrLess(b, a)
    ensures StrLess(a, b) || a == b || StrLess(b, a)
  {
    if a != [] && b != [] && a[0] == b[0] {
      StrLessTrichotomy(a[1..], b[1..]);
      assert a == [a[0]] + a[1..] && b == [b[0]] + b[1..];
    }
  }

  /** On a string field, `$gt` of a string holds exactly where `$lte` of it
      does not. */
  lemma GtNegatesLte(stored: string, x: string)
    ensures Holds(StringPath(Str(stored)), Obj(map["$gt" := Str(x)]))
        <==> !Holds(StringPath(Str(stored)), Obj(map["$lte" := Str(x)]))
  {
    var gt, lte := map["$gt" := Str(x)], map["$lte" := Str(x)];
    assert "$gt" in gt && "$gt"[0] == '$' && "$lte" in lte && "$lte"[0] == '$';
    assert forall op :: op in gt ==> op == "$gt";
    assert forall op :: op in lte ==> op == "$lte";
    var f := StringPath(Str(stored));
    assert Stored(f) == [Str(stored)] && Operand(f, Str(x)) == Str(x);
    assert IsOperatorObject(Obj(gt)) && IsOperatorObject(Obj(lte));
    assert Holds(f, Obj(gt)) <==> OperatorHolds(f, "$gt", Str(x));
    assert Holds(f, Obj(lte)) <==> OperatorHolds(f, "$lte", Str(x));
    assert Str(stored) in Stored(f);
    assert OperatorHolds(f, "$gt", Str(x)) <==> StrLess(x, stored);
    assert OperatorHolds(f, "$lte", Str(x)) <==> StrLess(stored, x) || stored == x;
    StrLessTrichotomy(x, stored);
  }

  /** `$gt` of the empty string is met by every non-empty stored string,
      and the store accepts it. */
  lemma GreaterThanEmptyMatchesNonEmpty(stored: string)
    requires stored != []
    ensures Holds(StringPath(Str(stored)), Obj(map["$gt" := Str("")]))
    ensures !Faults(StringKind, Obj(map["$gt" := Str("")]))
  {
    var gt := map["$gt" := Str("")];
    assert "$gt" in gt && "$gt"[0] == '$';
    assert forall op :: op in gt ==> op == "$gt";
    assert Str(stored) in Stored(StringPath(Str(stored)));
  }

  /** `$ne` of a string is met by every other stored string: the operator
      does not ask for the stored value at all. */
  lemma NeMatchesOtherValues(stored: string, other: string)
    requires stored != other
    ensures Holds(StringPath(Str(stored)), Obj(map["$ne" := Str(other)]))
    ensures !Faults(StringKind, Obj(map["$ne" := Str(other)]))
  {
    var ne := map["$ne" := Str(other)];
    assert "$ne" in ne && "$ne"[0] == '$';
    assert forall op :: op in ne ==> op == "$ne";
  }
}
