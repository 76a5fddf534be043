/** The field schema the form is rendered from, and the values the form store holds.
    The schema is an author-supplied tree of field descriptors tagged by a `type`
    string; values are what the form library stores at a field's path. */
module Schema {

  datatype Option<+T> = None | Some(value: T)

  /** A value held in the form store: the text of an input or select, a number,
      the state of a checkbox, or the selection of a multi-select. */
  datatype Value = Str(s: string) | Num(n: int) | Bool(b: bool) | List(items: seq<string>)

  /** One selectable option of a select or multi-select. */
  datatype Choice = Choice(value: string, caption: string)

  /** A field descriptor. `kind` is the descriptor's `type` string (unknown strings
      are allowed), `condition` is `condition.value` (absent when either is missing),
      `hasFields` says whether the descriptor declares a `fields` list at all (an
      empty list counts as declared), and `fields` is that list (empty when absent). */
  datatype FieldNode = FieldNode(
    id: string,
    caption: string,
    kind: string,
    placeholder: Option<string>,
    options: seq<Choice>,
    required: bool,
    condition: Option<Value>,
    hasFields: bool,
    fields: seq<FieldNode>)

  /** JavaScript truthiness of a possibly missing value: `undefined`, `""`, `0` and
      `false` are falsy; every array (even an empty one) is truthy. */
  function Truthy(v: Option<Value>): (b: bool)
    ensures b <==> v.Some? && v.value != Str("") && v.value != Num(0) && v.value != Bool(false)
  {
    match v
    case None => false
    case Some(Str(s)) => s != ""
    case Some(Num(n)) => n != 0
    case Some(Bool(b)) => b
    case Some(List(_)) => true
  }

  /** JavaScript `===` between two possibly missing values: `undefined === undefined`,
      primitives compare by content, two arrays are never the same object, and
      values of different types are never equal. */
  function StrictEquals(a: Option<Value>, b: Option<Value>): (r: bool)
    ensures r <==> a == b && !(a.Some? && a.value.List?)
  {
    match (a, b)
    case (None, None) => true
    case (Some(Str(x)), Some(Str(y))) => x == y
    case (Some(Num(x)), Some(Num(y))) => x == y
    case (Some(Bool(x)), Some(Bool(y))) => x == y
    case _ => false
  }

  /** A schema the renderer can walk: every section declares its children
      (the renderer maps over a section's `fields` unconditionally), and a
      descriptor that declares no `fields` has no children. */
  predicate WellFormed(fields: seq<FieldNode>) {
    forall i :: 0 <= i < |fields| ==> NodeWellFormed(fields[i])
  }

  /** An id that can be told apart once composed into a path: non-empty and
      without a dot. */
  predicate PlainId(id: string) {
    id != "" && '.' !in id
  }

  /** Sibling descriptors have pairwise different ids. */
  predicate DistinctIds(fields: seq<FieldNode>) {
    forall i, j :: 0 <= i < j < |fields| ==> fields[i].id != fields[j].id
  }

  /** Every id in the schema is plain, and siblings have distinct ids. */
  predicate IdsPlain(fields: seq<FieldNode>) {
    DistinctIds(fields) && forall i :: 0 <= i < |fields| ==> NodeIdsPlain(fields[i])
  }

  predicate NodeIdsPlain(n: FieldNode)
    decreases n
  {
    && PlainId(n.id)
    && DistinctIds(n.fields)
    && forall i :: 0 <= i < |n.fields| ==> NodeIdsPlain(n.fields[i])
  }

  predicate NodeWellFormed(n: FieldNode)
    decreases n
  {
    && (n.kind == "section" ==> n.hasFields)
    && (!n.hasFields ==> n.fields == [])
    && forall i :: 0 <= i < |n.fields| ==> NodeWellFormed(n.fields[i])
  }
}
