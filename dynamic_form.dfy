/** The form component: the recursive walk that turns the schema into the
    sequence of visible fields, the submission status lifecycle, and the
    document-wide handler that closes open multi-selects on an outside click. */
module DynamicForm {
  import opened Schema
  import opened FormState
  import FormField
  import Text

  // ---------------------------------------------------------------------------
  // Paths

  /** A field's path: its own id at the top level (empty parent), otherwise the
      parent's path, a dot, and the id. */
  function ComposePath(parent: string, id: string): (p: string)
    ensures parent == "" ==> p == id
    ensures parent != "" ==> |p| == |parent| + 1 + |id| && p[..|parent|] == parent && p[|parent|] == '.' && p[|parent| + 1..] == id
  {
    if parent == "" then id else parent + "." + id
  }

  /** q names something strictly inside the subtree named by p.  Under the empty
      path (the form root) every path is inside. */
  predicate Below(p: string, q: string) {
    p == "" || p + "." <= q
  }

  /** q is p itself or strictly inside it. */
  predicate AtOrBelow(p: string, q: string) {
    q == p || Below(p, q)
  }

  /** A path at or below a child's path is strictly below the parent's. */
  lemma ComposedIsBelow(parent: string, id: string, q: string)
    requires AtOrBelow(ComposePath(parent, id), q)
    ensures Below(parent, q)
  {
    if parent != "" {
      var c := ComposePath(parent, id);
      assert parent + "." <= c by {
        assert c[..|parent| + 1] == parent + ".";
      }
      if q != c {
        assert c + "." <= q;
        assert c <= q by {
          assert q[..|c|] == (c + ".")[..|c|];
        }
      }
    }
  }

  /** With dot-free ids a path is parsed back uniquely: the last dot separates
      the parent's path from the id. */
  lemma ComposePathInjective(p: string, a: string, q: string, b: string)
    requires '.' !in a && '.' !in b
    requires ComposePath(p, a) == ComposePath(q, b)
    ensures p == q && a == b
  {
    var c := ComposePath(p, a);
    if p != "" && q != "" && |p| == |q| {
      assert p == c[..|p|] == q;
    }
  }

  /** Where a child's id sits inside any path at or below the child's path. */
  function IdOffset(parent: string): nat {
    if parent == "" then 0 else |parent| + 1
  }

  lemma SegmentAt(parent: string, a: string, q: string)
    requires PlainId(a) && AtOrBelow(ComposePath(parent, a), q)
    ensures IdOffset(parent) + |a| <= |q|
    ensures q[IdOffset(parent)..IdOffset(parent) + |a|] == a
    ensures IdOffset(parent) + |a| < |q| ==> q[IdOffset(parent) + |a|] == '.'
  {
    var c := ComposePath(parent, a);
    var o := IdOffset(parent);
    assert |c| == o + |a| && c[o..] == a;
    if q != c {
      assert c + "." <= q;
      assert q[..|c|] == c;
      assert q[o..o + |a|] == q[..|c|][o..] == c[o..];
      assert q[|c|] == (c + ".")[|c|];
    }
  }

  lemma SameSegment(q: string, o: nat, a: string, b: string)
    requires PlainId(a) && PlainId(b)
    requires o + |a| <= |q| && q[o..o + |a|] == a && (o + |a| < |q| ==> q[o + |a|] == '.')
    requires o + |b| <= |q| && q[o..o + |b|] == b && (o + |b| < |q| ==> q[o + |b|] == '.')
    ensures a == b
  {
  }

  /** Two siblings with different plain ids have disjoint subtrees of paths. */
  lemma SiblingSubtreesDisjoint(parent: string, a: string, b: string, q: string)
    requires PlainId(a) && PlainId(b)
    ensures AtOrBelow(ComposePath(parent, a), q) && AtOrBelow(ComposePath(parent, b), q) ==> a == b
  {
    if AtOrBelow(ComposePath(parent, a), q) && AtOrBelow(ComposePath(parent, b), q) {
      SegmentAt(parent, a, q);
      SegmentAt(parent, b, q);
      SameSegment(q, IdOffset(parent), a, b);
    }
  }

  // ---------------------------------------------------------------------------
  // The conditional renderer

  /** One rendered entry: a node of the schema at its composed path.  For a
      section it stands for the section heading, for any other node for the
      field component bound to the path. */
  datatype Visible = Visible(path: string, node: FieldNode)

  /** `field.fields.find(f => f.condition?.value === selected)`, as the index of the
      first child whose trigger equals the selected value. */
  function FirstMatch(children: seq<FieldNode>, selected: Option<Value>): (r: Option<nat>)
    ensures r.Some? ==> r.value < |children| && StrictEquals(children[r.value].condition, selected)
    ensures r.Some? ==> forall j :: 0 <= j < r.value ==> !StrictEquals(children[j].condition, selected)
    ensures r.None? ==> forall j :: 0 <= j < |children| ==> !StrictEquals(children[j].condition, selected)
  {
    if children == [] then None
    else if StrictEquals(children[0].condition, selected) then Some(0)
    else match FirstMatch(children[1..], selected)
      case None => None
      case Some(k) => Some(k + 1)
  }

  /** `renderFields(fields, parent)`: the siblings' renderings, one after the other. */
  function RenderFields(fields: seq<FieldNode>, parent: string, st: Store): (r: seq<Visible>)
    requires WellFormed(fields)
    ensures |r| >= |fields|
    decreases fields
  {
    if fields == [] then []
    else RenderNode(fields[0], parent, st) + RenderFields(fields[1..], parent, st)
  }

  /** The rendering of one node: the node itself at its path, then whatever
      children are visible below that path. */
  function RenderNode(n: FieldNode, parent: string, st: Store): (r: seq<Visible>)
    requires NodeWellFormed(n)
    ensures |r| >= 1 && r[0] == Visible(ComposePath(parent, n.id), n)
    decreases n, 1
  {
    var path := ComposePath(parent, n.id);
    [Visible(path, n)] + VisibleChildren(n, path, st)
  }

  /** The children a node shows under its path.  A section shows all of its
      children; a checkbox that declares children shows them while its stored
      value is truthy; a select that declares children shows the first one whose
      trigger equals the stored value; anything else shows none. */
  function VisibleChildren(n: FieldNode, path: string, st: Store): seq<Visible>
    requires NodeWellFormed(n)
    decreases n, 0
  {
    if n.kind == "section" then
      RenderFields(n.fields, path, st)
    else if n.kind == "checkbox" && n.hasFields then
      if Truthy(Lookup(st, path)) then RenderFields(n.fields, path, st) else []
    else if n.kind == "select" && n.hasFields then
      match FirstMatch(n.fields, Lookup(st, path))
      case None => []
      case Some(k) => RenderNode(n.fields[k], path, st)
    else
      []
  }

  /** The whole form: the schema's top-level fields under the empty parent path. */
  function RenderForm(schema: seq<FieldNode>, st: Store): (r: seq<Visible>)
    requires WellFormed(schema)
    ensures forall i :: 0 <= i < |schema| ==> Visible(schema[i].id, schema[i]) in r
    ensures forall i :: 0 <= i < |r| ==> UnderSibling(schema, "", r[i].path)
  {
    EverySiblingRendered(schema, "", st);
    RenderFieldsUnder(schema, "", st);
    RenderFields(schema, "", st)
  }

  // ---------------------------------------------------------------------------
  // Properties of the renderer

  /** Every entry of a sibling list's rendering lies strictly below the parent path. */
  lemma {:induction false} RenderFieldsBelow(fields: seq<FieldNode>, parent: string, st: Store)
    requires WellFormed(fields)
    ensures forall i :: 0 <= i < |RenderFields(fields, parent, st)| ==> Below(parent, RenderFields(fields, parent, st)[i].path)
    decreases fields
  {
    if fields != [] {
      var n := fields[0];
      var head := RenderNode(n, parent, st);
      var tail := RenderFields(fields[1..], parent, st);
      RenderNodeBelow(n, parent, st);
      RenderFieldsBelow(fields[1..], parent, st);
      forall i | 0 <= i < |head| ensures Below(parent, head[i].path) {
        ComposedIsBelow(parent, n.id, head[i].path);
      }
      assert RenderFields(fields, parent, st) == head + tail;
    }
  }

  /** q lies at or below the path of one of the siblings. */
  predicate UnderSibling(fields: seq<FieldNode>, parent: string, q: string) {
    exists k :: 0 <= k < |fields| && AtOrBelow(ComposePath(parent, fields[k].id), q)
  }

  lemma UnderLaterSibling(fields: seq<FieldNode>, parent: string, q: string)
    requires fields != [] && UnderSibling(fields[1..], parent, q)
    ensures UnderSibling(fields, parent, q)
  {
    var k :| 0 <= k < |fields[1..]| && AtOrBelow(ComposePath(parent, fields[1..][k].id), q);
    assert fields[1..][k] == fields[k + 1];
  }

  /** Everything a sibling list renders lies at or below one of the siblings' paths. */
  lemma {:induction false} RenderFieldsUnder(fields: seq<FieldNode>, parent: string, st: Store)
    requires WellFormed(fields)
    ensures forall i :: 0 <= i < |RenderFields(fields, parent, st)| ==> UnderSibling(fields, parent, RenderFields(fields, parent, st)[i].path)
    decreases fields
  {
    if fields != [] {
      var n := fields[0];
      var head := RenderNode(n, parent, st);
      var tail := RenderFields(fields[1..], parent, st);
      RenderFieldsCons(fields, parent, st);
      RenderNodeBelow(n, parent, st);
      RenderFieldsUnder(fields[1..], parent, st);
      var r := head + tail;
      forall i | 0 <= i < |r| ensures UnderSibling(fields, parent, r[i].path) {
        if i < |head| {
          assert r[i] == head[i];
          assert i == 0 || Below(ComposePath(parent, n.id), head[i].path);
          assert AtOrBelow(ComposePath(parent, fields[0].id), r[i].path);
        } else {
          assert r[i] == tail[i - |head|];
          UnderLaterSibling(fields, parent, r[i].path);
        }
      }
      assert RenderFields(fields, parent, st) == r;
    } else {
      assert RenderFields(fields, parent, st) == [];
    }
  }

  /** A node renders first itself at its composed path, and everything after that
      strictly below that path. */
  lemma {:induction false} RenderNodeBelow(n: FieldNode, parent: string, st: Store)
    requires NodeWellFormed(n)
    ensures RenderNode(n, parent, st)[0] == Visible(ComposePath(parent, n.id), n)
    ensures forall i :: 1 <= i < |RenderNode(n, parent, st)| ==> Below(ComposePath(parent, n.id), RenderNode(n, parent, st)[i].path)
    decreases n
  {
    var path := ComposePath(parent, n.id);
    var rest := VisibleChildren(n, path, st);
    if n.kind == "section" || (n.kind == "checkbox" && n.hasFields && Truthy(Lookup(st, path))) {
      RenderFieldsBelow(n.fields, path, st);
      assert rest == RenderFields(n.fields, path, st);
    } else if n.kind == "select" && n.hasFields {
      match FirstMatch(n.fields, Lookup(st, path))
      case None =>
      case Some(k) =>
        var c := n.fields[k];
        RenderNodeBelow(c, path, st);
        forall i | 0 <= i < |rest| ensures Below(path, rest[i].path) {
          ComposedIsBelow(path, c.id, rest[i].path);
        }
    }
    HeadThenBelow(path, n, rest);
  }

  /** An entry followed by entries below its path: everything after the first is below. */
  lemma HeadThenBelow(path: string, n: FieldNode, rest: seq<Visible>)
    requires forall i :: 0 <= i < |rest| ==> Below(path, rest[i].path)
    ensures forall i :: 1 <= i < |[Visible(path, n)] + rest| ==> Below(path, ([Visible(path, n)] + rest)[i].path)
  {
    forall i | 1 <= i < |[Visible(path, n)] + rest| ensures Below(path, ([Visible(path, n)] + rest)[i].path) {
      assert ([Visible(path, n)] + rest)[i] == rest[i - 1];
    }
  }

  /** Siblings keep schema order: rendering a concatenation of sibling lists is the
      concatenation of their renderings. */
  lemma {:induction false} RenderFieldsAppend(a: seq<FieldNode>, b: seq<FieldNode>, parent: string, st: Store)
    requires WellFormed(a) && WellFormed(b)
    ensures WellFormed(a + b)
    ensures RenderFields(a + b, parent, st) == RenderFields(a, parent, st) + RenderFields(b, parent, st)
    decreases a
  {
    WellFormedAppend(a, b);
    if a == [] {
      assert a + b == b;
    } else {
      var t := a[1..];
      var ab := a + b;
      assert ab[0] == a[0] && ab[1..] == t + b;
      RenderFieldsCons(ab, parent, st);
      RenderFieldsCons(a, parent, st);
      RenderFieldsAppend(t, b, parent, st);
      Text.ConcatAssoc(RenderNode(a[0], parent, st), RenderFields(t, parent, st), RenderFields(b, parent, st));
    }
  }

  lemma RenderFieldsCons(fields: seq<FieldNode>, parent: string, st: Store)
    requires WellFormed(fields) && fields != []
    ensures WellFormed(fields[1..])
    ensures RenderFields(fields, parent, st) == RenderNode(fields[0], parent, st) + RenderFields(fields[1..], parent, st)
  {
  }

  lemma WellFormedAppend(a: seq<FieldNode>, b: seq<FieldNode>)
    requires WellFormed(a) && WellFormed(b)
    ensures WellFormed(a + b)
  {
    forall i | 0 <= i < |a + b| ensures NodeWellFormed((a + b)[i]) {
      if i >= |a| {
        assert (a + b)[i] == b[i - |a|];
      }
    }
  }

  /** Every sibling is rendered, at its own id composed onto the parent path; at
      the top level (empty parent) that is the bare id. */
  lemma {:induction false} EverySiblingRendered(fields: seq<FieldNode>, parent: string, st: Store)
    requires WellFormed(fields)
    ensures forall i :: 0 <= i < |fields| ==> Visible(ComposePath(parent, fields[i].id), fields[i]) in RenderFields(fields, parent, st)
    decreases fields
  {
    if fields != [] {
      EverySiblingRendered(fields[1..], parent, st);
      var head := RenderNode(fields[0], parent, st);
      var tail := RenderFields(fields[1..], parent, st);
      assert RenderFields(fields, parent, st) == head + tail;
      forall i | 0 <= i < |fields| ensures Visible(ComposePath(parent, fields[i].id), fields[i]) in head + tail {
        if i == 0 {
          assert head[0] == Visible(ComposePath(parent, fields[0].id), fields[0]);
        } else {
          assert fields[i] == fields[1..][i - 1];
        }
      }
    }
  }

  /** A section shows all of its children, whatever the store holds, each at the
      section's path dotted with the child's id. */
  lemma SectionShowsAllChildren(n: FieldNode, parent: string, st: Store)
    requires NodeWellFormed(n) && n.kind == "section"
    ensures var path := ComposePath(parent, n.id);
      forall i :: 0 <= i < |n.fields| ==> Visible(ComposePath(path, n.fields[i].id), n.fields[i]) in RenderNode(n, parent, st)
  {
    EverySiblingRendered(n.fields, ComposePath(parent, n.id), st);
  }

  /** A checkbox that declares children shows them exactly while its stored value
      is truthy; otherwise it renders alone. */
  lemma CheckboxShowsChildrenIffChecked(n: FieldNode, parent: string, st: Store)
    requires NodeWellFormed(n) && n.kind == "checkbox" && n.hasFields
    ensures var path := ComposePath(parent, n.id);
      Truthy(Lookup(st, path)) ==>
        forall i :: 0 <= i < |n.fields| ==> Visible(ComposePath(path, n.fields[i].id), n.fields[i]) in RenderNode(n, parent, st)
    ensures !Truthy(Lookup(st, ComposePath(parent, n.id))) ==> RenderNode(n, parent, st) == [Visible(ComposePath(parent, n.id), n)]
    ensures |RenderNode(n, parent, st)| > 1 <==> Truthy(Lookup(st, ComposePath(parent, n.id))) && n.fields != []
  {
    var path := ComposePath(parent, n.id);
    if Truthy(Lookup(st, path)) {
      EverySiblingRendered(n.fields, path, st);
      assert n.fields != [] ==> |RenderFields(n.fields, path, st)| >= 1;
    }
  }

  /** A select that declares children shows at most one of them: the first whose
      trigger equals the stored value, rendered under the select's path.  When no
      child matches, the select renders alone. */
  lemma SelectShowsFirstMatchingChild(n: FieldNode, parent: string, st: Store)
    requires NodeWellFormed(n) && n.kind == "select" && n.hasFields
    ensures var path := ComposePath(parent, n.id);
      (forall j :: 0 <= j < |n.fields| ==> !StrictEquals(n.fields[j].condition, Lookup(st, path))) ==>
        RenderNode(n, parent, st) == [Visible(path, n)]
    ensures var path := ComposePath(parent, n.id);
      forall k :: (0 <= k < |n.fields| && StrictEquals(n.fields[k].condition, Lookup(st, path)) &&
        (forall j :: 0 <= j < k ==> !StrictEquals(n.fields[j].condition, Lookup(st, path)))) ==>
        && RenderNode(n, parent, st) == [Visible(path, n)] + RenderNode(n.fields[k], path, st)
        && RenderNode(n, parent, st)[1] == Visible(ComposePath(path, n.fields[k].id), n.fields[k])
  {
    var path := ComposePath(parent, n.id);
    var sel := Lookup(st, path);
    var m := FirstMatch(n.fields, sel);
    var rest := match m case None => [] case Some(k) => RenderNode(n.fields[k], path, st);
    assert RenderNode(n, parent, st) == [Visible(path, n)] + rest;
    forall k | 0 <= k < |n.fields| && StrictEquals(n.fields[k].condition, sel) &&
        (forall j :: 0 <= j < k ==> !StrictEquals(n.fields[j].condition, sel))
      ensures RenderNode(n, parent, st) == [Visible(path, n)] + RenderNode(n.fields[k], path, st)
    {
      FirstMatchIsFirst(n.fields, sel, k);
    }
  }

  /** The first child whose trigger matches is the one `find` returns. */
  lemma FirstMatchIsFirst(children: seq<FieldNode>, selected: Option<Value>, k: nat)
    requires k < |children| && StrictEquals(children[k].condition, selected)
    requires forall j :: 0 <= j < k ==> !StrictEquals(children[j].condition, selected)
    ensures FirstMatch(children, selected) == Some(k)
  {
  }

  /** Any other node, including a checkbox or select that declares no children,
      renders as exactly one field bound to its path. */
  lemma LeafRendersAlone(n: FieldNode, parent: string, st: Store)
    requires NodeWellFormed(n)
    requires n.kind != "section" && !(n.kind in {"checkbox", "select"} && n.hasFields)
    ensures RenderNode(n, parent, st) == [Visible(ComposePath(parent, n.id), n)]
  {
  }

  /** What a node renders depends only on the stored values at or below its own
      path: a write elsewhere leaves this subtree's rendering unchanged. */
  lemma {:induction false} RenderNodeDependsOnlyOnSubtree(n: FieldNode, parent: string, st1: Store, st2: Store)
    requires NodeWellFormed(n)
    requires forall q :: AtOrBelow(ComposePath(parent, n.id), q) ==> Lookup(st1, q) == Lookup(st2, q)
    ensures RenderNode(n, parent, st1) == RenderNode(n, parent, st2)
    decreases n
  {
    var path := ComposePath(parent, n.id);
    assert AtOrBelow(path, path);
    forall q | Below(path, q) ensures Lookup(st1, q) == Lookup(st2, q) {
      assert AtOrBelow(path, q);
    }
    if n.kind == "section" || (n.kind == "checkbox" && n.hasFields) {
      RenderFieldsDependsOnlyOnSubtree(n.fields, path, st1, st2);
    } else if n.kind == "select" && n.hasFields {
      match FirstMatch(n.fields, Lookup(st1, path))
      case None =>
      case Some(k) =>
        var c := n.fields[k];
        forall q | AtOrBelow(ComposePath(path, c.id), q) ensures Lookup(st1, q) == Lookup(st2, q) {
          ComposedIsBelow(path, c.id, q);
        }
        RenderNodeDependsOnlyOnSubtree(c, path, st1, st2);
    }
  }

  lemma {:induction false} RenderFieldsDependsOnlyOnSubtree(fields: seq<FieldNode>, parent: string, st1: Store, st2: Store)
    requires WellFormed(fields)
    requires forall q :: Below(parent, q) ==> Lookup(st1, q) == Lookup(st2, q)
    ensures RenderFields(fields, parent, st1) == RenderFields(fields, parent, st2)
    decreases fields
  {
    if fields != [] {
      var n := fields[0];
      forall q | AtOrBelow(ComposePath(parent, n.id), q) ensures Lookup(st1, q) == Lookup(st2, q) {
        ComposedIsBelow(parent, n.id, q);
      }
      RenderNodeDependsOnlyOnSubtree(n, parent, st1, st2);
      RenderFieldsDependsOnlyOnSubtree(fields[1..], parent, st1, st2);
    }
  }

  /** No two rendered entries share a path. */
  predicate PathsDistinct(r: seq<Visible>) {
    forall i, j :: 0 <= i < j < |r| ==> r[i].path != r[j].path
  }

  lemma PathsDistinctCons(h: Visible, rest: seq<Visible>)
    requires PathsDistinct(rest)
    requires forall i :: 0 <= i < |rest| ==> rest[i].path != h.path
    ensures PathsDistinct([h] + rest)
  {
    var r := [h] + rest;
    forall i, j | 0 <= i < j < |r| ensures r[i].path != r[j].path {
      assert r[j] == rest[j - 1];
      if i > 0 {
        assert r[i] == rest[i - 1];
      }
    }
  }

  lemma PathsDistinctAppend(x: seq<Visible>, y: seq<Visible>)
    requires PathsDistinct(x) && PathsDistinct(y)
    requires forall i, j :: 0 <= i < |x| && 0 <= j < |y| ==> x[i].path != y[j].path
    ensures PathsDistinct(x + y)
  {
    var r := x + y;
    forall i, j | 0 <= i < j < |r| ensures r[i].path != r[j].path {
      if j < |x| {
        assert r[i] == x[i] && r[j] == x[j];
      } else if i < |x| {
        assert r[i] == x[i] && r[j] == y[j - |x|];
      } else {
        assert r[i] == y[i - |x|] && r[j] == y[j - |x|];
      }
    }
  }

  /** When ids are non-empty and dot-free and siblings' ids differ, every path
      names exactly one rendered field: a node's rendering repeats no path. */
  lemma {:induction false} RenderNodePathsDistinct(n: FieldNode, parent: string, st: Store)
    requires NodeWellFormed(n) && NodeIdsPlain(n)
    ensures PathsDistinct(RenderNode(n, parent, st))
    decreases n
  {
    var path := ComposePath(parent, n.id);
    var rest := VisibleChildren(n, path, st);
    if n.kind == "section" || (n.kind == "checkbox" && n.hasFields && Truthy(Lookup(st, path))) {
      RenderFieldsPathsDistinct(n.fields, path, st);
    } else if n.kind == "select" && n.hasFields {
      match FirstMatch(n.fields, Lookup(st, path))
      case None =>
      case Some(k) =>
        RenderNodePathsDistinct(n.fields[k], path, st);
    }
    var r := RenderNode(n, parent, st);
    assert r == [Visible(path, n)] + rest;
    RenderNodeBelow(n, parent, st);
    assert |path| > 0;
    forall i | 0 <= i < |rest| ensures rest[i].path != path {
      assert rest[i] == r[i + 1];
    }
    PathsDistinctCons(Visible(path, n), rest);
  }

  /** The same for a sibling list: siblings' subtrees never share a path. */
  lemma {:induction false} RenderFieldsPathsDistinct(fields: seq<FieldNode>, parent: string, st: Store)
    requires WellFormed(fields) && IdsPlain(fields)
    ensures PathsDistinct(RenderFields(fields, parent, st))
    decreases fields
  {
    if fields == [] {
      assert RenderFields(fields, parent, st) == [];
    } else {
      var n := fields[0];
      var t := fields[1..];
      RenderFieldsCons(fields, parent, st);
      var head := RenderNode(n, parent, st);
      var tail := RenderFields(t, parent, st);
      RenderNodePathsDistinct(n, parent, st);
      assert IdsPlain(t) by {
        forall i | 0 <= i < |t| ensures NodeIdsPlain(t[i]) {
          assert t[i] == fields[i + 1];
        }
        forall i, j | 0 <= i < j < |t| ensures t[i].id != t[j].id {
          assert t[i] == fields[i + 1] && t[j] == fields[j + 1];
        }
      }
      RenderFieldsPathsDistinct(t, parent, st);
      RenderNodeBelow(n, parent, st);
      RenderFieldsUnder(t, parent, st);
      forall i, j | 0 <= i < |head| && 0 <= j < |tail| ensures head[i].path != tail[j].path {
        assert UnderSibling(t, parent, tail[j].path);
        var k :| 0 <= k < |t| && AtOrBelow(ComposePath(parent, t[k].id), tail[j].path);
        assert t[k] == fields[k + 1];
        assert i == 0 || Below(ComposePath(parent, n.id), head[i].path);
        SiblingSubtreesDisjoint(parent, n.id, t[k].id, head[i].path);
      }
      PathsDistinctAppend(head, tail);
    }
  }

  /** A form's paths are distinct when its ids are plain. */
  lemma RenderFormPathsDistinct(schema: seq<FieldNode>, st: Store)
    requires WellFormed(schema) && IdsPlain(schema)
    ensures PathsDistinct(RenderForm(schema, st))
  {
    RenderFieldsPathsDistinct(schema, "", st);
  }

  /** Without that condition paths collide: a top-level field with id "a.b" and
      a field "b" inside a section "a" are both bound to the path "a.b". */
  lemma DottedIdsCollide()
    ensures var dotted := FieldNode("a.b", "", "text", None, [], false, None, false, []);
      var inner := FieldNode("b", "", "text", None, [], false, None, false, []);
      var section := FieldNode("a", "", "section", None, [], false, None, true, [inner]);
      var r := RenderForm([dotted, section], map[]);
      |r| == 3 && r[0] == Visible("a.b", dotted) && r[2] == Visible("a.b", inner) && dotted != inner
  {
    var dotted := FieldNode("a.b", "", "text", None, [], false, None, false, []);
    var inner := FieldNode("b", "", "text", None, [], false, None, false, []);
    var section := FieldNode("a", "", "section", None, [], false, None, true, [inner]);
    var st: Store := map[];
    assert NodeWellFormed(inner) && NodeWellFormed(dotted);
    assert NodeWellFormed(section);
    assert [dotted, section][1..] == [section];
    assert [section][1..] == [];
    assert [inner][1..] == [];
    LeafRendersAlone(dotted, "", st);
    LeafRendersAlone(inner, "a", st);
    assert ComposePath("a", "b") == "a.b";
    RenderFieldsCons([inner], "a", st);
    assert RenderFields([inner], "a", st) == [Visible("a.b", inner)];
    assert RenderNode(section, "", st) == [Visible("a", section), Visible("a.b", inner)];
    RenderFieldsCons([dotted, section], "", st);
    RenderFieldsCons([section], "", st);
  }

  // ---------------------------------------------------------------------------
  // Submission

  /** What the request to the e-mail route came to: a response whose `ok` flag
      is given, or an exception thrown by the request itself. */
  datatype DispatchOutcome = Responded(ok: bool) | Threw

  /** The word the status styling looks for. */
  const SuccessMarker: string := "successfully"

  const SuccessMessage: string := "Form submitted " + SuccessMarker + ". You will receive a confirmation email shortly."
  const FailureMessage: string := "Failed to submit form. Please try again."
  const ErrorMessage: string := "An error occurred. Please try again."

  /** The message a finished submission leaves: each outcome has its own. */
  function StatusMessage(o: DispatchOutcome): (m: string)
    ensures m == SuccessMessage <==> o == Responded(true)
    ensures m == FailureMessage <==> o == Responded(false)
    ensures m == ErrorMessage <==> o == Threw
  {
    MessagesDistinct();
    match o
    case Responded(true) => SuccessMessage
    case Responded(false) => FailureMessage
    case Threw => ErrorMessage
  }

  lemma MessagesDistinct()
    ensures SuccessMessage != FailureMessage && SuccessMessage != ErrorMessage && FailureMessage != ErrorMessage
  {
    assert SuccessMessage[1] == 'o' && FailureMessage[1] == 'a' && ErrorMessage[1] == 'n';
  }

  datatype StatusStyle = SuccessStyle | ErrorStyle

  /** How a status is shown: not at all while null or empty; green when it
      mentions "successfully", red otherwise. */
  function StyleOf(status: Option<string>): (r: Option<StatusStyle>)
    ensures r.None? <==> status.None? || status.value == ""
    ensures r == Some(SuccessStyle) <==> status.Some? && Text.Includes(status.value, SuccessMarker)
  {
    match status
    case None => None
    case Some(s) =>
      if s == "" then None
      else if Text.Includes(s, SuccessMarker) then Some(SuccessStyle)
      else Some(ErrorStyle)
  }

  lemma SuccessMessageIncludesMarker()
    ensures Text.Includes(SuccessMessage, SuccessMarker)
  {
    Text.IncludesMiddle("Form submitted ", SuccessMarker, ". You will receive a confirmation email shortly.");
  }

  lemma FailureMessageLacksMarker()
    ensures !Text.Includes(FailureMessage, SuccessMarker)
  {
    Text.MissingCharExcludes(FailureMessage, SuccessMarker, 2);
  }

  lemma ErrorMessageLacksMarker()
    ensures !Text.Includes(ErrorMessage, SuccessMarker)
  {
    Text.MissingCharExcludes(ErrorMessage, SuccessMarker, 7);
  }

  lemma SuccessMessageStyled()
    ensures StyleOf(Some(SuccessMessage)) == Some(SuccessStyle)
  {
    SuccessMessageIncludesMarker();
  }

  lemma FailureMessageStyled()
    ensures StyleOf(Some(FailureMessage)) == Some(ErrorStyle)
  {
    FailureMessageLacksMarker();
    assert |FailureMessage| > 0;
  }

  lemma ErrorMessageStyled()
    ensures StyleOf(Some(ErrorMessage)) == Some(ErrorStyle)
  {
    ErrorMessageLacksMarker();
    assert |ErrorMessage| > 0;
  }

  /** Only the success message is styled as a success, and every message is shown. */
  lemma SuccessStyleIffOk(o: DispatchOutcome)
    ensures StyleOf(Some(StatusMessage(o))) == Some(SuccessStyle) <==> o == Responded(true)
    ensures StyleOf(Some(StatusMessage(o))).Some?
  {
    match o
    case Responded(true) =>
      assert StatusMessage(o) == SuccessMessage;
      SuccessMessageStyled();
    case Responded(false) =>
      assert StatusMessage(o) == FailureMessage;
      FailureMessageStyled();
    case Threw =>
      assert StatusMessage(o) == ErrorMessage;
      ErrorMessageStyled();
  }

  /** The submission state of the form: whether a request is in flight, and the
      status message, if any. */
  class Submission {
    var isSubmitting: bool
    var submitStatus: Option<string>

    /** A fresh form is idle with no message. */
    constructor ()
      ensures !isSubmitting && submitStatus == None
    {
      isSubmitting := false;
      submitStatus := None;
    }

    /** The submit button is disabled exactly while a request is in flight. */
    function ButtonDisabled(): (d: bool)
      reads this
      ensures d <==> isSubmitting
    {
      isSubmitting
    }

    /** The button's caption: "Submitting..." while disabled, "Submit" otherwise. */
    function ButtonText(): (t: string)
      reads this
      ensures t == "Submitting..." <==> ButtonDisabled()
      ensures t == "Submit" <==> !ButtonDisabled()
    {
      if isSubmitting then "Submitting..." else "Submit"
    }

    /** The first half of `onSubmit`, before the request is awaited: mark the
        form as submitting and clear the previous message. */
    method BeginSubmit()
      modifies this
      ensures isSubmitting && submitStatus == None
      ensures ButtonDisabled() && ButtonText() == "Submitting..."
      ensures StyleOf(submitStatus) == None
    {
      isSubmitting := true;
      submitStatus := None;
    }

    /** The second half of `onSubmit`, once the request has settled: record the
        message for its outcome and leave the submitting state. */
    method FinishSubmit(o: DispatchOutcome)
      modifies this
      ensures !isSubmitting && submitStatus == Some(StatusMessage(o))
      ensures !ButtonDisabled() && ButtonText() == "Submit"
    {
      match o {
        case Responded(ok) =>
          if ok {
            submitStatus := Some(SuccessMessage);
          } else {
            submitStatus := Some(FailureMessage);
          }
        case Threw =>
          submitStatus := Some(ErrorMessage);
      }
      isSubmitting := false;
    }

    /** `onSubmit` when nothing else happens while the request is in flight. */
    method OnSubmit(o: DispatchOutcome)
      modifies this
      ensures !isSubmitting && submitStatus == Some(StatusMessage(o))
      ensures StyleOf(submitStatus) == Some(SuccessStyle) <==> o == Responded(true)
    {
      BeginSubmit();
      FinishSubmit(o);
      SuccessStyleIffOk(o);
    }

    /** A press of the submit button.  While a request is in flight the button is
        disabled and nothing happens; otherwise, when the form library's validation
        passes, the submission begins. */
    method PressSubmit(valid: bool) returns (started: bool)
      modifies this
      ensures started <==> !old(isSubmitting) && valid
      ensures started ==> isSubmitting && submitStatus == None
      ensures !started ==> isSubmitting == old(isSubmitting) && submitStatus == old(submitStatus)
    {
      started := !ButtonDisabled() && valid;
      if started {
        BeginSubmit();
      }
    }
  }

  // ---------------------------------------------------------------------------
  // Closing open multi-selects on an outside press

  /** A mouse press anywhere in the document.  When it lands outside the form,
      every multi-select whose option list is open gets a click on its header,
      which closes it; a press inside the form changes nothing. */
  method HandleClickOutside(controls: set<FormField.MultiSelect>, insideForm: bool)
    modifies controls
    ensures insideForm ==> forall c :: c in controls ==> c.isOpen == old(c.isOpen)
    ensures !insideForm ==> forall c :: c in controls ==> !c.isOpen
  {
    if !insideForm {
      var openDropdowns := set c | c in controls && c.isOpen;
      var remaining := openDropdowns;
      while remaining != {}
        invariant remaining <= openDropdowns
        invariant forall c :: c in controls ==> (c.isOpen <==> c in remaining)
        decreases remaining
      {
        var c :| c in remaining;
        c.ToggleOpen();
        remaining := remaining - {c};
      }
    }
  }
}
