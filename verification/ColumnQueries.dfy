/** The media query rewriting of `apps/pwa/column-queries.ts` and the cascade it preserves. */
module ColumnQueries {
  import opened Text
  import opened MediaList
  import WidthFeatures

  /** What applies to one element: declarations of its rules, in order, within media and container
      blocks. The container is always the content column. */
  datatype Item =
    | Style(declarations: map<string, string>)
    | Media(params: string, body: seq<Item>)
    | Container(condition: string, body: seq<Item>)

  /** Widths in pixels; `column` is the width of the column around the element, if it is inside.
      `px` reads a length (None for an invalid one); `other` judges conditions that are not made of
      width features, at the viewport. */
  datatype Env = Env(viewport: real, column: Option<real>, px: string -> Option<real>, other: string -> bool)

  /** The column is never wider than the viewport, and an empty query in a list never holds. */
  predicate ValidEnv(env: Env) {
    (env.column.Some? ==> env.column.value <= env.viewport) && !env.other("")
  }

  // ----- meaning of conditions -----

  predicate Above(env: Env, length: string, strict: bool, width: real) {
    env.px(length).Some? && if strict then width < env.px(length).value else width <= env.px(length).value
  }

  predicate Below(env: Env, length: string, strict: bool, width: real) {
    env.px(length).Some? && if strict then env.px(length).value < width else env.px(length).value <= width
  }

  predicate BoundHolds(env: Env, b: Bound, width: real) {
    match b
    case Upper(l, strict) => Above(env, l, strict, width)
    case Lower(l, strict) => Below(env, l, strict, width)
    case Between(low, lowStrict, high, highStrict) => Below(env, low, lowStrict, width) && Above(env, high, highStrict, width)
  }

  /** A condition made of width features holds when all of them hold. */
  predicate WidthHolds(env: Env, condition: string, width: real) {
    var bounds := Bounds(Conjuncts(condition));
    bounds.Some? && forall i :: 0 <= i < |bounds.value| ==> BoundHolds(env, bounds.value[i], width)
  }

  /** What each written form demands of the width. */
  predicate Demands(env: Env, w: WidthFeatures.Written, width: real) {
    match w
    case MaxWidth(_, _, _, _, l, _) => env.px(l).Some? && width <= env.px(l).value
    case MinWidth(_, _, _, _, l, _) => env.px(l).Some? && width >= env.px(l).value
    case WidthBelow(_, _, _, strict, _, l, _) => env.px(l).Some? && (width < env.px(l).value || (!strict && width == env.px(l).value))
    case LengthAbove(_, l, _, strict, _, _, _) => env.px(l).Some? && (env.px(l).value > width || (!strict && env.px(l).value == width))
    case WidthAbove(_, _, _, strict, _, l, _) => env.px(l).Some? && (width > env.px(l).value || (!strict && width == env.px(l).value))
    case LengthBelow(_, l, _, strict, _, _, _) => env.px(l).Some? && (env.px(l).value < width || (!strict && env.px(l).value == width))
    case Range(_, low, _, lowStrict, _, _, _, highStrict, _, high, _) =>
      env.px(low).Some? && env.px(high).Some? &&
      (env.px(low).value < width || (!lowStrict && env.px(low).value == width)) &&
      (width < env.px(high).value || (!highStrict && width == env.px(high).value))
  }

  /** A condition written in features holds exactly when all of them hold. */
  lemma WrittenHolds(env: Env, condition: string, lead: string, ws: seq<WidthFeatures.Written>, seps: seq<string>,
    trail: string, width: real)
    requires WidthFeatures.Composed(condition, lead, ws, seps, trail)
    ensures WidthHolds(env, condition, width) <==> forall w :: w in ws ==> Demands(env, w, width)
  {
    hide Bounds, Conjuncts, WidthFeatures.Composed, Demands, BoundHolds;
    WidthFeatures.ComposedRead(condition, lead, ws, seps, trail);
    var bounds := WidthFeatures.Meanings(ws);
    forall i | 0 <= i < |ws| ensures BoundHolds(env, bounds[i], width) <==> Demands(env, ws[i], width) {
      MeaningHolds(env, ws[i], width);
    }
    if WidthHolds(env, condition, width) {
      forall w | w in ws ensures Demands(env, w, width) {
        var i :| 0 <= i < |ws| && ws[i] == w;
        assert BoundHolds(env, bounds[i], width);
      }
    }
    if forall w :: w in ws ==> Demands(env, w, width) {
      forall i | 0 <= i < |bounds| ensures BoundHolds(env, bounds[i], width) {
        assert ws[i] in ws;
      }
    }
  }

  lemma MeaningHolds(env: Env, w: WidthFeatures.Written, width: real)
    ensures BoundHolds(env, WidthFeatures.Meaning(w), width) <==> Demands(env, w, width)
  {
  }

  predicate ViewportHolds(env: Env, condition: string) {
    if KindOf(condition) == NotWidth then env.other(condition) else WidthHolds(env, condition, env.viewport)
  }

  /** A media query list: the empty list always holds. */
  predicate MediaHolds(env: Env, params: string) {
    Conditions(params) == [] || exists c :: c in Conditions(params) && ViewportHolds(env, c)
  }

  predicate ContainerHolds(env: Env, condition: string) {
    env.column.Some? && WidthHolds(env, condition, env.column.value)
  }

  // ----- the cascade -----

  /** The final declarations: what comes later wins. */
  function Declarations(items: seq<Item>, env: Env): map<string, string> {
    if items == [] then map[] else ItemDeclarations(items[0], env) + Declarations(items[1..], env)
  }

  function ItemDeclarations(item: Item, env: Env): map<string, string> {
    match item
    case Style(d) => d
    case Media(params, body) => if MediaHolds(env, params) then Declarations(body, env) else map[]
    case Container(c, body) => if ContainerHolds(env, c) then Declarations(body, env) else map[]
  }

  // ----- the rewriting -----

  function Filter(conditions: seq<string>, without: Kind): (r: seq<string>)
    ensures forall c :: c in r <==> c in conditions && KindOf(c) != without
  {
    if conditions == [] then []
    else
      assert conditions == [conditions[0]] + conditions[1..];
      (if KindOf(conditions[0]) != without then [conditions[0]] else []) + Filter(conditions[1..], without)
  }

  /** The conditions that stay with the viewport, and those copied to the column. */
  function ViewportList(params: string): seq<string> { Filter(Conditions(params), Other) }

  function ContainerList(params: string): seq<string> { Filter(Conditions(params), NotWidth) }

  function Copies(conditions: seq<string>, body: seq<Item>): seq<Item> {
    if conditions == [] then [] else [Container(conditions[0], body)] + Copies(conditions[1..], body)
  }

  /** One media rule: unchanged without width conditions; otherwise the rule for the viewport, if any
      condition is left for it, followed by a container copy for every width condition. */
  function RewriteMedia(params: string, body: seq<Item>): seq<Item> {
    if ContainerList(params) == [] then [Media(params, body)]
    else
      (if ViewportList(params) == [] then [] else [Media(Join(ViewportList(params), ", "), body)])
      + Copies(ContainerList(params), body)
  }

  function RewriteItem(item: Item): seq<Item> {
    match item
    case Style(d) => [item]
    case Media(params, body) => RewriteMedia(params, Rewrite(body))
    case Container(c, body) => [Container(c, Rewrite(body))]
  }

  function Rewrite(items: seq<Item>): seq<Item> {
    if items == [] then [] else RewriteItem(items[0]) + Rewrite(items[1..])
  }

  /** The visitor's handling of one media rule: what stands in its place afterwards. */
  method VisitMedia(params: string, body: seq<Item>) returns (after: seq<Item>)
    ensures after == RewriteMedia(params, body)
  {
    hide KindOf, Conditions, Copies, Filter, Join;
    var conditions := SplitList(params);
    var kinds: seq<Kind> := [];
    for i := 0 to |conditions|
      invariant |kinds| == i && forall j :: 0 <= j < i ==> kinds[j] == KindOf(conditions[j])
    {
      var kind := WidthCondition(conditions[i]);
      kinds := kinds + [kind];
    }
    var container := Keep(conditions, kinds, NotWidth);
    if container == [] {
      return [Media(params, body)];
    }
    var viewport := Keep(conditions, kinds, Other);
    after := Copies(container, body);
    if viewport != [] {
      after := [Media(Join(viewport, ", "), body)] + after;
    } else {
      assert [] + after == after;
    }
  }

  method Keep(conditions: seq<string>, kinds: seq<Kind>, without: Kind) returns (kept: seq<string>)
    requires |kinds| == |conditions| && forall j :: 0 <= j < |kinds| ==> kinds[j] == KindOf(conditions[j])
    ensures kept == Filter(conditions, without)
  {
    hide KindOf;
    kept := [];
    for i := 0 to |conditions|
      invariant kept == Filter(conditions[..i], without)
    {
      FilterSnoc(conditions, i, without);
      if kinds[i] != without {
        kept := kept + [conditions[i]];
      }
    }
    assert conditions[..|conditions|] == conditions;
  }

  lemma {:induction false} FilterCat(a: seq<string>, b: seq<string>, without: Kind)
    ensures Filter(a + b, without) == Filter(a, without) + Filter(b, without)
  {
    hide KindOf;
    if a == [] {
      assert a + b == b;
    } else {
      assert (a + b)[1..] == a[1..] + b && (a + b)[0] == a[0];
      FilterCat(a[1..], b, without);
      ListAssociate(if KindOf(a[0]) != without then [a[0]] else [], Filter(a[1..], without), Filter(b, without));
    }
  }

  lemma FilterSnoc(conditions: seq<string>, i: nat, without: Kind)
    requires i < |conditions|
    ensures Filter(conditions[..i + 1], without) ==
            Filter(conditions[..i], without) + if KindOf(conditions[i]) != without then [conditions[i]] else []
  {
    hide KindOf;
    assert conditions[..i + 1] == conditions[..i] + [conditions[i]];
    FilterCat(conditions[..i], [conditions[i]], without);
    assert [conditions[i]][1..] == [];
  }

  // ----- what the rewritten stylesheet should mean -----

  /** Where a condition is judged: width conditions at the column, all others at the viewport; outside
      the column the ones that are upper bounds stay at the viewport and the rest is off. */
  predicate IntendedHolds(env: Env, condition: string) {
    match KindOf(condition)
    case NotWidth => env.other(condition)
    case Max => WidthHolds(env, condition, if env.column.Some? then env.column.value else env.viewport)
    case Other => env.column.Some? && WidthHolds(env, condition, env.column.value)
  }

  predicate IntendedMedia(env: Env, params: string) {
    Conditions(params) == [] || exists c :: c in Conditions(params) && IntendedHolds(env, c)
  }

  function Intended(items: seq<Item>, env: Env): map<string, string> {
    if items == [] then map[] else IntendedItem(items[0], env) + Intended(items[1..], env)
  }

  function IntendedItem(item: Item, env: Env): map<string, string> {
    match item
    case Style(d) => d
    case Media(params, body) => if IntendedMedia(env, params) then Intended(body, env) else map[]
    case Container(c, body) => if ContainerHolds(env, c) then Intended(body, env) else map[]
  }

  /** The one list that the rewriting gets wrong: a width condition beside a single empty query. What
      is left for the viewport is then the empty list, which always holds. */
  predicate Degenerate(params: string) {
    ContainerList(params) != [] && ViewportList(params) == [""]
  }

  predicate NoneDegenerate(items: seq<Item>) {
    forall i :: 0 <= i < |items| ==>
      match items[i]
      case Style(d) => true
      case Media(params, body) => !Degenerate(params) && NoneDegenerate(body)
      case Container(c, body) => NoneDegenerate(body)
  }

  // ----- the proofs -----

  /** Upper bounds that hold at the viewport hold at the column. */
  lemma MaxIsMonotone(env: Env, condition: string)
    requires ValidEnv(env) && env.column.Some? && KindOf(condition) == Max && WidthHolds(env, condition, env.viewport)
    ensures WidthHolds(env, condition, env.column.value)
  {
    hide Bounds, Conjuncts;
    var bounds := Bounds(Conjuncts(condition)).value;
    forall i | 0 <= i < |bounds| ensures BoundHolds(env, bounds[i], env.column.value) {
      assert bounds[i].Upper? && BoundHolds(env, bounds[i], env.viewport);
    }
  }

  lemma EmptyQuery()
    ensures KindOf("") == NotWidth
  {
    assert Trim("") == "";
    var parts := Conjuncts("");
    assert parts == [""];
    assert Feature(Trim(parts[0])).None?;
  }

  lemma {:induction false} FilterShape(parts: seq<string>, without: Kind)
    requires ListShape(parts)
    ensures ListShape(Filter(parts, without))
  {
    hide KindOf, TopFree, Depth, Trimmed;
    if parts != [] {
      ShapeTail(parts);
      var rest := Filter(parts[1..], without);
      FilterShape(parts[1..], without);
      if KindOf(parts[0]) != without {
        if rest == [] {
          ShapeSingle(parts[0]);
          assert [parts[0]] + [] == [parts[0]];
        } else {
          assert rest[0] in parts[1..];
          assert |parts| > 1;
          ShapeCons(parts[0], rest);
        }
      } else {
        assert [] + rest == rest;
      }
    }
  }

  /** The joined list holds when one of its conditions does, unless it became the empty text. */
  lemma JoinedHolds(env: Env, parts: seq<string>)
    requires ValidEnv(env) && ListShape(parts) && parts != [] && parts != [""]
    ensures MediaHolds(env, Join(parts, ", ")) <==> exists c :: c in parts && ViewportHolds(env, c)
  {
    hide KindOf, ListShape, Conditions;
    JoinThenSplit(parts);
    EmptyQuery();
    var read := Conditions(Join(parts, ", "));
    DropOnlyEmpty(parts);
    assert !ViewportHolds(env, "");
    if c :| c in parts && ViewportHolds(env, c) {
      assert c in read;
    }
  }

  lemma DropOnlyEmpty(parts: seq<string>)
    requires parts != [] && parts != [""]
    ensures DropEmptyLast(parts) != []
    ensures forall c :: c in DropEmptyLast(parts) ==> c in parts
    ensures forall c :: c in parts && c != "" ==> c in DropEmptyLast(parts)
  {
    var n := |parts| - 1;
    assert parts == parts[..n] + [parts[n]];
  }

  lemma {:induction false} CopiesDeclarations(conditions: seq<string>, body: seq<Item>, env: Env)
    ensures Declarations(Copies(conditions, body), env) ==
            if exists c :: c in conditions && ContainerHolds(env, c) then Declarations(body, env) else map[]
  {
    hide ContainerHolds;
    if conditions != [] {
      var rest := Copies(conditions[1..], body);
      CopiesDeclarations(conditions[1..], body, env);
      var all := Copies(conditions, body);
      assert all[0] == Container(conditions[0], body) && all[1..] == rest;
      assert conditions == [conditions[0]] + conditions[1..];
      if ContainerHolds(env, conditions[0]) {
        assert conditions[0] in conditions;
      }
    }
  }

  lemma {:induction false} DeclarationsCat(a: seq<Item>, b: seq<Item>, env: Env)
    ensures Declarations(a + b, env) == Declarations(a, env) + Declarations(b, env)
  {
    hide ItemDeclarations;
    if a == [] {
      assert a + b == b;
    } else {
      assert (a + b)[1..] == a[1..] + b && (a + b)[0] == a[0];
      DeclarationsCat(a[1..], b, env);
      Override(ItemDeclarations(a[0], env), Declarations(a[1..], env), Declarations(b, env));
    }
  }

  lemma Override(a: map<string, string>, b: map<string, string>, c: map<string, string>)
    ensures a + b + c == a + (b + c)
  {
  }

  lemma SingleDeclarations(item: Item, env: Env)
    ensures Declarations([item], env) == ItemDeclarations(item, env)
  {
    assert [item][1..] == [];
  }

  /** After the rewriting of one rule its body applies once or several times, or not at all. */
  predicate AfterHolds(env: Env, params: string) {
    if ContainerList(params) == [] then MediaHolds(env, params)
    else
      (ViewportList(params) != [] && MediaHolds(env, Join(ViewportList(params), ", ")))
      || exists c :: c in ContainerList(params) && ContainerHolds(env, c)
  }

  lemma RewriteMediaDeclarations(params: string, body: seq<Item>, env: Env)
    ensures Declarations(RewriteMedia(params, body), env) ==
            if AfterHolds(env, params) then Declarations(body, env) else map[]
  {
    hide MediaHolds, ContainerHolds, ViewportList, ContainerList;
    if ContainerList(params) == [] {
      SingleDeclarations(Media(params, body), env);
    } else {
      var viewport, container := ViewportList(params), ContainerList(params);
      CopiesDeclarations(container, body, env);
      if viewport == [] {
        assert [] + Copies(container, body) == Copies(container, body);
      } else {
        var rule := Media(Join(viewport, ", "), body);
        SingleDeclarations(rule, env);
        DeclarationsCat([rule], Copies(container, body), env);
      }
    }
  }

  /** Main theorem for one rule, exactly: the rewriting means what is intended in every environment if
      and only if the list is not the degenerate one. */
  lemma RuleFaithful(params: string)
    ensures (forall env :: ValidEnv(env) ==> (AfterHolds(env, params) <==> IntendedMedia(env, params))) <==> !Degenerate(params)
  {
    if Degenerate(params) {
      var env := DegenerateFails(params);
      assert ValidEnv(env) && !(AfterHolds(env, params) <==> IntendedMedia(env, params));
    } else {
      forall env | ValidEnv(env) ensures AfterHolds(env, params) <==> IntendedMedia(env, params) {
        RuleIntended(env, params);
      }
    }
  }

  lemma EmptyListHolds(env: Env)
    ensures MediaHolds(env, Join([""], ", "))
  {
    assert Join([""], ", ") == "";
    NoConditions();
  }

  lemma DegenerateFails(params: string) returns (env: Env)
    requires Degenerate(params)
    ensures ValidEnv(env) && AfterHolds(env, params) && !IntendedMedia(env, params)
  {
    hide KindOf, Conditions, MediaHolds, WidthHolds, Join;
    env := Env(0.0, None, length => None, condition => false);
    EmptyListHolds(env);
    EmptyQuery();
    assert ContainerList(params)[0] in Conditions(params);
    forall c | c in Conditions(params) ensures !IntendedHolds(env, c) {
      assert c in ViewportList(params) <==> KindOf(c) != Other;
    }
  }

  lemma RuleIntended(env: Env, params: string)
    requires ValidEnv(env) && !Degenerate(params)
    ensures AfterHolds(env, params) <==> IntendedMedia(env, params)
  {
    hide KindOf, WidthHolds, ListShape, Conditions;
    var conditions, viewport, container := Conditions(params), ViewportList(params), ContainerList(params);
    if container == [] {
      forall c | c in conditions ensures ViewportHolds(env, c) <==> IntendedHolds(env, c) {
        assert c !in container;
      }
    } else {
      assert container[0] in conditions;
      ListOfParams(params);
      FilterShape(conditions, Other);
      if viewport != [] {
        JoinedHolds(env, viewport);
      }
      if AfterHolds(env, params) {
        AfterIsIntended(env, params);
      }
      if c :| c in conditions && IntendedHolds(env, c) {
        IntendedIsAfter(env, params, c);
      }
    }
  }

  lemma ListOfParams(params: string)
    ensures ListShape(Conditions(params))
  {
    assert TopFree("", 0) && Depth("") == 0;
    SplitShape(params, 0, "");
  }

  lemma AfterIsIntended(env: Env, params: string)
    requires ValidEnv(env) && AfterHolds(env, params) && ContainerList(params) != []
    requires ViewportList(params) != [] ==>
      (MediaHolds(env, Join(ViewportList(params), ", ")) <==> exists c :: c in ViewportList(params) && ViewportHolds(env, c))
    ensures exists c :: c in Conditions(params) && IntendedHolds(env, c)
  {
    hide KindOf, WidthHolds, Conditions, MediaHolds;
    if c :| c in ContainerList(params) && ContainerHolds(env, c) {
      assert IntendedHolds(env, c);
    } else {
      var c :| c in ViewportList(params) && ViewportHolds(env, c);
      if KindOf(c) == Max && env.column.Some? {
        MaxIsMonotone(env, c);
      }
      assert IntendedHolds(env, c);
    }
  }

  lemma IntendedIsAfter(env: Env, params: string, c: string)
    requires c in Conditions(params) && IntendedHolds(env, c) && ContainerList(params) != []
    requires ViewportList(params) != [] ==>
      (MediaHolds(env, Join(ViewportList(params), ", ")) <==> exists c :: c in ViewportList(params) && ViewportHolds(env, c))
    ensures AfterHolds(env, params)
  {
    hide KindOf, WidthHolds, Conditions, MediaHolds;
    if env.column.Some? && KindOf(c) != NotWidth {
      assert c in ContainerList(params) && ContainerHolds(env, c);
    } else {
      assert c in ViewportList(params) && ViewportHolds(env, c);
    }
  }

  /** Main theorem: the cascade of the rewritten stylesheet, media rules nested to any depth, gives
      every element its intended declarations. */
  lemma {:induction false} CascadePreserved(items: seq<Item>, env: Env)
    requires ValidEnv(env) && NoneDegenerate(items)
    ensures Declarations(Rewrite(items), env) == Intended(items, env)
    decreases items
  {
    hide Degenerate, RewriteMedia, AfterHolds, IntendedMedia, ContainerHolds, MediaHolds;
    if items != [] {
      var item, rest := items[0], items[1..];
      forall i | 0 <= i < |rest| ensures rest[i] == items[i + 1] {}
      CascadePreserved(rest, env);
      DeclarationsCat(RewriteItem(item), Rewrite(rest), env);
      match item
      case Style(d) =>
        SingleDeclarations(item, env);
      case Media(params, body) =>
        CascadePreserved(body, env);
        RewriteMediaDeclarations(params, Rewrite(body), env);
        RuleIntended(env, params);
      case Container(c, body) =>
        CascadePreserved(body, env);
        SingleDeclarations(Container(c, Rewrite(body)), env);
    }
  }

  /** At equal widths nothing changes for an element in the column. */
  lemma {:induction false} EqualWidths(items: seq<Item>, env: Env)
    requires ValidEnv(env) && env.column == Some(env.viewport)
    ensures Intended(items, env) == Declarations(items, env)
    decreases items
  {
    hide ContainerHolds;
    if items != [] {
      EqualWidths(items[1..], env);
      match items[0]
      case Style(d) =>
      case Media(params, body) =>
        EqualWidths(body, env);
        EqualMedia(params, env);
      case Container(c, body) =>
        EqualWidths(body, env);
    }
  }

  lemma EqualMedia(params: string, env: Env)
    requires env.column == Some(env.viewport)
    ensures IntendedMedia(env, params) <==> MediaHolds(env, params)
  {
    hide KindOf, WidthHolds, Conditions;
    forall c | c in Conditions(params) ensures IntendedHolds(env, c) <==> ViewportHolds(env, c) {}
  }

  /** The rewriting leaves an element in a column as wide as the viewport its declarations. */
  lemma NothingChangesAtEqualWidths(items: seq<Item>, env: Env)
    requires ValidEnv(env) && env.column == Some(env.viewport) && NoneDegenerate(items)
    ensures Declarations(Rewrite(items), env) == Declarations(items, env)
  {
    CascadePreserved(items, env);
    EqualWidths(items, env);
  }
}
