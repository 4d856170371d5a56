/** `withCssModule(Component, styles)`: rewrites the `className` of every tag element of a
    rendered tree through a CSS-module style map. */
module WithCssModule {
  import opened Text
  import opened Wrappers
  import opened VNode

  /** `styles[cls] || cls` */
  function Lookup(styles: map<string, string>, cls: string): (r: string)
    ensures cls in styles && styles[cls] != "" ==> r == styles[cls]
    ensures !(cls in styles && styles[cls] != "") ==> r == cls
  {
    if cls in styles && styles[cls] != "" then styles[cls] else cls
  }

  function MapTokens(styles: map<string, string>, ws: seq<string>): (r: seq<string>)
    ensures |r| == |ws|
    ensures forall i :: 0 <= i < |ws| ==> r[i] == Lookup(styles, ws[i])
  {
    seq(|ws|, i requires 0 <= i < |ws| => Lookup(styles, ws[i]))
  }

  /** `transformClassName(className)`: a falsy class name gives `''`; otherwise the
      whitespace-separated tokens, each looked up, joined by single spaces. */
  function TransformClassName(styles: map<string, string>, className: Option<string>): (r: string)
    ensures className.None? || className.value == "" ==> r == ""
  {
    if className.None? || className.value == "" then ""
    else Join(MapTokens(styles, Words(className.value)), " ")
  }

  /** Every value of the map is a single class token (or empty, which leaves the token). */
  predicate TokenValues(styles: map<string, string>) {
    forall k :: k in styles ==> styles[k] == "" || IsWord(styles[k])
  }

  /** Splitting the transformed class name again gives the input tokens, each mapped. */
  lemma TransformedTokens(styles: map<string, string>, s: string)
    requires TokenValues(styles)
    ensures Words(TransformClassName(styles, Some(s))) == MapTokens(styles, Words(s))
  {
    var mapped := MapTokens(styles, Words(s));
    forall i | 0 <= i < |mapped| ensures IsWord(mapped[i]) {
    }
    if s != "" {
      WordsOfJoin(mapped);
    }
  }

  /** With an empty map the class name is only normalised: the same tokens, separated by
      single spaces, with no leading or trailing space; doing it twice changes nothing. */
  lemma EmptyStylesNormalise(s: string)
    ensures var r := TransformClassName(map[], Some(s));
      && r == Join(Words(s), " ")
      && Words(r) == Words(s)
      && TransformClassName(map[], Some(r)) == r
  {
    var ws := Words(s);
    assert MapTokens(map[], ws) == ws;
    if s != "" {
      WordsOfJoin(ws);
      var r := Join(ws, " ");
      if r != "" {
        assert MapTokens(map[], Words(r)) == ws;
      }
    }
  }

  /** `processVNode(vnode)` with `deep = false`, as every recursive call makes it. A falsy
      value, a non-element and a component element are returned as they are. A tag
      element gets the transformed class name, and its truthy children are processed,
      element by element for an array. */
  function ProcessShallow(styles: map<string, string>, v: Node): (r: Node)
    ensures !(v.Elem? && v.kind.Tag?) ==> r == v
    ensures v.Elem? && v.kind.Tag? ==>
      && r.Elem? && r.kind == v.kind && r.attrs == v.attrs
      && r.className == Some(TransformClassName(styles, v.className))
    decreases v, 1
  {
    match v
    case Elem(Tag(_), className, children, attrs) =>
      var processed :=
        if Truthy(children) then
          if children.Arr? then Arr(ProcessItems(styles, children.items))
          else ProcessShallow(styles, children)
        else children;
      Elem(v.kind, Some(TransformClassName(styles, className)), processed, attrs)
    case _ => v
  }

  /** `children.map(child => processVNode(child))` */
  function ProcessItems(styles: map<string, string>, items: seq<Node>): (r: seq<Node>)
    ensures |r| == |items|
    decreases items, 0
  {
    seq(|items|, i requires 0 <= i < |items| => ProcessShallow(styles, items[i]))
  }

  /** `processVNode(vnode, deep)`. With `deep`, a component element is rendered by
      `render` (the component function, which this model cannot see) and the result
      processed with `deep = false`; `render` returning `None` stands for the caught
      exception, which returns the node. Everything else is the shallow case. */
  function ProcessVNode(styles: map<string, string>, v: Node, deep: bool, render: Node -> Option<Node>): (r: Node)
    ensures !(deep && v.Elem? && v.kind.Component?) ==> r == ProcessShallow(styles, v)
    ensures deep && v.Elem? && v.kind.Component? ==>
      r == if render(v).Some? then ProcessShallow(styles, render(v).value) else v
  {
    if deep && v.Elem? && v.kind.Component? then
      match render(v)
      case Some(result) => ProcessShallow(styles, result)
      case None => v
    else ProcessShallow(styles, v)
  }

  /** Apart from class names, the processed tree is the input tree: other props, kinds,
      array lengths, components and non-element values are all kept. */
  lemma {:induction false} ProcessKeepsStructure(styles: map<string, string>, v: Node)
    ensures Erase(ProcessShallow(styles, v)) == Erase(v)
    decreases v
  {
    match v
    case Elem(Tag(_), _, children, _) =>
      if children.Arr? {
        var items := children.items;
        var out := ProcessItems(styles, items);
        forall i | 0 <= i < |items| ensures Erase(out[i]) == Erase(items[i]) {
          ProcessKeepsStructure(styles, items[i]);
        }
        assert seq(|out|, i requires 0 <= i < |out| => Erase(out[i]))
            == seq(|items|, i requires 0 <= i < |items| => Erase(items[i]));
      } else {
        ProcessKeepsStructure(styles, children);
      }
    case _ =>
  }

  /** `transformClassName` for a fixed style map, as a function value. */
  function Transform(styles: map<string, string>): Option<string> -> string {
    c => TransformClassName(styles, c)
  }

  /** The class names of the processed tree are those of the input, in the same order,
      each replaced by its transformed value. */
  lemma {:induction false} ProcessMapsClasses(styles: map<string, string>, v: Node)
    ensures Classes(ProcessShallow(styles, v)) == MapClasses(Transform(styles), Classes(v))
    decreases v, 2
  {
    if v.Elem? && v.kind.Tag? {
      var t := Transform(styles);
      var r := ProcessShallow(styles, v);
      ChildClasses(styles, v);
      ClassesOfTag(v);
      ClassesOfTag(r);
      MapClassesCons(t, v.className, ChildrenClasses(v.children));
      assert t(v.className) == TransformClassName(styles, v.className);
    }
  }

  lemma {:induction false} ChildClasses(styles: map<string, string>, v: Node)
    requires v.Elem? && v.kind.Tag?
    ensures ChildrenClasses(ProcessShallow(styles, v).children)
            == MapClasses(Transform(styles), ChildrenClasses(v.children))
    decreases v, 1
  {
    var children := v.children;
    var r := ProcessShallow(styles, v);
    if children.Arr? {
      ProcessItemsMapsClasses(styles, children.items);
      assert r.children == Arr(ProcessItems(styles, children.items));
    } else {
      ProcessMapsClasses(styles, children);
      assert r.children == ProcessShallow(styles, children);
    }
  }

  lemma {:induction false} ProcessItemsMapsClasses(styles: map<string, string>, items: seq<Node>)
    ensures var out := ProcessItems(styles, items);
      Flatten(seq(|out|, i requires 0 <= i < |out| => Classes(out[i])))
      == MapClasses(Transform(styles), Flatten(seq(|items|, i requires 0 <= i < |items| => Classes(items[i]))))
    decreases items, 0
  {
    var t := Transform(styles);
    var out := ProcessItems(styles, items);
    var before := seq(|items|, i requires 0 <= i < |items| => Classes(items[i]));
    var after := seq(|out|, i requires 0 <= i < |out| => Classes(out[i]));
    forall i | 0 <= i < |items| ensures after[i] == MapClasses(t, before[i]) {
      ProcessMapsClasses(styles, items[i]);
    }
    MapFlatten(t, before);
    assert after == seq(|before|, i requires 0 <= i < |before| => MapClasses(t, before[i]));
  }

  /** `WrappedComponent(props)`: `h(Component, props)` processed with `deep = true`, so the
      component's own output is rewritten, but components nested inside it are not. */
  function Wrapped(styles: map<string, string>, component: Node, render: Node -> Option<Node>): (r: Node)
    requires component.Elem? && component.kind.Component?
    ensures render(component).None? ==> r == component
    ensures render(component).Some? ==> Erase(r) == Erase(render(component).value)
    ensures render(component).Some? ==>
      Classes(r) == MapClasses(Transform(styles), Classes(render(component).value))
  {
    var r := ProcessVNode(styles, component, true, render);
    if render(component).Some? then
      ProcessKeepsStructure(styles, render(component).value);
      ProcessMapsClasses(styles, render(component).value);
      r
    else r
  }
}
