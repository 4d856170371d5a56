/** The abstract virtual-node tree the class-name utilities walk: a value that is either a
    JavaScript primitive, an array, or an element `{type, props}` whose props hold
    `className`, `children` and other attributes. */
module VNode {
  import opened Wrappers

  /** The `type` of an element: a tag name (a string) or a component function; a
      component is known here only by its source text, which `type.toString()` returns. */
  datatype Kind = Tag(name: string) | Component(source: string)

  datatype Node =
    | Undefined
    | Null
    | Bool(b: bool)
    | Num(n: int)
    | Str(s: string)
    | Arr(items: seq<Node>)
    | Elem(kind: Kind, className: Option<string>, children: Node, attrs: map<string, string>)

  /** JavaScript truthiness: `undefined`, `null`, `false`, `0` and `""` are falsy;
      arrays and elements are objects and always truthy. */
  predicate Truthy(v: Node) {
    match v
    case Undefined => false
    case Null => false
    case Bool(b) => b
    case Num(n) => n != 0
    case Str(s) => s != ""
    case Arr(_) => true
    case Elem(_, _, _, _) => true
  }

  function Flatten<T>(xss: seq<seq<T>>): (r: seq<T>)
  {
    if xss == [] then [] else xss[0] + Flatten(xss[1..])
  }

  /** Reference traversal of the class-name rewriters: starting from an element with a
      tag-name type, descend into `children`, element by element when it is an array.
      The result is the tree with the class name of every element so reached removed;
      everything else, including component elements and nested arrays, is kept. */
  function Erase(v: Node): (r: Node)
    ensures !(v.Elem? && v.kind.Tag?) ==> r == v
  {
    match v
    case Elem(Tag(_), _, ch, attrs) =>
      var ch' := if ch.Arr? then Arr(seq(|ch.items|, i requires 0 <= i < |ch.items| => Erase(ch.items[i])))
                 else Erase(ch);
      Elem(v.kind, None, ch', attrs)
    case _ => v
  }

  /** The class names of the elements the same traversal reaches, in pre-order. */
  function Classes(v: Node): (cs: seq<Option<string>>)
    ensures v.Elem? && v.kind.Tag? ==> cs != [] && cs[0] == v.className
    decreases v, 1
  {
    match v
    case Elem(Tag(_), c, ch, _) => [c] + ChildrenClasses(ch)
    case _ => []
  }

  /** The class names reached below an element through its `children`. */
  function ChildrenClasses(ch: Node): seq<Option<string>>
    decreases ch, 2
  {
    if ch.Arr? then Flatten(seq(|ch.items|, i requires 0 <= i < |ch.items| => Classes(ch.items[i])))
    else Classes(ch)
  }

  /** Each class name replaced by what `t` makes of it. */
  function MapClasses(t: Option<string> -> string, cs: seq<Option<string>>): (r: seq<Option<string>>)
    ensures |r| == |cs|
    ensures forall i :: 0 <= i < |cs| ==> r[i] == Some(t(cs[i]))
  {
    seq(|cs|, i requires 0 <= i < |cs| => Some(t(cs[i])))
  }

  lemma ClassesOfTag(v: Node)
    requires v.Elem? && v.kind.Tag?
    ensures Classes(v) == [v.className] + ChildrenClasses(v.children)
  {
  }

  lemma MapClassesCons(t: Option<string> -> string, c: Option<string>, cs: seq<Option<string>>)
    ensures MapClasses(t, [c] + cs) == [Some(t(c))] + MapClasses(t, cs)
  {
  }

  lemma MapClassesAppend(t: Option<string> -> string, a: seq<Option<string>>, b: seq<Option<string>>)
    ensures MapClasses(t, a + b) == MapClasses(t, a) + MapClasses(t, b)
  {
  }

  lemma {:induction false} MapFlatten(t: Option<string> -> string, xss: seq<seq<Option<string>>>)
    ensures MapClasses(t, Flatten(xss)) == Flatten(seq(|xss|, i requires 0 <= i < |xss| => MapClasses(t, xss[i])))
  {
    var mapped := seq(|xss|, i requires 0 <= i < |xss| => MapClasses(t, xss[i]));
    if xss != [] {
      MapFlatten(t, xss[1..]);
      var rest := seq(|xss[1..]|, i requires 0 <= i < |xss[1..]| => MapClasses(t, xss[1..][i]));
      assert mapped[1..] == rest;
      assert MapClasses(t, xss[0] + Flatten(xss[1..])) == MapClasses(t, xss[0]) + MapClasses(t, Flatten(xss[1..]));
    }
  }
}
