/** `useCssModule(styles)`: the hook form of the CSS-module class rewriter. Tokens are
    looked up by their camel-cased form, and the whole tag-element tree is relabelled. */
module UseCssModule {
  import opened Text
  import opened Wrappers
  import opened VNode
  import WithCssModule

  /** `cls.replace(/-(\w)/g, (_, c) => c.toUpperCase())`: scanning left to right, a `-`
      followed by a word character is dropped and the character upper-cased; every other
      character, including a `-` that is not followed by a word character, is copied. */
  function KebabToCamel(s: string): (r: string)
    ensures |r| <= |s|
    decreases |s|
  {
    if s == [] then []
    else if |s| >= 2 && s[0] == '-' && IsWordChar(s[1]) then [UpperWordChar(s[1])] + KebabToCamel(s[2..])
    else [s[0]] + KebabToCamel(s[1..])
  }

  /** A prefix without `-` is copied unchanged. */
  lemma {:induction false} KebabPlain(a: string, t: string)
    requires '-' !in a
    ensures KebabToCamel(a + t) == a + KebabToCamel(t)
  {
    if a != [] {
      var s := a + t;
      assert s[0] == a[0];
      assert s[1..] == a[1..] + t;
      KebabPlain(a[1..], t);
    } else {
      assert a + t == t;
    }
  }

  /** A name without `-` is its own camel form. */
  lemma KebabNoDash(s: string)
    requires '-' !in s
    ensures KebabToCamel(s) == s
  {
    KebabPlain(s, []);
    assert s + [] == s;
  }

  /** One segment of a kebab-case name: word characters only. */
  predicate IsSegment(w: string) {
    w != [] && forall i :: 0 <= i < |w| ==> IsWordChar(w[i])
  }

  /** The segment with its first character upper-cased. */
  function Capitalize(w: string): (r: string)
    ensures |r| == |w|
    ensures w != [] ==> r[0] == UpperWordChar(w[0]) && r[1..] == w[1..]
  {
    if w == [] then [] else [UpperWordChar(w[0])] + w[1..]
  }

  /** Reference definition of camel case: the first segment as it is, every later one
      capitalised, all concatenated. */
  function Camel(ws: seq<string>): string {
    if ws == [] then "" else ws[0] + CamelTail(ws[1..])
  }

  function CamelTail(ws: seq<string>): string {
    if ws == [] then "" else Capitalize(ws[0]) + CamelTail(ws[1..])
  }

  lemma {:induction false} KebabSegment(w: string, rest: string)
    requires IsSegment(w)
    ensures KebabToCamel("-" + w + rest) == Capitalize(w) + KebabToCamel(rest)
  {
    var s := "-" + w + rest;
    assert s[0] == '-' && s[1] == w[0];
    assert s[2..] == w[1..] + rest;
    KebabPlain(w[1..], rest);
  }

  lemma {:induction false} KebabTail(ws: seq<string>)
    requires forall i :: 0 <= i < |ws| ==> IsSegment(ws[i])
    ensures KebabToCamel(JoinDashed(ws)) == CamelTail(ws)
  {
    if ws != [] {
      KebabTail(ws[1..]);
      assert JoinDashed(ws) == "-" + ws[0] + JoinDashed(ws[1..]);
      KebabSegment(ws[0], JoinDashed(ws[1..]));
    }
  }

  /** Each segment preceded by a `-`. */
  function JoinDashed(ws: seq<string>): string {
    if ws == [] then "" else "-" + ws[0] + JoinDashed(ws[1..])
  }

  lemma {:induction false} JoinAsDashed(ws: seq<string>)
    requires |ws| >= 1
    ensures Join(ws, "-") == ws[0] + JoinDashed(ws[1..])
  {
    if |ws| == 1 {
      assert ws[0] + "" == ws[0];
    } else {
      JoinAsDashed(ws[1..]);
      assert ws[1..][1..] == ws[2..];
    }
  }

  /** A kebab-case name (word-character segments joined by single dashes) converts to the
      camel-case name of the same segments: `user-avatar` to `userAvatar`. */
  lemma KebabIsCamel(ws: seq<string>)
    requires forall i :: 0 <= i < |ws| ==> IsSegment(ws[i])
    ensures KebabToCamel(Join(ws, "-")) == Camel(ws)
  {
    if |ws| >= 1 {
      SegmentNoDash(ws[0]);
      JoinAsDashed(ws);
      KebabPlain(ws[0], JoinDashed(ws[1..]));
      SegmentsTail(ws);
      KebabTail(ws[1..]);
    }
  }

  lemma SegmentNoDash(w: string)
    requires IsSegment(w)
    ensures '-' !in w
  {
    forall i | 0 <= i < |w| ensures w[i] != '-' {
      assert IsWordChar(w[i]);
    }
  }

  lemma SegmentsTail(ws: seq<string>)
    requires |ws| >= 1 && forall i :: 0 <= i < |ws| ==> IsSegment(ws[i])
    ensures forall i :: 0 <= i < |ws[1..]| ==> IsSegment(ws[1..][i])
  {
    forall i | 0 <= i < |ws[1..]| ensures IsSegment(ws[1..][i]) {
      assert ws[1..][i] == ws[i + 1];
    }
  }

  /** A `-` followed by another `-` stays: `a--b` becomes `a-B`. */
  lemma DoubleDash()
    ensures KebabToCamel("a--b") == "a-B"
  {
    var s := "a--b";
    assert s[1..] == "--b" && s[2..] == "-b";
    assert !IsWordChar('-');
    assert KebabToCamel("-b") == ['B'] + KebabToCamel([]);
  }

  /** `styles[camelCls] || cls`: the lookup uses the camel form, the fallback is the
      token as written. */
  function Lookup(styles: map<string, string>, cls: string): (r: string)
    ensures var k := KebabToCamel(cls);
      && (k in styles && styles[k] != "" ==> r == styles[k])
      && (!(k in styles && styles[k] != "") ==> r == cls)
  {
    var k := KebabToCamel(cls);
    if k in styles && styles[k] != "" then styles[k] else cls
  }

  function MapTokens(styles: map<string, string>, ws: seq<string>): (r: seq<string>)
    ensures |r| == |ws|
    ensures forall i :: 0 <= i < |ws| ==> r[i] == Lookup(styles, ws[i])
  {
    seq(|ws|, i requires 0 <= i < |ws| => Lookup(styles, ws[i]))
  }

  /** `transformClassName(className)` */
  function TransformClassName(styles: map<string, string>, className: Option<string>): (r: string)
    ensures className.None? || className.value == "" ==> r == ""
  {
    if className.None? || className.value == "" then ""
    else Join(MapTokens(styles, Words(className.value)), " ")
  }

  /** Splitting the transformed class name again gives the input tokens, each looked up. */
  lemma TransformedTokens(styles: map<string, string>, s: string)
    requires WithCssModule.TokenValues(styles)
    ensures Words(TransformClassName(styles, Some(s))) == MapTokens(styles, Words(s))
  {
    var mapped := MapTokens(styles, Words(s));
    forall i | 0 <= i < |mapped| ensures IsWord(mapped[i]) {
    }
    if s != "" {
      WordsOfJoin(mapped);
    }
  }

  /** On class names whose tokens contain no `-`, the hook and the higher-order component
      transform alike. */
  lemma AgreesWithoutDashes(styles: map<string, string>, s: string)
    requires '-' !in s
    ensures TransformClassName(styles, Some(s)) == WithCssModule.TransformClassName(styles, Some(s))
  {
    var ws := Words(s);
    forall i | 0 <= i < |ws| ensures Lookup(styles, ws[i]) == WithCssModule.Lookup(styles, ws[i]) {
      WordsSubstrings(s, i);
      KebabNoDash(ws[i]);
    }
    assert MapTokens(styles, ws) == WithCssModule.MapTokens(styles, ws);
  }

  /** Every word of `s` is made of characters of `s`. */
  lemma {:induction false} WordsSubstrings(s: string, i: nat)
    requires i < |Words(s)|
    ensures forall c :: c in Words(s)[i] ==> c in s
    decreases |s|
  {
    if IsSpace(s[0]) {
      WordsSubstrings(s[1..], i);
    } else {
      var k := WordLen(s);
      if i > 0 {
        WordsSubstrings(s[k..], i - 1);
      }
    }
  }

  /** `handleVNode(vnode)`: falsy values, non-elements and component elements are returned
      as they are; a tag element gets the transformed class name and its children are
      handled, element by element for an array. */
  function HandleVNode(styles: map<string, string>, v: Node): (r: Node)
    ensures !(v.Elem? && v.kind.Tag?) ==> r == v
    ensures v.Elem? && v.kind.Tag? ==>
      && r.Elem? && r.kind == v.kind && r.attrs == v.attrs
      && r.className == Some(TransformClassName(styles, v.className))
    decreases v, 1
  {
    match v
    case Elem(Tag(_), className, children, attrs) =>
      var processed :=
        if children.Arr? then Arr(HandleItems(styles, children.items))
        else HandleVNode(styles, children);
      Elem(v.kind, Some(TransformClassName(styles, className)), processed, attrs)
    case _ => v
  }

  /** `children.map(child => handleVNode(child))` */
  function HandleItems(styles: map<string, string>, items: seq<Node>): (r: seq<Node>)
    ensures |r| == |items|
    decreases items, 0
  {
    seq(|items|, i requires 0 <= i < |items| => HandleVNode(styles, items[i]))
  }

  /** Apart from class names the handled tree is the input tree. */
  lemma {:induction false} HandleKeepsStructure(styles: map<string, string>, v: Node)
    ensures Erase(HandleVNode(styles, v)) == Erase(v)
    decreases v
  {
    match v
    case Elem(Tag(_), _, children, _) =>
      if children.Arr? {
        var items := children.items;
        var out := HandleItems(styles, items);
        forall i | 0 <= i < |items| ensures Erase(out[i]) == Erase(items[i]) {
          HandleKeepsStructure(styles, items[i]);
        }
        assert seq(|out|, i requires 0 <= i < |out| => Erase(out[i]))
            == seq(|items|, i requires 0 <= i < |items| => Erase(items[i]));
      } else {
        HandleKeepsStructure(styles, children);
      }
    case _ =>
  }

  /** `transformClassName` for a fixed style map, as a function value. */
  function Transform(styles: map<string, string>): Option<string> -> string {
    c => TransformClassName(styles, c)
  }

  /** The class names of the handled tree are those of the input, in the same order,
      each transformed. */
  lemma {:induction false} HandleMapsClasses(styles: map<string, string>, v: Node)
    ensures Classes(HandleVNode(styles, v)) == MapClasses(Transform(styles), Classes(v))
    decreases v, 2
  {
    if v.Elem? && v.kind.Tag? {
      var t := Transform(styles);
      var r := HandleVNode(styles, v);
      HandleChildClasses(styles, v);
      ClassesOfTag(v);
      ClassesOfTag(r);
      MapClassesCons(t, v.className, ChildrenClasses(v.children));
      assert t(v.className) == TransformClassName(styles, v.className);
    }
  }

  lemma {:induction false} HandleChildClasses(styles: map<string, string>, v: Node)
    requires v.Elem? && v.kind.Tag?
    ensures ChildrenClasses(HandleVNode(styles, v).children)
            == MapClasses(Transform(styles), ChildrenClasses(v.children))
    decreases v, 1
  {
    var children := v.children;
    var r := HandleVNode(styles, v);
    if children.Arr? {
      HandleItemsMapsClasses(styles, children.items);
      assert r.children == Arr(HandleItems(styles, children.items));
    } else {
      HandleMapsClasses(styles, children);
      assert r.children == HandleVNode(styles, children);
    }
  }

  lemma {:induction false} HandleItemsMapsClasses(styles: map<string, string>, items: seq<Node>)
    ensures var out := HandleItems(styles, items);
      Flatten(seq(|out|, i requires 0 <= i < |out| => Classes(out[i])))
      == MapClasses(Transform(styles), Flatten(seq(|items|, i requires 0 <= i < |items| => Classes(items[i]))))
    decreases items, 0
  {
    var t := Transform(styles);
    var out := HandleItems(styles, items);
    var before := seq(|items|, i requires 0 <= i < |items| => Classes(items[i]));
    var after := seq(|out|, i requires 0 <= i < |out| => Classes(out[i]));
    forall i | 0 <= i < |items| ensures after[i] == MapClasses(t, before[i]) {
      HandleMapsClasses(styles, items[i]);
    }
    MapFlatten(t, before);
    assert after == seq(|before|, i requires 0 <= i < |before| => MapClasses(t, before[i]));
  }
}
