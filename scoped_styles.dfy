/** `withScopedStyles`: suffixes every selector of a component's `<style>` text with the
    component's unique class, and adds that class to every element it renders. */
module ScopedStyles {
  import opened Text
  import opened Wrappers
  import opened VNode

  /** Length of the longest prefix of `s` without `{`. */
  function SelectorLen(s: string): (k: nat)
    ensures k <= |s|
    ensures '{' !in s[..k]
    ensures k == |s| || s[k] == '{'
  {
    if s == [] || s[0] == '{' then 0
    else
      var k := 1 + SelectorLen(s[1..]);
      assert s[..k] == [s[0]] + s[1..][..k - 1];
      k
  }

  /** Position of the first `}` in `s`, if any. */
  function CloseAt(s: string): (r: Option<nat>)
    ensures r.None? ==> '}' !in s
    ensures r.Some? ==> r.value < |s| && s[r.value] == '}' && '}' !in s[..r.value]
  {
    if s == [] then None
    else if s[0] == '}' then Some(0)
    else
      match CloseAt(s[1..])
      case None => None
      case Some(k) =>
        assert s[..k + 1] == [s[0]] + s[1..][..k];
        Some(k + 1)
  }

  /** A match of `/([^{]+)(\{[^}]*\})/` at the start of `s`: the length `j` of the
      selectors and the end `e` of the rules. The selector run is maximal, since a shorter
      one could not be followed by `{`; the rules end at the first `}` after the `{`. */
  function RuleAt(s: string): (r: Option<(nat, nat)>)
    ensures r.Some? ==>
      var (j, e) := r.value;
      && 1 <= j < e <= |s|
      && '{' !in s[..j] && s[j] == '{'
      && s[e - 1] == '}' && '}' !in s[j..e - 1]
  {
    var j := SelectorLen(s);
    if j == 0 || j == |s| then None
    else
      match CloseAt(s[j + 1..])
      case None => None
      case Some(k) =>
        assert s[j..j + 1 + k] == [s[j]] + s[j + 1..][..k];
        Some((j, j + 2 + k))
  }

  /** The rule's selector text `selectors.split(',').map(...).join(', ')`: every selector
      trimmed and suffixed with `.uniqueClass`. Selectors that start with `:` take the
      same form as the others. */
  function ScopeSelectors(selectors: string, u: string): string {
    var parts := Split(selectors, ',');
    Join(seq(|parts|, i requires 0 <= i < |parts| => Trim(parts[i]) + "." + u), ", ")
  }

  /** `content.replace(/([^{]+)(\{[^}]*\})/g, ...)`: leftmost matches, left to right, each
      replaced by its scoped selectors and its rules verbatim; other text is copied. */
  function Scoped(s: string, u: string): string
    decreases |s|
  {
    if s == [] then []
    else
      match RuleAt(s)
      case Some((j, e)) => ScopeSelectors(s[..j], u) + s[j..e] + Scoped(s[e..], u)
      case None => [s[0]] + Scoped(s[1..], u)
  }

  /** `processStyles(content, uniqueClass)`; `hasDocument` stands for
      `typeof document !== "undefined"`. */
  function ProcessStyles(content: string, u: string, hasDocument: bool): (r: string)
    ensures !hasDocument || content == "" ==> r == ""
    ensures hasDocument && content != "" ==> r == Scoped(content, u)
  {
    if !hasDocument || content == "" then "" else Scoped(content, u)
  }

  /** A rule (selectors without `{`, then `{`, a body without `}`, then `}`) is replaced by
      its scoped selectors and the rule text, and the scan resumes after the `}`. */
  lemma ScopedRule(selectors: string, body: string, rest: string, u: string)
    requires selectors != [] && '{' !in selectors && '}' !in body
    ensures Scoped(selectors + ("{" + body + "}") + rest, u)
            == ScopeSelectors(selectors, u) + ("{" + body + "}") + Scoped(rest, u)
  {
    var s := selectors + ("{" + body + "}") + rest;
    var j := |selectors|;
    var e := j + 2 + |body|;
    RuleAtOf(selectors, body, rest);
    RuleSlices(selectors, body, rest);
    ScopedAtRule(s, u, j, e);
  }

  /** The rule is matched from the start of the selectors to the end of its `}`. */
  lemma RuleAtOf(selectors: string, body: string, rest: string)
    requires selectors != [] && '{' !in selectors && '}' !in body
    ensures RuleAt(selectors + ("{" + body + "}") + rest) == Some((|selectors|, |selectors| + 2 + |body|))
  {
    var s := selectors + ("{" + body + "}") + rest;
    var j := |selectors|;
    RuleSlices(selectors, body, rest);
    SelectorLenOf(selectors, ("{" + body + "}") + rest);
    CloseAtOf(body, rest);
    assert SelectorLen(s) == j && s[j + 1..] == body + "}" + rest;
  }

  lemma RuleSlices(selectors: string, body: string, rest: string)
    ensures var s, j := selectors + ("{" + body + "}") + rest, |selectors|;
      && s == selectors + (("{" + body + "}") + rest)
      && s[..j] == selectors && s[j + 1..] == body + "}" + rest
      && s[j..j + 2 + |body|] == "{" + body + "}" && s[j + 2 + |body|..] == rest
  {
    var rules := "{" + body + "}";
    var s, j := selectors + rules + rest, |selectors|;
    assert s == selectors + (rules + rest);
    assert s[j + 1..] == body + "}" + rest;
    assert s[j..j + 2 + |body|] == rules;
  }

  lemma ScopedAtRule(s: string, u: string, j: nat, e: nat)
    requires RuleAt(s) == Some((j, e))
    ensures Scoped(s, u) == ScopeSelectors(s[..j], u) + s[j..e] + Scoped(s[e..], u)
  {
  }

  lemma {:induction false} SelectorLenOf(a: string, t: string)
    requires '{' !in a && t != [] && t[0] == '{'
    ensures SelectorLen(a + t) == |a|
  {
    if a != [] {
      assert (a + t)[0] == a[0];
      assert (a + t)[1..] == a[1..] + t;
      SelectorLenOf(a[1..], t);
    } else {
      assert a + t == t;
    }
  }

  lemma {:induction false} CloseAtOf(body: string, rest: string)
    requires '}' !in body
    ensures CloseAt(body + "}" + rest) == Some(|body|)
  {
    var s := body + "}" + rest;
    if body != [] {
      assert s[0] == body[0];
      assert s[1..] == body[1..] + "}" + rest;
      CloseAtOf(body[1..], rest);
    } else {
      assert s[0] == '}';
    }
  }

  /** No `}` after any `{`: no rule can be matched. */
  predicate NoBlock(s: string) {
    forall i, j :: 0 <= i < j < |s| && s[i] == '{' ==> s[j] != '}'
  }

  /** Text containing no `{ … }` block is left unchanged. */
  lemma {:induction false} ScopedNoBlock(s: string, u: string)
    requires NoBlock(s)
    ensures Scoped(s, u) == s
    decreases |s|
  {
    if s != [] {
      NoBlockNoRule(s);
      assert NoBlock(s[1..]) by {
        forall i, j | 0 <= i < j < |s[1..]| && s[1..][i] == '{' ensures s[1..][j] != '}' {
          assert s[i + 1] == '{';
        }
      }
      ScopedNoBlock(s[1..], u);
      assert s == [s[0]] + s[1..];
    }
  }

  lemma NoBlockNoRule(s: string)
    ensures NoBlock(s) ==> RuleAt(s).None?
  {
    if RuleAt(s).Some? {
      var (j, e) := RuleAt(s).value;
      assert s[j] == '{' && s[e - 1] == '}';
    }
  }

  /** `Count(c, Join(ps, sep))` when no piece holds `c`: one `c` per separator when the
      separator holds one, none when it holds none. */
  lemma {:induction false} CountJoin(c: char, ps: seq<string>, sep: string)
    requires forall i :: 0 <= i < |ps| ==> c !in ps[i]
    ensures Count(c, sep) == 1 && |ps| >= 1 ==> Count(c, Join(ps, sep)) == |ps| - 1
    ensures Count(c, sep) == 0 ==> Count(c, Join(ps, sep)) == 0
  {
    if |ps| >= 2 {
      assert forall i :: 0 <= i < |ps[1..]| ==> ps[1..][i] == ps[i + 1];
      CountJoin(c, ps[1..], sep);
      assert Join(ps, sep) == ps[0] + sep + Join(ps[1..], sep);
      CountAppend(c, ps[0] + sep, Join(ps[1..], sep));
      CountAppend(c, ps[0], sep);
      assert Count(c, ps[0]) == 0;
    } else if |ps| == 1 {
      assert Count(c, Join(ps, sep)) == Count(c, ps[0]) == 0;
    }
  }

  lemma TrimHasNo(c: char, p: string)
    requires c !in p
    ensures c !in Trim(p)
  {
    var a := LeadingSpaces(p);
    var t := p[a..];
    var r := t[..|t| - TrailingSpaces(t)];
    assert Trim(p) == r;
    forall k | 0 <= k < |r| ensures r[k] != c {
      assert r[k] == p[a + k];
    }
  }

  /** The number of selectors of a rule is kept: as many `,` separators come out as went in
      (a unique class never holds a `,`). */
  lemma SelectorCount(selectors: string, u: string)
    requires ',' !in u
    ensures Count(',', ScopeSelectors(selectors, u)) == Count(',', selectors)
  {
    var ps := Split(selectors, ',');
    var qs := seq(|ps|, i requires 0 <= i < |ps| => Trim(ps[i]) + "." + u);
    forall i | 0 <= i < |qs| ensures ',' !in qs[i] {
      TrimHasNo(',', ps[i]);
    }
    assert Count(',', ", ") == 1;
    CountJoin(',', qs, ", ");
  }

  /** A rule with a single selector is that selector, trimmed, with the class appended. */
  lemma SingleSelector(selector: string, u: string)
    requires ',' !in selector
    ensures ScopeSelectors(selector, u) == Trim(selector) + "." + u
  {
    assert Count(',', selector) == 0;
    var ps := Split(selector, ',');
    JoinSplit(selector, ',');
    assert ps[0] == selector;
  }

  /** The scoped selectors hold no `{` (a unique class never holds one). */
  lemma ScopeSelectorsNoBrace(selectors: string, u: string)
    requires '{' !in selectors && '{' !in u
    ensures Count('{', ScopeSelectors(selectors, u)) == 0
  {
    var ps := Split(selectors, ',');
    var qs := seq(|ps|, i requires 0 <= i < |ps| => Trim(ps[i]) + "." + u);
    forall i | 0 <= i < |ps| ensures '{' !in qs[i] {
      SplitPieceHasNo('{', selectors, ',', i);
      TrimHasNo('{', ps[i]);
    }
    assert Count('{', ", ") == 0;
    CountJoin('{', qs, ", ");
  }

  /** A piece of a split holds no character the whole string lacks. */
  lemma {:induction false} SplitPieceHasNo(c: char, s: string, sep: char, i: nat)
    requires c !in s && i < |Split(s, sep)|
    ensures c !in Split(s, sep)[i]
  {
    if s != [] {
      var rest := Split(s[1..], sep);
      assert c !in s[1..];
      if s[0] == sep {
        if i > 0 { SplitPieceHasNo(c, s[1..], sep, i - 1); }
      } else {
        SplitPieceHasNo(c, s[1..], sep, if i == 0 then 0 else i);
        if i == 0 {
          assert [s[0]] + rest[0] == Split(s, sep)[0];
        } else {
          assert Split(s, sep)[i] == rest[i];
        }
      }
    }
  }

  /** Rewriting keeps every `{`: each rule's own `{` is copied with it, and what is
      added holds none. */
  lemma {:induction false} ScopedBraces(s: string, u: string)
    requires '{' !in u
    ensures Count('{', Scoped(s, u)) == Count('{', s)
    decreases |s|
  {
    if s != [] {
      match RuleAt(s)
      case Some((j, e)) =>
        ScopedBraces(s[e..], u);
        RuleStepBraces(s, u, j, e);
      case None =>
        ScopedBraces(s[1..], u);
        CopyStepBraces(s, u);
    }
  }

  lemma RuleStepBraces(s: string, u: string, j: nat, e: nat)
    requires '{' !in u && RuleAt(s) == Some((j, e))
    requires Count('{', Scoped(s[e..], u)) == Count('{', s[e..])
    ensures Count('{', Scoped(s, u)) == Count('{', s)
  {
    ScopeSelectorsNoBrace(s[..j], u);
    RuleBraces(s, j, e, ScopeSelectors(s[..j], u), Scoped(s[e..], u));
  }

  lemma CopyStepBraces(s: string, u: string)
    requires s != [] && RuleAt(s).None?
    requires Count('{', Scoped(s[1..], u)) == Count('{', s[1..])
    ensures Count('{', Scoped(s, u)) == Count('{', s)
  {
    assert s == [s[0]] + s[1..];
    CountAppend('{', [s[0]], s[1..]);
    CountAppend('{', [s[0]], Scoped(s[1..], u));
  }

  lemma RuleBraces(s: string, j: nat, e: nat, scoped: string, tail: string)
    requires j <= e <= |s| && '{' !in s[..j] && '{' !in scoped
    ensures Count('{', scoped + s[j..e] + tail) == Count('{', s[j..e]) + Count('{', tail)
    ensures Count('{', s) == Count('{', s[j..e]) + Count('{', s[e..])
  {
    CountAppend('{', scoped + s[j..e], tail);
    CountAppend('{', scoped, s[j..e]);
    Split3(s, j, e);
    CountAppend('{', s[..j] + s[j..e], s[e..]);
    CountAppend('{', s[..j], s[j..e]);
  }

  /** `state.current`: the captured `<style>` children, the styled-jsx flag and the
      component's unique class. */
  datatype Scan = Scan(styleContent: Node, hasStyledJSX: bool)

  /** `!node?.type`: a value that is not an element, or an element with an empty tag name. */
  predicate Untyped(v: Node) {
    !v.Elem? || v.kind == Tag("")
  }

  /** `node.type.toString().includes("JSXStyle")` */
  predicate IsJSXStyle(k: Kind) {
    var text := if k.Tag? then k.name else k.source;
    exists i :: 0 <= i <= |text| && OccursAt(text, "JSXStyle", i)
  }

  /** `processNodeWithClass`'s class name: the old one (if truthy), a space, the class. */
  function WithClass(prev: Option<string>, u: string): (r: string)
    ensures prev.Some? && prev.value != "" ==> r == prev.value + " " + u
    ensures prev.None? || prev.value == "" ==> r == u
  {
    if prev.Some? && prev.value != "" then prev.value + " " + u else u
  }

  /** `processVNode(node)` with the effect on `state.current`, as a function of the node
      and the state before. */
  function Process(u: string, v: Node, st: Scan): (r: (Node, Scan))
    ensures Untyped(v) ==> r == (v, st)
    ensures v.Elem? && v.kind == Tag("style") && Truthy(v.children) ==> r == (Null, st.(styleContent := v.children))
    decreases v, 1
  {
    if Untyped(v) then (v, st)
    else if v.kind == Tag("style") && Truthy(v.children) then (Null, st.(styleContent := v.children))
    else if IsJSXStyle(v.kind) then (Null, st.(hasStyledJSX := true))
    else
      var cls := Some(WithClass(v.className, u));
      if Truthy(v.children) then
        if v.children.Arr? then
          var (items, st') := ProcessSeq(u, v.children.items, st);
          (v.(className := cls, children := Arr(items)), st')
        else
          var (child, st') := Process(u, v.children, st);
          (v.(className := cls, children := child), st')
      else (v.(className := cls), st)
  }

  /** `children.map(processVNode)`: left to right, each call seeing the state the
      previous one left. */
  function ProcessSeq(u: string, items: seq<Node>, st: Scan): (r: (seq<Node>, Scan))
    ensures |r.0| == |items|
    decreases items, 0
  {
    if items == [] then ([], st)
    else
      var (init, st1) := ProcessSeq(u, items[..|items| - 1], st);
      var (last, st2) := Process(u, items[|items| - 1], st1);
      (init + [last], st2)
  }

  /** The component's per-instance state and the recursive `processVNode`. */
  class ScopedState {
    var styleContent: Node
    var hasStyledJSX: bool
    const uniqueClass: string

    /** `useScopedStylesState()`, with the generated id as a parameter. */
    constructor (uniqueId: string)
      ensures styleContent == Str("") && !hasStyledJSX && uniqueClass == uniqueId
    {
      styleContent := Str("");
      hasStyledJSX := false;
      uniqueClass := uniqueId;
    }

    method ProcessVNode(node: Node) returns (r: Node)
      modifies this
      ensures (r, Scan(styleContent, hasStyledJSX))
              == Process(uniqueClass, node, old(Scan(styleContent, hasStyledJSX)))
      decreases node, 1
    {
      if Untyped(node) {
        return node;
      }
      if node.kind == Tag("style") && Truthy(node.children) {
        styleContent := node.children;
        return Null;
      }
      if IsJSXStyle(node.kind) {
        hasStyledJSX := true;
        return Null;
      }
      r := ProcessNodeWithClass(node);
    }

    /** `processNodeWithClass(node, uniqueClass, processVNode)` */
    method ProcessNodeWithClass(node: Node) returns (r: Node)
      requires !Untyped(node)
      requires !(node.kind == Tag("style") && Truthy(node.children)) && !IsJSXStyle(node.kind)
      modifies this
      ensures (r, Scan(styleContent, hasStyledJSX))
              == Process(uniqueClass, node, old(Scan(styleContent, hasStyledJSX)))
      decreases node, 0
    {
      var cls := Some(WithClass(node.className, uniqueClass));
      var children := node.children;
      if Truthy(children) {
        if children.Arr? {
          var items := children.items;
          var out: seq<Node> := [];
          var i := 0;
          while i < |items|
            invariant 0 <= i <= |items|
            invariant (out, Scan(styleContent, hasStyledJSX))
                      == ProcessSeq(uniqueClass, items[..i], old(Scan(styleContent, hasStyledJSX)))
          {
            assert items[..i + 1][..i] == items[..i];
            var x := ProcessVNode(items[i]);
            out := out + [x];
            i := i + 1;
          }
          assert items[..i] == items;
          children := Arr(out);
        } else {
          children := ProcessVNode(children);
        }
      }
      r := node.(className := cls, children := children);
    }
  }

  /** styled-jsx is sticky: once seen, the flag stays set. */
  lemma {:induction false} JSXSticky(u: string, v: Node, st: Scan)
    requires st.hasStyledJSX
    ensures Process(u, v, st).1.hasStyledJSX
    decreases v, 1
  {
    if !Untyped(v) && !(v.kind == Tag("style") && Truthy(v.children)) && !IsJSXStyle(v.kind) && Truthy(v.children) {
      if v.children.Arr? {
        JSXStickySeq(u, v.children.items, st);
      } else {
        JSXSticky(u, v.children, st);
      }
    }
  }

  lemma {:induction false} JSXStickySeq(u: string, items: seq<Node>, st: Scan)
    requires st.hasStyledJSX
    ensures ProcessSeq(u, items, st).1.hasStyledJSX
    decreases items, 0
  {
    if items != [] {
      JSXStickySeq(u, items[..|items| - 1], st);
      JSXSticky(u, items[|items| - 1], ProcessSeq(u, items[..|items| - 1], st).1);
    }
  }

  /** A typed element that is neither a `style` element with children nor styled-jsx keeps
      its old class tokens and gains the unique class as the last token. */
  lemma ClassAdded(u: string, v: Node, st: Scan)
    requires v.Elem? && !Untyped(v)
    requires !(v.kind == Tag("style") && Truthy(v.children)) && !IsJSXStyle(v.kind)
    requires IsWord(u)
    ensures var r := Process(u, v, st).0;
      && r.Elem? && r.kind == v.kind && r.attrs == v.attrs && r.className.Some?
      && Words(r.className.value) == (if v.className.Some? then Words(v.className.value) else []) + [u]
  {
    WithClassWords(v.className, u);
  }

  /** The class tokens of a class name, none when it is absent. */
  function Tokens(c: Option<string>): seq<string> {
    if c.Some? then Words(c.value) else []
  }

  /** The new class name holds the old tokens and then the unique class. */
  lemma WithClassWords(prev: Option<string>, u: string)
    requires IsWord(u)
    ensures Words(WithClass(prev, u)) == Tokens(prev) + [u]
  {
    if prev.Some? && prev.value != "" {
      WordsSnoc(prev.value, u);
    } else {
      WordsOfWord(u, "");
      assert u + "" == u;
    }
  }

  /** Appending a space and a word adds that word. */
  lemma {:induction false} WordsSnoc(s: string, w: string)
    requires IsWord(w)
    ensures Words(s + " " + w) == Words(s) + [w]
    decreases |s|, 1
  {
    if s == [] {
      assert s + " " + w == [' '] + w;
      WordsSkipSpace(' ', w);
      WordsOfWord(w, "");
      assert w + "" == w;
    } else if IsSpace(s[0]) {
      assert s + " " + w == [s[0]] + (s[1..] + " " + w);
      WordsSkipSpace(s[0], s[1..] + " " + w);
      WordsSnoc(s[1..], w);
    } else {
      WordsSnocWord(s, w);
    }
  }

  lemma {:induction false} WordsSnocWord(s: string, w: string)
    requires IsWord(w) && s != [] && !IsSpace(s[0])
    ensures Words(s + " " + w) == Words(s) + [w]
    decreases |s|, 0
  {
    var k := WordLen(s);
    var t := s + " " + w;
    assert t == s + (" " + w);
    WordLenPrefix(s, " " + w);
    WordsHead(s);
    WordsHead(t);
    SnocSlices(s, w, k);
    WordsSnoc(s[k..], w);
    AppendAssoc([s[..k]], Words(s[k..]), [w]);
  }

  lemma SnocSlices(s: string, w: string, k: nat)
    requires k <= |s|
    ensures (s + " " + w)[..k] == s[..k] && (s + " " + w)[k..] == s[k..] + " " + w
  {
  }

  /** A text starting with a word splits into that word and the words after it. */
  lemma WordsHead(s: string)
    requires s != [] && !IsSpace(s[0])
    ensures Words(s) == [s[..WordLen(s)]] + Words(s[WordLen(s)..])
  {
  }

  lemma {:induction false} WordLenPrefix(s: string, t: string)
    requires t != [] && IsSpace(t[0])
    ensures WordLen(s + t) == WordLen(s)
  {
    if s != [] {
      assert (s + t)[0] == s[0];
      if !IsSpace(s[0]) {
        assert (s + t)[1..] == s[1..] + t;
        WordLenPrefix(s[1..], t);
      }
    } else {
      assert s + t == t;
    }
  }

  /** No `style` element (with children) and no styled-jsx anywhere the traversal goes. */
  predicate Plain(v: Node)
    decreases v, 1
  {
    if Untyped(v) then true
    else
      && !(v.kind == Tag("style") && Truthy(v.children))
      && !IsJSXStyle(v.kind)
      && (if v.children.Arr? then PlainSeq(v.children.items) else Plain(v.children))
  }

  predicate PlainSeq(items: seq<Node>)
    decreases items, 0
  {
    forall i :: 0 <= i < |items| ==> Plain(items[i])
  }

  /** A tree with nothing to capture leaves the state as it was. */
  lemma {:induction false} PlainKeepsState(u: string, v: Node, st: Scan)
    requires Plain(v)
    ensures Process(u, v, st).1 == st
    decreases v, 1
  {
    if !Untyped(v) && Truthy(v.children) {
      if v.children.Arr? {
        PlainSeqKeepsState(u, v.children.items, st);
      } else {
        PlainKeepsState(u, v.children, st);
      }
    }
  }

  lemma {:induction false} PlainSeqKeepsState(u: string, items: seq<Node>, st: Scan)
    requires PlainSeq(items)
    ensures ProcessSeq(u, items, st).1 == st
    decreases items, 0
  {
    if items != [] {
      var init := items[..|items| - 1];
      assert PlainSeq(init) by {
        forall i | 0 <= i < |init| ensures Plain(init[i]) {
          assert init[i] == items[i];
        }
      }
      PlainSeqKeepsState(u, init, st);
      PlainKeepsState(u, items[|items| - 1], st);
    }
  }

  // ---------------------------------------------------------------------------
  // The whole tree

  /** Reference traversal of the walker on a tree with nothing to capture: every typed
      element is reached, and below it its children, element by element when they are an
      array. The result is the tree with the class name of every element so reached
      removed; everything else is kept. */
  function Strip(v: Node): Node
    decreases v, 1
  {
    if Untyped(v) then v
    else
      var ch := if v.children.Arr? then Arr(StripSeq(v.children.items)) else Strip(v.children);
      v.(className := None, children := ch)
  }

  function StripSeq(items: seq<Node>): (r: seq<Node>)
    ensures |r| == |items|
    decreases items, 0
  {
    if items == [] then [] else StripSeq(items[..|items| - 1]) + [Strip(items[|items| - 1])]
  }

  /** The class names of the elements the same traversal reaches, in pre-order. */
  function Reached(v: Node): seq<Option<string>>
    decreases v, 1
  {
    if Untyped(v) then [] else [v.className] + ReachedBelow(v.children)
  }

  /** The class names reached below an element through its `children`. */
  function ReachedBelow(ch: Node): seq<Option<string>>
    decreases ch, 2
  {
    if ch.Arr? then ReachedSeq(ch.items) else Reached(ch)
  }

  function ReachedSeq(items: seq<Node>): seq<Option<string>>
    decreases items, 0
  {
    if items == [] then [] else ReachedSeq(items[..|items| - 1]) + Reached(items[|items| - 1])
  }

  /** What `processNodeWithClass` makes of a class name. */
  function AddClass(u: string): Option<string> -> string {
    c => WithClass(c, u)
  }

  /** On a tree with nothing to capture, the walk changes class names only: kinds, other
      props, array lengths, falsy children and values that are not typed elements are
      kept. */
  lemma {:induction false} ScopedKeepsStructure(u: string, v: Node, st: Scan)
    requires Plain(v)
    ensures Strip(Process(u, v, st).0) == Strip(v)
    decreases v, 1
  {
    if !Untyped(v) && Truthy(v.children) {
      if v.children.Arr? {
        ScopedSeqKeepsStructure(u, v.children.items, st);
      } else {
        ScopedKeepsStructure(u, v.children, st);
      }
    }
  }

  lemma {:induction false} ScopedSeqKeepsStructure(u: string, items: seq<Node>, st: Scan)
    requires PlainSeq(items)
    ensures StripSeq(ProcessSeq(u, items, st).0) == StripSeq(items)
    decreases items, 0
  {
    if items != [] {
      var n := |items| - 1;
      var init := items[..n];
      assert PlainSeq(init) by {
        forall i | 0 <= i < |init| ensures Plain(init[i]) {
          assert init[i] == items[i];
        }
      }
      ScopedSeqKeepsStructure(u, init, st);
      var st1 := ProcessSeq(u, init, st).1;
      ScopedKeepsStructure(u, items[n], st1);
      var r := ProcessSeq(u, items, st).0;
      assert r[..n] == ProcessSeq(u, init, st).0;
    }
  }

  /** On a tree with nothing to capture, every reached element's class name, in pre-order,
      becomes `WithClass` of the old one. */
  lemma {:induction false} ScopedMapsClasses(u: string, v: Node, st: Scan)
    requires Plain(v)
    ensures Reached(Process(u, v, st).0) == MapClasses(AddClass(u), Reached(v))
    decreases v, 1
  {
    if !Untyped(v) {
      ChildrenMapsClasses(u, v, st);
      MapClassesCons(AddClass(u), v.className, ReachedBelow(v.children));
    }
  }

  lemma {:induction false} ChildrenMapsClasses(u: string, v: Node, st: Scan)
    requires Plain(v) && !Untyped(v)
    ensures ReachedBelow(Process(u, v, st).0.children) == MapClasses(AddClass(u), ReachedBelow(v.children))
    decreases v, 0
  {
    if Truthy(v.children) {
      if v.children.Arr? {
        ScopedSeqMapsClasses(u, v.children.items, st);
      } else {
        ScopedMapsClasses(u, v.children, st);
      }
    }
  }

  lemma {:induction false} ScopedSeqMapsClasses(u: string, items: seq<Node>, st: Scan)
    requires PlainSeq(items)
    ensures ReachedSeq(ProcessSeq(u, items, st).0) == MapClasses(AddClass(u), ReachedSeq(items))
    decreases items, 0
  {
    if items != [] {
      var n := |items| - 1;
      var init := items[..n];
      assert PlainSeq(init) by {
        forall i | 0 <= i < |init| ensures Plain(init[i]) {
          assert init[i] == items[i];
        }
      }
      ScopedSeqMapsClasses(u, init, st);
      var st1 := ProcessSeq(u, init, st).1;
      ScopedMapsClasses(u, items[n], st1);
      var r := ProcessSeq(u, items, st).0;
      assert r[..n] == ProcessSeq(u, init, st).0;
      MapClassesAppend(AddClass(u), ReachedSeq(init), Reached(items[n]));
    }
  }

  /** On a tree with nothing to capture, every element the walk reaches keeps its class
      tokens and gains the unique class as the last one. */
  lemma ScopedTokens(u: string, v: Node, st: Scan)
    requires Plain(v) && IsWord(u)
    ensures var before, after := Reached(v), Reached(Process(u, v, st).0);
      && |after| == |before|
      && forall i :: 0 <= i < |before| ==> after[i].Some? && Words(after[i].value) == Tokens(before[i]) + [u]
  {
    ScopedMapsClasses(u, v, st);
    var before := Reached(v);
    forall i | 0 <= i < |before| ensures Words(WithClass(before[i], u)) == Tokens(before[i]) + [u] {
      WithClassWords(before[i], u);
    }
  }
}
