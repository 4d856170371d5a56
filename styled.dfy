/** `styled`: a tagged-template CSS helper. It joins the template, rewrites every
    `{`-introduced selector so that it applies only under a random key, and wraps the
    children in a `div` carrying that key as its class. */
module Styled {
  import opened Text
  import opened Wrappers
  import opened VNode
  import Radix
  import CssModule

  // ---------------------------------------------------------------------------
  // Template concatenation

  /** `arr[0] + value[0] + arr[1] + … + value[n-1] + arr[n]` */
  function Interleave(arr: seq<string>, values: seq<string>): string
    requires |arr| == |values| + 1
  {
    if values == [] then arr[0]
    else Interleave(arr[..|arr| - 1], values[..|values| - 1]) + values[|values| - 1] + arr[|arr| - 1]
  }

  /** The loop of `_styled` and of `createGlobal`: `css = arr[0]`, then
      `css += value[i] + arr[i + 1]` for each value. A tagged template always passes one
      more string than values. */
  method BuildCss(arr: seq<string>, values: seq<string>) returns (css: string)
    requires |arr| == |values| + 1
    ensures css == Interleave(arr, values)
  {
    css := arr[0];
    for i := 0 to |values|
      invariant css == Interleave(arr[..i + 1], values[..i])
    {
      assert arr[..i + 2][..i + 1] == arr[..i + 1];
      assert values[..i + 1][..i] == values[..i];
      css := css + (values[i] + arr[i + 1]);
    }
    assert arr[..|values| + 1] == arr;
    assert values[..|values|] == values;
  }

  function Present(values: seq<string>): (r: seq<Option<string>>)
    ensures |r| == |values| && forall i :: 0 <= i < |values| ==> r[i] == Some(values[i])
  {
    seq(|values|, i requires 0 <= i < |values| => Some(values[i]))
  }

  /** The same text as the CSS-module template `reduce`, when every value is present. */
  lemma InterleaveIsTemplateConcat(arr: seq<string>, values: seq<string>)
    requires |arr| == |values| + 1
    ensures Interleave(arr, values) == CssModule.TemplateConcat(arr, Present(values))
  {
    InterleavePrefix(arr, values, |values|);
    assert arr[..|values| + 1] == arr;
    assert values[..|values|] == values;
  }

  lemma {:induction false} InterleavePrefix(arr: seq<string>, values: seq<string>, j: nat)
    requires |arr| == |values| + 1 && j <= |values|
    ensures CssModule.TemplateConcat(arr[..j + 1], Present(values))
            == Interleave(arr[..j + 1], values[..j]) + CssModule.ValueAt(Present(values), j)
  {
    var pv := Present(values);
    assert arr[..j + 1][..j] == arr[..j];
    if j == 0 {
      assert arr[..0] == [];
    } else {
      InterleavePrefix(arr, values, j - 1);
      assert arr[..j][..j] == arr[..j];
      assert values[..j][..j - 1] == values[..j - 1];
      assert CssModule.ValueAt(pv, j - 1) == values[j - 1];
      calc {
        CssModule.TemplateConcat(arr[..j + 1], pv);
        CssModule.TemplateConcat(arr[..j], pv) + arr[j] + CssModule.ValueAt(pv, j);
        Interleave(arr[..j], values[..j - 1]) + values[j - 1] + arr[j] + CssModule.ValueAt(pv, j);
        Interleave(arr[..j + 1], values[..j]) + CssModule.ValueAt(pv, j);
      }
    }
  }

  // ---------------------------------------------------------------------------
  // The key

  /** `generateUniqueString()` with the two random draws `Math.floor(Math.random() * 10000)`
      as parameters: `"css_"` and both numbers in base 36. */
  function GenerateUniqueString(r1: nat, r2: nat): (key: string)
    requires r1 < 10000 && r2 < 10000
    ensures 6 <= |key| <= 10 && key[..4] == "css_"
    ensures forall i :: 4 <= i < |key| ==> Radix.IsDigitIn(key[i], 36)
  {
    KeyDigits(r1);
    KeyDigits(r2);
    var d1, d2 := Radix.Digits(r1, 36), Radix.Digits(r2, 36);
    var key := "css_" + d1 + d2;
    assert forall i :: 4 <= i < |key| ==> key[i] == (if i < 4 + |d1| then d1[i - 4] else d2[i - 4 - |d1|]);
    key
  }

  /** A number below 10000 prints in at most three base-36 digits (36^3 = 46656). */
  lemma KeyDigits(n: nat)
    requires n < 10000
    ensures 1 <= |Radix.Digits(n, 36)| <= 3
  {
    assert Radix.Pow(36, 3) == 46656 by {
      assert Radix.Pow(36, 1) == 36;
      assert Radix.Pow(36, 2) == 1296;
    }
    Radix.DigitsLength(n, 36, 3);
  }

  /** The key holds no `{`, `&`, `,` or space, so it is one class token and adds no match
      to the rewrite. */
  lemma KeyHasNoSyntax(r1: nat, r2: nat)
    requires r1 < 10000 && r2 < 10000
    ensures var key := GenerateUniqueString(r1, r2);
      '{' !in key && '&' !in key && ',' !in key && forall i :: 0 <= i < |key| ==> !IsSpace(key[i])
  {
    var key := GenerateUniqueString(r1, r2);
    assert key[..4] == "css_";
    forall i | 0 <= i < |key| ensures key[i] != '{' && key[i] != '&' && key[i] != ',' && !IsSpace(key[i]) {
      if i < 4 {
        assert key[i] == "css_"[i];
      } else {
        assert Radix.IsDigitIn(key[i], 36);
      }
    }
  }

  // ---------------------------------------------------------------------------
  // The selector rewrite

  /** `[ |\t|\n|\r]`: the class holds space, `|`, tab, line feed and carriage return. */
  predicate IsRunChar(c: char) {
    c == ' ' || c == '|' || c == '\t' || c == '\n' || c == '\r'
  }

  function RunLen(s: string): (k: nat)
    ensures k <= |s|
    ensures forall i :: 0 <= i < k ==> IsRunChar(s[i])
    ensures k == |s| || !IsRunChar(s[k])
  {
    if s == [] || !IsRunChar(s[0]) then 0 else 1 + RunLen(s[1..])
  }

  /** The length of a match of `/[&]?[ |\t|\n|\r]*\{/` at the start of `s`, if any. An `&`
      that does not begin a match cannot be skipped either way, since it is neither a run
      character nor `{`. */
  function MatchAt(s: string): (r: Option<nat>)
    ensures r.Some? ==> 1 <= r.value <= |s| && s[r.value - 1] == '{'
  {
    var a := if s != [] && s[0] == '&' then 1 else 0;
    var k := a + RunLen(s[a..]);
    if k < |s| && s[k] == '{' then Some(k + 1) else None
  }

  /** The replace callback: the `&` of a match becomes `.key`; a match without one gets
      `[key]` in front. */
  function ReplaceMatch(v: string, key: string): string {
    if v != [] && v[0] == '&' then "." + key + v[1..] else "[" + key + "]" + v
  }

  /** `css.replace(/[&]?[ |\t|\n|\r]*\{/g, …)`: leftmost matches, left to right. */
  function Rewrite(s: string, key: string): string
    decreases |s|
  {
    if s == [] then []
    else
      match MatchAt(s)
      case Some(n) => ReplaceMatch(s[..n], key) + Rewrite(s[n..], key)
      case None => [s[0]] + Rewrite(s[1..], key)
  }

  /** Characters that take no part in a match. */
  predicate Inert(a: string) {
    forall i :: 0 <= i < |a| ==> a[i] != '&' && a[i] != '{' && !IsRunChar(a[i])
  }

  /** An inert character is copied. */
  lemma RewriteCopies(s: string, key: string)
    requires s != [] && Inert(s[..1])
    ensures Rewrite(s, key) == [s[0]] + Rewrite(s[1..], key)
  {
    assert s[..1][0] == s[0];
    assert RunLen(s) == 0;
  }

  /** Text made of inert characters is copied unchanged. */
  lemma {:induction false} RewriteInert(a: string, t: string, key: string)
    requires Inert(a)
    ensures Rewrite(a + t, key) == a + Rewrite(t, key)
  {
    if a != [] {
      var s := a + t;
      assert s[..1] == a[..1] && s[1..] == a[1..] + t;
      RewriteCopies(s, key);
      RewriteInert(a[1..], t, key);
      ConsAppend(a, Rewrite(t, key));
    } else {
      assert a + t == t;
    }
  }

  lemma {:induction false} RunLenOf(run: string, t: string)
    requires forall i :: 0 <= i < |run| ==> IsRunChar(run[i])
    requires t != [] && t[0] == '{'
    ensures RunLen(run + t) == |run|
  {
    if run != [] {
      assert (run + t)[0] == run[0];
      assert (run + t)[1..] == run[1..] + t;
      RunLenOf(run[1..], t);
    } else {
      assert run + t == t;
    }
  }

  /** `&`, a run and `{`: the `&` becomes `.key`. */
  lemma AmpBlock(run: string, rest: string, key: string)
    requires forall i :: 0 <= i < |run| ==> IsRunChar(run[i])
    ensures Rewrite("&" + run + "{" + rest, key) == "." + key + run + "{" + Rewrite(rest, key)
  {
    var s := "&" + run + "{" + rest;
    var n := 2 + |run|;
    AmpSlices(run, rest);
    RunLenOf(run, "{" + rest);
    assert MatchAt(s) == Some(n);
    RewriteAtMatch(s, key, n);
    assert ReplaceMatch(s[..n], key) == "." + key + (run + "{");
  }

  lemma AmpSlices(run: string, rest: string)
    ensures var s, n := "&" + run + "{" + rest, 2 + |run|;
      && s[0] == '&' && s[1..] == run + ("{" + rest)
      && s[..n] == "&" + run + "{" && s[..n][0] == '&' && s[..n][1..] == run + "{"
      && s[n..] == rest
  {
    var s, n := "&" + run + "{" + rest, 2 + |run|;
    assert s[..n] == "&" + run + "{";
    assert s[..n][1..] == run + "{";
  }

  /** A run and `{` without `&`: `[key]` is put in front. */
  lemma BareBlock(run: string, rest: string, key: string)
    requires forall i :: 0 <= i < |run| ==> IsRunChar(run[i])
    ensures Rewrite(run + "{" + rest, key) == "[" + key + "]" + run + "{" + Rewrite(rest, key)
  {
    var s := run + "{" + rest;
    var n := 1 + |run|;
    BareSlices(run, rest);
    RunLenOf(run, "{" + rest);
    assert MatchAt(s) == Some(n);
    RewriteAtMatch(s, key, n);
    assert ReplaceMatch(s[..n], key) == "[" + key + "]" + (run + "{");
  }

  lemma BareSlices(run: string, rest: string)
    requires forall i :: 0 <= i < |run| ==> IsRunChar(run[i])
    ensures var s, n := run + "{" + rest, 1 + |run|;
      && s == run + ("{" + rest) && s[0] != '&'
      && s[..n] == run + "{" && s[..n][0] != '&' && s[n..] == rest
  {
    var s, n := run + "{" + rest, 1 + |run|;
    if run != [] { assert s[0] == run[0]; } else { assert s[0] == '{'; }
    assert s[..n] == run + "{";
  }

  /** `&:hover {` becomes `&:hover[key] {`: an `&` not directly followed by the run and
      `{` is left alone. */
  lemma HoverExample(key: string)
    ensures Rewrite("&:hover {", key) == "&:hover[" + key + "] {"
  {
    HoverAmp(key);
    HoverName(key);
    HoverBrace(key);
    HoverJoin(key);
  }

  lemma HoverBrace(key: string)
    ensures Rewrite(" {", key) == "[" + key + "]" + " {"
  {
    BareBlock(" ", "", key);
    assert " " + "{" + "" == " {";
  }

  lemma HoverAmp(key: string)
    ensures Rewrite("&:hover {", key) == "&" + Rewrite(":hover {", key)
  {
    var s := "&:hover {";
    assert s[1..] == ":hover {";
    assert RunLen(s[1..]) == 0;
  }

  lemma HoverName(key: string)
    ensures Rewrite(":hover {", key) == ":hover" + Rewrite(" {", key)
  {
    assert " " + "{" + "" == " {";
    assert ":hover {" == ":hover" + (" " + "{" + "");
    RewriteInert(":hover", " " + "{" + "", key);
  }

  lemma HoverJoin(key: string)
    ensures "&" + (":hover" + ("[" + key + "]" + " {")) == "&:hover[" + key + "] {"
  {
    assert "&" + ":hover" + "[" == "&:hover[";
    assert "]" + " {" == "] {";
  }

  /** An `&` begins a match exactly when a run and `{` follow it directly; otherwise the
      `&` is copied as it is and the scan goes on after it. */
  lemma AmpAlone(t: string, key: string)
    ensures MatchAt("&" + t).None? <==> !(RunLen(t) < |t| && t[RunLen(t)] == '{')
    ensures MatchAt("&" + t).None? ==> Rewrite("&" + t, key) == "&" + Rewrite(t, key)
  {
    var s := "&" + t;
    assert s[0] == '&' && s[1..] == t;
    assert RunLen(t) < |t| ==> s[1 + RunLen(t)] == t[RunLen(t)];
  }

  /** Text without `{` has no match and is left unchanged. */
  lemma {:induction false} RewriteNoBrace(s: string, key: string)
    requires '{' !in s
    ensures Rewrite(s, key) == s
    decreases |s|
  {
    if s != [] {
      NoBraceNoMatch(s);
      RewriteNoBrace(s[1..], key);
      assert s == [s[0]] + s[1..];
    }
  }

  lemma NoBraceNoMatch(s: string)
    ensures '{' !in s ==> MatchAt(s).None?
  {
    if MatchAt(s).Some? {
      var n := MatchAt(s).value;
      assert s[n - 1] in s;
    }
  }

  /** Every match ends in exactly one `{`, and the key holds none: the rewrite keeps the
      number of `{`. */
  lemma {:induction false} RewriteBraces(s: string, key: string)
    requires '{' !in key
    ensures Count('{', Rewrite(s, key)) == Count('{', s)
    decreases |s|
  {
    if s != [] {
      match MatchAt(s)
      case Some(n) =>
        RewriteBraces(s[n..], key);
        MatchStepBraces(s, key, n);
      case None =>
        RewriteBraces(s[1..], key);
        CopyStepBraces(s, key);
    }
  }

  lemma MatchStepBraces(s: string, key: string, n: nat)
    requires '{' !in key && MatchAt(s) == Some(n)
    requires Count('{', Rewrite(s[n..], key)) == Count('{', s[n..])
    ensures Count('{', Rewrite(s, key)) == Count('{', s)
  {
    MatchBraces(s[..n], key);
    RewriteAtMatch(s, key, n);
    SplitAt(s, n);
    CountAppend('{', s[..n], s[n..]);
    CountAppend('{', ReplaceMatch(s[..n], key), Rewrite(s[n..], key));
  }

  lemma RewriteAtMatch(s: string, key: string, n: nat)
    requires MatchAt(s) == Some(n)
    ensures Rewrite(s, key) == ReplaceMatch(s[..n], key) + Rewrite(s[n..], key)
  {
  }

  lemma CopyStepBraces(s: string, key: string)
    requires s != [] && MatchAt(s).None?
    requires Count('{', Rewrite(s[1..], key)) == Count('{', s[1..])
    ensures Count('{', Rewrite(s, key)) == Count('{', s)
  {
    assert s == [s[0]] + s[1..];
    CountAppend('{', [s[0]], s[1..]);
    CountAppend('{', [s[0]], Rewrite(s[1..], key));
  }

  lemma MatchBraces(v: string, key: string)
    requires '{' !in key
    ensures Count('{', ReplaceMatch(v, key)) == Count('{', v)
  {
    if v != [] && v[0] == '&' {
      assert v == [v[0]] + v[1..];
      CountAppend('{', [v[0]], v[1..]);
      CountAppend('{', "." + key, v[1..]);
      CountAppend('{', ".", key);
    } else {
      CountAppend('{', "[" + key + "]", v);
      CountAppend('{', "[" + key, "]");
      CountAppend('{', "[", key);
    }
  }

  // ---------------------------------------------------------------------------
  // The component

  /** What `_styled` returns: the injected style text, the wrapper's class and the
      `className` property set on the returned function. */
  datatype StyledComponent = StyledComponent(css: string, wrapperClass: string, className: string)

  /** `_styled(arr, value, com)`, with the key drawn by the caller. */
  method MakeStyled(arr: seq<string>, values: seq<string>, key: string, com: Option<StyledComponent>)
    returns (res: StyledComponent)
    requires |arr| == |values| + 1
    ensures res.css == Rewrite(Interleave(arr, values), key)
    ensures res.className == key
    ensures res.wrapperClass == WrapperClass(key, com)
  {
    var css := BuildCss(arr, values);
    var newCss := Rewrite(css, key);
    res := StyledComponent(newCss, WrapperClass(key, com), key);
  }

  /** `com ? (cssKey + ' ' + com.className) : cssKey` */
  function WrapperClass(key: string, com: Option<StyledComponent>): (r: string)
    ensures com.None? ==> r == key
    ensures com.Some? ==> r == key + " " + com.value.className
  {
    if com.Some? then key + " " + com.value.className else key
  }

  /** Extending carries one level only: `className` is the base's own key, so a wrapper
      holds the new key and the base's key, whatever the base was itself extended from. */
  lemma ExtendOneLevel(k2: string, base: StyledComponent)
    requires IsWord(base.className) && IsWord(k2)
    ensures Words(WrapperClass(k2, Some(base))) == [k2, base.className]
  {
    WordsOfJoin([k2, base.className]);
    assert Join([k2, base.className], " ") == k2 + " " + Join([base.className], " ");
  }

  /** The rendered wrapper: `h('div', { className }, addClassToChildren(children, key))`. */
  function Render(res: StyledComponent, children: Node): (r: Node)
    ensures r.Elem? && r.kind == Tag("div") && r.className == Some(res.wrapperClass)
  {
    Elem(Tag("div"), Some(res.wrapperClass), AddClassToChildren(children, res.className), map[])
  }

  // ---------------------------------------------------------------------------
  // Marking the children

  /** `typeof x === 'object' && x !== null`: arrays and elements. */
  predicate IsObject(v: Node) { v.Arr? || v.Elem? }

  /** `addClassToChildren(children, attr)`: non-objects are returned as they are, arrays
      are mapped, and an element gets the attribute `attr = ''` after its object children
      have been marked. */
  function AddClassToChildren(v: Node, attr: string): (r: Node)
    ensures !IsObject(v) ==> r == v
    ensures v.Arr? ==> r.Arr? && |r.items| == |v.items|
    ensures v.Elem? ==> r.Elem? && r.kind == v.kind && r.className == v.className
                        && r.attrs == v.attrs[attr := ""]
    decreases v, 1
  {
    match v
    case Arr(items) => Arr(AddClassItems(items, attr))
    case Elem(kind, className, children, attrs) =>
      var ch := if IsObject(children) then AddClassToChildren(children, attr) else children;
      Elem(kind, className, ch, attrs[attr := ""])
    case _ => v
  }

  function AddClassItems(items: seq<Node>, attr: string): (r: seq<Node>)
    ensures |r| == |items|
    decreases items, 0
  {
    seq(|items|, i requires 0 <= i < |items| => AddClassToChildren(items[i], attr))
  }

  /** Every element reachable through arrays and object children carries `attr = ''`. */
  predicate Marked(v: Node, attr: string)
    decreases v, 1
  {
    match v
    case Arr(items) => MarkedItems(items, attr)
    case Elem(_, _, children, attrs) => attr in attrs && attrs[attr] == "" && Marked(children, attr)
    case _ => true
  }

  predicate MarkedItems(items: seq<Node>, attr: string)
    decreases items, 0
  {
    forall i :: 0 <= i < |items| ==> Marked(items[i], attr)
  }

  /** The same traversal with `attr` removed from every element. */
  function Unmark(v: Node, attr: string): Node
    decreases v, 1
  {
    match v
    case Arr(items) => Arr(UnmarkItems(items, attr))
    case Elem(kind, className, children, attrs) => Elem(kind, className, Unmark(children, attr), attrs - {attr})
    case _ => v
  }

  function UnmarkItems(items: seq<Node>, attr: string): (r: seq<Node>)
    ensures |r| == |items|
    decreases items, 0
  {
    seq(|items|, i requires 0 <= i < |items| => Unmark(items[i], attr))
  }

  /** After marking, every element reached carries the attribute. */
  lemma {:induction false} AddClassMarks(v: Node, attr: string)
    ensures Marked(AddClassToChildren(v, attr), attr)
    decreases v, 1
  {
    match v
    case Arr(items) => AddClassItemsMark(items, attr);
    case Elem(_, _, children, _) =>
      if IsObject(children) { AddClassMarks(children, attr); }
    case _ =>
  }

  lemma {:induction false} AddClassItemsMark(items: seq<Node>, attr: string)
    ensures MarkedItems(AddClassItems(items, attr), attr)
    decreases items, 0
  {
    var out := AddClassItems(items, attr);
    forall i | 0 <= i < |items| ensures Marked(out[i], attr) {
      AddClassMarks(items[i], attr);
    }
  }

  /** Marking adds the attribute and nothing else: with it removed again, the tree is
      the input with it removed. */
  lemma {:induction false} AddClassOnlyMarks(v: Node, attr: string)
    ensures Unmark(AddClassToChildren(v, attr), attr) == Unmark(v, attr)
    decreases v, 1
  {
    match v
    case Arr(items) => AddClassItemsOnlyMark(items, attr);
    case Elem(_, _, children, attrs) =>
      if IsObject(children) { AddClassOnlyMarks(children, attr); }
      assert attrs[attr := ""] - {attr} == attrs - {attr};
    case _ =>
  }

  lemma {:induction false} AddClassItemsOnlyMark(items: seq<Node>, attr: string)
    ensures UnmarkItems(AddClassItems(items, attr), attr) == UnmarkItems(items, attr)
    decreases items, 0
  {
    var out := AddClassItems(items, attr);
    forall i | 0 <= i < |items| ensures Unmark(out[i], attr) == Unmark(items[i], attr) {
      AddClassOnlyMarks(items[i], attr);
    }
  }
}
