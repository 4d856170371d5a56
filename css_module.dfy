/** `cssModule`: joins a CSS template, hashes it, extracts the `.name` class tokens, maps
    each to a scoped name `css-` + six hash digits, rewrites the text with the two
    replacement passes and injects the result as one style element. */
module CssModule {
  import opened Text
  import opened Wrappers
  import Radix
  import Collections

  const TWO32: nat := 0x1_0000_0000
  const TWO31: nat := 0x8000_0000

  // ---------------------------------------------------------------------------
  // Template concatenation

  /** `values[idx] || ''`: a missing value and a falsy value (`None`) add nothing. */
  function ValueAt(values: seq<Option<string>>, idx: nat): (r: string)
    ensures idx < |values| && values[idx].Some? ==> r == values[idx].value
    ensures idx >= |values| || values[idx].None? ==> r == ""
  {
    if idx < |values| && values[idx].Some? then values[idx].value else ""
  }

  /** `template.reduce((acc, part, idx) => acc + part + (values[idx] || ''), '')` */
  function TemplateConcat(template: seq<string>, values: seq<Option<string>>): string
  {
    if template == [] then ""
    else
      var n := |template| - 1;
      TemplateConcat(template[..n], values) + template[n] + ValueAt(values, n)
  }

  // ---------------------------------------------------------------------------
  // The string hash

  /** `str.charCodeAt(i)` for all `i < str.length`: the UTF-16 code units of the text. */
  function CodeUnits(s: string): (u: seq<nat>)
    ensures forall i :: 0 <= i < |u| ==> u[i] < 0x10000
    ensures |u| >= |s|
  {
    if s == [] then [] else CharUnits(s[0]) + CodeUnits(s[1..])
  }

  function CharUnits(c: char): (u: seq<nat>)
    ensures |u| == 1 || |u| == 2
    ensures forall i :: 0 <= i < |u| ==> u[i] < 0x10000
  {
    var n := c as int;
    if n < 0x10000 then [n]
    else
      var m := n - 0x10000;
      [0xD800 + m / 0x400, 0xDC00 + m % 0x400]
  }

  /** The specification of `generateHash`: start at 0 and, for each code unit, take
      31 times the hash plus the unit modulo 2^32. */
  function HashValue(u: seq<nat>): (h: nat)
    ensures h < TWO32
  {
    if u == [] then 0 else (31 * HashValue(u[..|u| - 1]) + u[|u| - 1]) % TWO32
  }

  /** JavaScript's ToInt32: the signed 32-bit integer congruent to `x` modulo 2^32. */
  function ToInt32(x: int): (r: int)
    ensures -(TWO31 as int) <= r < TWO31
    ensures r % TWO32 == x % TWO32
  {
    var m := x % TWO32;
    if m >= TWO31 then m - TWO32 else m
  }

  lemma ModOfSum(a: int, b: int, c: int)
    requires a % TWO32 == b % TWO32
    ensures (a + c) % TWO32 == (b + c) % TWO32
  {
    var qa, qb := a / TWO32, b / TWO32;
    assert a == qa * TWO32 + a % TWO32;
    assert b == qb * TWO32 + b % TWO32;
    assert a + c == (b + c) + (qa - qb) * TWO32;
  }

  lemma ModOfMul31(a: int, b: int)
    requires a % TWO32 == b % TWO32
    ensures (31 * a) % TWO32 == (31 * b) % TWO32
  {
    var d := a / TWO32 - b / TWO32;
    assert a - b == d * TWO32;
    assert 31 * a == 31 * b + (31 * d) * TWO32;
    ModShift(31 * b, 31 * d);
  }

  lemma ModShift(x: int, k: int)
    ensures (x + k * TWO32) % TWO32 == x % TWO32
  {
  }

  /** One iteration of `hash = ((hash << 5) - hash) + code; hash |= 0`, read unsigned,
      is the step of `HashValue`. */
  lemma {:induction false} JsStepIsHashStep(hash: int, h: nat, code: nat)
    requires -(TWO31 as int) <= hash < TWO31
    requires hash % TWO32 == h
    ensures ToInt32(ToInt32(hash * 32) - hash + code) % TWO32 == (31 * h + code) % TWO32
  {
    var shifted := ToInt32(hash * 32);
    assert shifted % TWO32 == (hash * 32) % TWO32;
    ModOfSum(shifted, hash * 32, code - hash);
    assert hash * 32 + (code - hash) == 31 * hash + code;
    ModOfMul31(hash, h);
    ModOfSum(31 * hash, 31 * h, code);
  }

  /** `generateHash(str)`: the 32-bit hash printed as unsigned lowercase hexadecimal. */
  method GenerateHash(str: string) returns (hex: string)
    ensures hex == Radix.Digits(HashValue(CodeUnits(str)), 16)
  {
    var units := CodeUnits(str);
    var hash: int := 0;
    var i := 0;
    while i < |units|
      invariant 0 <= i <= |units|
      invariant -(TWO31 as int) <= hash < TWO31
      invariant hash % TWO32 == HashValue(units[..i])
    {
      JsStepIsHashStep(hash, HashValue(units[..i]), units[i]);
      assert units[..i + 1][..i] == units[..i];
      hash := ToInt32(ToInt32(hash * 32) - hash + units[i]);
      i := i + 1;
    }
    assert units[..i] == units;
    hex := Radix.Digits(hash % TWO32, 16);
  }

  /** The printed hash of `str`, as `GenerateHash` returns it. */
  function Hex(str: string): string {
    Radix.Digits(HashValue(CodeUnits(str)), 16)
  }

  /** The printed hash has 1 to 8 lowercase hexadecimal digits, does not start with `0`
      unless it is `"0"`, and reads back as the hash value. */
  lemma HexShape(str: string)
    ensures 1 <= |Hex(str)| <= 8
    ensures Radix.AllDigitsIn(Hex(str), 16)
    ensures Hex(str) == "0" || Hex(str)[0] != '0'
    ensures Radix.Value(Hex(str), 16) == HashValue(CodeUnits(str))
  {
    var h := HashValue(CodeUnits(str));
    assert Radix.Pow(16, 8) == TWO32 by {
      assert Radix.Pow(16, 2) == 256;
      assert Radix.Pow(16, 4) == 65536 by {
        assert Radix.Pow(16, 3) == 16 * Radix.Pow(16, 2);
      }
      assert Radix.Pow(16, 6) == 16777216 by {
        assert Radix.Pow(16, 5) == 16 * Radix.Pow(16, 4);
      }
      assert Radix.Pow(16, 7) == 16 * Radix.Pow(16, 6);
    }
    Radix.DigitsLength(h, 16, 8);
    Radix.ValueOfDigits(h, 16);
  }

  /** The hash of the empty text is `"0"`. */
  lemma HexOfEmpty()
    ensures Hex("") == "0"
  {
  }

  /** `generateHash(cssContent).slice(0, 8)` keeps the whole hash: it has at most 8 digits. */
  lemma ContentHashIsFullHash(str: string)
    ensures Take(Hex(str), 8) == Hex(str)
  {
    HexShape(str);
  }

  // ---------------------------------------------------------------------------
  // Class extraction: /\.([a-zA-Z0-9_-]+)/g

  /** Length of the run of class-name characters at the start of `s`. */
  function NameRun(s: string): (k: nat)
    ensures k <= |s|
    ensures forall i :: 0 <= i < k ==> IsNameChar(s[i])
    ensures k == |s| || !IsNameChar(s[k])
  {
    if s == [] || !IsNameChar(s[0]) then 0 else 1 + NameRun(s[1..])
  }

  /** A non-empty run of class-name characters. */
  predicate IsName(n: string) {
    n != [] && forall i :: 0 <= i < |n| ==> IsNameChar(n[i])
  }

  lemma {:induction false} NameRunOf(n: string, t: string)
    requires forall i :: 0 <= i < |n| ==> IsNameChar(n[i])
    requires t == [] || !IsNameChar(t[0])
    ensures NameRun(n + t) == |n|
  {
    if n != [] {
      assert (n + t)[1..] == n[1..] + t;
      NameRunOf(n[1..], t);
    } else {
      assert n + t == t;
    }
  }

  /** The captured names of the successive matches of `/\.([a-zA-Z0-9_-]+)/g`. */
  function ClassTokens(s: string): (ts: seq<string>)
    ensures forall i :: 0 <= i < |ts| ==> IsName(ts[i])
    decreases |s|
  {
    if s == [] then []
    else if s[0] == '.' && |s| >= 2 && IsNameChar(s[1]) then
      var k := 1 + NameRun(s[1..]);
      [s[1..k]] + ClassTokens(s[k..])
    else ClassTokens(s[1..])
  }

  /** Text without a `.` contributes no class name. */
  lemma {:induction false} ClassTokensPlain(a: string, t: string)
    requires '.' !in a
    ensures ClassTokens(a + t) == ClassTokens(t)
  {
    if a != [] {
      assert (a + t)[0] == a[0];
      assert (a + t)[1..] == a[1..] + t;
      ClassTokensPlain(a[1..], t);
    } else {
      assert a + t == t;
    }
  }

  /** A `.` followed by a maximal run of name characters yields that run. */
  lemma ClassTokensName(n: string, t: string)
    requires IsName(n)
    requires t == [] || !IsNameChar(t[0])
    ensures ClassTokens("." + n + t) == [n] + ClassTokens(t)
  {
    var s := "." + n + t;
    assert s[1..] == n + t;
    NameRunOf(n, t);
    assert s[1..1 + |n|] == n;
    assert s[1 + |n|..] == t;
  }

  /** A `.` not followed by a name character yields nothing. */
  lemma ClassTokensLoneDot(t: string)
    requires t == [] || !IsNameChar(t[0])
    ensures ClassTokens("." + t) == ClassTokens(t)
  {
    assert ("." + t)[1..] == t;
  }

  /** The `while (match = classReg.exec(cssContent))` loop adding each captured name to a
      `Set`, followed by `Array.from`: the distinct names in first-match order. */
  method ExtractClassNames(css: string) returns (classList: seq<string>)
    ensures classList == Collections.Unique(ClassTokens(css))
  {
    classList := [];
    var i := 0;
    assert css[0..] == css;
    while i < |css|
      invariant 0 <= i <= |css|
      invariant Collections.UniqueInto(classList, ClassTokens(css[i..])) == Collections.Unique(ClassTokens(css))
    {
      if css[i] == '.' && i + 1 < |css| && IsNameChar(css[i + 1]) {
        var j := NameEnd(css, i + 1);
        var name := css[i + 1..j];
        ClassTokensStep(css, i, j);
        if name !in classList {
          classList := classList + [name];
        }
        i := j;
      } else {
        ClassTokensSkip(css, i);
        i := i + 1;
      }
    }
  }

  /** The end of the name run that starts at `i`. */
  method NameEnd(css: string, i: nat) returns (j: nat)
    requires i <= |css|
    ensures i <= j <= |css|
    ensures forall k :: i <= k < j ==> IsNameChar(css[k])
    ensures j == |css| || !IsNameChar(css[j])
  {
    j := i;
    while j < |css| && IsNameChar(css[j])
      invariant i <= j <= |css|
      invariant forall k :: i <= k < j ==> IsNameChar(css[k])
    {
      j := j + 1;
    }
  }

  lemma ClassTokensSkip(css: string, i: nat)
    requires i < |css| && !(css[i] == '.' && i + 1 < |css| && IsNameChar(css[i + 1]))
    ensures ClassTokens(css[i..]) == ClassTokens(css[i + 1..])
  {
    assert css[i..][1..] == css[i + 1..];
  }

  lemma ClassTokensStep(css: string, i: nat, j: nat)
    requires i + 1 < j <= |css| && css[i] == '.'
    requires forall k :: i + 1 <= k < j ==> IsNameChar(css[k])
    requires j == |css| || !IsNameChar(css[j])
    ensures ClassTokens(css[i..]) == [css[i + 1..j]] + ClassTokens(css[j..])
  {
    assert css[i..] == "." + css[i + 1..j] + css[j..];
    ClassTokensName(css[i + 1..j], css[j..]);
  }

  // ---------------------------------------------------------------------------
  // The class map

  /** `css-${generateHash(`${name}-${contentHash}`).slice(0, 6)}` */
  function ScopedName(name: string, contentHash: string): string {
    "css-" + Take(Hex(name + "-" + contentHash), 6)
  }

  /** A scoped name is `css-` and one to six hexadecimal digits: a class name itself. */
  lemma ScopedNameShape(name: string, contentHash: string)
    ensures var r := ScopedName(name, contentHash);
      && 5 <= |r| <= 10 && r[..4] == "css-" && IsName(r)
      && Radix.AllDigitsIn(r[4..], 16)
  {
    var hx := Hex(name + "-" + contentHash);
    HexShape(name + "-" + contentHash);
    var r := ScopedName(name, contentHash);
    assert r[4..] == Take(hx, 6);
    forall i | 0 <= i < |r| ensures IsNameChar(r[i]) {
      if i >= 4 {
        assert r[i] == hx[i - 4];
        assert Radix.IsDigitIn(hx[i - 4], 16);
      }
    }
  }

  /** The `classMap` object, filled name by name: every class name of the list mapped to
      its scoped name, a later duplicate writing the same value again. */
  function ClassMapOf(names: seq<string>, contentHash: string): map<string, string>
    decreases |names|
  {
    if names == [] then map[]
    else
      var last := names[|names| - 1];
      ClassMapOf(names[..|names| - 1], contentHash)[last := ScopedName(last, contentHash)]
  }

  /** The keys are exactly the listed names, each mapped to its scoped name. */
  lemma {:induction false} ClassMapOfEntries(names: seq<string>, h: string)
    ensures forall n :: n in ClassMapOf(names, h) <==> n in names
    ensures forall n :: n in ClassMapOf(names, h) ==> ClassMapOf(names, h)[n] == ScopedName(n, h)
    decreases |names|
  {
    if names != [] {
      var init := names[..|names| - 1];
      ClassMapOfEntries(init, h);
      assert names == init + [names[|names| - 1]];
    }
  }


  // ---------------------------------------------------------------------------
  // The two rewrite passes

  /** `classMap[name]` is truthy: the name is mapped to a non-empty string. */
  predicate Mapped(m: map<string, string>, name: string) {
    name in m && m[name] != ""
  }

  /** The lookahead `(?=[\s,{])` of the first pass. */
  predicate EndsSelector(c: char) {
    IsSpace(c) || c == ',' || c == '{'
  }

  /** The text after a maximal class-name run completes a first-pass match when it
      starts with whitespace, `,` or `{`, or with a pseudo-class (`:` and a name run)
      followed by one of these; the result is the pseudo-class length. Once the name
      run is followed by `:`, no shorter name and no shorter pseudo-class can match. */
  function SelectorTail(t: string): (r: Option<nat>)
    ensures r.Some? ==> r.value < |t| && EndsSelector(t[r.value])
  {
    if |t| >= 2 && t[0] == ':' && IsNameChar(t[1]) then
      var q := 1 + NameRun(t[1..]);
      if q < |t| && EndsSelector(t[q]) then Some(q) else None
    else if t != [] && EndsSelector(t[0]) then Some(0)
    else None
  }

  /** A match of `/\.([a-zA-Z0-9_-]+)(:[a-zA-Z0-9_-]+)?(?=[\s,{])/` at the start of
      `s`: the name is `s[1..e]` and the pseudo-class `s[e..f]` (possibly empty). */
  function Match1(s: string): (r: Option<(nat, nat)>)
    ensures r.Some? ==> 2 <= r.value.0 <= r.value.1 < |s| && s[0] == '.'
  {
    if |s| >= 2 && s[0] == '.' && IsNameChar(s[1]) then
      var e := 1 + NameRun(s[1..]);
      match SelectorTail(s[e..])
      case Some(p) => Some((e, e + p))
      case None => None
    else None
  }

  /** What a match captures: a non-empty class name, and a look-ahead character that is
      whitespace, `,` or `{`. */
  lemma Match1Groups(s: string)
    ensures Match1(s).Some? ==> IsName(s[1..Match1(s).value.0]) && EndsSelector(s[Match1(s).value.1])
  {
    if Match1(s).Some? {
      var e := 1 + NameRun(s[1..]);
      assert forall i :: 0 <= i < e - 1 ==> s[1..e][i] == s[1..][i];
    }
  }

  /** The first pass's callback: `.${classMap[name]}${pseudo || ''}` or the match itself. */
  function Replace1(m: map<string, string>, name: string, pseudo: string): string {
    if Mapped(m, name) then "." + m[name] + pseudo else "." + name + pseudo
  }

  /** First pass: class selectors with an optional pseudo-class, followed by whitespace,
      `,` or `{`. Where no match starts, one character is copied and the scan goes on. */
  function Pass1(s: string, m: map<string, string>): string
    decreases |s|
  {
    if s == [] then []
    else
      match Match1(s)
      case Some((e, f)) => Replace1(m, s[1..e], s[e..f]) + Pass1(s[f..], m)
      case None => [s[0]] + Pass1(s[1..], m)
  }

  /** A match of `/\.([a-zA-Z0-9_-]+)(?![a-zA-Z0-9:_-])/` at the start of `s`, ending
      at the returned index: the maximal name run not followed by `:`. */
  function Match2(s: string): (r: Option<nat>)
    ensures r.Some? ==> 2 <= r.value <= |s| && s[0] == '.'
  {
    if |s| >= 2 && s[0] == '.' && IsNameChar(s[1]) then
      var e := 1 + NameRun(s[1..]);
      if e == |s| || s[e] != ':' then Some(e) else None
    else None
  }

  /** The second pass's callback: `.${classMap[name]}` or the match itself. */
  function Replace2(m: map<string, string>, name: string): string {
    if Mapped(m, name) then "." + m[name] else "." + name
  }

  /** Second pass: class tokens not followed by a name character or `:`. */
  function Pass2(s: string, m: map<string, string>): string
    decreases |s|
  {
    if s == [] then []
    else
      match Match2(s)
      case Some(e) => Replace2(m, s[1..e]) + Pass2(s[e..], m)
      case None => [s[0]] + Pass2(s[1..], m)
  }

  /** `processedCss` after both passes. */
  function Rewrite(css: string, m: map<string, string>): string {
    Pass2(Pass1(css, m), m)
  }

  /** Text without a `.` passes through the first pass unchanged. */
  lemma {:induction false} Pass1Plain(a: string, t: string, m: map<string, string>)
    requires '.' !in a
    ensures Pass1(a + t, m) == a + Pass1(t, m)
  {
    if a != [] {
      var s := a + t;
      assert s[0] == a[0];
      assert s[1..] == a[1..] + t;
      assert Match1(s).None?;
      Pass1AtNone(s, m);
      Pass1Plain(a[1..], t, m);
      ConsAppend(a, Pass1(t, m));
    } else {
      assert a + t == t;
    }
  }

  /** Text without a `.` passes through the second pass unchanged. */
  lemma {:induction false} Pass2Plain(a: string, t: string, m: map<string, string>)
    requires '.' !in a
    ensures Pass2(a + t, m) == a + Pass2(t, m)
  {
    if a != [] {
      var s := a + t;
      assert s[0] == a[0];
      assert s[1..] == a[1..] + t;
      assert Match2(s).None?;
      Pass2AtNone(s, m);
      Pass2Plain(a[1..], t, m);
      ConsAppend(a, Pass2(t, m));
    } else {
      assert a + t == t;
    }
  }

  /** The text after a name ends its run: it is empty or starts with another character. */
  predicate EndsName(t: string) {
    t == [] || !IsNameChar(t[0])
  }

  lemma Match1OfName(n: string, t: string)
    requires IsName(n) && EndsName(t)
    ensures SelectorTail(t).None? ==> Match1("." + n + t).None?
    ensures SelectorTail(t).Some? ==> Match1("." + n + t) == Some((1 + |n|, 1 + |n| + SelectorTail(t).value))
  {
    var s := "." + n + t;
    DotNameParts(n, t);
    NameRunOf(n, t);
    assert NameRun(s[1..]) == |n|;
  }

  lemma DotNameParts(n: string, t: string)
    requires n != []
    ensures var s := "." + n + t;
      |s| >= 2 && s[0] == '.' && s[1] == n[0] && s[1..] == n + t && s[1 + |n|..] == t
  {
    var s := "." + n + t;
    assert s[1..] == n + t;
    assert s[1 + |n|..] == t;
  }

  lemma Pass1AtMatch(s: string, m: map<string, string>, e: nat, f: nat)
    requires Match1(s) == Some((e, f))
    ensures Pass1(s, m) == Replace1(m, s[1..e], s[e..f]) + Pass1(s[f..], m)
  {
  }

  lemma Pass1AtNone(s: string, m: map<string, string>)
    requires s != [] && Match1(s).None?
    ensures Pass1(s, m) == [s[0]] + Pass1(s[1..], m)
  {
  }

  lemma Pass2AtMatch(s: string, m: map<string, string>, e: nat)
    requires Match2(s) == Some(e)
    ensures Pass2(s, m) == Replace2(m, s[1..e]) + Pass2(s[e..], m)
  {
  }

  lemma Pass2AtNone(s: string, m: map<string, string>)
    requires s != [] && Match2(s).None?
    ensures Pass2(s, m) == [s[0]] + Pass2(s[1..], m)
  {
  }

  /** The first pass at a `.` and a maximal name run completing a match: the name is
      replaced and the pseudo-class kept. */
  lemma Pass1NameMatch(n: string, t: string, m: map<string, string>)
    requires IsName(n) && EndsName(t) && SelectorTail(t).Some?
    ensures var p := SelectorTail(t).value;
      Pass1("." + n + t, m) == Replace1(m, n, t[..p]) + Pass1(t[p..], m)
  {
    var p := SelectorTail(t).value;
    Match1OfName(n, t);
    Pass1Dot(n, t, p, m);
  }

  lemma Pass1Dot(n: string, t: string, p: nat, m: map<string, string>)
    requires p <= |t| && Match1("." + n + t) == Some((1 + |n|, 1 + |n| + p))
    ensures Pass1("." + n + t, m) == Replace1(m, n, t[..p]) + Pass1(t[p..], m)
  {
    var e := 1 + |n|;
    DotNameSlices(n, t, p);
    Pass1AtSlices("." + n + t, m, e, e + p, n, t[..p], t[p..]);
  }

  lemma Pass1AtSlices(s: string, m: map<string, string>, e: nat, f: nat, a: string, b: string, c: string)
    requires Match1(s) == Some((e, f))
    requires s[1..e] == a && s[e..f] == b && s[f..] == c
    ensures Pass1(s, m) == Replace1(m, a, b) + Pass1(c, m)
  {
    Pass1AtMatch(s, m, e, f);
  }

  lemma DotNameSlices(n: string, t: string, p: nat)
    requires p <= |t|
    ensures var s, e := "." + n + t, 1 + |n|;
      s[1..e] == n && s[e..e + p] == t[..p] && s[e + p..] == t[p..]
  {
  }

  /** The first pass at a `.` and a maximal name run that completes no match: the `.`
      and the name are copied. */
  lemma Pass1NameNoMatch(n: string, t: string, m: map<string, string>)
    requires IsName(n) && EndsName(t) && SelectorTail(t).None?
    ensures Pass1("." + n + t, m) == "." + n + Pass1(t, m)
  {
    var s := "." + n + t;
    Match1OfName(n, t);
    Pass1AtNone(s, m);
    DotSplit(n, t);
    Pass1Plain(n, t, m);
    Assoc(".", n, Pass1(t, m));
  }

  lemma DotSplit(n: string, t: string)
    ensures ("." + n + t)[0] == '.'
    ensures ("." + n + t)[1..] == n + t
  {
  }

  lemma Assoc(a: string, b: string, c: string)
    ensures a + b + c == a + (b + c)
  {
  }

  /** The second pass at a `.` and a maximal name run not followed by `:`: replaced. */
  lemma Pass2NameMatch(n: string, t: string, m: map<string, string>)
    requires IsName(n) && EndsName(t) && (t == [] || t[0] != ':')
    ensures Pass2("." + n + t, m) == Replace2(m, n) + Pass2(t, m)
  {
    var s := "." + n + t;
    assert s[1..] == n + t;
    NameRunOf(n, t);
    var e := 1 + |n|;
    assert s[e..] == t;
    assert Match2(s) == Some(e);
    Pass2AtMatch(s, m, e);
    assert s[1..e] == n;
  }

  /** A class token directly followed by `:` is not matched by the second pass. */
  lemma Pass2NameColon(n: string, t: string, m: map<string, string>)
    requires IsName(n)
    ensures Pass2("." + n + ":" + t, m) == "." + n + ":" + Pass2(t, m)
  {
    var s := "." + n + ":" + t;
    var a := n + ":";
    ColonParts(n, t);
    ColonParts(n, Pass2(t, m));
    NameRunOf(n, ":" + t);
    assert s[1 + |n|] == ':';
    assert Match2(s).None?;
    Pass2AtNone(s, m);
    assert '.' !in a by { assert forall i :: 0 <= i < |n| ==> a[i] == n[i]; }
    Pass2Plain(a, t, m);
  }

  lemma ColonParts(n: string, t: string)
    ensures var s := "." + n + ":" + t;
      && s == ['.'] + ((n + ":") + t) && s[0] == '.'
      && s[1..] == (n + ":") + t && s[1..] == n + (":" + t)
  {
    var s := "." + n + ":" + t;
    assert s == ['.'] + ((n + ":") + t);
  }

  /** A pseudo-class suffix: `:` and a non-empty name run. */
  predicate IsPseudo(p: string) {
    |p| >= 2 && p[0] == ':' && IsName(p[1..])
  }

  /** The first pass rewrites a class selector, with or without a pseudo-class, that is
      followed by whitespace, `,` or `{`, and keeps the pseudo-class. */
  lemma Pass1Selector(n: string, p: string, t: string, m: map<string, string>)
    requires IsName(n)
    requires p == "" || IsPseudo(p)
    requires t != [] && EndsSelector(t[0])
    ensures Pass1("." + n + p + t, m) == Replace1(m, n, p) + Pass1(t, m)
  {
    var u := p + t;
    assert "." + n + p + t == "." + n + u;
    if p != "" {
      assert u[1..] == p[1..] + t;
      NameRunOf(p[1..], t);
    }
    assert SelectorTail(u) == Some(|p|);
    assert u[..|p|] == p && u[|p|..] == t;
    Pass1NameMatch(n, u, m);
  }

  /** A class token followed by something other than whitespace, `,`, `{` or a
      pseudo-class is not matched by the first pass. */
  lemma Pass1Unmatched(n: string, t: string, m: map<string, string>)
    requires IsName(n) && EndsName(t)
    requires t == [] || (t[0] != ':' && !EndsSelector(t[0]))
    ensures Pass1("." + n + t, m) == "." + n + Pass1(t, m)
  {
    Pass1NameNoMatch(n, t, m);
  }

  /** A class token followed by `::` is matched by neither pass, so `.foo::before` keeps
      its original name. */
  lemma PseudoElementKept(n: string, t: string, m: map<string, string>)
    requires IsName(n)
    ensures Pass1("." + n + "::" + t, m) == "." + n + "::" + Pass1(t, m)
    ensures Pass2("." + n + "::" + t, m) == "." + n + "::" + Pass2(t, m)
  {
    PseudoElementKept1(n, t, m);
    PseudoElementKept2(n, t, m);
  }

  lemma PseudoElementKept1(n: string, t: string, m: map<string, string>)
    requires IsName(n)
    ensures Pass1("." + n + "::" + t, m) == "." + n + "::" + Pass1(t, m)
  {
    var u := "::" + t;
    Assoc("." + n, "::", t);
    assert SelectorTail(u).None?;
    Pass1NameNoMatch(n, u, m);
    Pass1Plain("::", t, m);
    Assoc("." + n, "::", Pass1(t, m));
  }

  lemma PseudoElementKept2(n: string, t: string, m: map<string, string>)
    requires IsName(n)
    ensures Pass2("." + n + "::" + t, m) == "." + n + "::" + Pass2(t, m)
  {
    Pass2NameColon(n, ":" + t, m);
    Pass2Plain(":", t, m);
    ColonColon("." + n, Pass2(t, m));
    ColonColon("." + n, t);
  }

  lemma ColonColon(a: string, t: string)
    ensures a + ":" + (":" + t) == a + "::" + t
  {
    assert a + "::" + t == (a + ":") + (":" + t);
  }

  /** No key of the map occurs in `s` with a `.` before it. */
  predicate NoMappedToken(s: string, m: map<string, string>) {
    forall k, i :: k in m && 0 <= i <= |s| ==> !OccursAt(s, "." + k, i)
  }

  lemma NoMappedTokenSuffix(s: string, m: map<string, string>, j: nat)
    requires NoMappedToken(s, m) && j <= |s|
    ensures NoMappedToken(s[j..], m)
  {
    forall k, i | k in m && 0 <= i <= |s[j..]| ensures !OccursAt(s[j..], "." + k, i) {
      assert !OccursAt(s, "." + k, j + i);
      if i + |"." + k| <= |s[j..]| {
        assert s[j..][i..i + |"." + k|] == s[j + i..j + i + |"." + k|];
      }
    }
  }

  /** A token at the start of `s` whose name is mapped would occur in it. */
  lemma MappedOccurs(s: string, m: map<string, string>, e: nat)
    requires NoMappedToken(s, m)
    requires 2 <= e <= |s| && s[0] == '.'
    ensures !Mapped(m, s[1..e])
  {
    if Mapped(m, s[1..e]) {
      assert s[0..e] == "." + s[1..e];
      assert OccursAt(s, "." + s[1..e], 0);
    }
  }

  /** A token cut into its `.`, its name and its pseudo-class. */
  lemma Pieces(s: string, e: nat, f: nat)
    requires 1 <= e <= f <= |s| && s[0] == '.'
    ensures s[..f] == "." + s[1..e] + s[e..f]
  {
    assert s[..f] == [s[0]] + s[1..e] + s[e..f];
  }

  lemma DotName(s: string, e: nat)
    requires 1 <= e <= |s| && s[0] == '.'
    ensures s[..e] == "." + s[1..e]
  {
    assert s[..e] == [s[0]] + s[1..e];
  }

  /** Where the first pass resumes after the start of `s`. */
  function Next1(s: string): (j: nat)
    requires s != []
    ensures 1 <= j <= |s|
  {
    match Match1(s)
    case Some((e, f)) => f
    case None => 1
  }

  /** Where the second pass resumes after the start of `s`. */
  function Next2(s: string): (j: nat)
    requires s != []
    ensures 1 <= j <= |s|
  {
    match Match2(s)
    case Some(e) => e
    case None => 1
  }

  /** One step of the first pass copies an unmapped token or one character. */
  lemma Pass1UnmappedStep(s: string, m: map<string, string>)
    requires s != [] && NoMappedToken(s, m)
    ensures Pass1(s, m) == s[..Next1(s)] + Pass1(s[Next1(s)..], m)
    ensures NoMappedToken(s[Next1(s)..], m)
  {
    NoMappedTokenSuffix(s, m, Next1(s));
    match Match1(s)
    case Some((e, f)) =>
      MappedOccurs(s, m, e);
      Pass1AtMatch(s, m, e, f);
      Pieces(s, e, f);
    case None =>
      Pass1AtNone(s, m);
      assert s[..1] == [s[0]];
  }

  /** One step of the second pass copies an unmapped token or one character. */
  lemma Pass2UnmappedStep(s: string, m: map<string, string>)
    requires s != [] && NoMappedToken(s, m)
    ensures Pass2(s, m) == s[..Next2(s)] + Pass2(s[Next2(s)..], m)
    ensures NoMappedToken(s[Next2(s)..], m)
  {
    NoMappedTokenSuffix(s, m, Next2(s));
    match Match2(s)
    case Some(e) =>
      MappedOccurs(s, m, e);
      Pass2AtMatch(s, m, e);
      DotName(s, e);
    case None =>
      Pass2AtNone(s, m);
      assert s[..1] == [s[0]];
  }

  /** The first pass leaves text in which no mapped name appears as a `.name` token as it is. */
  lemma {:induction false} Pass1KeepsUnmapped(s: string, m: map<string, string>)
    requires NoMappedToken(s, m)
    ensures Pass1(s, m) == s
    decreases |s|
  {
    if s != [] {
      var j := Next1(s);
      Pass1UnmappedStep(s, m);
      Pass1KeepsUnmapped(s[j..], m);
      SplitAt(s, j);
    }
  }

  /** The second pass leaves text in which no mapped name appears as a `.name` token as it is. */
  lemma {:induction false} Pass2KeepsUnmapped(s: string, m: map<string, string>)
    requires NoMappedToken(s, m)
    ensures Pass2(s, m) == s
    decreases |s|
  {
    if s != [] {
      var j := Next2(s);
      Pass2UnmappedStep(s, m);
      Pass2KeepsUnmapped(s[j..], m);
      SplitAt(s, j);
    }
  }

  /** With no mapped name in the text (an empty map in particular) the rewrite is the identity. */
  lemma RewriteKeepsUnmapped(s: string, m: map<string, string>)
    requires NoMappedToken(s, m)
    ensures Rewrite(s, m) == s
  {
    Pass1KeepsUnmapped(s, m);
    Pass2KeepsUnmapped(s, m);
  }

  // ---------------------------------------------------------------------------
  // The whole function

  /** A `<style data-css-module="hash">` element appended to the document head. */
  datatype Injection = Injection(css: string, hash: string)

  /** The value stored for one class name: `css-` and the first six digits of the hash of
      `name-contentHash`. */
  method ScopedClass(name: string, contentHash: string) returns (scoped: string)
    ensures scoped == ScopedName(name, contentHash)
  {
    var hx := GenerateHash(name + "-" + contentHash);
    scoped := "css-" + Take(hx, 6);
  }

  /** The `classList.forEach` loop filling `classMap`. */
  method BuildClassMap(classList: seq<string>, contentHash: string) returns (classMap: map<string, string>)
    ensures classMap == ClassMapOf(classList, contentHash)
  {
    classMap := map[];
    var k := 0;
    while k < |classList|
      invariant 0 <= k <= |classList|
      invariant classMap == ClassMapOf(classList[..k], contentHash)
    {
      var name := classList[k];
      var scoped := ScopedClass(name, contentHash);
      TakeSnoc(classList, k);
      ClassMapOfSnoc(classList[..k], name, contentHash);
      classMap := classMap[name := scoped];
      k := k + 1;
    }
    assert classList[..k] == classList;
  }

  lemma ClassMapOfSnoc(a: seq<string>, x: string, h: string)
    ensures ClassMapOf(a + [x], h) == ClassMapOf(a, h)[x := ScopedName(x, h)]
  {
    assert (a + [x])[..|a|] == a;
  }

  /** The class list is empty exactly when the text holds no class token, and it has the
      same elements as the token sequence. */
  lemma ClassListOf(css: string)
    ensures var list := Collections.Unique(ClassTokens(css));
      && (|list| == 0 <==> ClassTokens(css) == [])
      && (forall n :: n in list <==> n in ClassTokens(css))
  {
    var ts := ClassTokens(css);
    Collections.UniqueElements(ts);
    if ts != [] {
      assert ts[0] in Collections.Unique(ts);
    }
  }

  /** A map built from a list depends only on the list's elements. */
  lemma ClassMapOfElements(a: seq<string>, b: seq<string>, h: string)
    requires forall n :: n in a <==> n in b
    ensures ClassMapOf(a, h) == ClassMapOf(b, h)
  {
    ClassMapOfEntries(a, h);
    ClassMapOfEntries(b, h);
    assert ClassMapOf(a, h).Keys == ClassMapOf(b, h).Keys;
  }

  /** `cssModule(template, ...values)`: on success the class map, and exactly one style
      element holding the rewritten CSS; `None` and nothing injected when the text holds
      no class name (the thrown error is caught and `null` returned). The hash set of a
      call starts empty, so its duplicate check never returns early. */
  method CssModuleCall(template: seq<string>, values: seq<Option<string>>)
    returns (result: Option<map<string, string>>, injected: seq<Injection>)
    ensures var css := TemplateConcat(template, values);
      var names := ClassTokens(css);
      if names == [] then result == None && injected == []
      else
        && result == Some(ClassMapOf(names, Hex(css)))
        && injected == [Injection(Rewrite(css, ClassMapOf(names, Hex(css))), Hex(css))]
  {
    var injectedHashes: set<string> := {};
    var cssContent := TemplateConcat(template, values);
    var fullHash := GenerateHash(cssContent);
    var contentHash := Take(fullHash, 8);
    ContentHashIsFullHash(cssContent);
    if contentHash in injectedHashes {
      return None, [];
    }
    var classList := ExtractClassNames(cssContent);
    ClassListOf(cssContent);
    if |classList| == 0 {
      return None, [];
    }
    var classMap := BuildClassMap(classList, contentHash);
    ClassMapOfElements(classList, ClassTokens(cssContent), contentHash);
    var processedCss := Pass1(cssContent, classMap);
    processedCss := Pass2(processedCss, classMap);
    injected := [Injection(processedCss, contentHash)];
    injectedHashes := injectedHashes + {contentHash};
    result := Some(classMap);
  }

  /** The keys of the class map are exactly the extracted class names, and each value is
      `css-` followed by the first six digits of the hash of `name-contentHash`, itself a
      class name. */
  lemma ClassMapKeysAndValues(css: string)
    ensures var m := ClassMapOf(ClassTokens(css), Hex(css));
      && (forall n :: n in m <==> n in ClassTokens(css))
      && (forall n :: n in m ==> m[n] == "css-" + Take(Hex(n + "-" + Hex(css)), 6) && IsName(m[n]))
  {
    var m := ClassMapOf(ClassTokens(css), Hex(css));
    ClassMapOfEntries(ClassTokens(css), Hex(css));
    forall n | n in m ensures IsName(m[n]) {
      ScopedNameShape(n, Hex(css));
    }
  }

  // ---------------------------------------------------------------------------
  // The documented example

  const PaddingRule: string := " { padding: 16px; } "
  const Hover: string := ":hover"
  const OpacityRule: string := " { opacity: 0"
  const CloseRule: string := "; }"

  /** `.container { padding: 16px; } .container:hover { opacity: 0.8; }`, written as the
      pieces between its class tokens. */
  const ScenarioCss: string :=
    "." + "container" + (PaddingRule + ("." + "container" + (Hover + (OpacityRule + ("." + "8" + CloseRule)))))

  lemma ScenarioPieces()
    ensures '.' !in PaddingRule && '.' !in OpacityRule && '.' !in CloseRule && '.' !in "hover"
    ensures PaddingRule[0] == ' ' && OpacityRule[0] == ' ' && CloseRule[0] == ';' && Hover[0] == ':'
    ensures Hover == ":" + "hover" && CloseRule + "" == CloseRule
    ensures IsName("container") && IsName("8") && IsName("hover") && IsPseudo(Hover)
    ensures EndsSelector(PaddingRule[0]) && EndsSelector(OpacityRule[0])
    ensures !EndsSelector(CloseRule[0]) && EndsName(CloseRule) && EndsName(PaddingRule)
    ensures EndsName(OpacityRule) && EndsName(Hover)
  {
    assert !IsSpace(';');
  }

  lemma NoDotConcat(a: string, b: string)
    requires '.' !in a && '.' !in b
    ensures '.' !in a + b
  {
  }

  /** The class tokens of the example: both selectors, and the `8` of `0.8`. */
  lemma ScenarioTokens()
    ensures ClassTokens(ScenarioCss) == ["container", "container", "8"]
  {
    ScenarioPieces();
    var t3 := "." + "8" + CloseRule;
    var t2 := Hover + (OpacityRule + t3);
    ClassTokensName("container", PaddingRule + ("." + "container" + t2));
    ClassTokensPlain(PaddingRule, "." + "container" + t2);
    ScenarioTokensTail();
    assert ["container"] + ["container", "8"] == ["container", "container", "8"];
  }

  lemma ScenarioTokensTail()
    ensures ClassTokens("." + "container" + (Hover + (OpacityRule + ("." + "8" + CloseRule)))) == ["container", "8"]
  {
    ScenarioPieces();
    var t3 := "." + "8" + CloseRule;
    ClassTokensName("container", Hover + (OpacityRule + t3));
    Assoc(Hover, OpacityRule, t3);
    NoDotConcat(Hover, OpacityRule);
    ClassTokensPlain(Hover + OpacityRule, t3);
    ClassTokensName("8", CloseRule);
    ClassTokensPlain(CloseRule, "");
    assert ["container"] + (["8"] + []) == ["container", "8"];
  }

  /** Conditions on a class map that the example's rewrite depends on. */
  predicate ScenarioMap(m: map<string, string>) {
    && m.Keys == {"container", "8"}
    && IsName(m["container"]) && IsName(m["8"])
    && m["container"] !in m
  }

  lemma ScenarioPass1(m: map<string, string>)
    requires ScenarioMap(m)
    ensures Pass1(ScenarioCss, m)
            == "." + m["container"] + (PaddingRule + ("." + m["container"] + Hover + (OpacityRule + ("." + "8" + CloseRule))))
  {
    ScenarioPieces();
    var t2 := Hover + (OpacityRule + ("." + "8" + CloseRule));
    var t1 := PaddingRule + ("." + "container" + t2);
    var v := m["container"];
    assert ScenarioCss == "." + "container" + "" + t1 by {
      Assoc("." + "container", "", t1);
    }
    Pass1Selector("container", "", t1, m);
    assert Replace1(m, "container", "") == "." + v;
    Pass1Plain(PaddingRule, "." + "container" + t2, m);
    ScenarioPass1Tail(m);
  }

  lemma ScenarioPass1Tail(m: map<string, string>)
    requires ScenarioMap(m)
    ensures Pass1("." + "container" + (Hover + (OpacityRule + ("." + "8" + CloseRule))), m)
            == "." + m["container"] + Hover + (OpacityRule + ("." + "8" + CloseRule))
  {
    ScenarioPieces();
    var t3 := "." + "8" + CloseRule;
    Assoc("." + "container", Hover, OpacityRule + t3);
    Pass1Selector("container", Hover, OpacityRule + t3, m);
    Pass1Plain(OpacityRule, t3, m);
    Pass1Unmatched("8", CloseRule, m);
    Pass1Plain(CloseRule, "", m);
  }

  lemma ScenarioPass2(m: map<string, string>)
    requires ScenarioMap(m)
    ensures var v := m["container"];
      Pass2("." + v + (PaddingRule + ("." + v + Hover + (OpacityRule + ("." + "8" + CloseRule)))), m)
      == "." + v + (PaddingRule + ("." + v + Hover + (OpacityRule + ("." + m["8"] + CloseRule))))
  {
    ScenarioPieces();
    var v := m["container"];
    var t2 := Hover + (OpacityRule + ("." + "8" + CloseRule));
    Assoc("." + v, Hover, OpacityRule + ("." + "8" + CloseRule));
    Pass2NameMatch(v, PaddingRule + ("." + v + t2), m);
    Pass2Plain(PaddingRule, "." + v + t2, m);
    ScenarioPass2Tail(m);
  }

  lemma ScenarioPass2Tail(m: map<string, string>)
    requires ScenarioMap(m)
    ensures var v := m["container"];
      Pass2("." + v + Hover + (OpacityRule + ("." + "8" + CloseRule)), m)
      == "." + v + Hover + (OpacityRule + ("." + m["8"] + CloseRule))
  {
    ScenarioPieces();
    var v := m["container"];
    var t3 := "." + "8" + CloseRule;
    Assoc("." + v, ":", "hover");
    Assoc("." + v + ":", "hover", OpacityRule + t3);
    Pass2NameColon(v, "hover" + (OpacityRule + t3), m);
    Assoc("hover", OpacityRule, t3);
    NoDotConcat("hover", OpacityRule);
    Pass2Plain("hover" + OpacityRule, t3, m);
    Pass2NameMatch("8", CloseRule, m);
    Pass2Plain(CloseRule, "", m);
    Assoc("hover", OpacityRule, Pass2(t3, m));
    Assoc("." + v + ":", "hover", OpacityRule + Pass2(t3, m));
  }

  lemma ScopedNameNotScenarioKey(n: string, h: string)
    ensures ScopedName(n, h) != "container" && ScopedName(n, h) != "8"
  {
    var v := ScopedName(n, h);
    ScopedNameShape(n, h);
    assert v[1] == 's';
    assert "container"[1] == 'o';
  }

  lemma ScenarioKeys(h: string)
    ensures ClassMapOf(["container", "container", "8"], h).Keys == {"container", "8"}
  {
    var names := ["container", "container", "8"];
    assert names[..2] == ["container", "container"] && names[..2][..1] == ["container"];
    assert ["container"][..0] == [];
  }

  /** The example's class map has the keys `container` and `8`; both selectors get the
      same scoped name (the `:hover` kept), and `0.8` becomes `0.` followed by the
      scoped name of `8`. */
  lemma Scenario(h: string)
    ensures var m := ClassMapOf(ClassTokens(ScenarioCss), h);
      && m.Keys == {"container", "8"}
      && Rewrite(ScenarioCss, m)
         == "." + m["container"] + (PaddingRule + ("." + m["container"] + Hover + (OpacityRule + ("." + m["8"] + CloseRule))))
  {
    ScenarioTokens();
    var m := ClassMapOf(ClassTokens(ScenarioCss), h);
    ScenarioKeys(h);
    ScopedNameShape("container", h);
    ScopedNameShape("8", h);
    ScopedNameNotScenarioKey("container", h);
    ScenarioPass1(m);
    ScenarioPass2(m);
  }
}
