/** `String.prototype.format` (positional and keyed `{…}` placeholders) and
    `Date.prototype.format` (the `yMdhmsqS` date pattern), over given date fields. */
module DateFormat {
  import opened Text
  import opened Wrappers
  import Radix

  /** A number as `String(n)` prints it. */
  function Decimal(n: nat): string {
    Radix.Digits(n, 10)
  }

  // ---------------------------------------------------------------------------
  // String.prototype.format

  /** One property of an object argument, in `for…in` order; `None` is a value that is
      `null` or `undefined`. */
  datatype Entry = Entry(key: string, value: Option<string>)

  /** An argument of `format`: `undefined`, `null`, a primitive (by its string form) or an
      object (its enumerable properties, and its string form). An array is an object whose
      keys are its indices. */
  datatype Arg = Undefined | Null | Prim(text: string) | Obj(entries: seq<Entry>, text: string)

  /** `typeof(args) == "object"`, which `null` also satisfies. */
  predicate IsObjectArg(a: Arg) { a.Null? || a.Obj? }

  /** `arguments[i] != undefined` */
  predicate Present(a: Arg) { a.Prim? || a.Obj? }

  function ArgText(a: Arg): string
    requires Present(a)
  {
    a.text
  }

  /** The properties `for…in` visits: none for `null`. */
  function Entries(a: Arg): seq<Entry> {
    if a.Obj? then a.entries else []
  }

  /** The `{…}` placeholder of a key. */
  function Placeholder(key: string): (p: string)
    ensures p != [] && p[0] == '{'
  {
    "{" + key + "}"
  }

  /** Length of the run of decimal digits at the start of `s`. */
  function LeadingDigits(s: string): (n: nat)
    ensures n <= |s|
    ensures forall i :: 0 <= i < n ==> IsDigit(s[i])
    ensures n == |s| || !IsDigit(s[n])
  {
    if s == [] || !IsDigit(s[0]) then 0 else 1 + LeadingDigits(s[1..])
  }

  /** A key of the form `d+`, `d+,` or `d+,d+`: `new RegExp("({" + key + "})", "g")` then
      reads `{key}` as a braced quantifier with nothing to repeat, and throws a SyntaxError. */
  predicate QuantifierKey(key: string) {
    var n := LeadingDigits(key);
    n >= 1 && (n == |key| || (key[n] == ',' && forall i :: n < i < |key| ==> IsDigit(key[i])))
  }

  /** Some property with a value that is neither `null` nor `undefined` has a quantifier key:
      the keyed loop throws when it reaches it. */
  predicate KeyedThrows(es: seq<Entry>) {
    exists j :: 0 <= j < |es| && es[j].value.Some? && QuantifierKey(es[j].key)
  }

  /** The keyed mode: for each property in turn whose value is neither `null` nor
      `undefined`, every `{key}` of the text so far is replaced by the value. */
  function Keyed(s: string, es: seq<Entry>): string {
    if es == [] then s
    else
      var r := Keyed(s, es[..|es| - 1]);
      var e := es[|es| - 1];
      if e.value.Some? then ReplaceAll(r, Placeholder(e.key), e.value.value) else r
  }

  /** `this.replace(/\{\}/gm, …)` with the callback's counter starting at `k`: every `{}`,
      left to right, becomes `{k}`, `{k+1}`, … */
  function Number(s: string, k: nat): string
    decreases |s|
  {
    if |s| < 2 then s
    else if s[0] == '{' && s[1] == '}' then "{" + Decimal(k) + "}" + Number(s[2..], k + 1)
    else [s[0]] + Number(s[1..], k)
  }

  /** The positional mode after numbering: for `i` in increasing order, every `{i}` is
      replaced by the `i`-th argument unless it is `null` or `undefined`. */
  function Positional(t: string, args: seq<Arg>): string {
    if args == [] then t
    else
      var r := Positional(t, args[..|args| - 1]);
      var i := |args| - 1;
      if Present(args[i]) then ReplaceAll(r, Placeholder(Decimal(i)), ArgText(args[i])) else r
  }

  /** The call takes the keyed path and throws there. */
  predicate Throws(args: seq<Arg>) {
    |args| == 1 && IsObjectArg(args[0]) && KeyedThrows(Entries(args[0]))
  }

  /** The result of `s.format(...args)`; `None` is the SyntaxError a quantifier key raises. */
  function FormatSpec(s: string, args: seq<Arg>): Option<string> {
    if args == [] then Some(s)
    else if |args| == 1 && IsObjectArg(args[0]) then
      if KeyedThrows(Entries(args[0])) then None else Some(Keyed(s, Entries(args[0])))
    else Some(Positional(Number(s, 0), args))
  }

  /** `String.prototype.format` */
  method Format(s: string, args: seq<Arg>) returns (result: Option<string>)
    ensures result == FormatSpec(s, args)
    ensures result.None? <==> Throws(args)
    ensures args == [] ==> result == Some(s)
  {
    if |args| == 0 {
      return Some(s);
    }
    if |args| == 1 && IsObjectArg(args[0]) {
      var es := Entries(args[0]);
      var text := s;
      for j := 0 to |es|
        invariant text == Keyed(s, es[..j])
        invariant !KeyedThrows(es[..j])
      {
        assert es[..j + 1][..j] == es[..j];
        if es[j].value.Some? {
          if QuantifierKey(es[j].key) {
            assert es[j].value.Some? && QuantifierKey(es[j].key);
            return None;
          }
          text := ReplaceAll(text, Placeholder(es[j].key), es[j].value.value);
        }
        assert forall m :: 0 <= m < j + 1 ==> es[..j + 1][m] == (if m < j then es[..j][m] else es[j]);
      }
      assert es[..|es|] == es;
      result := Some(text);
    } else {
      var numbered := Number(s, 0);
      var text := numbered;
      for i := 0 to |args|
        invariant text == Positional(numbered, args[..i])
      {
        assert args[..i + 1][..i] == args[..i];
        if Present(args[i]) {
          text := ReplaceAll(text, Placeholder(Decimal(i)), ArgText(args[i]));
        }
      }
      assert args[..|args|] == args;
      result := Some(text);
    }
  }

  /** `null` as the only argument: `for…in` over it visits nothing. */
  lemma FormatNull(s: string)
    ensures FormatSpec(s, [Null]) == Some(s)
  {
  }

  /** `undefined` as the only argument is positional: the `{}` are numbered, nothing is
      filled in. */
  lemma FormatUndefined(s: string)
    ensures FormatSpec(s, [Undefined]) == Some(Number(s, 0))
  {
    assert [Undefined][..0] == [];
    assert Positional(Number(s, 0), [Undefined]) == Positional(Number(s, 0), []);
  }

  /** Text without `{` comes back unchanged, whatever the arguments, unless a quantifier key
      throws. */
  lemma FormatNoBrace(s: string, args: seq<Arg>)
    requires '{' !in s
    ensures FormatSpec(s, args) == if Throws(args) then None else Some(s)
  {
    if args != [] {
      if |args| == 1 && IsObjectArg(args[0]) {
        KeyedNoBrace(s, Entries(args[0]));
      } else {
        NumberNoBrace(s, 0);
        PositionalNoBrace(s, args);
      }
    }
  }

  lemma {:induction false} KeyedNoBrace(s: string, es: seq<Entry>)
    requires '{' !in s
    ensures Keyed(s, es) == s
  {
    if es != [] {
      KeyedNoBrace(s, es[..|es| - 1]);
      var e := es[|es| - 1];
      if e.value.Some? {
        ReplaceAllPlain(s, [], Placeholder(e.key), e.value.value);
        assert s + [] == s;
      }
    }
  }

  lemma {:induction false} PositionalNoBrace(s: string, args: seq<Arg>)
    requires '{' !in s
    ensures Positional(s, args) == s
  {
    if args != [] {
      PositionalNoBrace(s, args[..|args| - 1]);
      var i := |args| - 1;
      if Present(args[i]) {
        ReplaceAllPlain(s, [], Placeholder(Decimal(i)), ArgText(args[i]));
        assert s + [] == s;
      }
    }
  }

  lemma {:induction false} NumberNoBrace(s: string, k: nat)
    requires '{' !in s
    ensures Number(s, k) == s
    decreases |s|
  {
    if |s| >= 2 {
      assert s[0] in s;
      assert forall c :: c in s[1..] ==> c in s;
      NumberNoBrace(s[1..], k);
      assert s == [s[0]] + s[1..];
    }
  }

  /** The keys that make `new RegExp` throw are exactly the braced-quantifier shapes. */
  lemma QuantifierKeys()
    ensures QuantifierKey("0") && QuantifierKey("12,") && QuantifierKey("1,2")
    ensures !QuantifierKey("name") && !QuantifierKey("0a") && !QuantifierKey(",1")
    ensures !QuantifierKey("") && !QuantifierKey("1,2,3")
  {
    assert LeadingDigits("0") == 1;
    assert "12,"[1..] == "2," && "12,"[1..][1..] == ",";
    assert LeadingDigits("12,") == 2;
    assert "1,2"[1..] == ",2";
    assert LeadingDigits("1,2") == 1;
    assert "0a"[1..] == "a";
    assert LeadingDigits("0a") == 1;
    assert "1,2,3"[1..] == ",2,3";
    assert LeadingDigits("1,2,3") == 1 && "1,2,3"[3] == ',';
  }

  /** `'{0}'.format(['a'])`: the array is one object argument whose key `0` throws. */
  lemma ArrayArgumentThrows()
    ensures FormatSpec("{0}", [Obj([Entry("0", Some("a"))], "a")]) == None
  {
    var es := [Entry("0", Some("a"))];
    assert LeadingDigits("0") == 1;
    assert es[0].value.Some? && QuantifierKey(es[0].key);
  }

  /** The value of the first property named `key` whose value is neither `null` nor
      `undefined`, if there is one. */
  function FirstValue(key: string, es: seq<Entry>): Option<string> {
    if es == [] then None
    else if es[0].key == key && es[0].value.Some? then es[0].value
    else FirstValue(key, es[1..])
  }

  /** What the keyed loop leaves where `{key}` stood: the first such value, or the
      placeholder itself when no property gives one. */
  function KeyValue(key: string, es: seq<Entry>): string {
    match FirstValue(key, es)
    case Some(v) => v
    case None => Placeholder(key)
  }

  /** A key that can stand inside a placeholder: no `{` and no `}`. */
  predicate PlainKey(key: string) {
    '{' !in key && '}' !in key
  }

  /** Every property with a value has a plain key and a value without `{`. */
  predicate BraceFreeEntries(es: seq<Entry>) {
    forall j :: 0 <= j < |es| && es[j].value.Some? ==> PlainKey(es[j].key) && '{' !in es[j].value.value
  }

  /** One more property changes the first value only when there was none. */
  lemma {:induction false} FirstValueSnoc(key: string, es: seq<Entry>, e: Entry)
    ensures FirstValue(key, es + [e])
         == if FirstValue(key, es).Some? then FirstValue(key, es)
            else if e.key == key && e.value.Some? then e.value else None
  {
    if es != [] {
      assert (es + [e])[0] == es[0] && (es + [e])[1..] == es[1..] + [e];
      FirstValueSnoc(key, es[1..], e);
    } else {
      assert [e][1..] == [];
    }
  }

  lemma {:induction false} FirstValueBraceFree(key: string, es: seq<Entry>)
    requires BraceFreeEntries(es)
    ensures FirstValue(key, es).Some? ==> '{' !in FirstValue(key, es).value
  {
    if es != [] && !(es[0].key == key && es[0].value.Some?) {
      var rest := es[1..];
      assert BraceFreeEntries(rest) by {
        forall m | 0 <= m < |rest| && rest[m].value.Some?
          ensures PlainKey(rest[m].key) && '{' !in rest[m].value.value
        {
          assert rest[m] == es[m + 1];
        }
      }
      FirstValueBraceFree(key, rest);
    }
  }

  /** After a brace-free prefix, the placeholder `{key}` ends up as `KeyValue(key, es)`:
      the first property's value for that key, or the placeholder when no property gives
      one; the other keys' replacements leave it alone, and the rest of the text is
      processed on its own. */
  lemma {:induction false} KeyedAt(a: string, key: string, t: string, es: seq<Entry>)
    requires '{' !in a && PlainKey(key)
    requires BraceFreeEntries(es)
    ensures Keyed(a + Placeholder(key) + t, es) == a + KeyValue(key, es) + Keyed(t, es)
  {
    if es != [] {
      var j := |es| - 1;
      var front, e := es[..j], es[j];
      assert es == front + [e];
      assert BraceFreeEntries(front) by {
        forall m | 0 <= m < |front| && front[m].value.Some?
          ensures PlainKey(front[m].key) && '{' !in front[m].value.value
        {
          assert front[m] == es[m];
        }
      }
      KeyedAt(a, key, t, front);
      FirstValueSnoc(key, front, e);
      var r := Keyed(t, front);
      var f := KeyValue(key, front);
      if e.value.Some? {
        var pj := Placeholder(e.key);
        var w := e.value.value;
        if FirstValue(key, front).Some? {
          FirstValueBraceFree(key, front);
          ReplaceAllPlain(f, r, pj, w);
        } else if e.key == key {
          ReplaceAllFront(r, pj, w);
        } else {
          assert PlainKey(e.key);
          KeySkip(key, e.key, r, w);
        }
        ReplaceAfterPrefix(a, f, r, pj, w, KeyValue(key, es));
      }
    }
  }

  /** Brace-free pieces around the placeholders of the keys `ks`, in order. */
  function Holes(ps: seq<string>, ks: seq<string>): string
    requires |ps| == |ks| + 1
    decreases |ks|
  {
    if ks == [] then ps[0] else ps[0] + Placeholder(ks[0]) + Holes(ps[1..], ks[1..])
  }

  /** The same pieces around what the keyed loop leaves in each placeholder's place. */
  function KeyedHolesFilled(ps: seq<string>, ks: seq<string>, es: seq<Entry>): string
    requires |ps| == |ks| + 1
    decreases |ks|
  {
    if ks == [] then ps[0] else ps[0] + KeyValue(ks[0], es) + KeyedHolesFilled(ps[1..], ks[1..], es)
  }

  /** The keyed loop fills every placeholder of a template, whatever the keys' order. */
  lemma {:induction false} KeyedHoles(ps: seq<string>, ks: seq<string>, es: seq<Entry>)
    requires |ps| == |ks| + 1
    requires forall i :: 0 <= i < |ps| ==> '{' !in ps[i]
    requires forall i :: 0 <= i < |ks| ==> PlainKey(ks[i])
    requires BraceFreeEntries(es)
    ensures Keyed(Holes(ps, ks), es) == KeyedHolesFilled(ps, ks, es)
    decreases |ks|
  {
    if ks == [] {
      KeyedNoBrace(ps[0], es);
    } else {
      KeyedHoles(ps[1..], ks[1..], es);
      KeyedAt(ps[0], ks[0], Holes(ps[1..], ks[1..]), es);
    }
  }

  /** The keyed call with one object argument: every `{key}` becomes the first value given
      for it, or stays when none is, unless some key with a value is a braced quantifier,
      which throws. */
  lemma FormatKeyed(ps: seq<string>, ks: seq<string>, es: seq<Entry>, text: string)
    requires |ps| == |ks| + 1
    requires forall i :: 0 <= i < |ps| ==> '{' !in ps[i]
    requires forall i :: 0 <= i < |ks| ==> PlainKey(ks[i])
    requires BraceFreeEntries(es)
    ensures FormatSpec(Holes(ps, ks), [Obj(es, text)])
         == if KeyedThrows(es) then None else Some(KeyedHolesFilled(ps, ks, es))
  {
    KeyedHoles(ps, ks, es);
  }

  /** `'我是{name}，今年{age}了'.format({name: 'lisi', age: 30})` is `'我是lisi，今年30了'`. */
  lemma FormatKeyedExample()
    ensures FormatSpec("我是{name}，今年{age}了",
                       [Obj([Entry("name", Some("lisi")), Entry("age", Some("30"))], "[object Object]")])
         == Some("我是lisi，今年30了")
  {
    var ps, ks := ["我是", "，今年", "了"], ["name", "age"];
    var es := [Entry("name", Some("lisi")), Entry("age", Some("30"))];
    ExampleTemplate(ps, ks);
    ExampleEntries(es);
    FormatKeyed(ps, ks, es, "[object Object]");
    ExampleFilled(ps, ks, es);
  }

  lemma ExampleTemplate(ps: seq<string>, ks: seq<string>)
    requires ps == ["我是", "，今年", "了"] && ks == ["name", "age"]
    ensures forall i :: 0 <= i < |ps| ==> '{' !in ps[i]
    ensures forall i :: 0 <= i < |ks| ==> PlainKey(ks[i])
    ensures Holes(ps, ks) == "我是{name}，今年{age}了"
  {
    assert '{' !in "我是" && '{' !in "，今年" && '{' !in "了";
    assert PlainKey("name") && PlainKey("age");
    ExampleHoles(ps, ks);
  }

  lemma ExampleHoles(ps: seq<string>, ks: seq<string>)
    requires ps == ["我是", "，今年", "了"] && ks == ["name", "age"]
    ensures Holes(ps, ks) == "我是{name}，今年{age}了"
  {
    assert ps[1..] == ["，今年", "了"] && ks[1..] == ["age"];
    assert ps[1..][1..] == ["了"] && ks[1..][1..] == [];
    assert Holes(ps[1..][1..], ks[1..][1..]) == "了";
    var tail := Holes(ps[1..], ks[1..]);
    assert tail == "，今年" + Placeholder("age") + "了";
    assert Holes(ps, ks) == "我是" + Placeholder("name") + tail;
  }

  lemma ExampleEntries(es: seq<Entry>)
    requires es == [Entry("name", Some("lisi")), Entry("age", Some("30"))]
    ensures BraceFreeEntries(es) && !KeyedThrows(es)
    ensures KeyValue("name", es) == "lisi" && KeyValue("age", es) == "30"
  {
    assert PlainKey("name") && PlainKey("age") && '{' !in "lisi" && '{' !in "30";
    assert LeadingDigits("name") == 0 && LeadingDigits("age") == 0;
    forall m | 0 <= m < |es| ensures !QuantifierKey(es[m].key) && PlainKey(es[m].key) {
      assert es[m].key == "name" || es[m].key == "age";
    }
    assert "name"[0] != "age"[0];
    assert es[1..][0] == es[1] && FirstValue("age", es[1..]) == Some("30");
  }

  lemma ExampleFilled(ps: seq<string>, ks: seq<string>, es: seq<Entry>)
    requires ps == ["我是", "，今年", "了"] && ks == ["name", "age"]
    requires KeyValue("name", es) == "lisi" && KeyValue("age", es) == "30"
    ensures KeyedHolesFilled(ps, ks, es) == "我是lisi，今年30了"
  {
    assert KeyedHolesFilled(ps[2..], ks[2..], es) == "了";
    assert KeyedHolesFilled(ps[1..], ks[1..], es) == "，今年" + "30" + "了";
    assert KeyedHolesFilled(ps, ks, es) == "我是" + "lisi" + ("，今年" + "30" + "了");
  }

  /** `p` does not occur in `s` after its first character either. */
  lemma AbsentTail(s: string, p: string)
    requires s != [] && Absent(s, p)
    ensures Absent(s[1..], p)
  {
    forall i | 0 <= i <= |s[1..]| ensures !OccursAt(s[1..], p, i) {
      assert !OccursAt(s, p, i + 1);
      if i + |p| <= |s[1..]| { assert s[1..][i..i + |p|] == s[i + 1..i + 1 + |p|]; }
    }
  }

  /** Text without `{}` is left as it is by the numbering. */
  lemma {:induction false} NumberAbsent(s: string, k: nat)
    requires Absent(s, "{}")
    ensures Number(s, k) == s
    decreases |s|
  {
    if |s| >= 2 {
      assert !OccursAt(s, "{}", 0);
      assert s[..2] == [s[0], s[1]];
      AbsentTail(s, "{}");
      NumberAbsent(s[1..], k);
      assert s == [s[0]] + s[1..];
    }
  }

  /** The first `{}` after a prefix without `{}` becomes `{k}`, and the numbering goes on
      after it from `k + 1`. */
  lemma NumberHole(a: string, t: string, k: nat)
    requires Absent(a, "{}")
    ensures Number(a + "{}" + t, k) == a + Placeholder(Decimal(k)) + Number(t, k + 1)
  {
    assert a + "{}" + t == a + ("{}" + t);
    NumberPrefix(a, "{}" + t, k);
    NumberFront(t, k);
  }

  /** A prefix without `{}` in front of a `{` is copied as it is. */
  lemma {:induction false} NumberPrefix(a: string, u: string, k: nat)
    requires Absent(a, "{}") && u != [] && u[0] == '{'
    ensures Number(a + u, k) == a + Number(u, k)
    decreases |a|
  {
    if a != [] {
      var s := a + u;
      assert s[..|a|] == a && s[|a|] == '{';
      assert s[1..] == a[1..] + u;
      NumberSkip(s, k, a);
      AbsentTail(a, "{}");
      NumberPrefix(a[1..], u, k);
      ConsAppend(a, Number(u, k));
    } else {
      assert a + u == u;
    }
  }

  /** A `{}` at the front becomes `{k}`. */
  lemma NumberFront(t: string, k: nat)
    ensures Number("{}" + t, k) == Placeholder(Decimal(k)) + Number(t, k + 1)
  {
    var s := "{}" + t;
    assert s[0] == '{' && s[1] == '}' && s[2..] == t;
  }

  /** A first character that does not open a `{}` of the text is copied. */
  lemma NumberSkip(s: string, k: nat, a: string)
    requires a != [] && |s| > |a| && s[..|a|] == a && s[|a|] == '{'
    requires Absent(a, "{}")
    ensures Number(s, k) == [s[0]] + Number(s[1..], k)
  {
    assert s[0] == a[0];
    if |a| >= 2 {
      assert !OccursAt(a, "{}", 0);
      assert a[..2] == [a[0], a[1]] && s[1] == a[1];
    } else {
      assert s[1] == '{';
    }
  }

  /** Pieces without `{}` around each hole `{k}`, `{k+1}`, … */
  function Numbered(ps: seq<string>, k: nat): string
    requires |ps| >= 1
    decreases |ps|
  {
    if |ps| == 1 then ps[0] else ps[0] + Placeholder(Decimal(k)) + Numbered(ps[1..], k + 1)
  }

  /** The numbering pass numbers the holes left to right from `k`: cut at its `{}`, any
      text is pieces without `{}` joined by `{}`. */
  lemma {:induction false} NumberJoin(ps: seq<string>, k: nat)
    requires |ps| >= 1
    requires forall i :: 0 <= i < |ps| ==> Absent(ps[i], "{}")
    ensures Number(Join(ps, "{}"), k) == Numbered(ps, k)
    decreases |ps|
  {
    if |ps| == 1 {
      NumberAbsent(ps[0], k);
    } else {
      NumberJoin(ps[1..], k + 1);
      NumberHole(ps[0], Join(ps[1..], "{}"), k);
    }
  }

  /** After numbering no `{}` is left. */
  lemma {:induction false} NumberedHasNoEmpty(s: string, k: nat)
    ensures Absent(Number(s, k), "{}")
    decreases |s|
  {
    var r := Number(s, k);
    if |s| < 2 {
      assert r == s;
    } else if s[0] == '{' && s[1] == '}' {
      NumberedHasNoEmpty(s[2..], k + 1);
      var head := "{" + Decimal(k) + "}";
      PlaceholderAbsent(Decimal(k));
      assert r == head + Number(s[2..], k + 1);
      AbsentPairAppend(head, Number(s[2..], k + 1));
    } else {
      NumberedHasNoEmpty(s[1..], k);
      NumberedHead(s[1..], k);
      assert r == [s[0]] + Number(s[1..], k);
      AbsentPairAppend([s[0]], Number(s[1..], k));
    }
  }

  /** `{}` does not occur in `a + b` when it occurs in neither and does not straddle them. */
  lemma AbsentPairAppend(a: string, b: string)
    requires Absent(a, "{}") && Absent(b, "{}")
    requires !(a != [] && b != [] && a[|a| - 1] == '{' && b[0] == '}')
    ensures Absent(a + b, "{}")
  {
    var r := a + b;
    forall i | 0 <= i <= |r| ensures !OccursAt(r, "{}", i) {
      if i + 2 <= |r| {
        if i + 2 <= |a| {
          assert r[i..i + 2] == a[i..i + 2];
          assert !OccursAt(a, "{}", i);
        } else if i >= |a| {
          assert r[i..i + 2] == b[i - |a|..i - |a| + 2];
          assert !OccursAt(b, "{}", i - |a|);
        } else {
          assert r[i..i + 2][0] == a[|a| - 1] && r[i..i + 2][1] == b[0];
        }
      }
    }
  }

  /** A numbered placeholder holds no `{}`. */
  lemma PlaceholderAbsent(d: string)
    requires d != [] && Radix.AllDigitsIn(d, 10)
    ensures Absent("{" + d + "}", "{}")
  {
    var h := "{" + d + "}";
    forall i | 0 <= i <= |h| ensures !OccursAt(h, "{}", i) {
      if i + 2 <= |h| {
        assert h[i..i + 2][0] == h[i] && h[i..i + 2][1] == h[i + 1];
        if i == 0 {
          assert h[1] == d[0] && Radix.IsDigitIn(d[0], 10);
        } else {
          assert h[i] == d[i - 1] && Radix.IsDigitIn(d[i - 1], 10);
        }
      }
    }
  }

  /** Numbering keeps the first character. */
  lemma NumberedHead(s: string, k: nat)
    requires s != []
    ensures Number(s, k) != []
    ensures Number(s, k)[0] == s[0]
  {
  }

  /** What the numbered placeholder `{k}` turns into: the `k`-th argument when there is one
      that is neither `null` nor `undefined`, otherwise the placeholder itself. */
  function Fill(k: nat, args: seq<Arg>): string {
    if k < |args| && Present(args[k]) then ArgText(args[k]) else Placeholder(Decimal(k))
  }

  /** Every present argument's text is free of `{`. */
  predicate BraceFreeArgs(args: seq<Arg>) {
    forall j :: 0 <= j < |args| && Present(args[j]) ==> '{' !in ArgText(args[j])
  }

  /** Placeholders of two different keys without `}` never start at the same place. */
  lemma KeyPrefix(ki: string, kj: string, r: string)
    requires ki != kj && '}' !in ki && '}' !in kj
    requires |Placeholder(ki) + r| >= |Placeholder(kj)|
    ensures (Placeholder(ki) + r)[..|Placeholder(kj)|] != Placeholder(kj)
  {
    var s := Placeholder(ki) + r;
    var pj := Placeholder(kj);
    var m: nat;
    if |kj| < |ki| {
      m := |kj| + 1;
      assert s[m] == ki[|kj|] && pj[m] == '}';
      assert ki[|kj|] in ki;
    } else if |kj| > |ki| {
      m := |ki| + 1;
      assert s[m] == '}' && pj[m] == kj[|ki|];
      assert kj[|ki|] in kj;
    } else {
      var q :| 0 <= q < |ki| && ki[q] != kj[q];
      m := q + 1;
      assert s[m] == ki[q] && pj[m] == kj[q];
    }
    assert s[..|pj|][m] != pj[m];
  }

  /** Replacing `{kj}` leaves the placeholder of a different plain key `ki` in front in
      place. */
  lemma KeySkip(ki: string, kj: string, r: string, w: string)
    requires ki != kj && PlainKey(ki) && '}' !in kj
    ensures ReplaceAll(Placeholder(ki) + r, Placeholder(kj), w)
         == Placeholder(ki) + ReplaceAll(r, Placeholder(kj), w)
  {
    var pi, pj := Placeholder(ki), Placeholder(kj);
    var s, tail := pi + r, ki + "}";
    if |s| >= |pj| {
      KeyPrefix(ki, kj, r);
    }
    assert '{' !in tail;
    assert pi == ['{'] + tail;
    assert s[1..] == tail + r;
    HeadSkip(s, tail, r, pj, w);
  }

  /** Replacing `{j}` leaves a different placeholder `{i}` in front in place. */
  lemma PlaceholderSkip(i: nat, j: nat, r: string, w: string)
    requires i != j
    ensures ReplaceAll(Placeholder(Decimal(i)) + r, Placeholder(Decimal(j)), w)
         == Placeholder(Decimal(i)) + ReplaceAll(r, Placeholder(Decimal(j)), w)
  {
    Radix.ValueOfDigits(i, 10);
    Radix.ValueOfDigits(j, 10);
    DecimalNoBrace(i);
    DecimalNoBrace(j);
    KeySkip(Decimal(i), Decimal(j), r, w);
  }

  /** A first character where the pattern does not start, followed by text free of the
      pattern's first character, is copied. */
  lemma HeadSkip(s: string, tail: string, r: string, p: string, w: string)
    requires s != [] && s[1..] == tail + r
    requires p != [] && p[0] !in tail
    requires |s| >= |p| ==> s[..|p|] != p
    ensures ReplaceAll(s, p, w) == [s[0]] + tail + ReplaceAll(r, p, w)
  {
    ReplaceAllSkip(s, p, w);
    ReplaceAllPlain(tail, r, p, w);
  }

  /** A printed number holds neither `{` nor `}`. */
  lemma DecimalNoBrace(n: nat)
    ensures PlainKey(Decimal(n))
  {
    var d := Decimal(n);
    forall m | 0 <= m < |d| ensures d[m] != '{' && d[m] != '}' { assert Radix.IsDigitIn(d[m], 10); }
  }

  /** After a brace-free prefix, the placeholder `{i}` ends up as `Fill(i, args)`: the
      `i`-th argument when present, the placeholder itself when it is `null`, `undefined`
      or missing; the rest of the text is processed on its own. */
  lemma {:induction false} PositionalAt(a: string, i: nat, t: string, args: seq<Arg>)
    requires '{' !in a
    requires BraceFreeArgs(args)
    ensures Positional(a + Placeholder(Decimal(i)) + t, args) == a + Fill(i, args) + Positional(t, args)
  {
    if args != [] {
      var j := |args| - 1;
      var front := args[..j];
      assert BraceFreeArgs(front) by {
        forall m | 0 <= m < |front| && Present(front[m]) ensures '{' !in ArgText(front[m]) {
          assert front[m] == args[m];
        }
      }
      PositionalAt(a, i, t, front);
      var r := Positional(t, front);
      var f := Fill(i, front);
      if Present(args[j]) {
        var pj := Placeholder(Decimal(j));
        var w := ArgText(args[j]);
        if i < j && Present(args[i]) {
          FillEarlier(i, args);
          ReplaceAllPlain(f, r, pj, w);
        } else if i == j {
          FillLast(i, args);
          ReplaceAllFront(r, pj, w);
        } else {
          FillOther(i, args);
          PlaceholderSkip(i, j, r, w);
        }
        ReplaceAfterPrefix(a, f, r, pj, w, Fill(i, args));
      } else {
        FillAbsent(i, args);
      }
    }
  }

  /** A brace-free prefix passes a replacement of a placeholder unchanged. */
  lemma ReplaceAfterPrefix(a: string, f: string, r: string, p: string, w: string, g: string)
    requires '{' !in a && p != [] && p[0] == '{'
    requires ReplaceAll(f + r, p, w) == g + ReplaceAll(r, p, w)
    ensures ReplaceAll(a + f + r, p, w) == a + g + ReplaceAll(r, p, w)
  {
    ReplaceAllPlain(a, f + r, p, w);
    assert a + f + r == a + (f + r);
  }

  lemma FillEarlier(i: nat, args: seq<Arg>)
    requires i < |args| - 1 && Present(args[i]) && BraceFreeArgs(args)
    ensures Fill(i, args[..|args| - 1]) == Fill(i, args) == ArgText(args[i])
    ensures '{' !in ArgText(args[i])
  {
    assert args[..|args| - 1][i] == args[i];
  }

  lemma FillLast(i: nat, args: seq<Arg>)
    requires i == |args| - 1 && Present(args[i])
    ensures Fill(i, args[..i]) == Placeholder(Decimal(i)) && Fill(i, args) == ArgText(args[i])
  {
  }

  lemma FillOther(i: nat, args: seq<Arg>)
    requires args != [] && i != |args| - 1
    requires !(i < |args| - 1 && Present(args[i]))
    ensures Fill(i, args[..|args| - 1]) == Fill(i, args) == Placeholder(Decimal(i))
  {
    if i < |args| - 1 { assert args[..|args| - 1][i] == args[i]; }
  }

  lemma FillAbsent(i: nat, args: seq<Arg>)
    requires args != [] && !Present(args[|args| - 1])
    ensures Fill(i, args[..|args| - 1]) == Fill(i, args)
  {
    if i < |args| - 1 { assert args[..|args| - 1][i] == args[i]; }
  }

  /** Brace-free pieces around the holes `{k}`, `{k+1}`, … after positional filling. */
  function FillHoles(ps: seq<string>, k: nat, args: seq<Arg>): string
    requires |ps| >= 1
    decreases |ps|
  {
    if |ps| == 1 then ps[0] else ps[0] + Fill(k, args) + FillHoles(ps[1..], k + 1, args)
  }

  lemma {:induction false} PositionalNumbered(ps: seq<string>, k: nat, args: seq<Arg>)
    requires |ps| >= 1
    requires forall i :: 0 <= i < |ps| ==> '{' !in ps[i]
    requires BraceFreeArgs(args)
    ensures Positional(Numbered(ps, k), args) == FillHoles(ps, k, args)
    decreases |ps|
  {
    if |ps| == 1 {
      PositionalNoBrace(ps[0], args);
    } else {
      PositionalNumbered(ps[1..], k + 1, args);
      PositionalAt(ps[0], k, Numbered(ps[1..], k + 1), args);
    }
  }

  /** Text without `{` is free of `{}`. */
  lemma NoBraceAbsent(s: string)
    requires '{' !in s
    ensures Absent(s, "{}")
  {
    forall i | 0 <= i <= |s| ensures !OccursAt(s, "{}", i) {
      if i + 2 <= |s| { assert s[i..i + 2][0] == s[i]; }
    }
  }

  /** The positional call on brace-free pieces joined by `{}`: the `k`-th hole, counted
      from 0, becomes the `k`-th argument when that is present, and `{k}` otherwise. */
  lemma FormatPositional(ps: seq<string>, args: seq<Arg>)
    requires |ps| >= 1 && args != []
    requires !(|args| == 1 && IsObjectArg(args[0]))
    requires forall i :: 0 <= i < |ps| ==> '{' !in ps[i]
    requires BraceFreeArgs(args)
    ensures FormatSpec(Join(ps, "{}"), args) == Some(FillHoles(ps, 0, args))
  {
    forall i | 0 <= i < |ps| ensures Absent(ps[i], "{}") { NoBraceAbsent(ps[i]); }
    NumberJoin(ps, 0);
    PositionalNumbered(ps, 0, args);
  }

  /** `"{}-{}".format("a", "b")` is `"a-b"`. */
  lemma FormatExample()
    ensures FormatSpec("{}-{}", [Prim("a"), Prim("b")]) == Some("a-b")
  {
    var ps := ["", "-", ""];
    var args := [Prim("a"), Prim("b")];
    assert ps[1..][1..] == ps[2..] == [""];
    assert Join(ps[1..], "{}") == "-" + "{}" + "";
    assert Join(ps, "{}") == "" + "{}" + ("-" + "{}" + "");
    assert Join(ps, "{}") == "{}-{}";
    FormatPositional(ps, args);
    assert Fill(0, args) == "a" && Fill(1, args) == "b";
    assert FillHoles(ps[1..], 1, args) == "-" + "b" + "";
    assert FillHoles(ps, 0, args) == "" + "a" + ("-" + "b" + "");
    assert "" + "a" + ("-" + "b" + "") == "a-b";
    assert FormatSpec(Join(ps, "{}"), args) == Some(FillHoles(ps, 0, args));
  }

  // ---------------------------------------------------------------------------
  // Date.prototype.format

  /** The values the getters return: `getFullYear`, `getMonth` (0-based), `getDate`,
      `getHours`, `getMinutes`, `getSeconds`, `getMilliseconds`. */
  datatype DateFields = DateFields(year: nat, month0: nat, day: nat, hours: nat,
                                   minutes: nat, seconds: nat, millis: nat)

  /** `Math.floor((month0 + 3) / 3)` */
  function Quarter(month0: nat): nat {
    (month0 + 3) / 3
  }

  /** Every month lies in one of the quarters 1 to 4, the one its three months form. */
  lemma QuarterRange(month0: nat)
    requires month0 < 12
    ensures 1 <= Quarter(month0) <= 4
    ensures 3 * (Quarter(month0) - 1) <= month0 < 3 * Quarter(month0)
  {
  }

  /** Position of the first `c` in `s`. */
  function FirstIndex(s: string, c: char): (r: Option<nat>)
    ensures r.None? <==> c !in s
    ensures r.Some? ==> r.value < |s| && s[r.value] == c && c !in s[..r.value]
  {
    if s == [] then None
    else if s[0] == c then Some(0)
    else
      match FirstIndex(s[1..], c)
      case None => None
      case Some(i) =>
        assert s[..i + 1] == [s[0]] + s[1..][..i];
        Some(i + 1)
  }

  /** Length of the run of `c` at the start of `s`. */
  function CharRun(s: string, c: char): (n: nat)
    ensures n <= |s|
    ensures forall i :: 0 <= i < n ==> s[i] == c
    ensures n == |s| || s[n] != c
  {
    if s == [] || s[0] != c then 0 else 1 + CharRun(s[1..], c)
  }

  /** One entry of the pattern table: the letter, the value, and whether the pattern is
      `c+` (a run) or the single letter (`"S"`). */
  datatype Pattern = Pattern(letter: char, value: nat, run: bool)

  /** `o`, in its property order `M+ d+ h+ m+ s+ q+ S`. */
  function Patterns(d: DateFields): seq<Pattern> {
    [ Pattern('M', d.month0 + 1, true), Pattern('d', d.day, true), Pattern('h', d.hours, true),
      Pattern('m', d.minutes, true), Pattern('s', d.seconds, true),
      Pattern('q', Quarter(d.month0), true), Pattern('S', d.millis, false) ]
  }

  /** The replacement for a match of `n` letters: the number as it is for one letter,
      otherwise `("00" + v).substr(("" + v).length)`, its last two characters. */
  function FieldText(v: nat, n: nat): string {
    if n == 1 then Decimal(v) else Substr("00" + Decimal(v), |Decimal(v)|)
  }

  /** The first `n`-character match at `p` replaced by `text`. */
  function Splice(s: string, p: nat, n: nat, text: string): (r: string)
    requires p + n <= |s|
    ensures |r| == |s| - n + |text|
  {
    s[..p] + text + s[p + n..]
  }

  /** `fmt.replace(RegExp.$1, (this.getFullYear() + "").substr(4 - RegExp.$1.length))` for
      the first run of `y`; `fmt.replace` with a string finds that same first run. */
  function YearStep(fmt: string, year: nat): string {
    match FirstIndex(fmt, 'y')
    case None => fmt
    case Some(p) =>
      var n := CharRun(fmt[p..], 'y');
      Splice(fmt, p, n, Substr(Decimal(year), 4 - n))
  }

  /** One pass of the `for (var k in o)` loop. */
  function PatternStep(fmt: string, pat: Pattern): string {
    match FirstIndex(fmt, pat.letter)
    case None => fmt
    case Some(p) =>
      var n := if pat.run then CharRun(fmt[p..], pat.letter) else 1;
      Splice(fmt, p, n, FieldText(pat.value, n))
  }

  function PatternSteps(fmt: string, ps: seq<Pattern>): string {
    if ps == [] then fmt else PatternStep(PatternSteps(fmt, ps[..|ps| - 1]), ps[|ps| - 1])
  }

  function FormatDateSpec(fmt: string, d: DateFields): string {
    PatternSteps(YearStep(fmt, d.year), Patterns(d))
  }

  /** `Date.prototype.format(fmt)` over the given fields. */
  method FormatDate(fmt: string, d: DateFields) returns (r: string)
    ensures r == FormatDateSpec(fmt, d)
  {
    r := YearStep(fmt, d.year);
    var start := r;
    var ps := Patterns(d);
    for k := 0 to |ps|
      invariant r == PatternSteps(start, ps[..k])
    {
      assert ps[..k + 1][..k] == ps[..k];
      r := PatternStep(r, ps[k]);
    }
    assert ps[..|ps|] == ps;
    assert r == PatternSteps(start, ps);
  }

  /** A two-letter (or longer) field is always two characters, and for a value below 100
      it is the zero-padded number: it reads back as the value. */
  lemma PaddedField(v: nat, n: nat)
    requires n >= 2
    ensures |FieldText(v, n)| == 2
    ensures v < 100 ==> Radix.AllDigitsIn(FieldText(v, n), 10) && Radix.Value(FieldText(v, n), 10) == v
  {
    var dv := Decimal(v);
    var t := FieldText(v, n);
    assert t == ("00" + dv)[|dv|..];
    if v < 100 {
      assert Radix.Pow(10, 2) == 100 by { assert Radix.Pow(10, 1) == 10; }
      Radix.DigitsLength(v, 10, 2);
      Radix.ValueOfDigits(v, 10);
      if |dv| == 1 {
        assert t == ['0', dv[0]];
        assert t[..1] == ['0'] && t[..1][..0] == [];
        assert dv[..0] == [];
      } else {
        assert t == dv;
      }
    }
  }

  /** A one-letter field is the number as printed. */
  lemma SingleField(v: nat)
    ensures FieldText(v, 1) == Decimal(v) && Radix.Value(FieldText(v, 1), 10) == v
  {
    Radix.ValueOfDigits(v, 10);
  }

  /** With a four-digit year a run of one to four `y` becomes the year's last that many
      digits. */
  lemma YearDigits(year: nat, n: nat)
    requires 1000 <= year <= 9999 && 1 <= n <= 4
    ensures var t := Substr(Decimal(year), 4 - n);
      |t| == n && t == Decimal(year)[4 - n..]
  {
    assert Radix.Pow(10, 3) == 1000 by {
      assert Radix.Pow(10, 1) == 10;
      assert Radix.Pow(10, 2) == 100;
    }
    assert Radix.Pow(10, 4) == 10000;
    Radix.DigitsLength(year, 10, 4);
    Radix.DigitsLengthAtLeast(year, 10, 4);
  }

  /** `n` copies of `c`. */
  function Run(c: char, n: nat): (r: string)
    ensures |r| == n && forall i :: 0 <= i < n ==> r[i] == c
  {
    seq(n, _ => c)
  }

  /** With no `c` before it and none right after it, a run of `n` letters `c` is the first
      match of `c+`: it starts at `|pre|` and is `n` long. */
  lemma FirstRun(pre: string, c: char, n: nat, post: string)
    requires c !in pre && n >= 1
    requires post == [] || post[0] != c
    ensures var s := pre + Run(c, n) + post;
      FirstIndex(s, c) == Some(|pre|) && CharRun(s[|pre|..], c) == n
  {
    var s := pre + Run(c, n) + post;
    assert s[|pre|] == c;
    assert forall q :: 0 <= q < |pre| ==> s[q] == pre[q] && pre[q] in pre;
    var p := FirstIndex(s, c).value;
    assert forall q :: |pre| < q <= |s| ==> s[..q][|pre|] == c;
    var rest := s[|pre|..];
    assert rest == Run(c, n) + post;
    assert forall q :: 0 <= q < n ==> rest[q] == c;
    assert n < |rest| ==> rest[n] == post[0];
  }

  /** Only the first run of `y` is replaced, by the year's last that many digits: the text
      around it is unchanged, and the count of `y` drops by exactly the run's length. */
  lemma YearStepFirstRun(pre: string, n: nat, post: string, year: nat)
    requires 'y' !in pre && (post == [] || post[0] != 'y')
    requires 1000 <= year <= 9999 && 1 <= n <= 4
    ensures |Decimal(year)| == 4
    ensures YearStep(pre + Run('y', n) + post, year) == pre + Decimal(year)[4 - n..] + post
    ensures Count('y', YearStep(pre + Run('y', n) + post, year))
         == Count('y', pre + Run('y', n) + post) - n
  {
    YearStepAt(pre, n, post, year);
    YearDigits(year, n);
    var digits := Substr(Decimal(year), 4 - n);
    NoLetterInDigits(Decimal(year), 4 - n, 'y');
    SpliceCount(pre, Run('y', n), post, digits, 'y');
  }

  /** The year step on a first run of `n` letters `y`. */
  lemma YearStepAt(pre: string, n: nat, post: string, year: nat)
    requires 'y' !in pre && (post == [] || post[0] != 'y') && n >= 1
    ensures YearStep(pre + Run('y', n) + post, year) == pre + Substr(Decimal(year), 4 - n) + post
  {
    var s := pre + Run('y', n) + post;
    FirstRun(pre, 'y', n, post);
    assert s[..|pre|] == pre && s[|pre| + n..] == post;
    assert YearStep(s, year) == Splice(s, |pre|, n, Substr(Decimal(year), 4 - n));
  }

  /** A slice of printed digits holds no letter. */
  lemma NoLetterInDigits(d: string, k: int, c: char)
    requires Radix.AllDigitsIn(d, 10) && !('0' <= c <= '9')
    ensures c !in Substr(d, k)
  {
    var r := Substr(d, k);
    forall i | 0 <= i < |r| ensures r[i] != c {
      assert r[i] in d;
      var q :| 0 <= q < |d| && d[q] == r[i];
      assert Radix.IsDigitIn(d[q], 10);
    }
  }

  /** The same for a run pattern: its first run becomes the field's text and nothing else
      changes. */
  lemma PatternStepFirstRun(pre: string, n: nat, post: string, pat: Pattern)
    requires pat.run && pat.letter !in pre && n >= 1
    requires post == [] || post[0] != pat.letter
    ensures PatternStep(pre + Run(pat.letter, n) + post, pat)
         == pre + FieldText(pat.value, n) + post
  {
    var s := pre + Run(pat.letter, n) + post;
    FirstRun(pre, pat.letter, n, post);
    assert s[..|pre|] == pre && s[|pre| + n..] == post;
  }

  /** Each pattern replaces only its first match: the letter's count drops by the length
      of that match and by nothing more (the replacement is digits). */
  lemma PatternStepCount(fmt: string, pat: Pattern)
    requires !('0' <= pat.letter <= '9')
    ensures FirstIndex(fmt, pat.letter).Some? ==>
      var p := FirstIndex(fmt, pat.letter).value;
      var n := if pat.run then CharRun(fmt[p..], pat.letter) else 1;
      Count(pat.letter, PatternStep(fmt, pat)) == Count(pat.letter, fmt) - n
    ensures FirstIndex(fmt, pat.letter).None? ==> PatternStep(fmt, pat) == fmt
  {
    var c := pat.letter;
    if FirstIndex(fmt, c).Some? {
      var p := FirstIndex(fmt, c).value;
      var n := if pat.run then CharRun(fmt[p..], c) else 1;
      var text := FieldText(pat.value, n);
      DigitText(pat.value, n, c);
      if !pat.run { assert fmt[p..][0] == c; }
      RunSlice(fmt, p, n, c, fmt[p..p + n]);
      SpliceCount(fmt[..p], fmt[p..p + n], fmt[p + n..], text, c);
    }
  }

  /** A run of `c` found at `p`, cut out of `s`. */
  lemma RunSlice(s: string, p: nat, n: nat, c: char, run: string)
    requires p + n <= |s| && run == s[p..p + n]
    requires forall i :: 0 <= i < n ==> s[p..][i] == c
    ensures forall i :: 0 <= i < |run| ==> run[i] == c
    ensures s == s[..p] + run + s[p + n..]
  {
    assert forall i :: 0 <= i < n ==> run[i] == s[p..][i];
    assert s[..p] + run == s[..p + n];
    assert s[..p + n] + s[p + n..] == s;
  }

  lemma DigitText(v: nat, n: nat, c: char)
    requires !('0' <= c <= '9')
    ensures c !in FieldText(v, n)
  {
    var dv := Decimal(v);
    if n != 1 {
      var t := FieldText(v, n);
      assert t == ("00" + dv)[|dv|..];
      forall i | 0 <= i < |t| ensures t[i] != c {
        var j := i + |dv|;
        assert t[i] == ("00" + dv)[j];
        if j >= 2 { assert Radix.IsDigitIn(dv[j - 2], 10); }
      }
    } else {
      forall i | 0 <= i < |dv| ensures dv[i] != c {
        assert Radix.IsDigitIn(dv[i], 10);
      }
    }
  }

  lemma SpliceCount(a: string, run: string, b: string, text: string, c: char)
    requires c !in text
    requires forall i :: 0 <= i < |run| ==> run[i] == c
    ensures Count(c, a + text + b) == Count(c, a + run + b) - |run|
  {
    CountAppend(c, a + run, b);
    CountAppend(c, a, run);
    CountAll(c, run);
    CountAppend(c, a + text, b);
    CountAppend(c, a, text);
  }

  lemma {:induction false} CountAll(c: char, s: string)
    requires forall i :: 0 <= i < |s| ==> s[i] == c
    ensures Count(c, s) == |s|
  {
    if s != [] { CountAll(c, s[1..]); }
  }
}
