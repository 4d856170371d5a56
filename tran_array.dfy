/** `obj2Arr(obj)`: flattens a nested object into a list of `{grade, index, value}`
    records, in pre-order, where `grade` is the path of 1-based key positions. */
module TranArray {
  import opened Text
  import opened Wrappers

  /** A JavaScript primitive (functions included, as `typeof` is not `'object'` for them). */
  datatype Prim = Undefined | Null | Bool(b: bool) | Num(n: int) | Str(s: string) | Other(text: string)

  /** A value: a primitive, or a non-null object with its own enumerable properties in
      `for…in` order (an array is the object of its indices). */
  datatype Value = P(p: Prim) | Obj(members: seq<Member>)

  datatype Member = Member(key: string, value: Value)

  /** What a record holds: a property key, or a primitive value. */
  datatype Item = KeyItem(key: string) | PrimItem(p: Prim)

  datatype Record = Record(grade: seq<nat>, index: nat, value: Item)

  /** A record before it is numbered: its grade and what it holds. */
  type Graded = (seq<nat>, Item)

  /** The value of `typeof x === 'object' && x !== null` on a property value. */
  predicate IsObject(v: Value) { v.Obj? }

  /** `!isNaN(parseInt(key))`: after leading white space and an optional sign, either
      `0x`/`0X` and a hexadecimal digit, or a decimal digit. */
  predicate ParsesAsInt(key: string) {
    var t := key[LeadingSpaces(key)..];
    var u := if t != [] && (t[0] == '+' || t[0] == '-') then t[1..] else t;
    if |u| >= 2 && u[0] == '0' && (u[1] == 'x' || u[1] == 'X') then |u| >= 3 && IsHexDigit(u[2])
    else u != [] && IsDigit(u[0])
  }

  predicate IsHexDigit(c: char) { IsDigit(c) || ('a' <= c <= 'f') || ('A' <= c <= 'F') }

  /** The records, without their indices, that `traverse(members, grade)` pushes: the
      `k`-th property (from 1) is numbered `grade ++ [k]`. */
  function Items(ms: seq<Member>, grade: seq<nat>): seq<Graded>
    decreases ms
  {
    if ms == [] then []
    else Items(ms[..|ms| - 1], grade) + ItemsOf(ms[|ms| - 1], grade + [|ms|])
  }

  /** One property at grade `g`: an object value gives its key and then its own records
      below `g`; a primitive under a key that does not parse as an integer gives the key
      at `g` and the value at `g ++ [1]`; under a key that does, only the value at `g`. */
  function ItemsOf(m: Member, g: seq<nat>): seq<Graded>
    decreases m
  {
    match m.value
    case Obj(children) => [(g, KeyItem(m.key))] + Items(children, g)
    case P(p) =>
      if !ParsesAsInt(m.key) then [(g, KeyItem(m.key)), (g + [1], PrimItem(p))]
      else [(g, PrimItem(p))]
  }

  /** The records numbered by `index`, from `start` on. */
  function Indexed(items: seq<Graded>, start: nat): (rs: seq<Record>)
    ensures |rs| == |items|
    ensures forall i :: 0 <= i < |rs| ==> rs[i] == Record(items[i].0, start + i, items[i].1)
  {
    seq(|items|, i requires 0 <= i < |items| => Record(items[i].0, start + i, items[i].1))
  }

  lemma IndexedAppend(a: seq<Graded>, b: seq<Graded>, start: nat)
    ensures Indexed(a + b, start) == Indexed(a, start) + Indexed(b, start + |a|)
  {
  }

  /** Numbering the records of the first `k + 1` properties: those of the first `k`,
      then those of property `k`, numbered on. */
  lemma ItemsStep(ms: seq<Member>, k: nat, grade: seq<nat>, start: nat, g: seq<nat>, next: nat)
    requires k < |ms| && g == grade + [k + 1] && next == start + |Items(ms[..k], grade)|
    ensures |Items(ms[..k + 1], grade)| == |Items(ms[..k], grade)| + |ItemsOf(ms[k], g)|
    ensures Indexed(Items(ms[..k + 1], grade), start)
         == Indexed(Items(ms[..k], grade), start) + Indexed(ItemsOf(ms[k], g), next)
  {
    assert ms[..k + 1][..k] == ms[..k];
    IndexedAppend(Items(ms[..k], grade), ItemsOf(ms[k], g), start);
  }

  /** The numbered records of an object-valued property. */
  lemma IndexedObject(m: Member, g: seq<nat>, start: nat)
    requires m.value.Obj?
    ensures Indexed(ItemsOf(m, g), start)
         == [Record(g, start, KeyItem(m.key))] + Indexed(Items(m.value.members, g), start + 1)
    ensures |ItemsOf(m, g)| == 1 + |Items(m.value.members, g)|
  {
    IndexedAppend([(g, KeyItem(m.key))], Items(m.value.members, g), start);
  }

  /** The numbered records of a primitive-valued property. */
  lemma IndexedPrimitive(m: Member, g: seq<nat>, start: nat)
    requires m.value.P?
    ensures !ParsesAsInt(m.key) ==>
      && Indexed(ItemsOf(m, g), start)
         == [Record(g, start, KeyItem(m.key))] + [Record(g + [1], start + 1, PrimItem(m.value.p))]
      && |ItemsOf(m, g)| == 2
    ensures ParsesAsInt(m.key) ==>
      Indexed(ItemsOf(m, g), start) == [Record(g, start, PrimItem(m.value.p))] && |ItemsOf(m, g)| == 1
  {
  }

  /** The closure state of `obj2Arr`: the `result` array and the `index` counter. */
  class Flattener {
    var result: seq<Record>
    var index: nat

    constructor ()
      ensures result == [] && index == 0
    {
      result := [];
      index := 0;
    }

    /** `addToArray(value, grade)` */
    method AddToArray(value: Item, grade: seq<nat>)
      modifies this
      ensures result == old(result) + [Record(grade, old(index), value)]
      ensures index == old(index) + 1
    {
      result := result + [Record(grade, index, value)];
      index := index + 1;
    }

    /** `traverse(currentObj, currentGrade)`: appends the object's records, numbered on
      from the current index. */
    method Traverse(ms: seq<Member>, grade: seq<nat>)
      modifies this
      ensures result == old(result) + Indexed(Items(ms, grade), old(index))
      ensures index == old(index) + |Items(ms, grade)|
      decreases ms, 1
    {
      var counter: nat := 1;
      for k := 0 to |ms|
        invariant counter == k + 1
        invariant result == old(result) + Indexed(Items(ms[..k], grade), old(index))
        invariant index == old(index) + |Items(ms[..k], grade)|
      {
        var g := grade + [counter];
        ghost var before := Indexed(Items(ms[..k], grade), old(index));
        ghost var here := Indexed(ItemsOf(ms[k], g), index);
        ItemsStep(ms, k, grade, old(index), g, index);
        Visit(ms[k], g);
        AppendAssoc(old(result), before, here);
        counter := counter + 1;
      }
      assert ms[..|ms|] == ms;
    }

    /** The body of the `for…in` loop for one own property, numbered `newGrade`. */
    method Visit(m: Member, newGrade: seq<nat>)
      modifies this
      ensures result == old(result) + Indexed(ItemsOf(m, newGrade), old(index))
      ensures index == old(index) + |ItemsOf(m, newGrade)|
      decreases m, 0
    {
      match m.value {
        case Obj(children) =>
          ghost var key := [Record(newGrade, index, KeyItem(m.key))];
          AddToArray(KeyItem(m.key), newGrade);
          Traverse(children, newGrade);
          IndexedObject(m, newGrade, old(index));
          AppendAssoc(old(result), key, Indexed(Items(children, newGrade), old(index) + 1));
        case P(p) =>
          IndexedPrimitive(m, newGrade, old(index));
          if !ParsesAsInt(m.key) {
            ghost var key := [Record(newGrade, index, KeyItem(m.key))];
            ghost var value := [Record(newGrade + [1], index + 1, PrimItem(p))];
            AddToArray(KeyItem(m.key), newGrade);
            AddToArray(PrimItem(p), newGrade + [1]);
            AppendAssoc(old(result), key, value);
          } else {
            AddToArray(PrimItem(p), newGrade);
          }
      }
    }
  }

  /** `obj2Arr(obj)`: `null` for a primitive; otherwise the records of the object from
      the empty grade, indexed 0, 1, 2, … in the order they are pushed. */
  method Obj2Arr(obj: Value) returns (r: Option<seq<Record>>)
    ensures obj.P? ==> r == None
    ensures obj.Obj? ==> r == Some(Indexed(Items(obj.members, []), 0))
    ensures r.Some? ==> forall i :: 0 <= i < |r.value| ==> r.value[i].index == i
    ensures obj == Obj([]) ==> r == Some([])
  {
    if obj.P? {
      return None;
    }
    var f := new Flattener();
    f.Traverse(obj.members, []);
    assert [] + Indexed(Items(obj.members, []), 0) == Indexed(Items(obj.members, []), 0);
    r := Some(f.result);
  }

  // ---------------------------------------------------------------------------
  // Grades

  /** Lexicographic order on grades; a proper prefix comes first. */
  predicate LexLess(a: seq<nat>, b: seq<nat>)
    decreases |a|
  {
    b != [] && (a == [] || a[0] < b[0] || (a[0] == b[0] && LexLess(a[1..], b[1..])))
  }

  lemma {:induction false} LexPrefix(g: seq<nat>, x: seq<nat>)
    requires x != []
    ensures LexLess(g, g + x)
    decreases |g|
  {
    if g != [] {
      assert (g + x)[1..] == g[1..] + x;
      LexPrefix(g[1..], x);
    }
  }

  lemma {:induction false} LexAt(g: seq<nat>, a: seq<nat>, b: seq<nat>)
    requires a != [] && b != [] && a[0] < b[0]
    ensures LexLess(g + a, g + b)
    decreases |g|
  {
    if g != [] {
      assert (g + a)[1..] == g[1..] + a;
      assert (g + b)[1..] == g[1..] + b;
      LexAt(g[1..], a, b);
    }
  }

  lemma {:induction false} LexIrreflexive(a: seq<nat>)
    ensures !LexLess(a, a)
    decreases |a|
  {
    if a != [] { LexIrreflexive(a[1..]); }
  }

  /** Every record of `Items(ms, g)` lies strictly below `g`, in the subtree of one of the
      `|ms|` properties. */
  predicate Below(items: seq<Graded>, g: seq<nat>, n: nat) {
    forall i :: 0 <= i < |items| ==>
      |items[i].0| > |g| && items[i].0[..|g|] == g && 1 <= items[i].0[|g|] <= n
  }

  predicate InPreOrder(items: seq<Graded>) {
    forall i, j :: 0 <= i < j < |items| ==> LexLess(items[i].0, items[j].0)
  }

  /** The `k`-th property's records are numbered `g ++ [k] ++ …`. */
  lemma {:induction false} ItemsBelow(ms: seq<Member>, g: seq<nat>)
    ensures Below(Items(ms, g), g, |ms|)
    decreases ms, 1
  {
    if ms != [] {
      var init := ms[..|ms| - 1];
      ItemsBelow(init, g);
      var ng := g + [|ms|];
      ItemsOfAt(ms[|ms| - 1], ng);
      var a: seq<Graded> := Items(init, g);
      var b: seq<Graded> := ItemsOf(ms[|ms| - 1], ng);
      var ab: seq<Graded> := a + b;
      forall i | 0 <= i < |ab|
        ensures |ab[i].0| > |g| && ab[i].0[..|g|] == g && 1 <= ab[i].0[|g|] <= |ms|
      {
        if i >= |a| {
          var gr := b[i - |a|].0;
          assert gr[..|ng|] == ng;
          assert gr[..|g|] == ng[..|g|];
          assert gr[|g|] == ng[|g|];
        }
      }
    }
  }

  /** Every record of one property starts with that property's grade. */
  lemma {:induction false} ItemsOfAt(m: Member, g: seq<nat>)
    ensures forall i :: 0 <= i < |ItemsOf(m, g)| ==>
      |ItemsOf(m, g)[i].0| >= |g| && ItemsOf(m, g)[i].0[..|g|] == g
    decreases m, 0
  {
    match m.value
    case Obj(children) =>
      ItemsBelow(children, g);
      var rest := Items(children, g);
      forall i | 0 <= i < |rest| ensures |rest[i].0| >= |g| && rest[i].0[..|g|] == g {
      }
    case P(_) =>
      assert (g + [1])[..|g|] == g;
  }

  /** The grades come out in strictly increasing lexicographic order, one record per
      grade: a key before its subtree, a property before the next one. */
  lemma {:induction false} ItemsInPreOrder(ms: seq<Member>, g: seq<nat>)
    ensures InPreOrder(Items(ms, g))
    decreases ms, 1
  {
    if ms != [] {
      var init := ms[..|ms| - 1];
      var ng := g + [|ms|];
      ItemsInPreOrder(init, g);
      ItemsOfInPreOrder(ms[|ms| - 1], ng);
      ItemsBelow(init, g);
      ItemsOfAt(ms[|ms| - 1], ng);
      var a: seq<Graded> := Items(init, g);
      var b: seq<Graded> := ItemsOf(ms[|ms| - 1], ng);
      var ab: seq<Graded> := a + b;
      forall i, j | 0 <= i < j < |ab| ensures LexLess(ab[i].0, ab[j].0) {
        if i < |a| && j >= |a| {
          CrossBlock(a[i].0, b[j - |a|].0, g, |init|, |ms|);
        }
      }
    }
  }

  lemma CrossBlock(x: seq<nat>, y: seq<nat>, g: seq<nat>, n: nat, k: nat)
    requires |x| > |g| && x[..|g|] == g && x[|g|] <= n
    requires |y| >= |g| + 1 && y[..|g| + 1] == g + [k] && n < k
    ensures LexLess(x, y)
  {
    assert x == g + x[|g|..];
    assert y == g + y[|g|..];
    assert y[|g|] == k;
    LexAt(g, x[|g|..], y[|g|..]);
  }

  lemma {:induction false} ItemsOfInPreOrder(m: Member, g: seq<nat>)
    ensures InPreOrder(ItemsOf(m, g))
    decreases m, 0
  {
    match m.value
    case Obj(children) =>
      ItemsInPreOrder(children, g);
      ItemsBelow(children, g);
      var rest := Items(children, g);
      var all := [(g, KeyItem(m.key))] + rest;
      forall i, j | 0 <= i < j < |all| ensures LexLess(all[i].0, all[j].0) {
        if i == 0 {
          var y := rest[j - 1].0;
          assert y == g + y[|g|..];
          LexPrefix(g, y[|g|..]);
        }
      }
    case P(_) =>
      LexPrefix(g, [1]);
  }

  /** Hence no two records share a grade. */
  lemma GradesDistinct(ms: seq<Member>, g: seq<nat>, i: nat, j: nat)
    requires i < j < |Items(ms, g)|
    ensures Items(ms, g)[i].0 != Items(ms, g)[j].0
  {
    ItemsInPreOrder(ms, g);
    LexIrreflexive(Items(ms, g)[i].0);
  }

  // ---------------------------------------------------------------------------
  // Examples

  lemma KeysThatParse()
    ensures ParsesAsInt("0") && ParsesAsInt(" -12") && ParsesAsInt("0x1f") && ParsesAsInt("7up")
    ensures !ParsesAsInt("a") && !ParsesAsInt("") && !ParsesAsInt("0x") && !ParsesAsInt("-")
  {
    ParsesUnsigned();
    ParsesSigned();
    ParsesLetters();
    ParsesHexPrefix();
  }

  lemma ParsesUnsigned()
    ensures ParsesAsInt("0") && ParsesAsInt("0x1f") && ParsesAsInt("7up")
  {
    assert LeadingSpaces("0") == 0 && LeadingSpaces("0x1f") == 0 && LeadingSpaces("7up") == 0;
  }

  lemma ParsesSigned()
    ensures ParsesAsInt(" -12") && !ParsesAsInt("-")
  {
    assert " -12"[1..] == "-12";
    assert LeadingSpaces("-12") == 0;
    assert LeadingSpaces(" -12") == 1;
    assert LeadingSpaces("-") == 0;
  }

  lemma ParsesLetters()
    ensures !ParsesAsInt("a") && !ParsesAsInt("")
  {
    assert LeadingSpaces("a") == 0;
  }

  lemma ParsesHexPrefix()
    ensures !ParsesAsInt("0x")
  {
    assert LeadingSpaces("0x") == 0;
  }

  lemma ExampleA()
    ensures ItemsOf(Member("a", P(Num(1))), [1]) == [([1], KeyItem("a")), ([1, 1], PrimItem(Num(1)))]
  {
    assert !ParsesAsInt("a");
    assert [1] + [1] == [1, 1];
  }

  lemma ExampleB()
    ensures ItemsOf(Member("b", Obj([Member("0", P(Str("x")))])), [2])
         == [([2], KeyItem("b")), ([2, 1], PrimItem(Str("x")))]
  {
    var x := Member("0", P(Str("x")));
    assert ParsesAsInt("0");
    assert [x][..0] == [];
    assert [2] + [|[x]|] == [2, 1];
    assert Items([x], [2]) == ItemsOf(x, [2, 1]);
  }

  /** `{a: 1, b: ['x']}`: the named key `a` and its value, the key `b`, then the array
      element under `b`, which is numbered without a key record. */
  lemma NestedExample()
    ensures Items([Member("a", P(Num(1))), Member("b", Obj([Member("0", P(Str("x")))]))], [])
         == [([1], KeyItem("a")), ([1, 1], PrimItem(Num(1))),
             ([2], KeyItem("b")), ([2, 1], PrimItem(Str("x")))]
  {
    var a := Member("a", P(Num(1)));
    var b := Member("b", Obj([Member("0", P(Str("x")))]));
    assert [a, b][..1] == [a];
    assert [a][..0] == [];
    assert [] + [|[a]|] == [1];
    assert [] + [|[a, b]|] == [2];
    assert Items([a], []) == ItemsOf(a, [1]);
    ExampleA();
    ExampleB();
  }
}
