/** The helpers of the H0 template generator: reading the Node.js major
    version, the empty-directory check, the npm working-directory check, and
    the synthesis of an object-literal syntax tree from a plain object. */
module H0Utils {
  import opened Wrappers
  import opened Text
  import opened BabelTree

  // ---------------------------------------------------------------------
  // Node.js version

  predicate IsDigit(c: char) {
    '0' <= c <= '9'
  }

  predicate AllDigits(s: string) {
    forall i :: 0 <= i < |s| ==> IsDigit(s[i])
  }

  /** The value of a string of decimal digits. */
  function DigitsValue(s: string): nat
    requires AllDigits(s)
  {
    if s == [] then 0
    else DigitsValue(s[..|s| - 1]) * 10 + (s[|s| - 1] as int - '0' as int)
  }

  /** The decimal notation of `n`, without leading zeros. */
  function Decimal(n: nat): (s: string)
    ensures s != [] && AllDigits(s)
    decreases n
  {
    if n < 10 then [('0' as int + n) as char]
    else Decimal(n / 10) + [('0' as int + n % 10) as char]
  }

  lemma {:induction false} DecimalValue(n: nat)
    ensures DigitsValue(Decimal(n)) == n
    decreases n
  {
    if n >= 10 {
      DecimalValue(n / 10);
      var s := Decimal(n);
      assert s[..|s| - 1] == Decimal(n / 10);
    }
  }

  /** `Number(s)` on the text before the first dot: the empty string is 0,
      a run of digits is its value, anything else is NaN (None). */
  function JsNumber(s: string): (r: Option<nat>)
    ensures r.Some? <==> AllDigits(s)
    ensures s == [] ==> r == Some(0)
  {
    if AllDigits(s) then Some(DigitsValue(s)) else None
  }

  /** `getNodeVersion`: the version string, and `Number` of its first
      dot-separated component. */
  function GetNodeVersion(current: string): (r: (string, Option<nat>))
    ensures r.0 == current
    ensures r.1.Some? <==> AllDigits(Split(current, ".")[0])
  {
    (current, JsNumber(Split(current, ".")[0]))
  }

  /** A release version `<major>.<rest>` yields its major number. */
  lemma NodeMajorOfRelease(major: nat, rest: string)
    ensures GetNodeVersion(Decimal(major) + "." + rest).1 == Some(major)
  {
    var d := Decimal(major);
    assert '.' !in d by {
      forall i | 0 <= i < |d| ensures d[i] != '.' {
        assert IsDigit(d[i]);
      }
    }
    SplitFirstPiece(d, '.', rest);
    DecimalValue(major);
  }

  // ---------------------------------------------------------------------
  // Directory check

  /** `isSafeToCreateProjectIn`: safe exactly when the directory listing is
      empty; any entry at all is a conflict. */
  function IsSafeToCreateProjectIn(entries: set<string>): (safe: bool)
    ensures safe <==> forall e :: e !in entries
  {
    |entries| == 0
  }

  // ---------------------------------------------------------------------
  // npm working directory

  const CwdPrefix: string := "; cwd = "

  /** The index of the first line starting with `prefix`. */
  function FirstLineWith(lines: seq<string>, prefix: string): (k: Option<nat>)
    ensures k.Some? ==> k.value < |lines| && StartsWith(lines[k.value], prefix)
    ensures k.Some? ==> forall j :: 0 <= j < k.value ==> !StartsWith(lines[j], prefix)
    ensures k.None? ==> forall j :: 0 <= j < |lines| ==> !StartsWith(lines[j], prefix)
  {
    if lines == [] then None
    else if StartsWith(lines[0], prefix) then Some(0)
    else match FirstLineWith(lines[1..], prefix)
      case Some(k) => Some(k + 1)
      case None => None
  }

  /** `checkThatNpmCanReadCwd`, given the joined output of `npm config list`
      (None when spawning npm throws) and the process's working directory.
      It fails only when npm reports a different working directory on its
      first `; cwd = ` line. */
  function NpmCanReadCwd(output: Option<string>, cwd: string): (ok: bool)
    ensures output.None? ==> ok
    ensures output.Some? ==>
      var lines := Split(output.value, "\n");
      var k := FirstLineWith(lines, CwdPrefix);
      (!ok <==> k.Some? && lines[k.value][|CwdPrefix|..] != cwd)
  {
    match output
    case None => true
    case Some(text) =>
      var lines := Split(text, "\n");
      match FirstLineWith(lines, CwdPrefix)
      case None => true
      case Some(k) => lines[k][|CwdPrefix|..] == cwd
  }

  /** Lines joined with newlines split back into the same lines. */
  lemma {:induction false} SplitJoinedLines(lines: seq<string>)
    requires |lines| >= 1
    requires forall i :: 0 <= i < |lines| ==> '\n' !in lines[i]
    ensures Split(Join(lines, "\n"), "\n") == lines
    decreases |lines|
  {
    if |lines| == 1 {
      SplitWithoutSeparator(lines[0], '\n');
    } else {
      SplitJoinedLines(lines[1..]);
      SplitAtFirst(lines[0], '\n', Join(lines[1..], "\n"));
      assert [lines[0]] + lines[1..] == lines;
    }
  }

  /** For output made of lines, the check compares the working directory with
      the first line that reports one, and passes when no line does. */
  lemma NpmCheckOnLines(lines: seq<string>, cwd: string)
    requires |lines| >= 1
    requires forall i :: 0 <= i < |lines| ==> '\n' !in lines[i]
    ensures var k := FirstLineWith(lines, CwdPrefix);
      NpmCanReadCwd(Some(Join(lines, "\n")), cwd)
      == (k.None? || lines[k.value] == CwdPrefix + cwd)
  {
    SplitJoinedLines(lines);
    var k := FirstLineWith(lines, CwdPrefix);
    if k.Some? {
      var l := lines[k.value];
      assert l == l[..|CwdPrefix|] + l[|CwdPrefix|..];
    }
  }

  // ---------------------------------------------------------------------
  // Object synthesis

  /** A value of the plain object handed to the synthesiser: strings,
      numbers, booleans, arrays of objects with string values, and anything
      else (undefined, null, nested objects), which the synthesiser skips. */
  datatype Value =
    | Str(text: string)
    | Num(number: int)
    | Bool(truth: bool)
    | Items(items: seq<seq<(string, string)>>)
    | Unsupported

  /** An object's own enumerable fields, in `for...in` order. */
  type Fields = seq<(string, Value)>

  function Property(key: string, value: Node): Node {
    ObjectProperty(Identifier(key), value)
  }

  /** The object literal an array item becomes: one string property per field. */
  function ItemNode(item: seq<(string, string)>): (n: Node)
    ensures n.ObjectExpression? && |n.properties| == |item|
  {
    ObjectExpression(seq(|item|, i requires 0 <= i < |item| => Property(item[i].0, StringLiteral(item[i].1))))
  }

  /** The array literal's elements: one object literal per item. */
  function ItemNodes(items: seq<seq<(string, string)>>): (ns: seq<Node>)
    ensures |ns| == |items| && forall i :: 0 <= i < |items| ==> ns[i] == ItemNode(items[i])
  {
    seq(|items|, i requires 0 <= i < |items| => ItemNode(items[i]))
  }

  /** The property a scalar field becomes, if it is a scalar. */
  function ScalarProperty(field: (string, Value)): seq<Node> {
    match field.1
    case Str(s) => [Property(field.0, StringLiteral(s))]
    case Num(x) => [Property(field.0, NumericLiteral(x))]
    case Bool(b) => [Property(field.0, BooleanLiteral(b))]
    case _ => []
  }

  /** The property an array field becomes, if it is an array. */
  function ArrayProperty(field: (string, Value)): seq<Node> {
    match field.1
    case Items(its) => [Property(field.0, ArrayExpression(ItemNodes(its)))]
    case _ => []
  }

  /** The properties `f` gives the fields, in field order. */
  function Collect(obj: Fields, f: ((string, Value)) -> seq<Node>): seq<Node> {
    if obj == [] then [] else Collect(obj[..|obj| - 1], f) + f(obj[|obj| - 1])
  }

  /** Two fields give the first one's properties, then the second's. */
  lemma CollectPair(obj: Fields, f: ((string, Value)) -> seq<Node>)
    requires |obj| == 2
    ensures Collect(obj, f) == f(obj[0]) + f(obj[1])
  {
    assert obj[..1][..0] == [];
    assert Collect(obj[..1], f) == f(obj[0]);
  }

  /** The scalar fields' properties, in field order. */
  function ScalarProperties(obj: Fields): seq<Node> {
    Collect(obj, ScalarProperty)
  }

  /** The array fields' properties, in field order. */
  function ArrayProperties(obj: Fields): seq<Node> {
    Collect(obj, ArrayProperty)
  }

  function Reverse<T>(xs: seq<T>): (r: seq<T>)
    ensures |r| == |xs| && forall i :: 0 <= i < |xs| ==> r[i] == xs[|xs| - 1 - i]
  {
    if xs == [] then [] else [xs[|xs| - 1]] + Reverse(xs[..|xs| - 1])
  }

  /** One more field extends the scalar properties at the end and the
      reversed array properties at the front. */
  lemma FieldStep(obj: Fields, i: nat)
    requires i < |obj|
    ensures ScalarProperties(obj[..i + 1]) == ScalarProperties(obj[..i]) + ScalarProperty(obj[i])
    ensures Reverse(ArrayProperties(obj[..i + 1])) == ArrayProperty(obj[i]) + Reverse(ArrayProperties(obj[..i]))
  {
    assert obj[..i + 1][..i] == obj[..i];
    var a := ArrayProperties(obj[..i]);
    if ArrayProperty(obj[i]) != [] {
      assert (a + ArrayProperty(obj[i]))[..|a|] == a;
    } else {
      assert a + ArrayProperty(obj[i]) == a;
    }
  }

  /** A pushed scalar field extends the synthesised properties at the end. */
  lemma PushStep(obj: Fields, i: nat, arrays: seq<Node>, scalars: seq<Node>, p: Node)
    requires i < |obj|
    requires arrays == Reverse(ArrayProperties(obj[..i])) && scalars == ScalarProperties(obj[..i])
    requires ScalarProperty(obj[i]) == [p] && ArrayProperty(obj[i]) == []
    ensures arrays == Reverse(ArrayProperties(obj[..i + 1]))
    ensures scalars + [p] == ScalarProperties(obj[..i + 1])
    ensures (arrays + scalars) + [p] == arrays + (scalars + [p])
  {
    FieldStep(obj, i);
  }

  /** An unshifted array field extends the synthesised properties at the front. */
  lemma UnshiftStep(obj: Fields, i: nat, arrays: seq<Node>, scalars: seq<Node>, p: Node)
    requires i < |obj|
    requires arrays == Reverse(ArrayProperties(obj[..i])) && scalars == ScalarProperties(obj[..i])
    requires ScalarProperty(obj[i]) == [] && ArrayProperty(obj[i]) == [p]
    ensures [p] + arrays == Reverse(ArrayProperties(obj[..i + 1]))
    ensures scalars == ScalarProperties(obj[..i + 1])
    ensures [p] + (arrays + scalars) == ([p] + arrays) + scalars
  {
    FieldStep(obj, i);
  }

  /** A dropped field adds no property. */
  lemma SkipStep(obj: Fields, i: nat)
    requires i < |obj|
    requires ScalarProperty(obj[i]) == [] && ArrayProperty(obj[i]) == []
    ensures Reverse(ArrayProperties(obj[..i + 1])) == Reverse(ArrayProperties(obj[..i]))
    ensures ScalarProperties(obj[..i + 1]) == ScalarProperties(obj[..i])
  {
    FieldStep(obj, i);
  }

  /** The inner loop: one string property per field of an array item. */
  method ItemObject(item: seq<(string, string)>) returns (node: Node)
    ensures node == ItemNode(item)
  {
    var props: seq<Node> := [];
    var i := 0;
    while i < |item|
      invariant 0 <= i <= |item|
      invariant props == seq(i, j requires 0 <= j < i => Property(item[j].0, StringLiteral(item[j].1)))
    {
      props := props + [Property(item[i].0, StringLiteral(item[i].1))];
      i := i + 1;
    }
    node := ObjectExpression(props);
  }

  /** `value.map(...)`: each item becomes an object literal. */
  method ItemsArray(items: seq<seq<(string, string)>>) returns (nodes: seq<Node>)
    ensures nodes == ItemNodes(items)
  {
    nodes := [];
    var i := 0;
    while i < |items|
      invariant 0 <= i <= |items|
      invariant nodes == ItemNodes(items[..i])
    {
      var node := ItemObject(items[i]);
      nodes := nodes + [node];
      i := i + 1;
    }
    assert items[..|items|] == items;
  }

  /** `injectObj`: scalar fields are pushed in field order, array fields are
      unshifted, so the result lists the array fields last-first, then the
      scalar fields first-first; other fields are dropped. */
  method InjectObj(obj: Fields) returns (node: Node)
    ensures node == ObjectExpression(Reverse(ArrayProperties(obj)) + ScalarProperties(obj))
  {
    var objExpr: seq<Node> := [];
    ghost var arrays: seq<Node> := [];
    ghost var scalars: seq<Node> := [];
    var i := 0;
    while i < |obj|
      invariant 0 <= i <= |obj|
      invariant arrays == Reverse(ArrayProperties(obj[..i]))
      invariant scalars == ScalarProperties(obj[..i])
      invariant objExpr == arrays + scalars
    {
      var (k, value) := obj[i];
      match value {
        case Str(v) =>
          var p := Property(k, StringLiteral(v));
          PushStep(obj, i, arrays, scalars, p);
          objExpr := objExpr + [p];
          scalars := scalars + [p];
        case Num(x) =>
          var p := Property(k, NumericLiteral(x));
          PushStep(obj, i, arrays, scalars, p);
          objExpr := objExpr + [p];
          scalars := scalars + [p];
        case Bool(b) =>
          var p := Property(k, BooleanLiteral(b));
          PushStep(obj, i, arrays, scalars, p);
          objExpr := objExpr + [p];
          scalars := scalars + [p];
        case Items(its) =>
          var arrayValue := ItemsArray(its);
          var p := Property(k, ArrayExpression(arrayValue));
          UnshiftStep(obj, i, arrays, scalars, p);
          objExpr := [p] + objExpr;
          arrays := [p] + arrays;
        case Unsupported =>
          SkipStep(obj, i);
      }
      i := i + 1;
    }
    assert obj[..|obj|] == obj;
    node := ObjectExpression(objExpr);
  }

  /** The fields the synthesiser keeps. */
  predicate Supported(v: Value) {
    !v.Unsupported?
  }

  /** The property a field becomes, if any. */
  function FieldProperty(field: (string, Value)): seq<Node> {
    ScalarProperty(field) + ArrayProperty(field)
  }

  function CountSupported(obj: Fields): nat {
    if obj == [] then 0
    else CountSupported(obj[..|obj| - 1]) + (if Supported(obj[|obj| - 1].1) then 1 else 0)
  }

  /** The collected properties are exactly those of the fields. */
  lemma {:induction false} CollectContents(obj: Fields, f: ((string, Value)) -> seq<Node>, p: Node)
    ensures p in Collect(obj, f) <==> exists j :: 0 <= j < |obj| && p in f(obj[j])
    decreases |obj|
  {
    if obj != [] {
      var init, last := obj[..|obj| - 1], obj[|obj| - 1];
      CollectContents(init, f, p);
      if p in Collect(obj, f) && p !in f(last) {
        var j :| 0 <= j < |init| && p in f(init[j]);
        assert obj[j] == init[j];
      }
      if exists j :: 0 <= j < |obj| && p in f(obj[j]) {
        var j :| 0 <= j < |obj| && p in f(obj[j]);
        if j < |init| {
          assert init[j] == obj[j];
        }
      }
    }
  }

  /** The scalar properties are exactly those of the scalar fields. */
  lemma ScalarPropertiesContents(obj: Fields, p: Node)
    ensures p in ScalarProperties(obj) <==> exists j :: 0 <= j < |obj| && p in ScalarProperty(obj[j])
  {
    CollectContents(obj, ScalarProperty, p);
  }

  /** The array properties are exactly those of the array fields. */
  lemma ArrayPropertiesContents(obj: Fields, p: Node)
    ensures p in ArrayProperties(obj) <==> exists j :: 0 <= j < |obj| && p in ArrayProperty(obj[j])
  {
    CollectContents(obj, ArrayProperty, p);
  }

  lemma ReverseContents<T>(xs: seq<T>, x: T)
    ensures x in Reverse(xs) <==> x in xs
  {
    var r := Reverse(xs);
    if x in xs {
      var i :| 0 <= i < |xs| && xs[i] == x;
      assert r[|xs| - 1 - i] == x;
    }
  }

  /** The synthesised object holds a property for every supported field and
      nothing else. */
  lemma InjectedContents(obj: Fields, p: Node)
    ensures p in Reverse(ArrayProperties(obj)) + ScalarProperties(obj)
      <==> exists j :: 0 <= j < |obj| && p in FieldProperty(obj[j])
  {
    ReverseContents(ArrayProperties(obj), p);
    ScalarPropertiesContents(obj, p);
    ArrayPropertiesContents(obj, p);
    if exists j :: 0 <= j < |obj| && p in FieldProperty(obj[j]) {
      var j :| 0 <= j < |obj| && p in FieldProperty(obj[j]);
      assert p in ScalarProperty(obj[j]) || p in ArrayProperty(obj[j]);
    }
  }

  /** One property per supported field. */
  lemma {:induction false} InjectedCount(obj: Fields)
    ensures |Reverse(ArrayProperties(obj)) + ScalarProperties(obj)| == CountSupported(obj)
    decreases |obj|
  {
    if obj != [] {
      InjectedCount(obj[..|obj| - 1]);
    }
  }

  lemma ItemNodeInert(item: seq<(string, string)>)
    ensures Inert(ItemNode(item))
  {
    var n := ItemNode(item);
    forall i | 0 <= i < |Children(n)| ensures Inert(Children(n)[i]) {
      var c := Children(n)[i];
      assert Inert(Children(c)[0]) && Inert(Children(c)[1]);
    }
  }

  lemma FieldPropertyInert(field: (string, Value))
    ensures forall p :: p in FieldProperty(field) ==> Inert(p)
  {
    match field.1
    case Items(its) =>
      var a := ArrayExpression(ItemNodes(its));
      forall i | 0 <= i < |Children(a)| ensures Inert(Children(a)[i]) {
        ItemNodeInert(its[i]);
      }
      var q := Property(field.0, a);
      assert Inert(Children(q)[0]) && Inert(Children(q)[1]);
    case Str(t) =>
      var q := Property(field.0, StringLiteral(t));
      assert Inert(Children(q)[0]) && Inert(Children(q)[1]);
    case Num(x) =>
      var q := Property(field.0, NumericLiteral(x));
      assert Inert(Children(q)[0]) && Inert(Children(q)[1]);
    case Bool(b) =>
      var q := Property(field.0, BooleanLiteral(b));
      assert Inert(Children(q)[0]) && Inert(Children(q)[1]);
    case Unsupported =>
  }

  /** The synthesised object contains no call and no declaration, so the
      route injection can append it without its visitors firing inside it. */
  lemma InjectedInert(obj: Fields)
    ensures Inert(ObjectExpression(Reverse(ArrayProperties(obj)) + ScalarProperties(obj)))
  {
    var ps := Reverse(ArrayProperties(obj)) + ScalarProperties(obj);
    forall i | 0 <= i < |ps| ensures Inert(ps[i]) {
      var p := ps[i];
      assert p in ps;
      InjectedContents(obj, p);
      var j :| 0 <= j < |obj| && p in FieldProperty(obj[j]);
      FieldPropertyInert(obj[j]);
    }
  }
}
