/** Appending a route entry to a parsed route configuration file. Two file
    layouts exist:
      - the call layout (`export default defineConfig({ routes: [ ... ] })`):
        every call whose first argument is an object literal with a member
        keyed by the route key gets the entry appended to that member's array;
      - the declaration layout (`const config = [ ... ]`): every variable
        declaration whose first declarator named by the route key is
        initialised with an array literal gets the entry appended there.
    The tool picks one visitor for the whole file and runs a single pre-order
    traversal with it. */
module RouteInjection {
  import opened Wrappers
  import opened BabelTree

  /** Which visitor runs: the call layout or the declaration layout. */
  datatype Layout = CallLayout | DeclarationLayout

  /** The TypeErrors the call-layout visitor raises. */
  datatype InjectError =
    | MissingArgument   // a call without arguments: destructuring `undefined`
    | NoElements        // the keyed member has no array value to push into

  /** `item.key && item.key.name === name` */
  predicate KeyedBy(m: Node, name: string) {
    (m.ObjectProperty? || m.ObjectMethod?) && m.key == Identifier(name)
  }

  /** `item.id && item.id.name === name` */
  predicate NamedBy(d: Node, name: string) {
    d.VariableDeclarator? && d.id == Identifier(name)
  }

  /** `items.find(p)`, as the index of the first item satisfying `p`. */
  function FindFirst(items: seq<Node>, p: Node -> bool): (k: Option<nat>)
    ensures k.Some? ==> k.value < |items| && p(items[k.value])
    ensures k.Some? ==> forall j :: 0 <= j < k.value ==> !p(items[j])
    ensures k.None? ==> forall j :: 0 <= j < |items| ==> !p(items[j])
  {
    if items == [] then None
    else if p(items[0]) then Some(0)
    else match FindFirst(items[1..], p)
      case Some(k) => Some(k + 1)
      case None => None
  }

  /** `const {properties = []} = argument`: an object literal's members, and
      none for any other argument. */
  function PropertiesOf(arg: Node): seq<Node> {
    if arg.ObjectExpression? then arg.properties else []
  }

  /** The list the visitor searches at `n`, empty where it does not fire. */
  function Candidates(layout: Layout, n: Node): seq<Node> {
    match layout
    case CallLayout =>
      if n.CallExpression? && n.arguments != [] then PropertiesOf(n.arguments[0]) else []
    case DeclarationLayout =>
      if n.VariableDeclaration? then n.declarations else []
  }

  predicate Matches(layout: Layout, m: Node, name: string) {
    match layout
    case CallLayout => KeyedBy(m, name)
    case DeclarationLayout => NamedBy(m, name)
  }

  /** The index, in `Candidates`, of the target the visitor finds at `n`. */
  function SiteIndex(layout: Layout, n: Node, name: string): Option<nat> {
    FindFirst(Candidates(layout, n), m => Matches(layout, m, name))
  }

  /** The array literal the visitor pushes into, inside a found target. */
  predicate HoldsArray(layout: Layout, m: Node) {
    match layout
    case CallLayout => m.ObjectProperty? && m.value.ArrayExpression?
    case DeclarationLayout => m.VariableDeclarator? && m.init.Some? && m.init.value.ArrayExpression?
  }

  function TargetArray(layout: Layout, m: Node): seq<Node>
    requires HoldsArray(layout, m)
  {
    match layout
    case CallLayout => m.value.elements
    case DeclarationLayout => m.init.value.elements
  }

  /** The visitor finds a target at `n` and the target holds an array. */
  predicate IsSite(layout: Layout, n: Node, name: string) {
    var k := SiteIndex(layout, n, name);
    k.Some? && HoldsArray(layout, Candidates(layout, n)[k.value])
  }

  /** The error the visitor raises on entering `n`, if any. The declaration
      visitor never raises: it skips a target without an array. */
  function EnterError(layout: Layout, n: Node, name: string): Option<InjectError> {
    match layout
    case CallLayout =>
      if n.CallExpression? && n.arguments == [] then Some(MissingArgument)
      else if SiteIndex(layout, n, name).Some? && !IsSite(layout, n, name) then Some(NoElements)
      else None
    case DeclarationLayout => None
  }

  /** `n` with the array at its site replaced by `f` of it; `n` itself when it
      is not a site. */
  function AtSite(layout: Layout, n: Node, name: string, f: seq<Node> -> seq<Node>): (r: Node)
    ensures Tag(r) == Tag(n)
    ensures !IsSite(layout, n, name) ==> r == n
  {
    if !IsSite(layout, n, name) then n
    else
      var k := SiteIndex(layout, n, name).value;
      var m := Candidates(layout, n)[k];
      match layout
      case CallLayout =>
        var m' := ObjectProperty(m.key, ArrayExpression(f(m.value.elements)));
        CallExpression(n.callee, n.arguments[0 := ObjectExpression(n.arguments[0].properties[k := m'])])
      case DeclarationLayout =>
        var m' := VariableDeclarator(m.id, Some(ArrayExpression(f(m.init.value.elements))));
        VariableDeclaration(n.declarations[k := m'])
  }

  /** How deep below a site's node its array sits: the levels above it keep
      their shape under any change at the site. */
  function Depth(layout: Layout): nat {
    match layout
    case CallLayout => 3
    case DeclarationLayout => 2
  }

  function Append(entry: Node): seq<Node> -> seq<Node> {
    xs => xs + [entry]
  }

  function DropLast(): seq<Node> -> seq<Node> {
    xs => if xs == [] then [] else xs[..|xs| - 1]
  }

  /** The first error among the children's results, in visiting order. */
  function FirstError(rs: seq<Result<Node, InjectError>>): (e: Option<InjectError>)
    ensures e.None? <==> forall i :: 0 <= i < |rs| ==> rs[i].Success?
  {
    if rs == [] then None
    else if rs[0].Failure? then Some(rs[0].error)
    else FirstError(rs[1..])
  }

  /** Some node of `n`, visited in pre-order, makes the visitor raise. */
  predicate Throws(layout: Layout, n: Node, name: string)
    decreases n
  {
    EnterError(layout, n, name).Some? ||
    exists i :: 0 <= i < |Children(n)| && Throws(layout, Children(n)[i], name)
  }

  /** `traverse(ast, visitor)` followed by reading back the tree: a pre-order
      walk that, on entering each site, pushes `entry` onto the site's array,
      and stops at the first node whose visitor raises. The entry is pushed
      after the site's children are walked rather than before; for an inert
      entry the two orders give the same tree, since walking the entry
      changes nothing. */
  function Visit(layout: Layout, n: Node, name: string, entry: Node): (r: Result<Node, InjectError>)
    requires Inert(entry)
    decreases n, 1
  {
    match EnterError(layout, n, name)
    case Some(e) => Failure(e)
    case None =>
      var rs := VisitChildren(layout, n, name, entry);
      match FirstError(rs)
      case Some(e) => Failure(e)
      case None =>
        var vs := seq(|rs|, i requires 0 <= i < |rs| && rs[i].Success? => rs[i].value);
        Success(AtSite(layout, WithChildren(n, vs), name, Append(entry)))
  }

  /** The walks of the children of `n`, in order. */
  function VisitChildren(layout: Layout, n: Node, name: string, entry: Node): (rs: seq<Result<Node, InjectError>>)
    requires Inert(entry)
    decreases n, 0
  {
    var cs := Children(n);
    seq(|cs|, i requires 0 <= i < |cs| => Visit(layout, cs[i], name, entry))
  }

  /** The walk fails exactly when some node makes the visitor raise. */
  lemma {:induction false} VisitFailsIffThrows(layout: Layout, n: Node, name: string, entry: Node)
    requires Inert(entry)
    ensures Visit(layout, n, name, entry).Failure? <==> Throws(layout, n, name)
    decreases n
  {
    if EnterError(layout, n, name).None? {
      var cs := Children(n);
      forall i | 0 <= i < |cs|
        ensures Visit(layout, cs[i], name, entry).Failure? <==> Throws(layout, cs[i], name)
      {
        VisitFailsIffThrows(layout, cs[i], name, entry);
      }
      VisitEnteredFails(layout, n, name, entry);
      ThrowsBelow(layout, n, name);
    }
  }

  /** Past its own visitor, a node's walk fails exactly when the walk of one
      of its children does. */
  lemma VisitEnteredFails(layout: Layout, n: Node, name: string, entry: Node)
    requires Inert(entry) && EnterError(layout, n, name).None?
    ensures Visit(layout, n, name, entry).Failure? <==>
      exists i :: 0 <= i < |Children(n)| && Visit(layout, Children(n)[i], name, entry).Failure?
  {
    var rs := VisitChildren(layout, n, name, entry);
    VisitFirstError(layout, n, name, entry);
    VisitChildrenAt(layout, n, name, entry);
    if FirstError(rs).Some? {
      var i :| 0 <= i < |rs| && !rs[i].Success?;
      assert Visit(layout, Children(n)[i], name, entry).Failure?;
    } else {
      forall i | 0 <= i < |Children(n)| ensures !Visit(layout, Children(n)[i], name, entry).Failure? {
        assert rs[i].Success?;
      }
    }
  }

  /** Past its own visitor, a node's walk fails exactly when a child's walk
      reports an error. */
  lemma VisitFirstError(layout: Layout, n: Node, name: string, entry: Node)
    requires Inert(entry) && EnterError(layout, n, name).None?
    ensures Visit(layout, n, name, entry).Failure? <==> FirstError(VisitChildren(layout, n, name, entry)).Some?
  {
  }

  /** The children's walks, one per child. */
  lemma VisitChildrenAt(layout: Layout, n: Node, name: string, entry: Node)
    requires Inert(entry)
    ensures |VisitChildren(layout, n, name, entry)| == |Children(n)|
    ensures forall i :: 0 <= i < |Children(n)| ==>
      VisitChildren(layout, n, name, entry)[i] == Visit(layout, Children(n)[i], name, entry)
  {
  }

  /** A node whose own visitor does not raise throws exactly when a child does. */
  lemma ThrowsBelow(layout: Layout, n: Node, name: string)
    requires EnterError(layout, n, name).None?
    ensures Throws(layout, n, name) <==> exists i :: 0 <= i < |Children(n)| && Throws(layout, Children(n)[i], name)
  {
  }

  /** The inverse walk: bottom-up, drops the last element of the array at
      every site. */
  function Strip(layout: Layout, n: Node, name: string): Node
    decreases n
  {
    AtSite(layout, StripChildren(layout, n, name), name, DropLast())
  }

  function StripChildren(layout: Layout, n: Node, name: string): (r: Node)
    decreases n, 0
  {
    var cs := Children(n);
    WithChildren(n, seq(|cs|, i requires 0 <= i < |cs| => Strip(layout, cs[i], name)))
  }

  /** Changing the array at a site keeps the node's skeleton three levels deep. */
  lemma AtSiteEcho(layout: Layout, n: Node, name: string, f: seq<Node> -> seq<Node>)
    ensures Echo(n, AtSite(layout, n, name, f), Depth(layout))
  {
    if !IsSite(layout, n, name) {
      EchoReflexive(n, Depth(layout));
    } else {
      var k := SiteIndex(layout, n, name).value;
      var m := Candidates(layout, n)[k];
      match layout
      case CallLayout =>
        AtCallSite(n, name, f);
        var m' := ObjectProperty(m.key, ArrayExpression(f(m.value.elements)));
        EchoReflexive(m.key, 0);
        assert Echo(m, m', 1);
        CallSiteEcho(n, k, m');
      case DeclarationLayout =>
        AtDeclarationSite(n, name, f);
        var m' := VariableDeclarator(m.id, Some(ArrayExpression(f(m.init.value.elements))));
        EchoReflexive(m.id, 0);
        assert Echo(m, m', 1);
        DeclarationSiteEcho(n, k, m');
    }
  }

  /** Replacing one property of a call's first argument by an echo of it
      echoes the call three levels deep. */
  lemma CallSiteEcho(n: Node, k: nat, m': Node)
    requires n.CallExpression? && n.arguments != [] && n.arguments[0].ObjectExpression?
    requires k < |n.arguments[0].properties|
    requires Echo(n.arguments[0].properties[k], m', 1)
    ensures Echo(n, CallExpression(n.callee, n.arguments[0 := ObjectExpression(n.arguments[0].properties[k := m'])]), 3)
  {
    var arg := n.arguments[0];
    var arg' := ObjectExpression(arg.properties[k := m']);
    var r := CallExpression(n.callee, n.arguments[0 := arg']);
    forall j | 0 <= j < |arg.properties| ensures Echo(arg.properties[j], arg'.properties[j], 1) {
      if j != k {
        EchoReflexive(arg.properties[j], 1);
      }
    }
    assert Echo(arg, arg', 2);
    forall j | 0 <= j < |Children(n)| ensures Echo(Children(n)[j], Children(r)[j], 2) {
      if j != 1 {
        assert Children(r)[j] == Children(n)[j];
        EchoReflexive(Children(n)[j], 2);
      }
    }
  }

  /** Replacing one declarator by an echo of it echoes the declaration two
      levels deep. */
  lemma DeclarationSiteEcho(n: Node, k: nat, m': Node)
    requires n.VariableDeclaration? && k < |n.declarations|
    requires Echo(n.declarations[k], m', 1)
    ensures Echo(n, VariableDeclaration(n.declarations[k := m']), 2)
  {
    var r := VariableDeclaration(n.declarations[k := m']);
    forall j | 0 <= j < |Children(n)| ensures Echo(Children(n)[j], Children(r)[j], 1) {
      if j != k {
        EchoReflexive(Children(n)[j], 1);
      }
    }
  }

  lemma {:induction false} FindFirstCongruent(a: seq<Node>, b: seq<Node>, p: Node -> bool, q: Node -> bool)
    requires |a| == |b| && forall i :: 0 <= i < |a| ==> p(a[i]) == q(b[i])
    ensures FindFirst(a, p) == FindFirst(b, q)
    decreases |a|
  {
    if a != [] && !p(a[0]) {
      FindFirstCongruent(a[1..], b[1..], p, q);
    }
  }

  /** Nodes that echo each other one level deep are both targets or neither,
      and both hold an array or neither. */
  lemma MatchesEcho(layout: Layout, m: Node, m': Node, name: string)
    requires Echo(m, m', 1)
    ensures Matches(layout, m', name) == Matches(layout, m, name)
    ensures HoldsArray(layout, m') == HoldsArray(layout, m)
  {
    if m.ObjectProperty? || m.ObjectMethod? || m.VariableDeclarator? {
      assert Mirrors(Children(m)[0], Children(m')[0]);
      if m.VariableDeclarator? && m.init.Some? {
        assert Mirrors(Children(m)[1], Children(m')[1]);
      }
      if m.ObjectProperty? {
        assert Mirrors(Children(m)[1], Children(m')[1]);
      }
    }
  }

  /** The visitor finds the same target at echoing nodes, and raises the same
      error there. */
  lemma SiteKept(layout: Layout, n: Node, n': Node, name: string)
    requires Echo(n, n', Depth(layout))
    ensures SiteIndex(layout, n', name) == SiteIndex(layout, n, name)
    ensures IsSite(layout, n', name) == IsSite(layout, n, name)
    ensures EnterError(layout, n', name) == EnterError(layout, n, name)
  {
    var a := Candidates(layout, n);
    var b := Candidates(layout, n');
    CandidatesEcho(layout, n, n');
    forall i | 0 <= i < |a|
      ensures Matches(layout, a[i], name) == Matches(layout, b[i], name)
      ensures HoldsArray(layout, a[i]) == HoldsArray(layout, b[i])
    {
      MatchesEcho(layout, a[i], b[i], name);
    }
    FindFirstCongruent(a, b, m => Matches(layout, m, name), m => Matches(layout, m, name));
  }

  /** Echoing nodes offer candidates that echo each other one level deep. */
  lemma CandidatesEcho(layout: Layout, n: Node, n': Node)
    requires Echo(n, n', Depth(layout))
    ensures |Candidates(layout, n')| == |Candidates(layout, n)|
    ensures forall i :: 0 <= i < |Candidates(layout, n)| ==>
      Echo(Candidates(layout, n)[i], Candidates(layout, n')[i], 1)
  {
    var a := Candidates(layout, n);
    var b := Candidates(layout, n');
    if layout == CallLayout && n.CallExpression? && n.arguments != [] {
      assert Children(n)[1] == n.arguments[0] && Children(n')[1] == n'.arguments[0];
      assert Echo(n.arguments[0], n'.arguments[0], 2);
    }
    assert |a| == |b|;
    forall i | 0 <= i < |a| ensures Echo(a[i], b[i], 1) {
      if layout == CallLayout {
        assert Children(n.arguments[0])[i] == a[i];
      }
    }
  }

  /** The children a successful visit produces, one per child. */
  function VisitedChildren(layout: Layout, n: Node, name: string, entry: Node): (vs: seq<Node>)
    requires Inert(entry) && Visit(layout, n, name, entry).Success?
    requires EnterError(layout, n, name).None?
    ensures |vs| == |Children(n)|
    ensures forall i :: 0 <= i < |vs| ==>
      Visit(layout, Children(n)[i], name, entry) == Success(vs[i])
    ensures Visit(layout, n, name, entry).value == AtSite(layout, WithChildren(n, vs), name, Append(entry))
  {
    var rs := VisitChildren(layout, n, name, entry);
    assert FirstError(rs).None?;
    seq(|rs|, i requires 0 <= i < |rs| && rs[i].Success? => rs[i].value)
  }

  /** A successful visit keeps the tree's skeleton above the arrays it grows. */
  lemma {:induction false} VisitEcho(layout: Layout, n: Node, name: string, entry: Node)
    requires Inert(entry) && Visit(layout, n, name, entry).Success?
    ensures Echo(n, Visit(layout, n, name, entry).value, Depth(layout))
    decreases n
  {
    assert EnterError(layout, n, name).None?;
    var vs := VisitedChildren(layout, n, name, entry);
    forall i | 0 <= i < |vs| ensures Echo(Children(n)[i], vs[i], Depth(layout) - 1) {
      VisitEcho(layout, Children(n)[i], name, entry);
      EchoShallower(Children(n)[i], vs[i], Depth(layout));
    }
    var w := WithChildren(n, vs);
    EchoWithChildren(n, vs, Depth(layout) - 1);
    AtSiteEcho(layout, w, name, Append(entry));
    EchoTransitive(n, w, AtSite(layout, w, name, Append(entry)), Depth(layout));
  }

  /** Stripping every child. */
  function StripAll(layout: Layout, xs: seq<Node>, name: string): (ys: seq<Node>)
    ensures |ys| == |xs| && forall i :: 0 <= i < |xs| ==> ys[i] == Strip(layout, xs[i], name)
  {
    seq(|xs|, i requires 0 <= i < |xs| => Strip(layout, xs[i], name))
  }

  lemma StripChildrenIsStripAll(layout: Layout, n: Node, name: string)
    ensures StripChildren(layout, n, name) == WithChildren(n, StripAll(layout, Children(n), name))
  {
  }

  lemma {:induction false} StripEcho(layout: Layout, n: Node, name: string)
    ensures Echo(n, StripChildren(layout, n, name), Depth(layout))
    ensures Echo(n, Strip(layout, n, name), Depth(layout))
    decreases n
  {
    var cs := Children(n);
    var ts := StripAll(layout, cs, name);
    StripChildrenIsStripAll(layout, n, name);
    forall i | 0 <= i < |cs| ensures Echo(cs[i], ts[i], Depth(layout) - 1) {
      StripEcho(layout, cs[i], name);
      EchoShallower(cs[i], ts[i], Depth(layout));
    }
    var w := WithChildren(n, ts);
    EchoWithChildren(n, ts, Depth(layout) - 1);
    AtSiteEcho(layout, w, name, DropLast());
    EchoTransitive(n, w, AtSite(layout, w, name, DropLast()), Depth(layout));
  }

  /** An inert tree holds no site, so stripping leaves it as it is. */
  lemma {:induction false} StripInert(layout: Layout, e: Node, name: string)
    requires Inert(e)
    ensures Strip(layout, e, name) == e
    decreases e
  {
    var cs := Children(e);
    forall i | 0 <= i < |cs| ensures Strip(layout, cs[i], name) == cs[i] {
      StripInert(layout, cs[i], name);
    }
    StripChildrenIsStripAll(layout, e, name);
    assert StripAll(layout, cs, name) == cs;
  }

  /** Dropping the last element at a site undoes appending there. */
  lemma DropAfterAppend(layout: Layout, n: Node, name: string, e: Node)
    requires IsSite(layout, n, name)
    ensures AtSite(layout, AtSite(layout, n, name, Append(e)), name, DropLast()) == n
  {
    var v := AtSite(layout, n, name, Append(e));
    AtSiteEcho(layout, n, name, Append(e));
    SiteKept(layout, n, v, name);
    if layout == CallLayout {
      DropAfterAppendCall(n, name, e);
    } else {
      DropAfterAppendDeclaration(n, name, e);
    }
  }

  /** The call layout's case: the property's array loses the appended entry. */
  lemma DropAfterAppendCall(n: Node, name: string, e: Node)
    requires IsSite(CallLayout, n, name)
    requires IsSite(CallLayout, AtSite(CallLayout, n, name, Append(e)), name)
    requires SiteIndex(CallLayout, AtSite(CallLayout, n, name, Append(e)), name) == SiteIndex(CallLayout, n, name)
    ensures AtSite(CallLayout, AtSite(CallLayout, n, name, Append(e)), name, DropLast()) == n
  {
    var v := AtSite(CallLayout, n, name, Append(e));
    var k := SiteIndex(CallLayout, n, name).value;
    var ps := n.arguments[0].properties;
    var m := ps[k];
    var els := m.value.elements;
    var grown := ObjectProperty(m.key, ArrayExpression(els + [e]));
    AtCallSite(n, name, Append(e));
    assert v == CallExpression(n.callee, n.arguments[0 := ObjectExpression(ps[k := grown])]);
    assert v.arguments[0].properties == ps[k := grown];
    AtCallSite(v, name, DropLast());
    assert DropLast()(els + [e]) == els;
    assert m == ObjectProperty(m.key, ArrayExpression(els));
    assert ps[k := grown][k := m] == ps;
    assert n.arguments[0] == ObjectExpression(ps);
    assert n.arguments[0 := ObjectExpression(ps[k := grown])][0 := ObjectExpression(ps)] == n.arguments;
  }

  /** The declaration layout's case: the declarator's array loses the
      appended entry. */
  lemma DropAfterAppendDeclaration(n: Node, name: string, e: Node)
    requires IsSite(DeclarationLayout, n, name)
    requires IsSite(DeclarationLayout, AtSite(DeclarationLayout, n, name, Append(e)), name)
    requires SiteIndex(DeclarationLayout, AtSite(DeclarationLayout, n, name, Append(e)), name)
      == SiteIndex(DeclarationLayout, n, name)
    ensures AtSite(DeclarationLayout, AtSite(DeclarationLayout, n, name, Append(e)), name, DropLast()) == n
  {
    var v := AtSite(DeclarationLayout, n, name, Append(e));
    var k := SiteIndex(DeclarationLayout, n, name).value;
    var ds := n.declarations;
    var m := ds[k];
    var els := m.init.value.elements;
    var grown := VariableDeclarator(m.id, Some(ArrayExpression(els + [e])));
    AtDeclarationSite(n, name, Append(e));
    assert v == VariableDeclaration(ds[k := grown]);
    AtDeclarationSite(v, name, DropLast());
    assert DropLast()(els + [e]) == els;
    assert m == VariableDeclarator(m.id, Some(ArrayExpression(els)));
    assert ds[k := grown][k := m] == ds;
  }

  /** The nodes the visitor of a layout is called on. */
  predicate Fires(layout: Layout, x: Node) {
    match layout
    case CallLayout => x.CallExpression?
    case DeclarationLayout => x.VariableDeclaration?
  }

  /** Stripping a node the visitor is not called on only strips its children. */
  lemma StripOffSite(layout: Layout, x: Node, name: string)
    requires !Fires(layout, x)
    ensures Strip(layout, x, name) == WithChildren(x, StripAll(layout, Children(x), name))
  {
    StripChildrenIsStripAll(layout, x, name);
    var w := StripChildren(layout, x, name);
    assert Tag(w) == Tag(x);
    assert Candidates(layout, w) == [];
    assert !IsSite(layout, w, name);
  }

  lemma StripAllUpdate(layout: Layout, xs: seq<Node>, k: nat, y: Node, name: string)
    requires k < |xs|
    ensures StripAll(layout, xs[k := y], name) == StripAll(layout, xs, name)[k := Strip(layout, y, name)]
  {
  }

  lemma StripAllAppendInert(layout: Layout, xs: seq<Node>, e: Node, name: string)
    requires Inert(e)
    ensures StripAll(layout, xs + [e], name) == StripAll(layout, xs, name) + [e]
  {
    StripInert(layout, e, name);
  }

  lemma StripAllCons(layout: Layout, x: Node, xs: seq<Node>, name: string)
    ensures StripAll(layout, [x] + xs, name) == [Strip(layout, x, name)] + StripAll(layout, xs, name)
  {
  }

  /** Stripping an array that ends with an inert entry keeps the entry. */
  lemma StripGrownArray(layout: Layout, els: seq<Node>, e: Node, name: string)
    requires Inert(e)
    ensures Strip(layout, ArrayExpression(els + [e]), name)
         == ArrayExpression(StripAll(layout, els, name) + [e])
    ensures Strip(layout, ArrayExpression(els), name) == ArrayExpression(StripAll(layout, els, name))
  {
    StripChildrenIsStripAll(layout, ArrayExpression(els + [e]), name);
    StripChildrenIsStripAll(layout, ArrayExpression(els), name);
    StripAllAppendInert(layout, els, e, name);
  }

  /** Stripping below a site commutes with appending an inert entry there. */
  lemma StripChildrenAppend(layout: Layout, w: Node, name: string, e: Node)
    requires IsSite(layout, w, name) && Inert(e)
    ensures StripChildren(layout, AtSite(layout, w, name, Append(e)), name)
         == AtSite(layout, StripChildren(layout, w, name), name, Append(e))
  {
    var sw := StripChildren(layout, w, name);
    StripEcho(layout, w, name);
    SiteKept(layout, w, sw, name);
    StripChildrenIsStripAll(layout, w, name);
    StripChildrenIsStripAll(layout, AtSite(layout, w, name, Append(e)), name);
    if layout == CallLayout {
      StripChildrenAppendCall(w, name, e);
    } else {
      StripChildrenAppendDeclaration(w, name, e);
    }
  }

  /** The array at a call site, rewritten. */
  lemma AtCallSite(n: Node, name: string, f: seq<Node> -> seq<Node>)
    requires IsSite(CallLayout, n, name)
    ensures var k := SiteIndex(CallLayout, n, name).value;
            var ps := n.arguments[0].properties;
            AtSite(CallLayout, n, name, f)
            == CallExpression(n.callee, n.arguments[0 := ObjectExpression(ps[k := ObjectProperty(ps[k].key, ArrayExpression(f(ps[k].value.elements)))])])
  {
  }

  /** The array at a declaration site, rewritten. */
  lemma AtDeclarationSite(n: Node, name: string, f: seq<Node> -> seq<Node>)
    requires IsSite(DeclarationLayout, n, name)
    ensures var k := SiteIndex(DeclarationLayout, n, name).value;
            var ds := n.declarations;
            AtSite(DeclarationLayout, n, name, f)
            == VariableDeclaration(ds[k := VariableDeclarator(ds[k].id, Some(ArrayExpression(f(ds[k].init.value.elements))))])
  {
  }

  lemma StripDeclarator(layout: Layout, id: Node, x: Node, name: string)
    ensures Strip(layout, VariableDeclarator(id, Some(x)), name)
         == VariableDeclarator(Strip(layout, id, name), Some(Strip(layout, x, name)))
  {
    var d := VariableDeclarator(id, Some(x));
    assert Children(d) == [id, x];
    StripOffSite(layout, d, name);
    StripAllCons(layout, id, [x], name);
    assert StripAll(layout, Children(d), name) == [Strip(layout, id, name), Strip(layout, x, name)];
  }

  lemma StripProperty(layout: Layout, key: Node, x: Node, name: string)
    ensures Strip(layout, ObjectProperty(key, x), name)
         == ObjectProperty(Strip(layout, key, name), Strip(layout, x, name))
  {
    var p := ObjectProperty(key, x);
    StripOffSite(layout, p, name);
    assert StripAll(layout, Children(p), name) == [Strip(layout, key, name), Strip(layout, x, name)];
  }

  lemma StripObject(layout: Layout, ps: seq<Node>, name: string)
    ensures Strip(layout, ObjectExpression(ps), name) == ObjectExpression(StripAll(layout, ps, name))
  {
    StripOffSite(layout, ObjectExpression(ps), name);
  }

  lemma StripChildrenAppendCall(w: Node, name: string, e: Node)
    requires IsSite(CallLayout, w, name) && Inert(e)
    requires SiteIndex(CallLayout, StripChildren(CallLayout, w, name), name) == SiteIndex(CallLayout, w, name)
    requires StripChildren(CallLayout, w, name) == WithChildren(w, StripAll(CallLayout, Children(w), name))
    requires StripChildren(CallLayout, AtSite(CallLayout, w, name, Append(e)), name)
          == WithChildren(AtSite(CallLayout, w, name, Append(e)), StripAll(CallLayout, Children(AtSite(CallLayout, w, name, Append(e))), name))
    ensures StripChildren(CallLayout, AtSite(CallLayout, w, name, Append(e)), name)
         == AtSite(CallLayout, StripChildren(CallLayout, w, name), name, Append(e))
  {
    var L := CallLayout;
    var k := SiteIndex(L, w, name).value;
    var ps := w.arguments[0].properties;
    var m := ps[k];
    var els := m.value.elements;
    var grown := ObjectProperty(m.key, ArrayExpression(els + [e]));
    var a' := ObjectExpression(ps[k := grown]);
    AtCallSite(w, name, Append(e));
    var v := CallExpression(w.callee, w.arguments[0 := a']);
    assert AtSite(L, w, name, Append(e)) == v;
    // the stripped pieces
    StripGrownArray(L, els, e, name);
    StripProperty(L, m.key, ArrayExpression(els + [e]), name);
    StripProperty(L, m.key, ArrayExpression(els), name);
    assert m == ObjectProperty(m.key, ArrayExpression(els));
    var sps := StripAll(L, ps, name);
    var sgrown := ObjectProperty(Strip(L, m.key, name), ArrayExpression(StripAll(L, els, name) + [e]));
    StripObject(L, ps[k := grown], name);
    StripAllUpdate(L, ps, k, grown, name);
    assert Strip(L, a', name) == ObjectExpression(sps[k := sgrown]);
    StripObject(L, ps, name);
    assert w.arguments[0] == ObjectExpression(ps);
    // left-hand side
    StripAllUpdate(L, w.arguments, 0, a', name);
    assert Children(v) == [w.callee] + w.arguments[0 := a'];
    StripAllCons(L, w.callee, w.arguments[0 := a'], name);
    // right-hand side
    var sw := StripChildren(L, w, name);
    StripAllCons(L, w.callee, w.arguments, name);
    assert sw == CallExpression(Strip(L, w.callee, name), StripAll(L, w.arguments, name));
    assert sw.arguments[0] == ObjectExpression(sps);
    assert sps[k] == ObjectProperty(Strip(L, m.key, name), ArrayExpression(StripAll(L, els, name)));
    AtCallSite(sw, name, Append(e));
  }

  lemma StripChildrenAppendDeclaration(w: Node, name: string, e: Node)
    requires IsSite(DeclarationLayout, w, name) && Inert(e)
    requires SiteIndex(DeclarationLayout, StripChildren(DeclarationLayout, w, name), name) == SiteIndex(DeclarationLayout, w, name)
    requires StripChildren(DeclarationLayout, w, name) == WithChildren(w, StripAll(DeclarationLayout, Children(w), name))
    requires StripChildren(DeclarationLayout, AtSite(DeclarationLayout, w, name, Append(e)), name)
          == WithChildren(AtSite(DeclarationLayout, w, name, Append(e)), StripAll(DeclarationLayout, Children(AtSite(DeclarationLayout, w, name, Append(e))), name))
    ensures StripChildren(DeclarationLayout, AtSite(DeclarationLayout, w, name, Append(e)), name)
         == AtSite(DeclarationLayout, StripChildren(DeclarationLayout, w, name), name, Append(e))
  {
    var L := DeclarationLayout;
    var k := SiteIndex(L, w, name).value;
    var ds := w.declarations;
    var m := ds[k];
    var els := m.init.value.elements;
    var grown := VariableDeclarator(m.id, Some(ArrayExpression(els + [e])));
    AtDeclarationSite(w, name, Append(e));
    var v := VariableDeclaration(ds[k := grown]);
    assert AtSite(L, w, name, Append(e)) == v;
    StripGrownArray(L, els, e, name);
    StripDeclarator(L, m.id, ArrayExpression(els + [e]), name);
    StripDeclarator(L, m.id, ArrayExpression(els), name);
    assert m == VariableDeclarator(m.id, Some(ArrayExpression(els)));
    var sds := StripAll(L, ds, name);
    var sgrown := VariableDeclarator(Strip(L, m.id, name), Some(ArrayExpression(StripAll(L, els, name) + [e])));
    StripAllUpdate(L, ds, k, grown, name);
    assert StripAll(L, Children(v), name) == sds[k := sgrown];
    var sw := StripChildren(L, w, name);
    assert sw == VariableDeclaration(sds);
    assert sds[k] == VariableDeclarator(Strip(L, m.id, name), Some(ArrayExpression(StripAll(L, els, name))));
    AtDeclarationSite(sw, name, Append(e));
  }

  /** Round trip: stripping the injected tree gives back the parsed tree.
      So the injection changes nothing but the arrays at sites, and adds
      exactly one element, at the end, to each of them. */
  lemma {:induction false} StripUndoesVisit(layout: Layout, n: Node, name: string, entry: Node)
    requires Inert(entry) && Visit(layout, n, name, entry).Success?
    ensures Strip(layout, Visit(layout, n, name, entry).value, name) == n
    decreases n
  {
    assert EnterError(layout, n, name).None?;
    var cs := Children(n);
    var vs := VisitedChildren(layout, n, name, entry);
    forall i | 0 <= i < |cs|
      ensures Strip(layout, vs[i], name) == cs[i]
      ensures Echo(cs[i], vs[i], Depth(layout) - 1)
    {
      StripUndoesVisit(layout, cs[i], name, entry);
      VisitEcho(layout, cs[i], name, entry);
      EchoShallower(cs[i], vs[i], Depth(layout));
    }
    StripVisitedChildren(layout, n, vs, name);
    StripAfterSite(layout, n, WithChildren(n, vs), name, entry);
  }

  /** Children that strip back to the originals, and keep their skeletons,
      give a node that strips back to the original and has the same site. */
  lemma StripVisitedChildren(layout: Layout, n: Node, vs: seq<Node>, name: string)
    requires |vs| == |Children(n)|
    requires forall i :: 0 <= i < |vs| ==> Strip(layout, vs[i], name) == Children(n)[i]
    requires forall i :: 0 <= i < |vs| ==> Echo(Children(n)[i], vs[i], Depth(layout) - 1)
    ensures StripChildren(layout, WithChildren(n, vs), name) == n
    ensures IsSite(layout, WithChildren(n, vs), name) == IsSite(layout, n, name)
  {
    var cs := Children(n);
    var w := WithChildren(n, vs);
    EchoWithChildren(n, vs, Depth(layout) - 1);
    SiteKept(layout, n, w, name);
    StripChildrenIsStripAll(layout, w, name);
    assert StripAll(layout, vs, name) == cs;
    WithChildrenTwice(n, vs, cs);
  }

  /** Once the children are stripped back, stripping the site undoes the
      append there. */
  lemma StripAfterSite(layout: Layout, n: Node, w: Node, name: string, entry: Node)
    requires Inert(entry)
    requires StripChildren(layout, w, name) == n
    requires IsSite(layout, w, name) == IsSite(layout, n, name)
    ensures Strip(layout, AtSite(layout, w, name, Append(entry)), name) == n
  {
    if IsSite(layout, w, name) {
      StripChildrenAppend(layout, w, name, entry);
      DropAfterAppend(layout, n, name, entry);
    }
  }

  /** The array at the site of `n`, when `n` is a site. */
  function SiteArray(layout: Layout, n: Node, name: string): seq<Node>
    requires IsSite(layout, n, name)
  {
    TargetArray(layout, Candidates(layout, n)[SiteIndex(layout, n, name).value])
  }

  /** Every site in `n` has an array whose last element is `entry`. */
  predicate EndsWithAtSites(layout: Layout, n: Node, name: string, entry: Node)
    decreases n
  {
    (IsSite(layout, n, name) ==>
      var a := SiteArray(layout, n, name); a != [] && a[|a| - 1] == entry) &&
    forall i :: 0 <= i < |Children(n)| ==> EndsWithAtSites(layout, Children(n)[i], name, entry)
  }

  lemma {:induction false} InertEndsWithAtSites(layout: Layout, e: Node, name: string, entry: Node)
    requires Inert(e)
    ensures EndsWithAtSites(layout, e, name, entry)
    decreases e
  {
    assert !Fires(layout, e);
    forall i | 0 <= i < |Children(e)| ensures EndsWithAtSites(layout, Children(e)[i], name, entry) {
      InertEndsWithAtSites(layout, Children(e)[i], name, entry);
    }
    EndsAtNonFiring(layout, e, name, entry);
  }

  lemma EndsAtNonFiring(layout: Layout, x: Node, name: string, entry: Node)
    requires !Fires(layout, x)
    requires forall i :: 0 <= i < |Children(x)| ==> EndsWithAtSites(layout, Children(x)[i], name, entry)
    ensures EndsWithAtSites(layout, x, name, entry)
  {
    assert Candidates(layout, x) == [];
    assert !IsSite(layout, x, name);
  }

  /** An array literal whose sites all end with the entry still does once
      the entry is appended to it. */
  lemma EndsGrownArray(layout: Layout, arr: Node, name: string, entry: Node)
    requires arr.ArrayExpression? && Inert(entry)
    requires EndsWithAtSites(layout, arr, name, entry)
    ensures EndsWithAtSites(layout, ArrayExpression(arr.elements + [entry]), name, entry)
  {
    InertEndsWithAtSites(layout, entry, name, entry);
    var grown := ArrayExpression(arr.elements + [entry]);
    forall i | 0 <= i < |Children(grown)| ensures EndsWithAtSites(layout, Children(grown)[i], name, entry) {
      if i < |arr.elements| {
        assert Children(grown)[i] == Children(arr)[i];
      }
    }
    EndsAtNonFiring(layout, grown, name, entry);
  }

  /** The same, for the array held by an object property. */
  lemma EndsGrownProperty(m: Node, name: string, entry: Node)
    requires m.ObjectProperty? && m.value.ArrayExpression? && Inert(entry)
    requires EndsWithAtSites(CallLayout, m, name, entry)
    ensures EndsWithAtSites(CallLayout, ObjectProperty(m.key, ArrayExpression(m.value.elements + [entry])), name, entry)
  {
    assert Children(m)[0] == m.key && Children(m)[1] == m.value;
    EndsGrownArray(CallLayout, m.value, name, entry);
    EndsAtNonFiring(CallLayout, ObjectProperty(m.key, ArrayExpression(m.value.elements + [entry])), name, entry);
  }

  lemma EndsAppendCall(w: Node, name: string, entry: Node)
    requires IsSite(CallLayout, w, name) && Inert(entry)
    requires forall i :: 0 <= i < |Children(w)| ==> EndsWithAtSites(CallLayout, Children(w)[i], name, entry)
    ensures EndsWithAtSites(CallLayout, AtSite(CallLayout, w, name, Append(entry)), name, entry)
  {
    var L := CallLayout;
    var k := SiteIndex(L, w, name).value;
    var ps := w.arguments[0].properties;
    var m := ps[k];
    var els := m.value.elements;
    var grown := ObjectProperty(m.key, ArrayExpression(els + [entry]));
    var a' := ObjectExpression(ps[k := grown]);
    AtCallSite(w, name, Append(entry));
    var v := CallExpression(w.callee, w.arguments[0 := a']);
    assert Children(w)[1] == w.arguments[0];
    assert EndsWithAtSites(L, w.arguments[0], name, entry);
    assert Children(w.arguments[0])[k] == m;
    EndsGrownProperty(m, name, entry);
    forall i | 0 <= i < |Children(a')| ensures EndsWithAtSites(L, Children(a')[i], name, entry) {
      if i != k {
        assert Children(a')[i] == Children(w.arguments[0])[i];
      }
    }
    EndsAtNonFiring(L, a', name, entry);
    forall i | 0 <= i < |Children(v)| ensures EndsWithAtSites(L, Children(v)[i], name, entry) {
      if i != 1 {
        assert Children(v)[i] == Children(w)[i];
      }
    }
    AtSiteEcho(L, w, name, Append(entry));
    SiteKept(L, w, v, name);
    assert Candidates(L, v)[k] == grown;
  }

  lemma EndsAppendDeclaration(w: Node, name: string, entry: Node)
    requires IsSite(DeclarationLayout, w, name) && Inert(entry)
    requires forall i :: 0 <= i < |Children(w)| ==> EndsWithAtSites(DeclarationLayout, Children(w)[i], name, entry)
    ensures EndsWithAtSites(DeclarationLayout, AtSite(DeclarationLayout, w, name, Append(entry)), name, entry)
  {
    var L := DeclarationLayout;
    var k := SiteIndex(L, w, name).value;
    var ds := w.declarations;
    var m := ds[k];
    var els := m.init.value.elements;
    var grown := VariableDeclarator(m.id, Some(ArrayExpression(els + [entry])));
    AtDeclarationSite(w, name, Append(entry));
    var v := VariableDeclaration(ds[k := grown]);
    assert Children(w)[k] == m;
    assert Children(m)[0] == m.id && Children(m)[1] == m.init.value;
    EndsGrownArray(L, m.init.value, name, entry);
    EndsAtNonFiring(L, grown, name, entry);
    forall i | 0 <= i < |Children(v)| ensures EndsWithAtSites(L, Children(v)[i], name, entry) {
      if i != k {
        assert Children(v)[i] == Children(w)[i];
      }
    }
    AtSiteEcho(L, w, name, Append(entry));
    SiteKept(L, w, v, name);
    assert Candidates(L, v)[k] == grown;
  }

  /** After injection, the array at every site ends with the entry. */
  lemma {:induction false} VisitEndsWithEntry(layout: Layout, n: Node, name: string, entry: Node)
    requires Inert(entry) && Visit(layout, n, name, entry).Success?
    ensures EndsWithAtSites(layout, Visit(layout, n, name, entry).value, name, entry)
    decreases n
  {
    assert EnterError(layout, n, name).None?;
    var cs := Children(n);
    var vs := VisitedChildren(layout, n, name, entry);
    forall i | 0 <= i < |cs| ensures EndsWithAtSites(layout, vs[i], name, entry) {
      VisitEndsWithEntry(layout, cs[i], name, entry);
    }
    var w := WithChildren(n, vs);
    if IsSite(layout, w, name) {
      if layout == CallLayout {
        EndsAppendCall(w, name, entry);
      } else {
        EndsAppendDeclaration(w, name, entry);
      }
    }
  }

  /** The declaration-layout visitor never raises. */
  lemma {:induction false} DeclarationLayoutNeverThrows(n: Node, name: string)
    ensures !Throws(DeclarationLayout, n, name)
    decreases n
  {
    forall i | 0 <= i < |Children(n)| ensures !Throws(DeclarationLayout, Children(n)[i], name) {
      DeclarationLayoutNeverThrows(Children(n)[i], name);
    }
  }

  /** Some node of `n` is a site. */
  predicate HasSite(layout: Layout, n: Node, name: string)
    decreases n
  {
    IsSite(layout, n, name) ||
    exists i :: 0 <= i < |Children(n)| && HasSite(layout, Children(n)[i], name)
  }

  /** A tree without sites comes back from a successful visit unchanged. */
  lemma {:induction false} VisitWithoutSites(layout: Layout, n: Node, name: string, entry: Node)
    requires Inert(entry) && Visit(layout, n, name, entry).Success?
    requires !HasSite(layout, n, name)
    ensures Visit(layout, n, name, entry).value == n
    decreases n
  {
    assert EnterError(layout, n, name).None?;
    var cs := Children(n);
    var vs := VisitedChildren(layout, n, name, entry);
    forall i | 0 <= i < |cs| ensures vs[i] == cs[i] {
      VisitWithoutSites(layout, cs[i], name, entry);
    }
    assert vs == cs;
  }
}
