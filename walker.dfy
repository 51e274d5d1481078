/**
  The description-coverage tree walker (`checkProperties`): it descends a
  schema node and returns the paths of the nodes that declare a `type` but no
  `description`, unless the node is exempt.
 */
module Walker {
  import opened Json

  /**
    One step of a walker path. `Key` is a property name (or the definition name
    a walk starts from); the others are the synthetic markers `[items]`,
    `[oneOf[3]]` and `[additionalProperties]`.
   */
  datatype Seg = Key(name: string) | Items | Branch(keyword: string, index: nat) | Additional

  type Path = seq<Seg>

  function Render(s: Seg): string {
    match s
    case Key(name) => name
    case Items => "[items]"
    case Branch(keyword, index) => "[" + keyword + "[" + NatToString(index) + "]]"
    case Additional => "[additionalProperties]"
  }

  /** `path.join('.')` */
  function Join(p: Path): string {
    if p == [] then "" else if |p| == 1 then Render(p[0]) else Render(p[0]) + "." + Join(p[1..])
  }

  function Joined(ps: seq<Path>): (r: seq<string>)
    ensures |r| == |ps|
    ensures forall i :: 0 <= i < |ps| ==> r[i] == Join(ps[i])
  {
    seq(|ps|, i requires 0 <= i < |ps| => Join(ps[i]))
  }

  lemma JoinedAppend(a: seq<Path>, b: seq<Path>)
    ensures Joined(a + b) == Joined(a) + Joined(b)
  {
    var l, r, ab := Joined(a), Joined(b), Joined(a + b);
    forall i | 0 <= i < |ab|
      ensures ab[i] == (l + r)[i]
    {
      if i < |a| {
        assert (a + b)[i] == a[i];
      } else {
        assert (a + b)[i] == b[i - |a|];
      }
    }
  }

  datatype Options = Options(skipTopLevel: bool, skipRefs: bool)

  /** The options the JSON Schema definitions rule walks with. */
  const JsonSchemaOptions := Options(false, false)

  /** The options the OpenAPI schemas rule walks with. */
  const OpenApiOptions := Options(true, true)

  /**
    Whether the node reached by a path of `depth` segments is itself reported:
    it has a truthy `type` and a falsy `description`, it is not a `$ref` when
    refs are skipped, not at depth 0 or 1 when the top level is skipped, and
    carries none of `enum`, `const`, `oneOf`, `anyOf`, `allOf`.
   */
  predicate SelfReport(n: Json, depth: nat, o: Options) {
    && Truthy(Get(n, "type")) && !Truthy(Get(n, "description"))
    && !(o.skipRefs && Truthy(Get(n, "$ref")))
    && !(o.skipTopLevel && depth <= 1)
    && !Truthy(Get(n, "enum")) && !Truthy(Get(n, "const"))
    && !Truthy(Get(n, "oneOf")) && !Truthy(Get(n, "anyOf")) && !Truthy(Get(n, "allOf"))
  }

  /** A node the walker descends into, with the segment that leads there. */
  datatype Child = Child(seg: Seg, node: Json)

  /**
    The children of an object node, in the order the walker visits them: the
    entries of a truthy `properties`, a truthy `items`, the elements of `oneOf`,
    `anyOf` and `allOf` when they are arrays, and `additionalProperties` when it
    is an object or an array. Only objects have children: an array has none of
    these keys.
   */
  function Children(j: Json): (cs: seq<Child>)
    ensures forall c | c in cs :: c.node < j
  {
    if !j.JObj? then []
    else
      PropertyChildren(j) + ItemsChild(j)
      + BranchChildren(j, "oneOf") + BranchChildren(j, "anyOf") + BranchChildren(j, "allOf")
      + AdditionalChild(j)
  }

  /**
    `Object.keys(obj.properties)`. For a string the keys are character positions
    whose values are one-character strings, which the walker returns from at
    once, so they are left out here.
   */
  function PropertyChildren(j: Json): (cs: seq<Child>)
    ensures forall c | c in cs :: c.node < j
  {
    var props := Get(j, "properties");
    if !Truthy(props) || props.value.JStr? then []
    else
      var es := Entries(props.value);
      seq(|es|, i requires 0 <= i < |es| => Child(Key(es[i].key), es[i].value))
  }

  function ItemsChild(j: Json): (cs: seq<Child>)
    ensures forall c | c in cs :: c.node < j
  {
    var items := Get(j, "items");
    if Truthy(items) then [Child(Items, items.value)] else []
  }

  function BranchChildren(j: Json, keyword: string): (cs: seq<Child>)
    ensures forall c | c in cs :: c.node < j
  {
    match Get(j, keyword)
    case Some(JArr(xs)) => seq(|xs|, i requires 0 <= i < |xs| => Child(Branch(keyword, i), xs[i]))
    case _ => []
  }

  function AdditionalChild(j: Json): (cs: seq<Child>)
    ensures forall c | c in cs :: c.node < j
  {
    var extra := Get(j, "additionalProperties");
    if extra.Some? && (extra.value.JObj? || extra.value.JArr?) then [Child(Additional, extra.value)] else []
  }

  function Own(j: Json, p: Path, o: Options): seq<Path> {
    if SelfReport(j, |p|, o) then [p] else []
  }

  /**
    The paths `checkProperties(j, p, o)` reports, before they are joined: the
    node's own path if it is reported, then the walks of its children in visit
    order. Anything that is not an object gives nothing.
   */
  function Walk(j: Json, p: Path, o: Options): seq<Path>
    decreases j, 1
  {
    if j.JObj? then Own(j, p, o) + WalkChildren(j, Children(j), p, o) else []
  }

  function WalkChildren(parent: Json, cs: seq<Child>, p: Path, o: Options): seq<Path>
    requires forall c | c in cs :: c.node < parent
    decreases parent, 0, |cs|
  {
    if cs == [] then []
    else
      var last := cs[|cs| - 1];
      WalkChildren(parent, cs[..|cs| - 1], p, o) + Walk(last.node, p + [last.seg], o)
  }

  /** Node `n` is reached from `j` by following `segs` through the walker's children. */
  ghost predicate At(j: Json, segs: Path, n: Json)
    decreases |segs|
  {
    if segs == [] then n == j
    else exists c :: c in Children(j) && c.seg == segs[0] && At(c.node, segs[1..], n)
  }

  lemma {:induction false} WalkChildrenMember(parent: Json, cs: seq<Child>, p: Path, o: Options, q: Path)
    requires forall c | c in cs :: c.node < parent
    ensures q in WalkChildren(parent, cs, p, o) <==>
            exists i :: 0 <= i < |cs| && q in Walk(cs[i].node, p + [cs[i].seg], o)
    decreases |cs|
  {
    if cs != [] {
      var init := cs[..|cs| - 1];
      WalkChildrenMember(parent, init, p, o, q);
      if q in WalkChildren(parent, init, p, o) {
        var i :| 0 <= i < |init| && q in Walk(init[i].node, p + [init[i].seg], o);
        assert cs[i] == init[i];
      }
      if exists i :: 0 <= i < |cs| && q in Walk(cs[i].node, p + [cs[i].seg], o) {
        var i :| 0 <= i < |cs| && q in Walk(cs[i].node, p + [cs[i].seg], o);
        if i < |cs| - 1 {
          assert init[i] == cs[i];
        }
      }
    }
  }

  lemma AtStep(j: Json, c: Child, segs: Path, n: Json)
    requires c in Children(j)
    requires segs != [] && segs[0] == c.seg && At(c.node, segs[1..], n)
    ensures At(j, segs, n)
  {
  }

  lemma WholeSlice(p: Path)
    ensures p[..|p|] == p && p[|p|..] == []
  {
  }

  lemma SliceStep(p: Path, q: Path, s: Seg)
    requires |p| + 1 <= |q| && q[..|p| + 1] == p + [s]
    ensures q[..|p|] == p && q[|p|..] != [] && q[|p|..][0] == s && q[|p|..][1..] == q[|p| + 1..]
  {
    assert q[|p|] == q[..|p| + 1][|p|];
    assert q[..|p|] == q[..|p| + 1][..|p|];
  }

  lemma SoundOwn(j: Json, p: Path, o: Options, q: Path)
    requires q in Own(j, p, o)
    ensures |p| <= |q| && q[..|p|] == p
    ensures exists n :: At(j, q[|p|..], n) && SelfReport(n, |q|, o)
  {
    WholeSlice(p);
    assert At(j, q[|p|..], j);
  }

  lemma ChildIndex(j: Json, p: Path, o: Options, q: Path) returns (i: nat)
    requires q in Walk(j, p, o) && q !in Own(j, p, o)
    ensures i < |Children(j)| && q in Walk(Children(j)[i].node, p + [Children(j)[i].seg], o)
  {
    WalkChildrenMember(j, Children(j), p, o, q);
    i :| 0 <= i < |Children(j)| && q in Walk(Children(j)[i].node, p + [Children(j)[i].seg], o);
  }

  lemma SoundLift(j: Json, p: Path, o: Options, q: Path, c: Child)
    requires c in Children(j)
    requires |p + [c.seg]| <= |q| && q[..|p + [c.seg]|] == p + [c.seg]
    requires exists n :: At(c.node, q[|p + [c.seg]|..], n) && SelfReport(n, |q|, o)
    ensures |p| <= |q| && q[..|p|] == p
    ensures exists n :: At(j, q[|p|..], n) && SelfReport(n, |q|, o)
  {
    var n :| At(c.node, q[|p| + 1..], n) && SelfReport(n, |q|, o);
    SliceStep(p, q, c.seg);
    AtStep(j, c, q[|p|..], n);
  }

  /** Every reported path extends the starting path and leads to a node that is reported. */
  lemma {:induction false} WalkSound(j: Json, p: Path, o: Options, q: Path)
    requires q in Walk(j, p, o)
    ensures |p| <= |q| && q[..|p|] == p
    ensures exists n :: At(j, q[|p|..], n) && SelfReport(n, |q|, o)
    decreases j
  {
    if q in Own(j, p, o) {
      SoundOwn(j, p, o, q);
    } else {
      var i := ChildIndex(j, p, o, q);
      var c := Children(j)[i];
      WalkSound(c.node, p + [c.seg], o, q);
      SoundLift(j, p, o, q, c);
    }
  }

  lemma AtUnstep(j: Json, segs: Path, n: Json) returns (i: nat)
    requires segs != [] && At(j, segs, n)
    ensures j.JObj? && i < |Children(j)|
    ensures Children(j)[i].seg == segs[0] && At(Children(j)[i].node, segs[1..], n)
  {
    var c :| c in Children(j) && c.seg == segs[0] && At(c.node, segs[1..], n);
    i :| 0 <= i < |Children(j)| && Children(j)[i] == c;
  }

  lemma ReportedIsObject(n: Json, depth: nat, o: Options)
    requires SelfReport(n, depth, o)
    ensures n.JObj?
  {
  }

  lemma WalkOfChild(j: Json, p: Path, o: Options, i: nat, q: Path)
    requires j.JObj? && i < |Children(j)|
    requires q in Walk(Children(j)[i].node, p + [Children(j)[i].seg], o)
    ensures q in Walk(j, p, o)
  {
    WalkChildrenMember(j, Children(j), p, o, q);
  }

  lemma ExtendByHead(p: Path, segs: Path)
    requires segs != []
    ensures (p + [segs[0]]) + segs[1..] == p + segs
  {
  }

  /** Every reachable node that is reported appears, under its path. */
  lemma {:induction false} WalkComplete(j: Json, p: Path, o: Options, segs: Path, n: Json)
    requires At(j, segs, n) && SelfReport(n, |p| + |segs|, o)
    ensures p + segs in Walk(j, p, o)
    decreases |segs|
  {
    if segs == [] {
      ReportedIsObject(n, |p|, o);
      assert n == j && p + segs == p;
    } else {
      var i := AtUnstep(j, segs, n);
      var c := Children(j)[i];
      ExtendByHead(p, segs);
      WalkComplete(c.node, p + [c.seg], o, segs[1..], n);
      WalkOfChild(j, p, o, i, p + segs);
    }
  }

  /**
    The walker reports exactly the reachable nodes that are themselves reported:
    a path is returned if and only if it extends the starting path and the node
    it leads to has a type, lacks a description and is not exempt.
   */
  lemma WalkExactly(j: Json, p: Path, o: Options, q: Path)
    ensures q in Walk(j, p, o) <==>
            |p| <= |q| && q[..|p|] == p && exists n :: At(j, q[|p|..], n) && SelfReport(n, |q|, o)
  {
    if q in Walk(j, p, o) {
      WalkSound(j, p, o, q);
    } else if |p| <= |q| && q[..|p|] == p && exists n :: At(j, q[|p|..], n) && SelfReport(n, |q|, o) {
      var n :| At(j, q[|p|..], n) && SelfReport(n, |q|, o);
      assert p + q[|p|..] == q;
      WalkComplete(j, p, o, q[|p|..], n);
    }
  }

  /**
    Exemptions only affect a node's own report: the starting path is returned
    if and only if the starting node is itself reported.
   */
  lemma OwnPathReported(j: Json, p: Path, o: Options)
    ensures p in Walk(j, p, o) <==> SelfReport(j, |p|, o)
  {
    WalkExactly(j, p, o, p);
    assert p[|p|..] == [];
    if SelfReport(j, |p|, o) {
      assert At(j, p[|p|..], j);
    }
  }

  /** The walk of anything that is not an object, null included, is empty. */
  lemma NonObjectWalk(j: Json, p: Path, o: Options)
    requires !j.JObj?
    ensures Walk(j, p, o) == []
  {
  }

  /**
    `checkProperties(obj, path, options)` (lines 39-89): it pushes the node's
    own joined path, then, child by child, the paths found below it.
   */
  method CheckProperties(obj: Json, path: Path, o: Options) returns (found: seq<string>)
    ensures found == Joined(Walk(obj, path, o))
    decreases obj
  {
    if !obj.JObj? {
      NonObjectWalk(obj, path, o);
      return [];
    }
    found := if SelfReport(obj, |path|, o) then [Join(path)] else [];
    var cs := Children(obj);
    var i := 0;
    JoinedOwn(obj, path, o, found);
    while i < |cs|
      invariant 0 <= i <= |cs|
      invariant found == Joined(Own(obj, path, o) + WalkChildren(obj, cs[..i], path, o))
    {
      var c := cs[i];
      ChildBelow(obj, i);
      var below := CheckProperties(c.node, path + [c.seg], o);
      VisitStep(obj, path, o, i, found, below);
      found := found + below;
      i := i + 1;
    }
    WalkOfObject(obj, path, o, found);
  }

  /** Every child the walker visits is a strict part of its parent. */
  lemma ChildBelow(j: Json, i: nat)
    requires i < |Children(j)|
    ensures Children(j)[i].node < j
  {
    assert Children(j)[i] in Children(j);
  }

  /** One iteration of the visit loop keeps the loop's invariant. */
  lemma VisitStep(j: Json, p: Path, o: Options, i: nat, found: seq<string>, below: seq<string>)
    requires i < |Children(j)|
    requires found == Joined(Own(j, p, o) + WalkChildren(j, Children(j)[..i], p, o))
    requires below == Joined(Walk(Children(j)[i].node, p + [Children(j)[i].seg], o))
    ensures found + below == Joined(Own(j, p, o) + WalkChildren(j, Children(j)[..i + 1], p, o))
  {
    var cs := Children(j);
    WalkChildrenSnoc(j, cs, i, p, o);
    JoinedSnoc(Own(j, p, o), WalkChildren(j, cs[..i], p, o), Walk(cs[i].node, p + [cs[i].seg], o));
  }

  lemma JoinedSnoc(a: seq<Path>, b: seq<Path>, c: seq<Path>)
    ensures Joined(a + (b + c)) == Joined(a + b) + Joined(c)
  {
    assert a + (b + c) == (a + b) + c;
    JoinedAppend(a + b, c);
  }

  lemma JoinedOwn(j: Json, p: Path, o: Options, found: seq<string>)
    requires found == if SelfReport(j, |p|, o) then [Join(p)] else []
    ensures found == Joined(Own(j, p, o) + WalkChildren(j, Children(j)[..0], p, o))
  {
    assert Children(j)[..0] == [];
  }

  /** After the loop has visited every child, `found` is the whole walk. */
  lemma WalkOfObject(j: Json, p: Path, o: Options, found: seq<string>)
    requires j.JObj?
    requires found == Joined(Own(j, p, o) + WalkChildren(j, Children(j)[..|Children(j)|], p, o))
    ensures found == Joined(Walk(j, p, o))
  {
    assert Children(j)[..|Children(j)|] == Children(j);
  }

  lemma WalkChildrenSnoc(parent: Json, cs: seq<Child>, i: nat, p: Path, o: Options)
    requires forall c | c in cs :: c.node < parent
    requires i < |cs|
    ensures WalkChildren(parent, cs[..i + 1], p, o) == WalkChildren(parent, cs[..i], p, o) + Walk(cs[i].node, p + [cs[i].seg], o)
  {
    assert cs[..i + 1][..i] == cs[..i];
  }
}
