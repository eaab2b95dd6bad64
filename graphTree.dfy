// The site / program / function tree of rmadmin/GraphModel.cpp, as values.
// Items are never freed by the model, and new ones are only appended, so an
// item's place in the tree (its Loc) stands for its address: the
// parents of a function and the children of the pending-parent list are
// Locs.

module GraphTree {
  import opened Options
  import opened GraphKeys

  /** Three names, as in a worker's parent reference or a find request. */
  datatype Ref = Ref(site: string, program: string, func: string)

  /** The part of conf::Worker the tree uses: its parent references; the rest
      of the worker configuration is an opaque token. */
  datatype Worker = Worker(parentRefs: seq<Ref>, rest: nat)

  /** The value inside a RamenValueValue: a 64-bit integer, a boolean or any
      other type. */
  datatype RamenValue = VI64(i: int) | VBool(b: bool) | OtherRamenValue(token: nat)

  /** A configuration value, by the dynamic type the property setters test
      for; the payloads that are only stored are opaque tokens. */
  datatype ConfValue =
    | WorkerValue(worker: Worker)
    | RuntimeStatsValue(stats: nat)
    | TimeRangeValue(times: nat)
    | RamenValueValue(v: RamenValue)
    | OtherValue(token: nat)

  /** The properties of a Function that the setters maintain; None stands for
      a null shared_ptr or an empty optional. */
  datatype Function = Function(worker: Option<Worker>, runtimeStats: Option<nat>,
                               archivedTimes: Option<nat>, numArcFiles: Option<int>,
                               numArcBytes: Option<int>, allocArcBytes: Option<int>)

  const NoProperties := Function(None, None, None, None, None, None)

  /** Where a function item sits: its site, program and function indices. */
  datatype Loc = Loc(site: nat, program: nat, func: nat)

  datatype FunctionItem = FunctionItem(name: string, row: int, shared: Function, parents: seq<Loc>)
  datatype ProgramItem = ProgramItem(name: string, row: int, functions: seq<FunctionItem>)
  datatype SiteItem = SiteItem(name: string, row: int, isMaster: bool, programs: seq<ProgramItem>)

  /** The row a new item has before it is reordered. The item constructors
      are not part of this model; any value other than the item's index
      behaves alike. */
  const NewRow: int := -1

  function NewSite(name: string): SiteItem { SiteItem(name, NewRow, false, []) }
  function NewProgram(name: string): ProgramItem { ProgramItem(name, NewRow, []) }
  function NewFunction(name: string): FunctionItem { FunctionItem(name, NewRow, NoProperties, []) }

  function SiteNames(sites: seq<SiteItem>): seq<string>
  {
    seq(|sites|, i requires 0 <= i < |sites| => sites[i].name)
  }

  function ProgramNames(s: SiteItem): seq<string>
  {
    seq(|s.programs|, j requires 0 <= j < |s.programs| => s.programs[j].name)
  }

  function FunctionNames(p: ProgramItem): seq<string>
  {
    seq(|p.functions|, k requires 0 <= k < |p.functions| => p.functions[k].name)
  }

  /** The index of the first name equal to x, if any: the search loops of
      find, updateKey and deleteKey. */
  function IndexOf(names: seq<string>, x: string): (r: Option<nat>)
    ensures r.Some? ==> r.value < |names| && names[r.value] == x
                        && forall m :: 0 <= m < r.value ==> names[m] != x
    ensures r.None? <==> x !in names
  {
    if names == [] then None
    else if names[0] == x then Some(0)
    else
      match IndexOf(names[1..], x)
      case None => None
      case Some(m) => Some(m + 1)
  }

  /** IndexOf finds i exactly when names holds x at i and nowhere before. */
  lemma IndexOfAt(names: seq<string>, x: string, i: nat)
    requires i < |names| && names[i] == x
    requires forall m :: 0 <= m < i ==> names[m] != x
    ensures IndexOf(names, x) == Some(i)
  {
    assert names[i] == x;
  }

  predicate IsLoc(sites: seq<SiteItem>, l: Loc)
  {
    && l.site < |sites|
    && l.program < |sites[l.site].programs|
    && l.func < |sites[l.site].programs[l.program].functions|
  }

  function FunctionAt(sites: seq<SiteItem>, l: Loc): FunctionItem
    requires IsLoc(sites, l)
  {
    sites[l.site].programs[l.program].functions[l.func]
  }

  /** The site, program and function names of the item at l. */
  function NamesAt(sites: seq<SiteItem>, l: Loc): Ref
    requires IsLoc(sites, l)
  {
    Ref(sites[l.site].name, sites[l.site].programs[l.program].name, FunctionAt(sites, l).name)
  }

  /** The tree with the function item at l replaced by fi. */
  function WithFunction(sites: seq<SiteItem>, l: Loc, fi: FunctionItem): (r: seq<SiteItem>)
    requires IsLoc(sites, l)
    ensures forall m :: IsLoc(r, m) <==> IsLoc(sites, m)
  {
    var s := sites[l.site];
    var p := s.programs[l.program];
    sites[l.site := s.(programs := s.programs[l.program := p.(functions := p.functions[l.func := fi])])]
  }

  /** find: the first site named t.site, in it the first program named
      t.program, in it the first function named t.func; nothing as soon as
      one of the three is missing, without looking at later same-named
      sites or programs. */
  function FindIn(sites: seq<SiteItem>, t: Ref): Option<Loc>
  {
    match IndexOf(SiteNames(sites), t.site)
    case None => None
    case Some(i) =>
      match IndexOf(ProgramNames(sites[i]), t.program)
      case None => None
      case Some(j) =>
        match IndexOf(FunctionNames(sites[i].programs[j]), t.func)
        case None => None
        case Some(k) => Some(Loc(i, j, k))
  }

  predicate Distinct(names: seq<string>)
  {
    forall i, j :: 0 <= i < j < |names| ==> names[i] != names[j]
  }

  /** A program whose function names differ and whose rows are the function
      indices. */
  predicate ProgramOk(p: ProgramItem, j: int)
  {
    && p.row == j
    && Distinct(FunctionNames(p))
    && forall k :: 0 <= k < |p.functions| ==> p.functions[k].row == k
  }

  predicate SiteOk(s: SiteItem, i: int)
  {
    && s.row == i
    && Distinct(ProgramNames(s))
    && forall j :: 0 <= j < |s.programs| ==> ProgramOk(s.programs[j], j)
  }

  /** No two siblings share a name, and every row is its item's index. */
  predicate TreeOk(sites: seq<SiteItem>)
  {
    && Distinct(SiteNames(sites))
    && forall i :: 0 <= i < |sites| ==> SiteOk(sites[i], i)
  }

  /** a and b have the same items under the same names; rows, properties and
      parents may differ. */
  predicate SameTree(a: seq<SiteItem>, b: seq<SiteItem>)
  {
    && SiteNames(a) == SiteNames(b)
    && (forall i :: 0 <= i < |a| ==> ProgramNames(a[i]) == ProgramNames(b[i]))
    && (forall i, j :: 0 <= i < |a| && 0 <= j < |a[i].programs| ==>
          FunctionNames(a[i].programs[j]) == FunctionNames(b[i].programs[j]))
  }

  predicate ProgramExtends(p: ProgramItem, q: ProgramItem)
  {
    && q.name == p.name
    && |p.functions| <= |q.functions|
    && forall k :: 0 <= k < |p.functions| ==> q.functions[k].name == p.functions[k].name
  }

  predicate SiteExtends(s: SiteItem, t: SiteItem)
  {
    && t.name == s.name
    && |s.programs| <= |t.programs|
    && forall j :: 0 <= j < |s.programs| ==> ProgramExtends(s.programs[j], t.programs[j])
  }

  /** b keeps every item of a at its place and under its name, and may hold
      more. */
  predicate Extends(a: seq<SiteItem>, b: seq<SiteItem>)
  {
    && |a| <= |b|
    && forall i :: 0 <= i < |a| ==> SiteExtends(a[i], b[i])
  }

  /** find answers only with an item carrying the three names asked for. */
  lemma FindSound(sites: seq<SiteItem>, t: Ref)
    ensures FindIn(sites, t).Some? ==>
              IsLoc(sites, FindIn(sites, t).value) && NamesAt(sites, FindIn(sites, t).value) == t
  {
  }

  /** With unique names, find answers with the item carrying the three
      names whenever there is one, and with nothing otherwise. */
  lemma FindComplete(sites: seq<SiteItem>, t: Ref, l: Loc)
    requires TreeOk(sites)
    requires IsLoc(sites, l) && NamesAt(sites, l) == t
    ensures FindIn(sites, t) == Some(l)
  {
    var s := sites[l.site];
    var p := s.programs[l.program];
    assert SiteOk(s, l.site);
    assert ProgramOk(p, l.program);
    IndexOfAt(SiteNames(sites), t.site, l.site);
    IndexOfAt(ProgramNames(s), t.program, l.program);
    IndexOfAt(FunctionNames(p), t.func, l.func);
  }

  /** find depends on the names only. */
  lemma FindSameTree(a: seq<SiteItem>, b: seq<SiteItem>, t: Ref)
    requires SameTree(a, b)
    ensures FindIn(a, t) == FindIn(b, t)
  {
  }

  /** Items of a are items of b, under the same names. */
  lemma ExtendsLoc(a: seq<SiteItem>, b: seq<SiteItem>, l: Loc)
    requires Extends(a, b) && IsLoc(a, l)
    ensures IsLoc(b, l) && NamesAt(b, l) == NamesAt(a, l)
  {
    assert SiteExtends(a[l.site], b[l.site]);
    assert ProgramExtends(a[l.site].programs[l.program], b[l.site].programs[l.program]);
  }

  /** Replacing a function item by one of the same name and row keeps the
      tree and its invariant, and changes no other function item. */
  lemma WithFunctionKeeps(sites: seq<SiteItem>, l: Loc, fi: FunctionItem)
    requires IsLoc(sites, l)
    requires fi.name == FunctionAt(sites, l).name && fi.row == FunctionAt(sites, l).row
    ensures var r := WithFunction(sites, l, fi);
      && Kept(sites, r)
      && FunctionAt(r, l) == fi
      && (forall m :: IsLoc(sites, m) && m != l ==> FunctionAt(r, m) == FunctionAt(sites, m))
  {
    var r := WithFunction(sites, l, fi);
    WithFunctionNames(sites, l, fi);
    WithFunctionExtends(sites, l, fi);
    if TreeOk(sites) {
      WithFunctionOk(sites, l, fi);
    }
  }

  /** b has the items of a under the same names, the sites keep their rows
      and flags, and the invariant carries over: only function items may
      differ. */
  predicate Kept(a: seq<SiteItem>, b: seq<SiteItem>)
  {
    && SameTree(a, b) && SameTree(b, a) && Extends(a, b) && Extends(b, a)
    && (forall i :: 0 <= i < |a| ==> b[i].row == a[i].row && b[i].isMaster == a[i].isMaster)
    && (TreeOk(a) ==> TreeOk(b))
  }

  lemma KeptSelf(a: seq<SiteItem>)
    ensures Kept(a, a)
  {
    ExtendsSelf(a);
  }

  lemma KeptTrans(a: seq<SiteItem>, b: seq<SiteItem>, c: seq<SiteItem>)
    requires Kept(a, b) && Kept(b, c)
    ensures Kept(a, c)
  {
    ExtendsTrans(a, b, c);
    ExtendsTrans(c, b, a);
  }

  lemma ExtendsTrans(a: seq<SiteItem>, b: seq<SiteItem>, c: seq<SiteItem>)
    requires Extends(a, b) && Extends(b, c)
    ensures Extends(a, c)
  {
    forall i | 0 <= i < |a| ensures SiteExtends(a[i], c[i]) {
      assert SiteExtends(a[i], b[i]) && SiteExtends(b[i], c[i]);
      forall j | 0 <= j < |a[i].programs| ensures ProgramExtends(a[i].programs[j], c[i].programs[j]) {
        assert ProgramExtends(a[i].programs[j], b[i].programs[j]);
        assert ProgramExtends(b[i].programs[j], c[i].programs[j]);
      }
    }
  }

  /** Replacing the function item at l changes that item only. */
  lemma WithFunctionAt(sites: seq<SiteItem>, l: Loc, fi: FunctionItem)
    requires IsLoc(sites, l)
    ensures var r := WithFunction(sites, l, fi);
      && FunctionAt(r, l) == fi
      && (forall m :: IsLoc(sites, m) && m != l ==> FunctionAt(r, m) == FunctionAt(sites, m))
  {
  }

  /** A second replacement at l overrides the first. */
  lemma WithFunctionTwice(sites: seq<SiteItem>, l: Loc, a: FunctionItem, b: FunctionItem)
    requires IsLoc(sites, l)
    ensures WithFunction(WithFunction(sites, l, a), l, b) == WithFunction(sites, l, b)
  {
    var s := sites[l.site];
    var p := s.programs[l.program];
    var r1 := WithFunction(sites, l, a);
    var p1 := r1[l.site].programs[l.program];
    assert p1.functions[l.func := b] == p.functions[l.func := b];
    assert p1.(functions := p1.functions[l.func := b]) == p.(functions := p.functions[l.func := b]);
    assert r1[l.site].programs[l.program := p1.(functions := p1.functions[l.func := b])]
           == s.programs[l.program := p.(functions := p.functions[l.func := b])];
  }

  lemma WithFunctionNames(sites: seq<SiteItem>, l: Loc, fi: FunctionItem)
    requires IsLoc(sites, l) && fi.name == FunctionAt(sites, l).name
    ensures SameTree(sites, WithFunction(sites, l, fi))
  {
    var r := WithFunction(sites, l, fi);
    var s := sites[l.site];
    assert FunctionNames(r[l.site].programs[l.program]) == FunctionNames(s.programs[l.program]);
    assert ProgramNames(r[l.site]) == ProgramNames(s);
    assert SiteNames(r) == SiteNames(sites);
  }

  lemma WithFunctionExtends(sites: seq<SiteItem>, l: Loc, fi: FunctionItem)
    requires IsLoc(sites, l) && fi.name == FunctionAt(sites, l).name
    ensures Extends(sites, WithFunction(sites, l, fi)) && Extends(WithFunction(sites, l, fi), sites)
  {
    var r := WithFunction(sites, l, fi);
    assert ProgramExtends(sites[l.site].programs[l.program], r[l.site].programs[l.program]);
    assert ProgramExtends(r[l.site].programs[l.program], sites[l.site].programs[l.program]);
    assert SiteExtends(sites[l.site], r[l.site]);
    assert SiteExtends(r[l.site], sites[l.site]);
  }

  lemma WithFunctionOk(sites: seq<SiteItem>, l: Loc, fi: FunctionItem)
    requires IsLoc(sites, l) && TreeOk(sites)
    requires fi.name == FunctionAt(sites, l).name && fi.row == FunctionAt(sites, l).row
    ensures TreeOk(WithFunction(sites, l, fi))
  {
    var r := WithFunction(sites, l, fi);
    var s := sites[l.site];
    var p := s.programs[l.program];
    var p' := r[l.site].programs[l.program];
    WithFunctionNames(sites, l, fi);
    assert SiteOk(s, l.site) && ProgramOk(p, l.program);
    assert FunctionNames(p') == FunctionNames(p);
    assert ProgramOk(p', l.program);
    assert SiteOk(r[l.site], l.site);
  }

  /** The rows rewritten to the indices: the state reorder leaves. */
  function SitesInPlace(sites: seq<SiteItem>): seq<SiteItem>
  {
    seq(|sites|, i requires 0 <= i < |sites| => sites[i].(row := i))
  }

  function ProgramsInPlace(programs: seq<ProgramItem>): seq<ProgramItem>
  {
    seq(|programs|, j requires 0 <= j < |programs| => programs[j].(row := j))
  }

  function FunctionsInPlace(functions: seq<FunctionItem>): seq<FunctionItem>
  {
    seq(|functions|, k requires 0 <= k < |functions| => functions[k].(row := k))
  }

  /** The indices below n whose row is not the index, in increasing order:
      the items reorder moves and signals. */
  function Misplaced(sites: seq<SiteItem>, n: nat): seq<nat>
    requires n <= |sites|
  {
    if n == 0 then []
    else Misplaced(sites, n - 1) + (if sites[n - 1].row != n - 1 then [n - 1] else [])
  }

  /** reorder signals exactly the sites whose row is not their index. */
  lemma {:induction false} MisplacedExactly(sites: seq<SiteItem>, n: nat)
    requires n <= |sites|
    ensures forall m: nat :: m in Misplaced(sites, n) <==> m < n && sites[m].row != m
  {
    if n > 0 {
      MisplacedExactly(sites, n - 1);
    }
  }

  /** ... and signals them in increasing order. */
  lemma {:induction false} MisplacedIncreasing(sites: seq<SiteItem>, n: nat)
    requires n <= |sites|
    ensures forall a, b :: 0 <= a < b < |Misplaced(sites, n)| ==> Misplaced(sites, n)[a] < Misplaced(sites, n)[b]
  {
    if n > 0 {
      MisplacedIncreasing(sites, n - 1);
      MisplacedExactly(sites, n - 1);
      var below := Misplaced(sites, n - 1);
      forall a | 0 <= a < |below| ensures below[a] < n - 1 {
        assert below[a] in below;
      }
    }
  }

  /** After reorder every row is its index, so a second reorder signals
      nothing. */
  lemma {:induction false} ReorderSettles(sites: seq<SiteItem>, n: nat)
    requires n <= |sites|
    ensures forall i :: 0 <= i < |sites| ==> SitesInPlace(sites)[i].row == i
    ensures Misplaced(SitesInPlace(sites), n) == []
  {
    if n > 0 {
      ReorderSettles(sites, n - 1);
    }
  }

  /** updateKey's site lookup: the site named name, appended at the end
      (then reordered) when there is none. Returns the tree and the site's
      index. */
  function EnsureSite(sites: seq<SiteItem>, name: string): (r: (seq<SiteItem>, nat))
    ensures r.1 < |r.0| && r.0[r.1].name == name && Extends(sites, r.0)
  {
    match IndexOf(SiteNames(sites), name)
    case Some(i) => ExtendsSelf(sites); (sites, i)
    case None =>
      var r := SitesInPlace(sites + [NewSite(name)]);
      assert forall i :: 0 <= i < |sites| ==> SiteExtends(sites[i], r[i]) by {
        forall i | 0 <= i < |sites| ensures SiteExtends(sites[i], r[i]) {
          SiteExtendsSelf(sites[i]);
        }
      }
      (r, |sites|)
  }

  /** updateKey's program lookup within site i. */
  function EnsureProgram(sites: seq<SiteItem>, i: nat, name: string): (r: (seq<SiteItem>, nat))
    requires i < |sites|
    ensures |r.0| == |sites| && r.1 < |r.0[i].programs| && r.0[i].programs[r.1].name == name
    ensures Extends(sites, r.0)
  {
    var s := sites[i];
    match IndexOf(ProgramNames(s), name)
    case Some(j) => ExtendsSelf(sites); (sites, j)
    case None =>
      var s' := s.(programs := ProgramsInPlace(s.programs + [NewProgram(name)]));
      ExtendsSelf(sites);
      ProgramsExtend(s, s');
      (sites[i := s'], |s.programs|)
  }

  /** updateKey's function lookup within program j of site i; also says
      whether the function was created. */
  function EnsureFunction(sites: seq<SiteItem>, i: nat, j: nat, name: string): (r: (seq<SiteItem>, nat, bool))
    requires i < |sites| && j < |sites[i].programs|
    ensures |r.0| == |sites| && |r.0[i].programs| == |sites[i].programs|
    ensures IsLoc(r.0, Loc(i, j, r.1)) && FunctionAt(r.0, Loc(i, j, r.1)).name == name
    ensures Extends(sites, r.0)
  {
    var s := sites[i];
    var p := s.programs[j];
    match IndexOf(FunctionNames(p), name)
    case Some(k) => ExtendsSelf(sites); (sites, k, false)
    case None =>
      var p' := p.(functions := FunctionsInPlace(p.functions + [NewFunction(name)]));
      var s' := s.(programs := s.programs[j := p']);
      ExtendsSelf(sites);
      FunctionsExtend(s, j, p');
      (sites[i := s'], |p.functions|, true)
  }

  lemma SiteExtendsSelf(s: SiteItem)
    ensures SiteExtends(s, s)
  {
  }

  lemma ExtendsSelf(sites: seq<SiteItem>)
    ensures Extends(sites, sites)
  {
    forall i | 0 <= i < |sites| ensures SiteExtends(sites[i], sites[i]) {
      SiteExtendsSelf(sites[i]);
    }
  }

  lemma ProgramsExtend(s: SiteItem, s': SiteItem)
    requires s'.name == s.name && |s'.programs| == |s.programs| + 1
    requires forall j :: 0 <= j < |s.programs| ==> s'.programs[j] == s.programs[j].(row := j)
    ensures SiteExtends(s, s')
  {
  }

  lemma FunctionsExtend(s: SiteItem, j: nat, p': ProgramItem)
    requires j < |s.programs| && p'.name == s.programs[j].name
    requires |p'.functions| == |s.programs[j].functions| + 1
    requires forall k :: 0 <= k < |s.programs[j].functions| ==> p'.functions[k].name == s.programs[j].functions[k].name
    ensures SiteExtends(s, s.(programs := s.programs[j := p']))
  {
    var s' := s.(programs := s.programs[j := p']);
    forall j' | 0 <= j' < |s.programs| ensures ProgramExtends(s.programs[j'], s'.programs[j']) {
    }
  }

  /** The function item t names, with its site and program, each created
      when missing; the flag tells whether the function was created. */
  function EnsureLoc(sites: seq<SiteItem>, t: Ref): (r: (seq<SiteItem>, Loc, bool))
    ensures IsLoc(r.0, r.1) && Extends(sites, r.0)
  {
    var (s1, i) := EnsureSite(sites, t.site);
    var (s2, j) := EnsureProgram(s1, i, t.program);
    var (s3, f, created) := EnsureFunction(s2, i, j, t.func);
    ExtendsTrans(sites, s1, s2);
    ExtendsTrans(sites, s2, s3);
    (s3, Loc(i, j, f), created)
  }

  /** The site lookup creates a site only when none has the name, appending
      it at the end with its row in place; the invariant is kept. */
  lemma EnsureSiteSpec(sites: seq<SiteItem>, name: string)
    requires TreeOk(sites)
    ensures var r := EnsureSite(sites, name);
      && TreeOk(r.0)
      && (name in SiteNames(sites) ==> r.0 == sites)
      && (name !in SiteNames(sites) ==> r.0 == sites + [NewSite(name).(row := |sites|)] && r.1 == |sites|)
  {
    if name !in SiteNames(sites) {
      var r := EnsureSite(sites, name).0;
      var added := sites + [NewSite(name).(row := |sites|)];
      assert r == added by {
        forall i | 0 <= i < |sites| ensures r[i] == added[i] {
          assert SiteOk(sites[i], i);
        }
      }
      assert SiteNames(r) == SiteNames(sites) + [name];
      assert SiteOk(r[|sites|], |sites|);
    }
  }

  /** The program lookup creates a program only when the site has none of
      that name, appending it with its row in place; the invariant is
      kept. */
  lemma EnsureProgramSpec(sites: seq<SiteItem>, i: nat, name: string)
    requires TreeOk(sites) && i < |sites|
    ensures var r := EnsureProgram(sites, i, name);
      && TreeOk(r.0)
      && (name in ProgramNames(sites[i]) ==> r.0 == sites)
      && (name !in ProgramNames(sites[i]) ==>
            var ps := sites[i].programs;
            r.0 == sites[i := sites[i].(programs := ps + [NewProgram(name).(row := |ps|)])] && r.1 == |ps|)
  {
    if name !in ProgramNames(sites[i]) {
      var s := sites[i];
      var ps := s.programs;
      var r := EnsureProgram(sites, i, name).0;
      var added := ps + [NewProgram(name).(row := |ps|)];
      assert SiteOk(s, i);
      assert r[i].programs == added by {
        forall j | 0 <= j < |ps| ensures r[i].programs[j] == added[j] {
          assert ProgramOk(ps[j], j);
        }
      }
      assert ProgramNames(r[i]) == ProgramNames(s) + [name];
      assert SiteOk(r[i], i) by {
        assert ProgramOk(added[|ps|], |ps|);
      }
      assert SiteNames(r) == SiteNames(sites);
    }
  }

  /** The function lookup creates a function only when the program has none
      of that name, appending it with its row in place, and says so; the
      invariant is kept. */
  lemma EnsureFunctionSpec(sites: seq<SiteItem>, i: nat, j: nat, name: string)
    requires TreeOk(sites) && i < |sites| && j < |sites[i].programs|
    ensures var r := EnsureFunction(sites, i, j, name);
      && TreeOk(r.0)
      && (r.2 <==> name !in FunctionNames(sites[i].programs[j]))
      && (!r.2 ==> r.0 == sites)
      && (r.2 ==>
            var p := sites[i].programs[j];
            var p' := p.(functions := p.functions + [NewFunction(name).(row := |p.functions|)]);
            r.0 == sites[i := sites[i].(programs := sites[i].programs[j := p'])] && r.1 == |p.functions|)
  {
    var r := EnsureFunction(sites, i, j, name);
    if r.2 {
      var s := sites[i];
      var p := s.programs[j];
      var fs := p.functions;
      var added := fs + [NewFunction(name).(row := |fs|)];
      assert SiteOk(s, i);
      assert ProgramOk(p, j);
      var p2 := r.0[i].programs[j];
      assert p2.functions == added by {
        forall k | 0 <= k < |fs| ensures p2.functions[k] == added[k] {
        }
      }
      assert FunctionNames(p2) == FunctionNames(p) + [name];
      assert ProgramOk(p2, j);
      assert ProgramNames(r.0[i]) == ProgramNames(s);
      assert SiteOk(r.0[i], i) by {
        forall j' | 0 <= j' < |s.programs| ensures ProgramOk(r.0[i].programs[j'], j') {
          if j' != j {
            assert ProgramOk(s.programs[j'], j');
          }
        }
      }
      assert SiteNames(r.0) == SiteNames(sites);
    }
  }
  /** Looking up a function key keeps the invariant, and find then answers
      with the item looked up; it creates the function exactly when find
      did not locate it before, and otherwise changes nothing. */
  lemma EnsureLocSpec(sites: seq<SiteItem>, t: Ref)
    requires TreeOk(sites)
    ensures var r := EnsureLoc(sites, t);
      && TreeOk(r.0)
      && FindIn(r.0, t) == Some(r.1)
      && (r.2 <==> FindIn(sites, t).None?)
      && (!r.2 ==> r.0 == sites)
  {
    EnsureLocFinds(sites, t);
    EnsureLocKnown(sites, t);
    var r := EnsureLoc(sites, t);
    if FindIn(sites, t).Some? {
      EnsureLocFound(sites, t, FindIn(sites, t).value);
    } else if !r.2 {
      FindComplete(sites, t, r.1);
    }
  }

  lemma EnsureLocFinds(sites: seq<SiteItem>, t: Ref)
    requires TreeOk(sites)
    ensures var r := EnsureLoc(sites, t);
      TreeOk(r.0) && IsLoc(r.0, r.1) && NamesAt(r.0, r.1) == t && FindIn(r.0, t) == Some(r.1)
  {
    EnsureSiteSpec(sites, t.site);
    var (s1, i) := EnsureSite(sites, t.site);
    EnsureProgramSpec(s1, i, t.program);
    var (s2, j) := EnsureProgram(s1, i, t.program);
    EnsureFunctionSpec(s2, i, j, t.func);
    var (s3, f, created) := EnsureFunction(s2, i, j, t.func);
    assert SiteExtends(s1[i], s3[i]);
    assert ProgramExtends(s2[i].programs[j], s3[i].programs[j]);
    FindComplete(s3, t, Loc(i, j, f));
  }

  lemma EnsureLocFound(sites: seq<SiteItem>, t: Ref, l: Loc)
    requires FindIn(sites, t) == Some(l)
    ensures EnsureLoc(sites, t) == (sites, l, false)
  {
  }

  lemma EnsureLocKnown(sites: seq<SiteItem>, t: Ref)
    requires TreeOk(sites)
    ensures !EnsureLoc(sites, t).2 ==> EnsureLoc(sites, t).0 == sites
  {
    EnsureSiteSpec(sites, t.site);
    var (s1, i) := EnsureSite(sites, t.site);
    EnsureProgramSpec(s1, i, t.program);
    var (s2, j) := EnsureProgram(s1, i, t.program);
    EnsureFunctionSpec(s2, i, j, t.func);
    if t.program !in ProgramNames(s1[i]) {
      assert s2[i].programs[j].functions == [];
    }
    if t.site !in SiteNames(sites) {
      assert s1[i].programs == [];
    }
  }

}
