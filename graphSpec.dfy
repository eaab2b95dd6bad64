// What the operations of the GraphModel object in rmadmin/GraphModel.cpp
// do, as functions on values: configuration keys set or deleted under
// sites/ grow the site / program / function tree and set or clear the
// properties of its items; the parent references of a worker connect a
// function to its parents, through a list of pending connections when the
// parent is not in the tree yet. The Qt signals are returned as values: the
// changed bits of the property setters and whether a site was signalled.

module GraphSpec {
  import opened Options
  import opened GraphKeys
  import opened GraphTree

  const ANYTHING_CHANGED: nat := 1
  const STORAGE_CHANGED: nat := 2

  /** A connection waiting for its parent: the child, and the names the
      parent will have. */
  datatype PendingAddParent = PendingAddParent(child: Loc, target: Ref)

  /** Every waiting child is an item of the tree. */
  predicate ChildrenIn(sites: seq<SiteItem>, pending: seq<PendingAddParent>)
  {
    forall e :: e in pending ==> IsLoc(sites, e.child)
  }

  /** The invariant of the model: unique names, rows in place, and waiting
      children that exist. */
  predicate Consistent(sites: seq<SiteItem>, pending: seq<PendingAddParent>)
  {
    TreeOk(sites) && ChildrenIn(sites, pending)
  }

  /** addFunctionParent: parent appended to the child's parents. */
  function AddParent(sites: seq<SiteItem>, child: Loc, parent: Loc): (r: seq<SiteItem>)
    requires IsLoc(sites, child)
    ensures forall m :: IsLoc(r, m) <==> IsLoc(sites, m)
  {
    var fi := FunctionAt(sites, child);
    WithFunction(sites, child, fi.(parents := fi.parents + [parent]))
  }

  /** addFunctionParent appends to the child's parents ... */
  lemma AddParentAt(sites: seq<SiteItem>, child: Loc, parent: Loc)
    requires IsLoc(sites, child)
    ensures FunctionAt(AddParent(sites, child, parent), child)
            == FunctionAt(sites, child).(parents := FunctionAt(sites, child).parents + [parent])
  {
    var fi := FunctionAt(sites, child);
    WithFunctionAt(sites, child, fi.(parents := fi.parents + [parent]));
  }

  /** ... and leaves every other function as it was ... */
  lemma AddParentOther(sites: seq<SiteItem>, child: Loc, parent: Loc, m: Loc)
    requires IsLoc(sites, child) && IsLoc(sites, m) && m != child
    ensures FunctionAt(AddParent(sites, child, parent), m) == FunctionAt(sites, m)
  {
    var fi := FunctionAt(sites, child);
    WithFunctionAt(sites, child, fi.(parents := fi.parents + [parent]));
  }

  /** ... and so leaves what find answers as it was. */
  lemma AddParentNames(sites: seq<SiteItem>, child: Loc, parent: Loc)
    requires IsLoc(sites, child)
    ensures SameTree(sites, AddParent(sites, child, parent))
  {
    var fi := FunctionAt(sites, child);
    WithFunctionNames(sites, child, fi.(parents := fi.parents + [parent]));
  }

  // ---------------------------------------------------------------------
  // The pending-parent list

  /** retryAddParents, entry by entry from the head of the list: an entry
      whose parent is now found connects it and leaves the list, the others
      stay. */
  function Retry(sites: seq<SiteItem>, pending: seq<PendingAddParent>): (r: (seq<SiteItem>, seq<PendingAddParent>))
    requires ChildrenIn(sites, pending)
    ensures forall m :: IsLoc(r.0, m) <==> IsLoc(sites, m)
    decreases |pending|
  {
    if pending == [] then (sites, [])
    else
      var e := pending[0];
      match FindIn(sites, e.target)
      case Some(p) => Retry(AddParent(sites, e.child, p), pending[1..])
      case None =>
        var r := Retry(sites, pending[1..]);
        (r.0, [e] + r.1)
  }

  /** The items the targets name, where they exist, in order. */
  function Found(sites: seq<SiteItem>, targets: seq<Ref>): seq<Loc>
  {
    if targets == [] then []
    else
      (match FindIn(sites, targets[0]) case Some(p) => [p] case None => [])
      + Found(sites, targets[1..])
  }

  /** The targets of the entries waiting for child l, in order. */
  function TargetsFor(pending: seq<PendingAddParent>, l: Loc): seq<Ref>
  {
    if pending == [] then []
    else (if pending[0].child == l then [pending[0].target] else []) + TargetsFor(pending[1..], l)
  }

  /** The entries whose parent is not in the tree, in order. */
  function Unresolved(sites: seq<SiteItem>, pending: seq<PendingAddParent>): seq<PendingAddParent>
  {
    if pending == [] then []
    else (if FindIn(sites, pending[0].target).None? then [pending[0]] else []) + Unresolved(sites, pending[1..])
  }

  /** The entries of every child but c, in order. */
  function Without(pending: seq<PendingAddParent>, c: Loc): seq<PendingAddParent>
  {
    if pending == [] then []
    else (if pending[0].child == c then [] else [pending[0]]) + Without(pending[1..], c)
  }

  /** The entries of child d, in order. */
  function EntriesOf(pending: seq<PendingAddParent>, d: Loc): seq<PendingAddParent>
  {
    if pending == [] then []
    else (if pending[0].child == d then [pending[0]] else []) + EntriesOf(pending[1..], d)
  }

  /** Unresolved depends on the names of the tree only. */
  lemma {:induction false} UnresolvedSameTree(a: seq<SiteItem>, b: seq<SiteItem>, pending: seq<PendingAddParent>)
    requires SameTree(a, b)
    ensures Unresolved(a, pending) == Unresolved(b, pending)
    decreases |pending|
  {
    if pending != [] {
      FindSameTree(a, b, pending[0].target);
      UnresolvedSameTree(a, b, pending[1..]);
    }
  }

  lemma FoundCons(sites: seq<SiteItem>, t: Ref, rest: seq<Ref>)
    ensures Found(sites, [t] + rest)
            == (match FindIn(sites, t) case Some(p) => [p] case None => []) + Found(sites, rest)
  {
    assert ([t] + rest)[1..] == rest;
  }

  /** retryAddParents removes exactly the entries whose parent find now
      locates and keeps the others in their order; each child gains, in list
      order, the parents its resolved entries name; nothing else of the tree
      changes. */
  lemma RetrySpec(sites: seq<SiteItem>, pending: seq<PendingAddParent>)
    requires ChildrenIn(sites, pending)
    ensures var r := Retry(sites, pending);
      && r.1 == Unresolved(sites, pending)
      && Kept(sites, r.0)
      && (forall l :: IsLoc(sites, l) ==>
            FunctionAt(r.0, l) == FunctionAt(sites, l).(parents := FunctionAt(sites, l).parents
                                                                  + Found(sites, TargetsFor(pending, l))))
  {
    RetryKept(sites, pending);
    RetryPending(sites, pending);
    forall l | IsLoc(sites, l)
      ensures FunctionAt(Retry(sites, pending).0, l)
              == FunctionAt(sites, l).(parents := FunctionAt(sites, l).parents + Found(sites, TargetsFor(pending, l)))
    {
      RetryParents(sites, pending, l);
    }
  }

  lemma {:induction false} RetryKept(sites: seq<SiteItem>, pending: seq<PendingAddParent>)
    requires ChildrenIn(sites, pending)
    ensures Kept(sites, Retry(sites, pending).0)
    decreases |pending|
  {
    if pending == [] {
      KeptSelf(sites);
    } else {
      var e := pending[0];
      match FindIn(sites, e.target)
      case Some(p) =>
        var fi := FunctionAt(sites, e.child);
        var s1 := AddParent(sites, e.child, p);
        WithFunctionKeeps(sites, e.child, fi.(parents := fi.parents + [p]));
        RetryKept(s1, pending[1..]);
        KeptTrans(sites, s1, Retry(s1, pending[1..]).0);
      case None =>
        RetryKept(sites, pending[1..]);
    }
  }

  lemma {:induction false} RetryPending(sites: seq<SiteItem>, pending: seq<PendingAddParent>)
    requires ChildrenIn(sites, pending)
    ensures Retry(sites, pending).1 == Unresolved(sites, pending)
    decreases |pending|
  {
    if pending != [] {
      var e := pending[0];
      match FindIn(sites, e.target)
      case Some(p) =>
        var s1 := AddParent(sites, e.child, p);
        RetryPending(s1, pending[1..]);
        UnresolvedAfterAddParent(sites, e.child, p, pending[1..]);
      case None =>
        RetryPending(sites, pending[1..]);
    }
  }

  lemma {:induction false} RetryParents(sites: seq<SiteItem>, pending: seq<PendingAddParent>, l: Loc)
    requires ChildrenIn(sites, pending) && IsLoc(sites, l)
    ensures FunctionAt(Retry(sites, pending).0, l)
            == FunctionAt(sites, l).(parents := FunctionAt(sites, l).parents + Found(sites, TargetsFor(pending, l)))
    decreases |pending|, 1
  {
    if pending == [] {
      assert TargetsFor(pending, l) == [];
    } else {
      match FindIn(sites, pending[0].target)
      case Some(p) => RetryParentsFound(sites, pending, l, p);
      case None =>
        RetryParents(sites, pending[1..], l);
        FoundStep(sites, pending, l);
        EmptyPrefix(Found(sites, TargetsFor(pending[1..], l)));
    }
  }

  lemma {:induction false} RetryParentsFound(sites: seq<SiteItem>, pending: seq<PendingAddParent>, l: Loc, p: Loc)
    requires ChildrenIn(sites, pending) && IsLoc(sites, l)
    requires pending != [] && FindIn(sites, pending[0].target) == Some(p)
    ensures FunctionAt(Retry(sites, pending).0, l)
            == FunctionAt(sites, l).(parents := FunctionAt(sites, l).parents + Found(sites, TargetsFor(pending, l)))
    decreases |pending|, 0
  {
    var e := pending[0];
    var rest := pending[1..];
    var s1 := AddParent(sites, e.child, p);
    RetryParents(s1, rest, l);
    FoundAfterAddParent(sites, e.child, p, TargetsFor(rest, l));
    FoundStep(sites, pending, l);
    if e.child == l {
      AddParentAt(sites, l, p);
      ParentsCompose(FunctionAt(sites, l), FunctionAt(s1, l), FunctionAt(Retry(s1, rest).0, l),
                     p, Found(sites, TargetsFor(rest, l)));
    } else {
      AddParentOther(sites, e.child, p, l);
      EmptyPrefix(Found(sites, TargetsFor(rest, l)));
    }
  }

  /** The state retryAddParents' walk over the list leads to from its
      position i: the entries before i stay, the rest is retried. */
  function RetryFrom(sites: seq<SiteItem>, pending: seq<PendingAddParent>, i: nat)
    : (seq<SiteItem>, seq<PendingAddParent>)
    requires i <= |pending| && ChildrenIn(sites, pending)
  {
    assert forall e :: e in pending[i..] ==> e in pending;
    var r := Retry(sites, pending[i..]);
    (r.0, pending[..i] + r.1)
  }

  /** Erasing a found entry at i after connecting it leaves the outcome as
      it was. */
  lemma RetryFromFound(sites: seq<SiteItem>, pending: seq<PendingAddParent>, i: nat, p: Loc)
    requires i < |pending| && ChildrenIn(sites, pending)
    requires FindIn(sites, pending[i].target) == Some(p)
    ensures IsLoc(sites, pending[i].child)
    ensures var s1 := AddParent(sites, pending[i].child, p);
      var p1 := pending[..i] + pending[i + 1..];
      && ChildrenIn(s1, p1)
      && RetryFrom(s1, p1, i) == RetryFrom(sites, pending, i)
  {
    assert pending[i] in pending;
    var s1 := AddParent(sites, pending[i].child, p);
    var p1 := pending[..i] + pending[i + 1..];
    assert forall e :: e in p1 ==> e in pending;
    assert p1[i..] == pending[i..][1..];
    assert p1[..i] == pending[..i];
  }

  /** Stepping over a missing entry leaves the outcome as it was. */
  lemma RetryFromMissing(sites: seq<SiteItem>, pending: seq<PendingAddParent>, i: nat)
    requires i < |pending| && ChildrenIn(sites, pending)
    requires FindIn(sites, pending[i].target).None?
    ensures RetryFrom(sites, pending, i + 1) == RetryFrom(sites, pending, i)
  {
    var r := Retry(sites, pending[i + 1..]);
    assert pending[i..][1..] == pending[i + 1..];
    assert pending[..i + 1] == pending[..i] + [pending[i]];
    AppendOne(pending[..i], pending[i], r.1);
  }

  /** At the end of the list the walk is done. */
  lemma RetryFromEnd(sites: seq<SiteItem>, pending: seq<PendingAddParent>)
    requires ChildrenIn(sites, pending)
    ensures RetryFrom(sites, pending, |pending|) == (sites, pending)
  {
    assert pending[|pending|..] == [];
    assert pending[..|pending|] + [] == pending;
  }

  /** At the head of the list the walk is the whole retry. */
  lemma RetryFromStart(sites: seq<SiteItem>, pending: seq<PendingAddParent>)
    requires ChildrenIn(sites, pending)
    ensures RetryFrom(sites, pending, 0) == Retry(sites, pending)
  {
    assert pending[0..] == pending;
    assert pending[..0] + Retry(sites, pending).1 == Retry(sites, pending).1;
  }

  /** retryAddParents keeps the invariant. */
  lemma RetryConsistent(sites: seq<SiteItem>, pending: seq<PendingAddParent>)
    requires Consistent(sites, pending)
    ensures Consistent(Retry(sites, pending).0, Retry(sites, pending).1)
  {
    RetryKept(sites, pending);
    RetryPending(sites, pending);
    UnresolvedIn(sites, pending);
    ChildrenExtend(sites, Retry(sites, pending).0, Retry(sites, pending).1);
  }

  /** One entry's share of the parents the list resolves for l. */
  lemma FoundStep(sites: seq<SiteItem>, pending: seq<PendingAddParent>, l: Loc)
    requires pending != []
    ensures Found(sites, TargetsFor(pending, l))
            == (if pending[0].child == l then
                  (match FindIn(sites, pending[0].target) case Some(p) => [p] case None => [])
                else [])
               + Found(sites, TargetsFor(pending[1..], l))
  {
    if pending[0].child == l {
      FoundCons(sites, pending[0].target, TargetsFor(pending[1..], l));
    } else {
      assert TargetsFor(pending, l) == TargetsFor(pending[1..], l);
    }
  }

  /** Waiting children stay items of a tree that grows. */
  lemma ChildrenExtend(a: seq<SiteItem>, b: seq<SiteItem>, pending: seq<PendingAddParent>)
    requires Extends(a, b) && ChildrenIn(a, pending)
    ensures ChildrenIn(b, pending)
  {
    forall e | e in pending ensures IsLoc(b, e.child) {
      ExtendsLoc(a, b, e.child);
    }
  }

  /** removeParents' walk over the list keeps exactly the entries of the
      other children, each child's own entries in their order. */
  lemma {:induction false} WithoutSpec(pending: seq<PendingAddParent>, c: Loc)
    ensures forall e :: e in Without(pending, c) <==> e in pending && e.child != c
    ensures forall d :: d != c ==> EntriesOf(Without(pending, c), d) == EntriesOf(pending, d)
    ensures EntriesOf(Without(pending, c), c) == []
    decreases |pending|
  {
    if pending != [] {
      WithoutSpec(pending[1..], c);
      var e := pending[0];
      var w := Without(pending[1..], c);
      if e.child != c {
        assert Without(pending, c) == [e] + w;
        forall d ensures EntriesOf([e] + w, d) == (if e.child == d then [e] else []) + EntriesOf(w, d) {
          assert ([e] + w)[1..] == w;
        }
      } else {
        assert Without(pending, c) == w;
      }
      assert forall x :: x in pending <==> x == e || x in pending[1..];
    }
  }

  /** Erasing an entry of child c at i leaves the entries removeParents
      keeps as they were. */
  lemma WithoutDrop(pending: seq<PendingAddParent>, i: nat, c: Loc)
    requires i < |pending| && pending[i].child == c
    ensures var p1 := pending[..i] + pending[i + 1..];
      p1[..i] + Without(p1[i..], c) == pending[..i] + Without(pending[i..], c)
  {
    var p1 := pending[..i] + pending[i + 1..];
    assert p1[..i] == pending[..i];
    assert p1[i..] == pending[i..][1..];
  }

  /** Stepping over an entry of another child keeps it. */
  lemma WithoutKeep(pending: seq<PendingAddParent>, i: nat, c: Loc)
    requires i < |pending| && pending[i].child != c
    ensures pending[..i + 1] + Without(pending[i + 1..], c) == pending[..i] + Without(pending[i..], c)
  {
    assert pending[i..][1..] == pending[i + 1..];
    assert pending[..i + 1] == pending[..i] + [pending[i]];
    AppendOne(pending[..i], pending[i], Without(pending[i + 1..], c));
  }

  // ---------------------------------------------------------------------
  // Function properties

  /** Where setFunctionProperty sets a property other than the worker: the
      new properties and the changed bits (ANYTHING_CHANGED for the runtime
      statistics, STORAGE_CHANGED for the archive properties); a value of the
      wrong type or an unknown property changes nothing. */
  function SetField(f: Function, p: string, v: ConfValue): (Function, nat)
  {
    if p == "stats/runtime" then
      (match v case RuntimeStatsValue(s) => (f.(runtimeStats := Some(s)), ANYTHING_CHANGED) case _ => (f, 0))
    else if p == "archives/times" then
      (match v case TimeRangeValue(t) => (f.(archivedTimes := Some(t)), STORAGE_CHANGED) case _ => (f, 0))
    else if p == "archives/num_files" then
      (match v case RamenValueValue(VI64(n)) => (f.(numArcFiles := Some(n)), STORAGE_CHANGED) case _ => (f, 0))
    else if p == "archives/current_size" then
      (match v case RamenValueValue(VI64(n)) => (f.(numArcBytes := Some(n)), STORAGE_CHANGED) case _ => (f, 0))
    else if p == "archives/alloc_size" then
      (match v case RamenValueValue(VI64(n)) => (f.(allocArcBytes := Some(n)), STORAGE_CHANGED) case _ => (f, 0))
    else (f, 0)
  }

  /** Where delFunctionProperty clears a property other than the worker:
      only a property that is set is cleared and signalled. */
  function DelField(f: Function, p: string): (Function, nat)
  {
    if p == "stats/runtime" then
      (if f.runtimeStats.Some? then (f.(runtimeStats := None), ANYTHING_CHANGED) else (f, 0))
    else if p == "archives/times" then
      (if f.archivedTimes.Some? then (f.(archivedTimes := None), STORAGE_CHANGED) else (f, 0))
    else if p == "archives/num_files" then
      (if f.numArcFiles.Some? then (f.(numArcFiles := None), STORAGE_CHANGED) else (f, 0))
    else if p == "archives/current_size" then
      (if f.numArcBytes.Some? then (f.(numArcBytes := None), STORAGE_CHANGED) else (f, 0))
    else if p == "archives/alloc_size" then
      (if f.allocArcBytes.Some? then (f.(allocArcBytes := None), STORAGE_CHANGED) else (f, 0))
    else (f, 0)
  }

  /** Whether property p of f is set. */
  predicate Has(f: Function, p: string)
  {
    || (p == "worker" && f.worker.Some?)
    || (p == "stats/runtime" && f.runtimeStats.Some?)
    || (p == "archives/times" && f.archivedTimes.Some?)
    || (p == "archives/num_files" && f.numArcFiles.Some?)
    || (p == "archives/current_size" && f.numArcBytes.Some?)
    || (p == "archives/alloc_size" && f.allocArcBytes.Some?)
  }

  /** Deleting signals exactly when the property was set, and then leaves it
      unset; deleting an unset property changes nothing. Deleting twice is
      deleting once. */
  lemma DelFieldSpec(f: Function, p: string)
    requires p != "worker"
    ensures var r := DelField(f, p);
      && (r.1 != 0 <==> Has(f, p))
      && (r.1 == 0 <==> r.0 == f)
      && !Has(r.0, p)
      && DelField(r.0, p) == (r.0, 0)
  {
  }

  /** A set that signals makes the property set, and a delete after it
      clears it again with the same signal: set then delete is delete. */
  lemma SetThenDelete(f: Function, p: string, v: ConfValue)
    requires p != "worker"
    ensures var r := SetField(f, p, v);
      && (r.1 != 0 ==> Has(r.0, p) && DelField(r.0, p) == (DelField(f, p).0, r.1))
      && (r.1 == 0 ==> r.0 == f)
  {
  }

  /** The own names a worker's parent reference resolves against: a
      reference on the function's own site names the parent itself, one on
      another site names the same program and function there. */
  function Target(ref: Ref, own: Ref): Ref
  {
    if ref.site == own.site then ref else Ref(ref.site, own.program, own.func)
  }

  /** The loop over the parent references of a worker set on the function
      at l: each target found is connected at once, the others wait. */
  function AddRefs(sites: seq<SiteItem>, pending: seq<PendingAddParent>, l: Loc, own: Ref, refs: seq<Ref>)
    : (r: (seq<SiteItem>, seq<PendingAddParent>))
    requires IsLoc(sites, l)
    ensures forall m :: IsLoc(r.0, m) <==> IsLoc(sites, m)
    decreases |refs|
  {
    if refs == [] then (sites, pending)
    else
      var t := Target(refs[0], own);
      match FindIn(sites, t)
      case Some(p) => AddRefs(AddParent(sites, l, p), pending, l, own, refs[1..])
      case None => AddRefs(sites, pending + [PendingAddParent(l, t)], l, own, refs[1..])
  }

  /** The targets of refs for a function named own. */
  function Targets(refs: seq<Ref>, own: Ref): seq<Ref>
  {
    seq(|refs|, i requires 0 <= i < |refs| => Target(refs[i], own))
  }

  /** The entries for child l of the targets that are missing, in order. */
  function Waiting(sites: seq<SiteItem>, l: Loc, targets: seq<Ref>): seq<PendingAddParent>
  {
    if targets == [] then []
    else (if FindIn(sites, targets[0]).None? then [PendingAddParent(l, targets[0])] else [])
         + Waiting(sites, l, targets[1..])
  }

  /** Setting a worker appends to the function's parents the items its
      targets name, in order, and appends to the list an entry for each
      missing target, in order; nothing else changes. */
  lemma AddRefsSpec(sites: seq<SiteItem>, pending: seq<PendingAddParent>, l: Loc, own: Ref, refs: seq<Ref>)
    requires IsLoc(sites, l)
    ensures var r := AddRefs(sites, pending, l, own, refs);
      && Kept(sites, r.0)
      && FunctionAt(r.0, l) == FunctionAt(sites, l).(parents := FunctionAt(sites, l).parents
                                                              + Found(sites, Targets(refs, own)))
      && (forall m :: IsLoc(sites, m) && m != l ==> FunctionAt(r.0, m) == FunctionAt(sites, m))
      && r.1 == pending + Waiting(sites, l, Targets(refs, own))
  {
    AddRefsKept(sites, pending, l, own, refs);
    AddRefsParents(sites, pending, l, own, refs);
    AddRefsPending(sites, pending, l, own, refs);
    forall m | IsLoc(sites, m) && m != l
      ensures FunctionAt(AddRefs(sites, pending, l, own, refs).0, m) == FunctionAt(sites, m)
    {
      AddRefsOthers(sites, pending, l, own, refs, m);
    }
  }

  lemma TargetsCons(refs: seq<Ref>, own: Ref)
    requires refs != []
    ensures Targets(refs, own) == [Target(refs[0], own)] + Targets(refs[1..], own)
  {
  }

  lemma {:induction false} AddRefsKept(sites: seq<SiteItem>, pending: seq<PendingAddParent>, l: Loc, own: Ref, refs: seq<Ref>)
    requires IsLoc(sites, l)
    ensures Kept(sites, AddRefs(sites, pending, l, own, refs).0)
    decreases |refs|
  {
    if refs == [] {
      KeptSelf(sites);
    } else {
      var t := Target(refs[0], own);
      match FindIn(sites, t)
      case Some(p) =>
        var fi := FunctionAt(sites, l);
        var s1 := AddParent(sites, l, p);
        WithFunctionKeeps(sites, l, fi.(parents := fi.parents + [p]));
        AddRefsKept(s1, pending, l, own, refs[1..]);
        KeptTrans(sites, s1, AddRefs(s1, pending, l, own, refs[1..]).0);
      case None =>
        AddRefsKept(sites, pending + [PendingAddParent(l, t)], l, own, refs[1..]);
    }
  }

  lemma {:induction false} AddRefsParents(sites: seq<SiteItem>, pending: seq<PendingAddParent>, l: Loc, own: Ref, refs: seq<Ref>)
    requires IsLoc(sites, l)
    ensures var r := AddRefs(sites, pending, l, own, refs);
      && FunctionAt(r.0, l) == FunctionAt(sites, l).(parents := FunctionAt(sites, l).parents
                                                              + Found(sites, Targets(refs, own)))
    decreases |refs|, 1
  {
    if refs == [] {
      assert Targets(refs, own) == [];
    } else {
      match FindIn(sites, Target(refs[0], own))
      case Some(p) => AddRefsParentsFound(sites, pending, l, own, refs, p);
      case None => AddRefsParentsMissing(sites, pending, l, own, refs);
    }
  }

  lemma {:induction false} AddRefsParentsFound(sites: seq<SiteItem>, pending: seq<PendingAddParent>, l: Loc, own: Ref, refs: seq<Ref>, p: Loc)
    requires IsLoc(sites, l) && refs != [] && FindIn(sites, Target(refs[0], own)) == Some(p)
    ensures var r := AddRefs(sites, pending, l, own, refs);
      && FunctionAt(r.0, l) == FunctionAt(sites, l).(parents := FunctionAt(sites, l).parents
                                                              + Found(sites, Targets(refs, own)))
    decreases |refs|, 0
  {
    var t := Target(refs[0], own);
    var later := Targets(refs[1..], own);
    TargetsCons(refs, own);
    FoundCons(sites, t, later);
    var s1 := AddParent(sites, l, p);
    AddParentAt(sites, l, p);
    AddRefsParents(s1, pending, l, own, refs[1..]);
    FoundAfterAddParent(sites, l, p, later);
    ParentsCompose(FunctionAt(sites, l), FunctionAt(s1, l), FunctionAt(AddRefs(s1, pending, l, own, refs[1..]).0, l),
                   p, Found(sites, later));
  }

  /** Two appends to a function's parents make one. */
  lemma ParentsCompose(fi: FunctionItem, f1: FunctionItem, fr: FunctionItem, p: Loc, later: seq<Loc>)
    requires f1 == fi.(parents := fi.parents + [p])
    requires fr == f1.(parents := f1.parents + later)
    ensures fr == fi.(parents := fi.parents + ([p] + later))
  {
    assert fi.parents + [p] + later == fi.parents + ([p] + later);
  }

  lemma {:induction false} AddRefsParentsMissing(sites: seq<SiteItem>, pending: seq<PendingAddParent>, l: Loc, own: Ref, refs: seq<Ref>)
    requires IsLoc(sites, l) && refs != [] && FindIn(sites, Target(refs[0], own)).None?
    ensures var r := AddRefs(sites, pending, l, own, refs);
      && FunctionAt(r.0, l) == FunctionAt(sites, l).(parents := FunctionAt(sites, l).parents
                                                              + Found(sites, Targets(refs, own)))
    decreases |refs|, 0
  {
    var t := Target(refs[0], own);
    TargetsCons(refs, own);
    FoundCons(sites, t, Targets(refs[1..], own));
    AddRefsParents(sites, pending + [PendingAddParent(l, t)], l, own, refs[1..]);
  }

  lemma {:induction false} AddRefsOthers(sites: seq<SiteItem>, pending: seq<PendingAddParent>, l: Loc, own: Ref, refs: seq<Ref>, m: Loc)
    requires IsLoc(sites, l) && IsLoc(sites, m) && m != l
    ensures FunctionAt(AddRefs(sites, pending, l, own, refs).0, m) == FunctionAt(sites, m)
    decreases |refs|
  {
    if refs != [] {
      var t := Target(refs[0], own);
      match FindIn(sites, t)
      case Some(p) =>
        AddParentOther(sites, l, p, m);
        AddRefsOthers(AddParent(sites, l, p), pending, l, own, refs[1..], m);
      case None =>
        AddRefsOthers(sites, pending + [PendingAddParent(l, t)], l, own, refs[1..], m);
    }
  }

  lemma {:induction false} AddRefsPending(sites: seq<SiteItem>, pending: seq<PendingAddParent>, l: Loc, own: Ref, refs: seq<Ref>)
    requires IsLoc(sites, l)
    ensures AddRefs(sites, pending, l, own, refs).1 == pending + Waiting(sites, l, Targets(refs, own))
    decreases |refs|, 1
  {
    if refs == [] {
      assert Targets(refs, own) == [];
    } else {
      match FindIn(sites, Target(refs[0], own))
      case Some(p) => AddRefsPendingFound(sites, pending, l, own, refs, p);
      case None => AddRefsPendingMissing(sites, pending, l, own, refs);
    }
  }

  lemma {:induction false} AddRefsPendingFound(sites: seq<SiteItem>, pending: seq<PendingAddParent>, l: Loc, own: Ref, refs: seq<Ref>, p: Loc)
    requires IsLoc(sites, l) && refs != [] && FindIn(sites, Target(refs[0], own)) == Some(p)
    ensures AddRefs(sites, pending, l, own, refs).1 == pending + Waiting(sites, l, Targets(refs, own))
    decreases |refs|, 0
  {
    var t := Target(refs[0], own);
    var later := Targets(refs[1..], own);
    TargetsCons(refs, own);
    WaitingCons(sites, l, t, later);
    var s1 := AddParent(sites, l, p);
    AddRefsPending(s1, pending, l, own, refs[1..]);
    WaitingAfterAddParent(sites, l, p, l, later);
    EmptyPrefix(Waiting(sites, l, later));
  }

  lemma {:induction false} AddRefsPendingMissing(sites: seq<SiteItem>, pending: seq<PendingAddParent>, l: Loc, own: Ref, refs: seq<Ref>)
    requires IsLoc(sites, l) && refs != [] && FindIn(sites, Target(refs[0], own)).None?
    ensures AddRefs(sites, pending, l, own, refs).1 == pending + Waiting(sites, l, Targets(refs, own))
    decreases |refs|, 0
  {
    var t := Target(refs[0], own);
    var later := Targets(refs[1..], own);
    TargetsCons(refs, own);
    WaitingCons(sites, l, t, later);
    AddRefsPending(sites, pending + [PendingAddParent(l, t)], l, own, refs[1..]);
    AppendOne(pending, PendingAddParent(l, t), Waiting(sites, l, later));
  }

  lemma WaitingCons(sites: seq<SiteItem>, l: Loc, t: Ref, rest: seq<Ref>)
    ensures Waiting(sites, l, [t] + rest)
            == (if FindIn(sites, t).None? then [PendingAddParent(l, t)] else []) + Waiting(sites, l, rest)
  {
    assert ([t] + rest)[1..] == rest;
  }

  lemma EmptyPrefix<T>(a: seq<T>)
    ensures [] + a == a
  {
  }

  lemma WaitingAfterAddParent(sites: seq<SiteItem>, child: Loc, parent: Loc, l: Loc, targets: seq<Ref>)
    requires IsLoc(sites, child)
    ensures Waiting(AddParent(sites, child, parent), l, targets) == Waiting(sites, l, targets)
  {
    AddParentNames(sites, child, parent);
    WaitingSameTree(AddParent(sites, child, parent), sites, l, targets);
  }

  lemma AppendOne<T>(a: seq<T>, x: T, b: seq<T>)
    ensures a + [x] + b == a + ([x] + b)
  {
  }



  lemma FoundAfterAddParent(sites: seq<SiteItem>, child: Loc, parent: Loc, targets: seq<Ref>)
    requires IsLoc(sites, child)
    ensures Found(AddParent(sites, child, parent), targets) == Found(sites, targets)
  {
    AddParentNames(sites, child, parent);
    FoundSameTree(AddParent(sites, child, parent), sites, targets);
  }


  lemma UnresolvedAfterAddParent(sites: seq<SiteItem>, child: Loc, parent: Loc, pending: seq<PendingAddParent>)
    requires IsLoc(sites, child)
    ensures Unresolved(AddParent(sites, child, parent), pending) == Unresolved(sites, pending)
  {
    AddParentNames(sites, child, parent);
    UnresolvedSameTree(AddParent(sites, child, parent), sites, pending);
  }

  lemma {:induction false} FoundSameTree(a: seq<SiteItem>, b: seq<SiteItem>, targets: seq<Ref>)
    requires SameTree(a, b)
    ensures Found(a, targets) == Found(b, targets)
    decreases |targets|
  {
    if targets != [] {
      FindSameTree(a, b, targets[0]);
      FoundSameTree(a, b, targets[1..]);
    }
  }

  lemma {:induction false} WaitingSameTree(a: seq<SiteItem>, b: seq<SiteItem>, l: Loc, targets: seq<Ref>)
    requires SameTree(a, b)
    ensures Waiting(a, l, targets) == Waiting(b, l, targets)
    decreases |targets|
  {
    if targets != [] {
      FindSameTree(a, b, targets[0]);
      WaitingSameTree(a, b, l, targets[1..]);
    }
  }

  /** Every parent found carries the names of a target, and each target is
      either found or waiting: no reference is dropped. */
  lemma {:induction false} FoundOrWaiting(sites: seq<SiteItem>, l: Loc, targets: seq<Ref>)
    ensures |Found(sites, targets)| + |Waiting(sites, l, targets)| == |targets|
    ensures forall p :: p in Found(sites, targets) ==> IsLoc(sites, p) && NamesAt(sites, p) in targets
    ensures forall e :: e in Waiting(sites, l, targets) ==>
              e.child == l && e.target in targets && FindIn(sites, e.target).None?
    decreases |targets|
  {
    if targets != [] {
      FoundOrWaiting(sites, l, targets[1..]);
      FindSound(sites, targets[0]);
      assert forall x :: x in targets[1..] ==> x in targets;
    }
  }

  /** setFunctionProperty: the new tree, list and changed bits. A worker
      value sets the worker, then connects or queues each of its parent
      references (STORAGE_CHANGED); the other properties as SetField. */
  function SetProperty(sites: seq<SiteItem>, pending: seq<PendingAddParent>, l: Loc, p: string, v: ConfValue)
    : (r: (seq<SiteItem>, seq<PendingAddParent>, nat))
    requires IsLoc(sites, l)
    ensures forall m :: IsLoc(r.0, m) <==> IsLoc(sites, m)
  {
    var fi := FunctionAt(sites, l);
    if p == "worker" then
      match v
      case WorkerValue(w) =>
        var s1 := WithFunction(sites, l, fi.(shared := fi.shared.(worker := Some(w))));
        var r := AddRefs(s1, pending, l, NamesAt(sites, l), w.parentRefs);
        (r.0, r.1, STORAGE_CHANGED)
      case _ => (sites, pending, 0)
    else
      var (f, changed) := SetField(fi.shared, p, v);
      if changed == 0 then (sites, pending, 0)
      else (WithFunction(sites, l, fi.(shared := f)), pending, changed)
  }

  /** delFunctionProperty: deleting the worker disconnects the function from
      its parents and drops its waiting entries (STORAGE_CHANGED); the other
      properties as DelField; an unset property changes nothing. */
  function DelProperty(sites: seq<SiteItem>, pending: seq<PendingAddParent>, l: Loc, p: string)
    : (r: (seq<SiteItem>, seq<PendingAddParent>, nat))
    requires IsLoc(sites, l)
    ensures forall m :: IsLoc(r.0, m) <==> IsLoc(sites, m)
  {
    var fi := FunctionAt(sites, l);
    if p == "worker" then
      if fi.shared.worker.Some? then
        (WithFunction(sites, l, fi.(parents := [], shared := fi.shared.(worker := None))),
         Without(pending, l), STORAGE_CHANGED)
      else (sites, pending, 0)
    else
      var (f, changed) := DelField(fi.shared, p);
      if changed == 0 then (sites, pending, 0)
      else (WithFunction(sites, l, fi.(shared := f)), pending, changed)
  }

  /** Setting a property keeps the tree and its invariant, changes no other
      function, and makes the property set whenever it signals; setting a
      worker is always signalled and connects its found targets. */
  lemma SetPropertySpec(sites: seq<SiteItem>, pending: seq<PendingAddParent>, l: Loc, p: string, v: ConfValue)
    requires Consistent(sites, pending) && IsLoc(sites, l)
    ensures var r := SetProperty(sites, pending, l, p, v);
      && Consistent(r.0, r.1)
      && Kept(sites, r.0)
      && (forall m :: IsLoc(sites, m) && m != l ==> FunctionAt(r.0, m) == FunctionAt(sites, m))
      && (r.2 != 0 <==> (p == "worker" && v.WorkerValue?) || SetField(FunctionAt(sites, l).shared, p, v).1 != 0)
      && (r.2 != 0 ==> Has(FunctionAt(r.0, l).shared, p))
      && (r.2 == 0 ==> r.0 == sites && r.1 == pending)
      && (p == "worker" && v.WorkerValue? ==>
            FunctionAt(r.0, l).parents == FunctionAt(sites, l).parents
                                          + Found(sites, Targets(v.worker.parentRefs, NamesAt(sites, l))))
  {
    var fi := FunctionAt(sites, l);
    if p == "worker" {
      if v.WorkerValue? {
        var fi1 := fi.(shared := fi.shared.(worker := Some(v.worker)));
        var s1 := WithFunction(sites, l, fi1);
        WithFunctionKeeps(sites, l, fi1);
        var own := NamesAt(sites, l);
        AddRefsSpec(s1, pending, l, own, v.worker.parentRefs);
        var r := AddRefs(s1, pending, l, own, v.worker.parentRefs);
        KeptTrans(sites, s1, r.0);
        FoundSameTree(s1, sites, Targets(v.worker.parentRefs, own));
        FoundOrWaiting(s1, l, Targets(v.worker.parentRefs, own));
        ChildrenExtend(sites, r.0, pending);
      } else {
        KeptSelf(sites);
      }
    } else {
      var (f, changed) := SetField(fi.shared, p, v);
      SetThenDelete(fi.shared, p, v);
      if changed == 0 {
        KeptSelf(sites);
      } else {
        WithFunctionKeeps(sites, l, fi.(shared := f));
        ChildrenExtend(sites, WithFunction(sites, l, fi.(shared := f)), pending);
      }
    }
  }

  /** delFunctionProperty signals exactly when the property was set, and an
      unset property changes nothing: the state is unchanged exactly when
      nothing is signalled. Afterwards the property is unset; deleting the
      worker leaves the function without parents or waiting entries. */
  lemma DelPropertySpec(sites: seq<SiteItem>, pending: seq<PendingAddParent>, l: Loc, p: string)
    requires Consistent(sites, pending) && IsLoc(sites, l)
    ensures var r := DelProperty(sites, pending, l, p);
      && Consistent(r.0, r.1)
      && Kept(sites, r.0)
      && (forall m :: IsLoc(sites, m) && m != l ==> FunctionAt(r.0, m) == FunctionAt(sites, m))
      && (r.2 != 0 <==> Has(FunctionAt(sites, l).shared, p))
      && (r.2 == 0 <==> r.0 == sites && r.1 == pending)
      && !Has(FunctionAt(r.0, l).shared, p)
      && (p == "worker" && r.2 != 0 ==> FunctionAt(r.0, l).parents == [] && EntriesOf(r.1, l) == [])
  {
    var fi := FunctionAt(sites, l);
    if p == "worker" {
      if fi.shared.worker.Some? {
        var fi1 := fi.(parents := [], shared := fi.shared.(worker := None));
        WithFunctionKeeps(sites, l, fi1);
        WithoutSpec(pending, l);
        var s1 := WithFunction(sites, l, fi1);
        assert FunctionAt(s1, l) != FunctionAt(sites, l);
        ChildrenExtend(sites, s1, Without(pending, l));
      } else {
        KeptSelf(sites);
      }
    } else {
      var (f, changed) := DelField(fi.shared, p);
      DelFieldSpec(fi.shared, p);
      if changed == 0 {
        KeptSelf(sites);
      } else {
        var s1 := WithFunction(sites, l, fi.(shared := f));
        WithFunctionKeeps(sites, l, fi.(shared := f));
        assert FunctionAt(s1, l) != FunctionAt(sites, l);
        ChildrenExtend(sites, s1, pending);
      }
    }
  }

  /** Setting a worker a second time appends the found parents again: the
      parents of a worker set twice with the same references are those of
      the first setting followed by the same items once more. */
  lemma WorkerSetTwice(sites: seq<SiteItem>, pending: seq<PendingAddParent>, l: Loc, w: Worker)
    requires Consistent(sites, pending) && IsLoc(sites, l)
    ensures var r1 := SetProperty(sites, pending, l, "worker", WorkerValue(w));
      var r2 := SetProperty(r1.0, r1.1, l, "worker", WorkerValue(w));
      var found := Found(sites, Targets(w.parentRefs, NamesAt(sites, l)));
      FunctionAt(r2.0, l).parents == FunctionAt(sites, l).parents + found + found
  {
    var r1 := SetProperty(sites, pending, l, "worker", WorkerValue(w));
    SetPropertySpec(sites, pending, l, "worker", WorkerValue(w));
    SetPropertySpec(r1.0, r1.1, l, "worker", WorkerValue(w));
    FoundSameTree(r1.0, sites, Targets(w.parentRefs, NamesAt(sites, l)));
  }

  // ---------------------------------------------------------------------
  // Site properties

  /** setSiteProperty: is_master takes a boolean RamenValueValue; the bool
      says whether the site was signalled. Other properties and values
      change nothing. */
  function SiteSet(sites: seq<SiteItem>, i: nat, p: string, v: ConfValue): (seq<SiteItem>, bool)
    requires i < |sites|
  {
    match v
    case RamenValueValue(VBool(b)) =>
      if p == "is_master" then (sites[i := sites[i].(isMaster := b)], true) else (sites, false)
    case _ => (sites, false)
  }

  /** delSiteProperty: is_master is reset to false. */
  function SiteDel(sites: seq<SiteItem>, i: nat, p: string): seq<SiteItem>
    requires i < |sites|
  {
    if p == "is_master" then sites[i := sites[i].(isMaster := false)] else sites
  }

  /** The site properties touch nothing but the site's isMaster flag. */
  lemma SitePropertySpec(sites: seq<SiteItem>, i: nat, p: string, v: ConfValue)
    requires TreeOk(sites) && i < |sites|
    ensures var r := SiteSet(sites, i, p, v);
      && TreeOk(r.0) && SameTree(sites, r.0) && Extends(sites, r.0)
      && (r.1 <==> p == "is_master" && v.RamenValueValue? && v.v.VBool?)
      && (r.1 ==> r.0[i].isMaster == v.v.b)
      && (!r.1 ==> r.0 == sites)
      && (forall l :: IsLoc(sites, l) ==> IsLoc(r.0, l) && FunctionAt(r.0, l) == FunctionAt(sites, l))
    ensures var r := SiteDel(sites, i, p);
      && TreeOk(r) && SameTree(sites, r) && Extends(sites, r)
      && (p == "is_master" ==> !r[i].isMaster)
      && (p != "is_master" ==> r == sites)
      && (forall l :: IsLoc(sites, l) ==> IsLoc(r, l) && FunctionAt(r, l) == FunctionAt(sites, l))
  {
    ExtendsSelf(sites);
    var s := sites[i];
    assert SiteOk(s, i);
    assert SiteNames(sites[i := s.(isMaster := false)]) == SiteNames(sites);
    forall b: bool ensures SiteNames(sites[i := s.(isMaster := b)]) == SiteNames(sites)
                        && Extends(sites, sites[i := s.(isMaster := b)])
    {
      var r := sites[i := s.(isMaster := b)];
      assert SiteNames(r) == SiteNames(sites);
      assert SiteExtends(s, r[i]);
    }
  }

  // ---------------------------------------------------------------------
  // updateKey and deleteKey

  /** The function item a function key names, created when missing; a new
      function lets the waiting connections be retried. */
  function Locate(sites: seq<SiteItem>, pending: seq<PendingAddParent>, t: Ref)
    : (r: (seq<SiteItem>, seq<PendingAddParent>, Loc))
    requires Consistent(sites, pending)
    ensures IsLoc(r.0, r.2)
  {
    var (s3, l, created) := EnsureLoc(sites, t);
    ChildrenExtend(sites, s3, pending);
    if created then
      var r := Retry(s3, pending);
      (r.0, r.1, l)
    else (s3, pending, l)
  }

  /** updateKey: a key that does not parse changes nothing; otherwise the
      site, then the program, then the function are looked up and created
      when missing; the property then goes to the deepest item the key
      names (a program property changes nothing here). */
  function UpdateState(sites: seq<SiteItem>, pending: seq<PendingAddParent>, k: string, v: ConfValue)
    : (seq<SiteItem>, seq<PendingAddParent>)
    requires Consistent(sites, pending)
  {
    match ParseKey(k)
    case None => (sites, pending)
    case Some(pk) =>
      var (s1, i) := EnsureSite(sites, pk.site);
      if pk.program == "" then (SiteSet(s1, i, pk.property, v).0, pending)
      // The `else setProgramProperty` branch of GraphModel.cpp: ParseSound
      // shows that a parsed key naming a program also names a function, so
      // this branch is never taken.
      else if pk.func == "" then (EnsureProgram(s1, i, pk.program).0, pending)
      else
        var (s4, p4, l) := Locate(sites, pending, Ref(pk.site, pk.program, pk.func));
        var r := SetProperty(s4, p4, l, pk.property, v);
        (r.0, r.1)
  }

  /** Locating a function keeps the invariant, only appends to the tree,
      and find then answers with the located item. */
  lemma LocateSpec(sites: seq<SiteItem>, pending: seq<PendingAddParent>, t: Ref)
    requires Consistent(sites, pending)
    ensures var r := Locate(sites, pending, t);
      && Consistent(r.0, r.1) && Extends(sites, r.0)
      && FindIn(r.0, t) == Some(r.2)
  {
    EnsureLocSpec(sites, t);
    var (s3, l, created) := EnsureLoc(sites, t);
    ChildrenExtend(sites, s3, pending);
    if created {
      LocateRetried(sites, s3, pending, t, l);
    }
  }

  lemma LocateRetried(sites: seq<SiteItem>, s3: seq<SiteItem>, pending: seq<PendingAddParent>, t: Ref, l: Loc)
    requires Extends(sites, s3) && Consistent(s3, pending) && FindIn(s3, t) == Some(l)
    ensures var r := Retry(s3, pending);
      Consistent(r.0, r.1) && Extends(sites, r.0) && FindIn(r.0, t) == Some(l)
  {
    RetryKept(s3, pending);
    RetryPending(s3, pending);
    var r := Retry(s3, pending);
    FindSameTree(r.0, s3, t);
    ExtendsTrans(sites, s3, r.0);
    UnresolvedIn(s3, pending);
    ChildrenExtend(s3, r.0, r.1);
  }

  lemma {:induction false} UnresolvedIn(sites: seq<SiteItem>, pending: seq<PendingAddParent>)
    ensures forall e :: e in Unresolved(sites, pending) ==> e in pending
    decreases |pending|
  {
    if pending != [] {
      UnresolvedIn(sites, pending[1..]);
    }
  }

  /** updateKey keeps the invariant (so repeated updates never create two
      siblings of one name), only appends to the tree, and afterwards find
      locates the function a function key names. */
  lemma UpdateSpec(sites: seq<SiteItem>, pending: seq<PendingAddParent>, k: string, v: ConfValue)
    requires Consistent(sites, pending)
    ensures var r := UpdateState(sites, pending, k, v);
      && Consistent(r.0, r.1)
      && Extends(sites, r.0)
      && (ParseKey(k).None? ==> r == (sites, pending))
      && (ParseKey(k).Some? && ParseKey(k).value.program != "" ==>
            var pk := ParseKey(k).value;
            FindIn(r.0, Ref(pk.site, pk.program, pk.func)).Some?)
  {
    match ParseKey(k)
    case None => ExtendsSelf(sites);
    case Some(pk) =>
      if pk.program == "" {
        UpdateSiteSpec(sites, pending, pk.site, pk.property, v);
      } else {
        ParseSound(k);
        UpdateFunctionSpec(sites, pending, Ref(pk.site, pk.program, pk.func), pk.property, v);
      }
  }

  lemma UpdateSiteSpec(sites: seq<SiteItem>, pending: seq<PendingAddParent>, site: string, p: string, v: ConfValue)
    requires Consistent(sites, pending)
    ensures var (s1, i) := EnsureSite(sites, site);
      var r := SiteSet(s1, i, p, v).0;
      Consistent(r, pending) && Extends(sites, r)
  {
    EnsureSiteSpec(sites, site);
    var (s1, i) := EnsureSite(sites, site);
    SitePropertySpec(s1, i, p, v);
    ExtendsTrans(sites, s1, SiteSet(s1, i, p, v).0);
    ChildrenExtend(sites, SiteSet(s1, i, p, v).0, pending);
  }

  lemma UpdateFunctionSpec(sites: seq<SiteItem>, pending: seq<PendingAddParent>, t: Ref, p: string, v: ConfValue)
    requires Consistent(sites, pending)
    ensures var (s4, p4, l) := Locate(sites, pending, t);
      var r := SetProperty(s4, p4, l, p, v);
      Consistent(r.0, r.1) && Extends(sites, r.0) && FindIn(r.0, t).Some?
  {
    LocateSpec(sites, pending, t);
    var (s4, p4, l) := Locate(sites, pending, t);
    SetPropertySpec(s4, p4, l, p, v);
    var r := SetProperty(s4, p4, l, p, v);
    ExtendsTrans(sites, s4, r.0);
    FindSameTree(r.0, s4, t);
  }

  /** updateKey creates nothing when the items its key names all exist: the
      tree keeps its items and names. */
  lemma UpdateKnown(sites: seq<SiteItem>, pending: seq<PendingAddParent>, k: string, v: ConfValue)
    requires Consistent(sites, pending)
    requires ParseKey(k).Some?
    requires var pk := ParseKey(k).value;
      if pk.program == "" then pk.site in SiteNames(sites)
      else FindIn(sites, Ref(pk.site, pk.program, pk.func)).Some?
    ensures SameTree(sites, UpdateState(sites, pending, k, v).0)
  {
    var pk := ParseKey(k).value;
    EnsureSiteSpec(sites, pk.site);
    var (s1, i) := EnsureSite(sites, pk.site);
    if pk.program == "" {
      SitePropertySpec(s1, i, pk.property, v);
    } else {
      ParseSound(k);
      var t := Ref(pk.site, pk.program, pk.func);
      EnsureLocSpec(sites, t);
      SetPropertySpec(sites, pending, EnsureLoc(sites, t).1, pk.property, v);
    }
  }

  /** deleteKey: a key that does not parse, or whose site, program or
      function is missing, changes nothing; otherwise the property of the
      deepest item the key names is deleted. */
  function DeleteState(sites: seq<SiteItem>, pending: seq<PendingAddParent>, k: string)
    : (seq<SiteItem>, seq<PendingAddParent>)
  {
    match ParseKey(k)
    case None => (sites, pending)
    case Some(pk) =>
      match IndexOf(SiteNames(sites), pk.site)
      case None => (sites, pending)
      case Some(i) =>
        if pk.program == "" then (SiteDel(sites, i, pk.property), pending)
        else
          match IndexOf(ProgramNames(sites[i]), pk.program)
          case None => (sites, pending)
          case Some(j) =>
            // Never taken: a parsed key naming a program names a function.
            if pk.func == "" then (sites, pending)
            else
              match IndexOf(FunctionNames(sites[i].programs[j]), pk.func)
              case None => (sites, pending)
              case Some(f) =>
                var r := DelProperty(sites, pending, Loc(i, j, f), pk.property);
                (r.0, r.1)
  }

  /** deleteKey never creates an item, keeps the invariant, and changes
      nothing for a key that does not parse or names a missing item. */
  lemma DeleteSpec(sites: seq<SiteItem>, pending: seq<PendingAddParent>, k: string)
    requires Consistent(sites, pending)
    ensures var r := DeleteState(sites, pending, k);
      && Consistent(r.0, r.1)
      && SameTree(sites, r.0)
      && (ParseKey(k).None? ==> r == (sites, pending))
      && (ParseKey(k).Some? && ParseKey(k).value.site !in SiteNames(sites) ==> r == (sites, pending))
      && (ParseKey(k).Some? && ParseKey(k).value.program != "" ==>
            var pk := ParseKey(k).value;
            FindIn(sites, Ref(pk.site, pk.program, pk.func)).None? ==> r == (sites, pending))
  {
    match ParseKey(k)
    case None =>
    case Some(pk) =>
      match IndexOf(SiteNames(sites), pk.site)
      case None =>
      case Some(i) =>
        if pk.program == "" {
          SitePropertySpec(sites, i, pk.property, OtherValue(0));
          ChildrenExtend(sites, SiteDel(sites, i, pk.property), pending);
        } else {
          ParseSound(k);
          match IndexOf(ProgramNames(sites[i]), pk.program)
          case None =>
          case Some(j) =>
            match IndexOf(FunctionNames(sites[i].programs[j]), pk.func)
            case None =>
            case Some(f) =>
              DelPropertySpec(sites, pending, Loc(i, j, f), pk.property);
        }
  }
}
