// The GraphModel object of rmadmin/GraphModel.cpp: the site / program /
// function tree and the list of pending parent connections as fields, with
// the operations that update them in place. Each method is proved to leave
// the state the specification functions of GraphSpec describe, and so
// inherits what is proved about those.

module GraphModel {
  import opened Options
  import opened GraphKeys
  import opened GraphTree
  import opened GraphSpec

  /** The loops comparing each item's name with the one looked for: the
      index of the first match, if any. */
  method FirstNamed(names: seq<string>, x: string) returns (r: Option<nat>)
    ensures r == IndexOf(names, x)
  {
    var i := 0;
    while i < |names|
      invariant 0 <= i <= |names|
      invariant forall m :: 0 <= m < i ==> names[m] != x
    {
      if names[i] == x {
        IndexOfAt(names, x, i);
        return Some(i);
      }
      i := i + 1;
    }
    return None;
  }

  class GraphModel {
    /** The top-level items, in insertion order. */
    var sites: seq<SiteItem>
    /** pendingAddParents: the connections waiting for their parent. */
    var pending: seq<PendingAddParent>

    ghost predicate Valid()
      reads this
    {
      Consistent(sites, pending)
    }

    constructor()
      ensures sites == [] && pending == [] && Valid()
    {
      sites := [];
      pending := [];
    }

    /** reorder: every site whose row is not its index gets its index as
        row and is signalled (returned in moved, in increasing order). */
    method Reorder() returns (moved: seq<nat>)
      modifies this
      ensures sites == SitesInPlace(old(sites)) && pending == old(pending)
      ensures moved == Misplaced(old(sites), |old(sites)|)
    {
      moved := [];
      var i := 0;
      while i < |sites|
        invariant 0 <= i <= |sites| == |old(sites)|
        invariant forall m :: 0 <= m < i ==> sites[m] == old(sites)[m].(row := m)
        invariant forall m :: i <= m < |sites| ==> sites[m] == old(sites)[m]
        invariant moved == Misplaced(old(sites), i) && pending == old(pending)
      {
        if sites[i].row != i {
          sites := sites[i := sites[i].(row := i)];
          moved := moved + [i];
        }
        i := i + 1;
      }
    }

    /** find: the function item named t, if all three levels exist. */
    method Find(t: Ref) returns (r: Option<Loc>)
      ensures r == FindIn(sites, t)
    {
      var i := FirstNamed(SiteNames(sites), t.site);
      if i.None? {
        return None;
      }
      var j := FirstNamed(ProgramNames(sites[i.value]), t.program);
      if j.None? {
        return None;
      }
      var k := FirstNamed(FunctionNames(sites[i.value].programs[j.value]), t.func);
      if k.None? {
        return None;
      }
      return Some(Loc(i.value, j.value, k.value));
    }

    /** addFunctionParent: parent appended to the child's parents. */
    method AddFunctionParent(parent: Loc, child: Loc)
      requires IsLoc(sites, child)
      modifies this
      ensures sites == AddParent(old(sites), child, parent) && pending == old(pending)
    {
      var fi := FunctionAt(sites, child);
      sites := WithFunction(sites, child, fi.(parents := fi.parents + [parent]));
    }

    /** delayAddFunctionParent: an entry appended to the pending list. */
    method DelayAddFunctionParent(child: Loc, t: Ref)
      modifies this
      ensures sites == old(sites) && pending == old(pending) + [PendingAddParent(child, t)]
    {
      pending := pending + [PendingAddParent(child, t)];
    }

    /** retryAddParents: the list is walked once; an entry whose parent is
        found is connected and erased, the walk going on at the entry that
        followed it. */
    method RetryAddParents()
      requires Valid()
      modifies this
      ensures (sites, pending) == Retry(old(sites), old(pending)) && Valid()
    {
      RetryConsistent(sites, pending);
      RetryFromStart(sites, pending);
      var i := 0;
      while i < |pending|
        invariant 0 <= i <= |pending|
        invariant ChildrenIn(sites, pending)
        invariant (RetryFrom(sites, pending, i) == Retry(old(sites), old(pending))) == true
        decreases |pending| - i
      {
        var e := pending[i];
        var parent := Find(e.target);
        if parent.Some? {
          ghost var (s0, p0) := (sites, pending);
          AddFunctionParent(parent.value, e.child);
          pending := pending[..i] + pending[i + 1..];
          RetryFromFound(s0, p0, i, parent.value);
        } else {
          RetryFromMissing(sites, pending, i);
          i := i + 1;
        }
      }
      RetryFromEnd(sites, pending);
    }

    /** removeParents: the child's parents are cleared and its entries are
        erased from the list, the others staying in their order. */
    method RemoveParents(child: Loc)
      requires IsLoc(sites, child)
      modifies this
      ensures sites == WithFunction(old(sites), child, FunctionAt(old(sites), child).(parents := []))
      ensures pending == Without(old(pending), child)
    {
      var fi := FunctionAt(sites, child);
      sites := WithFunction(sites, child, fi.(parents := []));
      var i := 0;
      while i < |pending|
        invariant 0 <= i <= |pending|
        invariant pending[..i] + Without(pending[i..], child) == Without(old(pending), child)
        invariant sites == WithFunction(old(sites), child, fi.(parents := []))
        decreases |pending| - i
      {
        if pending[i].child == child {
          WithoutDrop(pending, i, child);
          pending := pending[..i] + pending[i + 1..];
        } else {
          WithoutKeep(pending, i, child);
          i := i + 1;
        }
      }
      assert pending[i..] == [];
      assert pending[..i] + [] == pending;
    }

    /** The loop over the worker's parent references: each target found
        becomes a parent of l at once, each missing one waits in pending. */
    method AddWorkerRefs(l: Loc, own: Ref, refs: seq<Ref>)
      requires IsLoc(sites, l)
      modifies this
      ensures (sites, pending) == AddRefs(old(sites), old(pending), l, own, refs)
    {
      ghost var final := AddRefs(sites, pending, l, own, refs);
      var n := 0;
      while n < |refs|
        invariant 0 <= n <= |refs|
        invariant IsLoc(sites, l)
        invariant (AddRefs(sites, pending, l, own, refs[n..]) == final) == true
      {
        var ref := refs[n];
        var t := if ref.site == own.site then ref else Ref(ref.site, own.program, own.func);
        var parent := Find(t);
        if parent.Some? {
          AddFunctionParent(parent.value, l);
        } else {
          DelayAddFunctionParent(l, t);
        }
        assert refs[n..][1..] == refs[n + 1..];
        n := n + 1;
      }
      assert refs[n..] == [];
    }

    /** setFunctionProperty on the function at l: the worker is stored and
        its parent references resolved one by one (each found parent
        connected at once, each missing one left waiting); the other
        properties are stored when the value has their type. Returns the
        changed bits. */
    method SetFunctionProperty(l: Loc, p: string, v: ConfValue) returns (changed: nat)
      requires IsLoc(sites, l)
      modifies this
      ensures (sites, pending, changed) == SetProperty(old(sites), old(pending), l, p, v)
    {
      var fi := FunctionAt(sites, l);
      var f := fi.shared;
      changed := 0;
      if p == "worker" {
        if v.WorkerValue? {
          var own := NamesAt(sites, l);
          sites := WithFunction(sites, l, fi.(shared := f.(worker := Some(v.worker))));
          AddWorkerRefs(l, own, v.worker.parentRefs);
          changed := STORAGE_CHANGED;
        }
      } else if p == "stats/runtime" {
        if v.RuntimeStatsValue? {
          sites := WithFunction(sites, l, fi.(shared := f.(runtimeStats := Some(v.stats))));
          changed := ANYTHING_CHANGED;
        }
      } else if p == "archives/times" {
        if v.TimeRangeValue? {
          sites := WithFunction(sites, l, fi.(shared := f.(archivedTimes := Some(v.times))));
          changed := STORAGE_CHANGED;
        }
      } else if p == "archives/num_files" {
        if v.RamenValueValue? && v.v.VI64? {
          sites := WithFunction(sites, l, fi.(shared := f.(numArcFiles := Some(v.v.i))));
          changed := STORAGE_CHANGED;
        }
      } else if p == "archives/current_size" {
        if v.RamenValueValue? && v.v.VI64? {
          sites := WithFunction(sites, l, fi.(shared := f.(numArcBytes := Some(v.v.i))));
          changed := STORAGE_CHANGED;
        }
      } else if p == "archives/alloc_size" {
        if v.RamenValueValue? && v.v.VI64? {
          sites := WithFunction(sites, l, fi.(shared := f.(allocArcBytes := Some(v.v.i))));
          changed := STORAGE_CHANGED;
        }
      }
    }

    /** delFunctionProperty on the function at l: a property that is set is
        cleared (the worker after disconnecting the function from its
        parents); returns the changed bits. */
    method DelFunctionProperty(l: Loc, p: string) returns (changed: nat)
      requires IsLoc(sites, l)
      modifies this
      ensures (sites, pending, changed) == DelProperty(old(sites), old(pending), l, p)
    {
      var fi := FunctionAt(sites, l);
      var f := fi.shared;
      changed := 0;
      if p == "worker" {
        if f.worker.Some? {
          RemoveParents(l);
          changed := STORAGE_CHANGED;
          WithFunctionTwice(old(sites), l, fi.(parents := []), fi.(parents := [], shared := f.(worker := None)));
          sites := WithFunction(sites, l, fi.(parents := [], shared := f.(worker := None)));
        }
      } else if p == "stats/runtime" {
        if f.runtimeStats.Some? {
          sites := WithFunction(sites, l, fi.(shared := f.(runtimeStats := None)));
          changed := ANYTHING_CHANGED;
        }
      } else if p == "archives/times" {
        if f.archivedTimes.Some? {
          sites := WithFunction(sites, l, fi.(shared := f.(archivedTimes := None)));
          changed := STORAGE_CHANGED;
        }
      } else if p == "archives/num_files" {
        if f.numArcFiles.Some? {
          sites := WithFunction(sites, l, fi.(shared := f.(numArcFiles := None)));
          changed := STORAGE_CHANGED;
        }
      } else if p == "archives/current_size" {
        if f.numArcBytes.Some? {
          sites := WithFunction(sites, l, fi.(shared := f.(numArcBytes := None)));
          changed := STORAGE_CHANGED;
        }
      } else if p == "archives/alloc_size" {
        if f.allocArcBytes.Some? {
          sites := WithFunction(sites, l, fi.(shared := f.(allocArcBytes := None)));
          changed := STORAGE_CHANGED;
        }
      }
    }

    /** setSiteProperty: is_master takes a boolean value; returns whether
        the site was signalled. */
    method SetSiteProperty(i: nat, p: string, v: ConfValue) returns (signalled: bool)
      requires i < |sites|
      modifies this
      ensures (sites, signalled) == SiteSet(old(sites), i, p, v) && pending == old(pending)
    {
      signalled := false;
      if p == "is_master" && v.RamenValueValue? && v.v.VBool? {
        sites := sites[i := sites[i].(isMaster := v.v.b)];
        signalled := true;
      }
    }

    /** delSiteProperty: is_master is reset to false. */
    method DelSiteProperty(i: nat, p: string)
      requires i < |sites|
      modifies this
      ensures sites == SiteDel(old(sites), i, p) && pending == old(pending)
    {
      if p == "is_master" {
        sites := sites[i := sites[i].(isMaster := false)];
      }
    }

    /** updateKey's site lookup: the first site of that name, or a new one
        appended at the end and the sites reordered. */
    method SiteItemFor(name: string) returns (i: nat)
      modifies this
      ensures (sites, i) == EnsureSite(old(sites), name) && pending == old(pending)
    {
      var found := FirstNamed(SiteNames(sites), name);
      if found.Some? {
        i := found.value;
      } else {
        i := |sites|;
        sites := sites + [NewSite(name)];
        var moved := Reorder();
      }
    }

    /** updateKey's program lookup in site i, appending and reordering the
        site's programs when missing. */
    method ProgramItemFor(i: nat, name: string) returns (j: nat)
      requires i < |sites|
      modifies this
      ensures (sites, j) == EnsureProgram(old(sites), i, name) && pending == old(pending)
    {
      var s := sites[i];
      var found := FirstNamed(ProgramNames(s), name);
      if found.Some? {
        j := found.value;
      } else {
        j := |s.programs|;
        s := s.(programs := s.programs + [NewProgram(name)]);
        s := s.(programs := ProgramsInPlace(s.programs));
        sites := sites[i := s];
      }
    }

    /** updateKey's function lookup in program j of site i, appending and
        reordering the program's functions when missing; created tells
        whether the function is new. */
    method FunctionItemFor(i: nat, j: nat, name: string) returns (f: nat, created: bool)
      requires i < |sites| && j < |sites[i].programs|
      modifies this
      ensures (sites, f, created) == EnsureFunction(old(sites), i, j, name) && pending == old(pending)
    {
      var s := sites[i];
      var p := s.programs[j];
      var found := FirstNamed(FunctionNames(p), name);
      if found.Some? {
        f, created := found.value, false;
      } else {
        f, created := |p.functions|, true;
        p := p.(functions := p.functions + [NewFunction(name)]);
        p := p.(functions := FunctionsInPlace(p.functions));
        sites := sites[i := s.(programs := s.programs[j := p])];
      }
    }

    /** updateKey: a key that does not parse is ignored; otherwise the items
        it names are found or created, a new function lets the waiting
        connections be retried, and the property is set on the deepest
        item (a program property is ignored). */
    method UpdateKey(k: string, v: ConfValue)
      requires Valid()
      modifies this
      ensures (sites, pending) == UpdateState(old(sites), old(pending), k, v) && Valid()
    {
      UpdateSpec(sites, pending, k, v);
      var parsed := ParseKey(k);
      if parsed.None? {
        return;
      }
      var pk := parsed.value;
      if pk.program != "" && pk.func != "" {
        UpdateFunction(Ref(pk.site, pk.program, pk.func), pk.property, v);
      } else {
        var i := SiteItemFor(pk.site);
        if pk.program != "" {
          // The program-property branch, which a parsed key never reaches.
          var j := ProgramItemFor(i, pk.program);
        } else {
          var signalled := SetSiteProperty(i, pk.property, v);
        }
      }
    }

    /** The function-key branch of updateKey. */
    method UpdateFunction(t: Ref, p: string, v: ConfValue)
      requires Valid()
      modifies this
      ensures var (s4, p4, l) := Locate(old(sites), old(pending), t);
        (sites, pending) == (SetProperty(s4, p4, l, p, v).0, SetProperty(s4, p4, l, p, v).1)
    {
      ghost var (s0, p0) := (sites, pending);
      EnsureLocSpec(s0, t);
      var i := SiteItemFor(t.site);
      var j := ProgramItemFor(i, t.program);
      var f, created := FunctionItemFor(i, j, t.func);
      assert (sites, Loc(i, j, f), created) == EnsureLoc(s0, t);
      ChildrenExtend(s0, sites, pending);
      if created {
        RetryAddParents();
      }
      var changed := SetFunctionProperty(Loc(i, j, f), p, v);
    }

    /** deleteKey: a key that does not parse, or that names an item that is
        missing, is ignored; otherwise the property of the deepest item is
        deleted. */
    method DeleteKey(k: string)
      requires Valid()
      modifies this
      ensures (sites, pending) == DeleteState(old(sites), old(pending), k) && Valid()
    {
      DeleteSpec(sites, pending, k);
      var parsed := ParseKey(k);
      if parsed.None? {
        return;
      }
      var pk := parsed.value;
      var i := FirstNamed(SiteNames(sites), pk.site);
      if i.None? {
        return;
      }
      if pk.program == "" {
        DelSiteProperty(i.value, pk.property);
        return;
      }
      var j := FirstNamed(ProgramNames(sites[i.value]), pk.program);
      // pk.func is never empty here; the test mirrors the source's.
      if j.None? || pk.func == "" {
        return;
      }
      var f := FirstNamed(FunctionNames(sites[i.value].programs[j.value]), pk.func);
      if f.None? {
        return;
      }
      var changed := DelFunctionProperty(Loc(i.value, j.value, f.value), pk.property);
    }
  }
}
