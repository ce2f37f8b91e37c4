/** The initial search list: built from the startup scope, with the dynamic linker itself moved to second
    place, and then linked. */
module StartupList {
  import opened LinkMaps
  import opened Sequences
  import opened Usize

  /** A member of the startup scope; only native ELF modules have a link map. */
  datatype Dep = Dep(name: string, linkMap: Option<LinkMap>)

  datatype Startup = Startup(main: LinkMap, maps: seq<LinkMap>, libcMap: LinkMap?)

  predicate IsRtld(lm: LinkMap, rtld: LinkMap?) {
    lm == rtld || (rtld != null && lm.lAddr == rtld.lAddr)
  }

  /** The link maps of the scope in order. */
  function ScopeMaps(scope: seq<Dep>): seq<LinkMap> {
    if scope == [] then []
    else ScopeMaps(scope[..|scope| - 1]) + (match scope[|scope| - 1].linkMap case Some(lm) => [lm] case None => [])
  }

  /** Those that are not the dynamic linker. */
  function NonRtld(maps: seq<LinkMap>, rtld: LinkMap?): seq<LinkMap> {
    if maps == [] then []
    else NonRtld(maps[..|maps| - 1], rtld) + (if IsRtld(maps[|maps| - 1], rtld) then [] else [maps[|maps| - 1]])
  }

  /** The dynamic linker goes to second place, or first if nothing else is there. */
  function WithRtld(maps: seq<LinkMap>, rtld: LinkMap?): seq<LinkMap> {
    if rtld == null then maps
    else var at := if maps == [] then 0 else 1; maps[..at] + [rtld] + maps[at..]
  }

  /** The last map of the scope named as the C library, if any. */
  function LibcMap(scope: seq<Dep>): LinkMap? {
    if scope == [] then null
    else
      var last := scope[|scope| - 1];
      if last.linkMap.Some? && last.name == "libc.so.6" then last.linkMap.value
      else LibcMap(scope[..|scope| - 1])
  }

  lemma ScopeStep(scope: seq<Dep>, dep: Dep, rtld: LinkMap?)
    ensures ScopeMaps(scope + [dep]) == ScopeMaps(scope) + (if dep.linkMap.Some? then [dep.linkMap.value] else [])
    ensures NonRtld(ScopeMaps(scope + [dep]), rtld) == NonRtld(ScopeMaps(scope), rtld)
              + (if dep.linkMap.Some? && !IsRtld(dep.linkMap.value, rtld) then [dep.linkMap.value] else [])
    ensures LibcMap(scope + [dep])
         == (if dep.linkMap.Some? && dep.name == "libc.so.6" then dep.linkMap.value else LibcMap(scope))
  {
    assert (scope + [dep])[..|scope|] == scope;
    var maps := ScopeMaps(scope);
    if dep.linkMap.Some? {
      assert (maps + [dep.linkMap.value])[..|maps|] == maps;
    } else {
      assert ScopeMaps(scope + [dep]) == maps;
    }
  }

  /** `startup_state`, from the load group of the root; an empty scope or a root without a link map is
      an error. */
  method StartupState(scope: seq<Dep>, rtld: LinkMap?) returns (r: Option<Startup>)
    ensures r.None? <==> scope == [] || scope[0].linkMap.None?
    ensures r.Some? ==>
              && r.value.main == scope[0].linkMap.value
              && r.value.maps == WithRtld(NonRtld(ScopeMaps(scope), rtld), rtld)
              && r.value.libcMap == LibcMap(scope)
  {
    if scope == [] || scope[0].linkMap.None? { return None; }
    var main := scope[0].linkMap.value;
    var maps: seq<LinkMap> := [];
    var libcMap: LinkMap? := null;
    var i := 0;
    while i < |scope|
      invariant i <= |scope|
      invariant maps == NonRtld(ScopeMaps(scope[..i]), rtld)
      invariant libcMap == LibcMap(scope[..i])
    {
      assert scope[..i + 1] == scope[..i] + [scope[i]];
      ScopeStep(scope[..i], scope[i], rtld);
      var dep := scope[i];
      i := i + 1;
      if dep.linkMap.None? { continue; }
      var lm := dep.linkMap.value;
      if dep.name == "libc.so.6" {
        libcMap := lm;
      }
      if IsRtld(lm, rtld) { continue; }
      maps := maps + [lm];
    }
    assert scope[..i] == scope;
    if rtld != null {
      var insertAt := if maps == [] then 0 else 1;
      maps := maps[..insertAt] + [rtld] + maps[insertAt..];
    }
    r := Some(Startup(main, maps, libcMap));
  }

  /** `link_loaded_objects`, over the search list in memory. */
  method LinkLoadedObjects(linkMaps: array<LinkMap>)
    requires NoDuplicates(linkMaps[..])
    modifies linkMaps[..]
    ensures linkMaps[..] == old(linkMaps[..])
    ensures WalksBothWays(linkMaps[..])
  {
    ghost var nodes := linkMaps[..];
    var index := 0;
    while index < linkMaps.Length
      invariant index <= linkMaps.Length && linkMaps[..] == nodes
      invariant index > 0 ==> nodes[0].lPrev == null
      invariant index > 0 && index == |nodes| ==> nodes[index - 1].lNext == null
      invariant forall i {:trigger nodes[i].lPrev} :: 0 < i < index ==> nodes[i].lPrev == nodes[i - 1]
      invariant forall i {:trigger nodes[i].lNext} ::
                  0 <= i < index && i < |nodes| - 1 ==> nodes[i].lNext == nodes[i + 1]
    {
      var linkMap := linkMaps[index];
      var prev: LinkMap? := if index == 0 then null else linkMaps[index - 1];
      var next: LinkMap? := if index + 1 < linkMaps.Length then linkMaps[index + 1] else null;
      linkMap.lPrev := prev;
      linkMap.lNext := next;
      index := index + 1;
    }
    if nodes != [] { LinkedIsTwoWalks(nodes[0], nodes[|nodes| - 1], nodes); }
  }

  // ----- What the startup list contains -----

  lemma {:induction false} ScopeMapsMembers(scope: seq<Dep>)
    ensures forall lm :: lm in ScopeMaps(scope) <==> exists i :: 0 <= i < |scope| && scope[i].linkMap == Some(lm)
    decreases |scope|
  {
    if scope != [] {
      var n := |scope| - 1;
      ScopeMapsMembers(scope[..n]);
      forall lm
        ensures lm in ScopeMaps(scope) <==> exists i :: 0 <= i < |scope| && scope[i].linkMap == Some(lm)
      {
        if i :| 0 <= i < |scope| && scope[i].linkMap == Some(lm) {
          assert i < n ==> scope[..n][i].linkMap == Some(lm);
        }
        if lm in ScopeMaps(scope[..n]) {
          var i :| 0 <= i < n && scope[..n][i].linkMap == Some(lm);
          assert scope[i].linkMap == Some(lm);
        }
      }
    }
  }

  /** The member at this place is the last native one named as the C library. */
  ghost predicate LastLibc(scope: seq<Dep>, i: nat) {
    && i < |scope| && scope[i].name == "libc.so.6" && scope[i].linkMap.Some?
    && forall j :: i < j < |scope| ==> scope[j].name != "libc.so.6" || scope[j].linkMap.None?
  }

  /** The map remembered for the C library is that member's, and null exactly if there is none. */
  lemma {:induction false} LibcMapExactly(scope: seq<Dep>)
    ensures LibcMap(scope) == null <==>
            forall i :: 0 <= i < |scope| ==> scope[i].name != "libc.so.6" || scope[i].linkMap.None?
    ensures forall i: nat :: LastLibc(scope, i) ==> Some(LibcMap(scope)) == scope[i].linkMap
    decreases |scope|
  {
    if scope != [] {
      var n: nat := |scope| - 1;
      LibcMapExactly(scope[..n]);
      forall i: nat | LastLibc(scope, i)
        ensures Some(LibcMap(scope)) == scope[i].linkMap
      {
        if i < n { assert LastLibc(scope[..n], i); }
      }
    }
  }

  lemma {:induction false} NonRtldMembers(maps: seq<LinkMap>, rtld: LinkMap?)
    ensures forall lm :: lm in NonRtld(maps, rtld) <==> lm in maps && !IsRtld(lm, rtld)
    ensures forall i :: 0 <= i < |NonRtld(maps, rtld)| ==> NonRtld(maps, rtld)[i] in maps
    ensures NoDuplicates(maps) ==> NoDuplicates(NonRtld(maps, rtld))
    decreases |maps|
  {
    if maps != [] {
      NonRtldMembers(maps[..|maps| - 1], rtld);
      assert maps == maps[..|maps| - 1] + [maps[|maps| - 1]];
    }
  }

  lemma {:induction false} NonRtldHead(maps: seq<LinkMap>, rtld: LinkMap?)
    requires maps != [] && !IsRtld(maps[0], rtld)
    ensures NonRtld(maps, rtld) == [maps[0]] + NonRtld(maps[1..], rtld)
    decreases |maps|
  {
    var n := |maps| - 1;
    if n > 0 {
      NonRtldHead(maps[..n], rtld);
      assert maps[..n][1..] == maps[1..][..n - 1];
      assert maps[1..][|maps[1..]| - 1] == maps[n];
    } else {
      assert maps[..n] == [] && maps[1..] == [];
    }
  }

  lemma {:induction false} ScopeMapsHead(scope: seq<Dep>)
    requires scope != [] && scope[0].linkMap.Some?
    ensures ScopeMaps(scope) != [] && ScopeMaps(scope)[0] == scope[0].linkMap.value
    decreases |scope|
  {
    if |scope| > 1 {
      ScopeMapsHead(scope[..|scope| - 1]);
    } else {
      assert scope[..|scope| - 1] == [];
    }
  }

  /** Scope order: of two entries of the list, the first comes from an earlier place in the scope. */
  lemma {:induction false} NonRtldInOrder(maps: seq<LinkMap>, rtld: LinkMap?, i: nat, j: nat) returns (a: nat, b: nat)
    requires i < j < |NonRtld(maps, rtld)|
    ensures a < b < |maps| && maps[a] == NonRtld(maps, rtld)[i] && maps[b] == NonRtld(maps, rtld)[j]
    decreases |maps|
  {
    var n := |maps| - 1;
    var before := NonRtld(maps[..n], rtld);
    if j < |before| {
      a, b := NonRtldInOrder(maps[..n], rtld, i, j);
    } else {
      NonRtldMembers(maps[..n], rtld);
      a :| a < n && maps[a] == before[i];
      b := n;
    }
  }

  lemma {:induction false} ScopeMapFrom(scope: seq<Dep>, k: nat) returns (i: nat)
    requires k < |ScopeMaps(scope)|
    ensures i < |scope| && scope[i].linkMap == Some(ScopeMaps(scope)[k])
    decreases |scope|
  {
    var n := |scope| - 1;
    if k < |ScopeMaps(scope[..n])| { i := ScopeMapFrom(scope[..n], k); } else { i := n; }
  }

  lemma {:induction false} ScopeMapsInOrder(scope: seq<Dep>, i: nat, j: nat) returns (a: nat, b: nat)
    requires i < j < |ScopeMaps(scope)|
    ensures a < b < |scope|
    ensures scope[a].linkMap == Some(ScopeMaps(scope)[i]) && scope[b].linkMap == Some(ScopeMaps(scope)[j])
    decreases |scope|
  {
    var n := |scope| - 1;
    var before := ScopeMaps(scope[..n]);
    if j < |before| {
      a, b := ScopeMapsInOrder(scope[..n], i, j);
    } else {
      a := ScopeMapFrom(scope[..n], i);
      b := n;
    }
  }

  /** Of two entries of the list that are not the dynamic linker, the first comes from an earlier module. */
  lemma StartupInScopeOrder(scope: seq<Dep>, rtld: LinkMap?, i: nat, j: nat) returns (a: nat, b: nat)
    requires i < j < |NonRtld(ScopeMaps(scope), rtld)|
    ensures a < b < |scope|
    ensures scope[a].linkMap == Some(NonRtld(ScopeMaps(scope), rtld)[i])
    ensures scope[b].linkMap == Some(NonRtld(ScopeMaps(scope), rtld)[j])
  {
    hide NonRtld, ScopeMaps;
    var x, y := NonRtldInOrder(ScopeMaps(scope), rtld, i, j);
    a, b := ScopeMapsInOrder(scope, x, y);
  }

  lemma WithRtldMembers(maps: seq<LinkMap>, rtld: LinkMap)
    requires NoDuplicates(maps) && rtld !in maps
    ensures NoDuplicates(WithRtld(maps, rtld))
    ensures forall lm :: lm in WithRtld(maps, rtld) <==> lm == rtld || lm in maps
  {
    if maps != [] { assert maps == [maps[0]] + maps[1..]; }
  }

  /** The list visits every module of the scope that is not the dynamic linker once, and the dynamic linker
      exactly once. */
  lemma StartupMembers(scope: seq<Dep>, rtld: LinkMap)
    requires NoDuplicates(ScopeMaps(scope))
    ensures var nodes := WithRtld(NonRtld(ScopeMaps(scope), rtld), rtld);
            && NoDuplicates(nodes)
            && (forall lm :: lm in nodes <==> lm == rtld || (lm in ScopeMaps(scope) && !IsRtld(lm, rtld)))
            && (forall lm :: lm in nodes && lm.lAddr == rtld.lAddr ==> lm == rtld)
            && (forall i :: 0 <= i < |scope| && scope[i].linkMap.Some? && scope[i].linkMap.value.lAddr != rtld.lAddr ==>
                  scope[i].linkMap.value in nodes)
  {
    NonRtldMembers(ScopeMaps(scope), rtld);
    ScopeMapsMembers(scope);
    hide NonRtld, ScopeMaps;
    WithRtldMembers(NonRtld(ScopeMaps(scope), rtld), rtld);
  }

  /** The maps of the scope after the root's own. */
  function Dependencies(scope: seq<Dep>): seq<LinkMap> {
    if |ScopeMaps(scope)| == 0 then [] else ScopeMaps(scope)[1..]
  }

  /** The main program, the dynamic linker, and the main program's dependencies in scope order. */
  function RtldSecond(main: LinkMap, scope: seq<Dep>, rtld: LinkMap): seq<LinkMap> {
    [main, rtld] + NonRtld(Dependencies(scope), rtld)
  }

  /** The main program is followed by the dynamic linker and then by its dependencies in scope order,
      exactly when the main program does not itself pass for the dynamic linker. */
  lemma StartupOrder(scope: seq<Dep>, rtld: LinkMap)
    requires scope != [] && scope[0].linkMap.Some? && NoDuplicates(ScopeMaps(scope))
    ensures var main := scope[0].linkMap.value;
            WithRtld(NonRtld(ScopeMaps(scope), rtld), rtld) == RtldSecond(main, scope, rtld)
            <==> !IsRtld(main, rtld)
  {
    var main := scope[0].linkMap.value;
    var nodes := WithRtld(NonRtld(ScopeMaps(scope), rtld), rtld);
    if IsRtld(main, rtld) {
      StartupMembers(scope, rtld);
      hide NonRtld, ScopeMaps, WithRtld, Dependencies;
      var claimed := RtldSecond(main, scope, rtld);
      assert claimed[0] == main && claimed[1] == rtld && main in claimed;
    } else {
      MainFirst(scope, rtld);
    }
  }

  lemma MainFirst(scope: seq<Dep>, rtld: LinkMap)
    requires scope != [] && scope[0].linkMap.Some? && !IsRtld(scope[0].linkMap.value, rtld)
    ensures WithRtld(NonRtld(ScopeMaps(scope), rtld), rtld)
         == RtldSecond(scope[0].linkMap.value, scope, rtld)
  {
    ScopeMapsHead(scope);
    var maps := ScopeMaps(scope);
    NonRtldHead(maps, rtld);
    hide NonRtld, ScopeMaps, WithRtld;
    WithRtldSecond(maps[0], NonRtld(maps[1..], rtld), rtld);
  }

  lemma WithRtldSecond(head: LinkMap, rest: seq<LinkMap>, rtld: LinkMap)
    ensures WithRtld([head] + rest, rtld) == [head, rtld] + rest
  {
    var maps := [head] + rest;
    assert maps[..1] == [head] && maps[1..] == rest;
  }

  method BoxedSlice(list: seq<LinkMap>) returns (maps: array<LinkMap>)
    ensures fresh(maps) && maps[..] == list
  {
    maps := new LinkMap[|list|](i requires 0 <= i < |list| => list[i]);
  }

  /** The list of `startup_state` as the loader hands it on. */
  method InitialSearchList(scope: seq<Dep>, rtld: LinkMap) returns (maps: array<LinkMap>)
    requires scope != [] && scope[0].linkMap.Some? && NoDuplicates(ScopeMaps(scope))
    ensures fresh(maps) && NoDuplicates(maps[..])
    ensures forall i :: 0 <= i < maps.Length ==> maps[i] in ScopeMaps(scope) || maps[i] == rtld
    ensures maps[..] == WithRtld(NonRtld(ScopeMaps(scope), rtld), rtld)
  {
    var state := StartupState(scope, rtld);
    StartupMembers(scope, rtld);
    hide NonRtld, ScopeMaps, WithRtld, NoDuplicates, IsRtld, LibcMap;
    maps := BoxedSlice(state.value.maps);
    assert forall i :: 0 <= i < maps.Length ==> maps[i] in state.value.maps;
  }

  /** Startup as a whole: after building the list and linking it, the walk from the main program goes to the
      dynamic linker, then through the dependencies in scope order, and ends; the walk back is its reverse. */
  method LinkStartup(scope: seq<Dep>, rtld: LinkMap) returns (maps: array<LinkMap>)
    requires scope != [] && scope[0].linkMap.Some? && NoDuplicates(ScopeMaps(scope))
    requires !IsRtld(scope[0].linkMap.value, rtld)
    modifies set lm | lm in ScopeMaps(scope) || lm == rtld
    ensures fresh(maps)
    ensures maps[..] == RtldSecond(scope[0].linkMap.value, scope, rtld)
    ensures WalksBothWays(maps[..])
  {
    MainFirst(scope, rtld);
    hide NonRtld, ScopeMaps, WithRtld, NoDuplicates, IsRtld, LibcMap, RtldSecond, WalksBothWays;
    maps := InitialSearchList(scope, rtld);
    LinkLoadedObjects(maps);
  }
}
