/** The process's start under this loader, as far as the list of loaded objects goes: the loader and the main
    program are appended first, the loader's links are then cleared where it stands, the dependencies are
    appended, and at last the search list is linked over the same records. */
module RtldStartup {
  import opened DebugList
  import opened LinkMaps
  import opened Sequences
  import opened StartupList
  import opened Usize

  /** What the load group of the root says: the root first, every dependency in it, nothing else but perhaps
      the loader itself, and only the loader passes for the loader. */
  ghost predicate LoadGroup(scope: seq<Dep>, rtld: LinkMap, main: LinkMap, deps: seq<LinkMap>) {
    && scope != [] && scope[0].linkMap == Some(main) && NoDuplicates(ScopeMaps(scope))
    && !IsRtld(main, rtld)
    && (forall lm :: lm in deps ==> lm in ScopeMaps(scope) && !IsRtld(lm, rtld))
    && (forall lm :: lm in ScopeMaps(scope) ==> lm == rtld || lm == main || lm in deps)
  }

  /** The record loaded last. */
  function LastLoaded(main: LinkMap, deps: seq<LinkMap>): LinkMap {
    if deps == [] then main else deps[|deps| - 1]
  }

  /** `load_bootstrap_object` twice and the start of `link_startup_root`. The list is well formed at both
      appends; clearing the loader's links then leaves no list at all. */
  method AppendFirst(d: CustomDebug, rtld: LinkMap, main: LinkMap)
    requires d.debug != null && d.Valid() && d.Tracked() && d.nodes == [] && rtld != main
    modifies d`tail, d`first, d`nodes, d`stops, d.debug, rtld, main
    ensures d.Tracked() && d.nodes == [rtld, main] && d.tail == main
    ensures d.first == d.debug.map_ == rtld && rtld.lNext == null && main.lPrev == rtld
    ensures d.stops == old(d.stops) + [Stop(RT_ADD, [rtld], true), Stop(RT_CONSISTENT, [rtld], true),
                                       Stop(RT_ADD, [rtld, main], true), Stop(RT_CONSISTENT, [rtld, main], true)]
    ensures forall ns :: !Linked(d.debug.map_, d.tail, ns)
  {
    hide Linked, NoDuplicates;
    d.Add(rtld);
    assert d.Formed() && d.nodes == [rtld];
    d.Add(main);
    assert d.Formed() && d.nodes == [rtld, main];
    d.Detach(rtld);
    forall ns
      ensures !Linked(d.debug.map_, d.tail, ns)
    {
      CutAtHead(rtld, d.tail, ns);
    }
  }

  /** The dependencies, appended while no list is there: the debugger is stopped on a broken list twice for
      each of them. */
  method AppendDependencies(d: CustomDebug, rtld: LinkMap, main: LinkMap, deps: seq<LinkMap>)
    requires d.debug != null && d.Tracked() && d.nodes == [rtld, main] && d.tail == main
    requires d.first == d.debug.map_ == rtld && rtld.lNext == null && NoDuplicates([rtld, main] + deps)
    modifies d`tail, d`first, d`nodes, d`stops, d.debug, main, deps
    ensures d.Tracked() && d.nodes == [rtld, main] + deps && d.tail == LastLoaded(main, deps)
    ensures d.debug == old(d.debug) && d.first == d.debug.map_ == rtld && rtld.lNext == null
    ensures old(d.stops) <= d.stops && |d.stops| == |old(d.stops)| + 2 * |deps|
    ensures forall k :: |old(d.stops)| <= k < |d.stops| ==> !d.stops[k].formed
    ensures forall ns :: !Linked(d.debug.map_, d.tail, ns)
  {
    ghost var all := [rtld, main] + deps;
    for i := 0 to |deps|
      invariant d.debug == old(d.debug) && d.Tracked() && d.nodes == [rtld, main] + deps[..i]
      invariant d.tail == LastLoaded(main, deps[..i]) && d.first == d.debug.map_ == rtld && rtld.lNext == null
      invariant old(d.stops) <= d.stops && |d.stops| == |old(d.stops)| + 2 * i
      invariant forall k :: |old(d.stops)| <= k < |d.stops| ==> !d.stops[k].formed
    {
      assert deps[i] == all[i + 2] && d.tail == all[i + 1] && deps[..i + 1] == deps[..i] + [deps[i]];
      assert forall j :: 0 <= j < i + 2 ==> all[j] == d.nodes[j];
      hide Linked;
      d.Add(deps[i]);
      CutAtHead(rtld, d.tail, d.nodes);
    }
    assert deps[..|deps|] == deps;
    assert d.tail == all[|deps| + 1] && all[0] == rtld;
    assert d.tail != rtld;
    hide Linked;
    forall ns
      ensures !Linked(d.debug.map_, d.tail, ns)
    {
      CutAtHead(rtld, d.tail, ns);
    }
  }

  /** All the appends. Every stop is on a well-formed list exactly when there is no dependency. */
  method AppendAll(d: CustomDebug, rtld: LinkMap, main: LinkMap, deps: seq<LinkMap>)
    requires d.debug != null && d.Valid() && d.Tracked() && d.nodes == [] && d.stops == []
    requires NoDuplicates([rtld, main] + deps)
    modifies d`tail, d`first, d`nodes, d`stops, d.debug, set n | n in [rtld, main] + deps
    ensures d.debug == old(d.debug) && d.debug.map_ == rtld && d.Tracked() && d.tail == LastLoaded(main, deps)
    ensures |d.stops| == 4 + 2 * |deps| && forall k :: 0 <= k < |d.stops| ==> (d.stops[k].formed <==> k < 4)
    ensures forall ns :: !Linked(d.debug.map_, d.tail, ns)
  {
    assert ([rtld, main] + deps)[0] == rtld && ([rtld, main] + deps)[1] == main;
    hide Linked, LastLoaded, NoDuplicates;
    AppendFirst(d, rtld, main);
    AppendDependencies(d, rtld, main, deps);
  }

  /** Everything that was loaded is in the search list, and nothing else. */
  lemma ListsAllLoaded(scope: seq<Dep>, rtld: LinkMap, main: LinkMap, deps: seq<LinkMap>)
    requires LoadGroup(scope, rtld, main, deps)
    ensures RtldSecond(main, scope, rtld) == WithRtld(NonRtld(ScopeMaps(scope), rtld), rtld)
    ensures main in RtldSecond(main, scope, rtld) && LastLoaded(main, deps) in RtldSecond(main, scope, rtld)
  {
    MainFirst(scope, rtld);
    StartupMembers(scope, rtld);
    ScopeMapsHead(scope);
    hide NonRtld, ScopeMaps, WithRtld, RtldSecond, NoDuplicates, IsRtld;
    assert LastLoaded(main, deps) == main || LastLoaded(main, deps) in deps;
  }

  /** `startup_state`'s search list: the main program first, then the loader, and all that was loaded. */
  method SearchList(rtld: LinkMap, main: LinkMap, deps: seq<LinkMap>, scope: seq<Dep>) returns (maps: array<LinkMap>)
    requires LoadGroup(scope, rtld, main, deps)
    ensures maps[..] == RtldSecond(main, scope, rtld) && NoDuplicates(maps[..])
    ensures maps.Length > 1 && maps[0] == main && maps[1] == rtld && LastLoaded(main, deps) in maps[..]
    ensures forall i :: 0 <= i < maps.Length ==> maps[i] in [rtld, main] + deps
  {
    hide *;
    ListsAllLoaded(scope, rtld, main, deps);
    MainLeads(scope, rtld, main);
    GroupIsDistinct(scope, rtld, main, deps);
    maps := InitialSearchList(scope, rtld);
    ListedWasLoaded(scope, rtld, main, deps, maps[..]);
    assert maps[..][0] == maps[0] && maps[..][1] == maps[1];
  }

  lemma GroupIsDistinct(scope: seq<Dep>, rtld: LinkMap, main: LinkMap, deps: seq<LinkMap>)
    requires LoadGroup(scope, rtld, main, deps)
    ensures scope != [] && scope[0].linkMap.Some? && NoDuplicates(ScopeMaps(scope))
  {
  }

  lemma ListedWasLoaded(scope: seq<Dep>, rtld: LinkMap, main: LinkMap, deps: seq<LinkMap>, list: seq<LinkMap>)
    requires LoadGroup(scope, rtld, main, deps)
    requires forall i :: 0 <= i < |list| ==> list[i] in ScopeMaps(scope) || list[i] == rtld
    ensures forall i :: 0 <= i < |list| ==> list[i] in [rtld, main] + deps
  {
    hide ScopeMaps;
  }

  lemma MainLeads(scope: seq<Dep>, rtld: LinkMap, main: LinkMap)
    ensures |RtldSecond(main, scope, rtld)| >= 2
    ensures RtldSecond(main, scope, rtld)[0] == main && RtldSecond(main, scope, rtld)[1] == rtld
  {
  }

  /** The whole start. The stops for the loader and the main program are on a well-formed list and those for
      the dependencies are not, so all are exactly when there is no dependency; afterwards the
      published list, which starts at the main program, is well formed up to the loader's own tail exactly
      when the module loaded last is also the last of the search list; and the loader's own record, which
      still starts at the loader, leads to no list at all. */
  method StartProcess(d: CustomDebug, rtld: LinkMap, main: LinkMap, deps: seq<LinkMap>, scope: seq<Dep>)
    returns (maps: array<LinkMap>)
    requires d.debug != null && d.Valid() && d.Tracked() && d.nodes == [] && d.stops == []
    requires NoDuplicates([rtld, main] + deps) && LoadGroup(scope, rtld, main, deps)
    modifies d`tail, d`first, d`nodes, d`stops, d.debug, set n | n in [rtld, main] + deps
    ensures d.debug == old(d.debug) && d.debug.map_ == rtld && d.first == main && d.tail == LastLoaded(main, deps)
    ensures maps[..] == RtldSecond(main, scope, rtld) && maps.Length > 0
    ensures d.nodes == maps[..] && WalksBothWays(d.nodes)
    ensures |d.stops| == 4 + 2 * |deps| && forall k :: 0 <= k < |d.stops| ==> (d.stops[k].formed <==> k < 4)
    ensures d.Formed() <==> LastLoaded(main, deps) == maps[maps.Length - 1]
    ensures forall ns :: !Linked(d.debug.map_, d.tail, ns)
  {
    hide Linked, WalksBothWays, RtldSecond, LoadGroup, LastLoaded, NoDuplicates;
    AppendAll(d, rtld, main, deps);
    maps := SearchList(rtld, main, deps, scope);
    d.Relink(main, maps);
    NoListFromRtld(d, maps[..], rtld);
  }

  /** A program without dependencies: its list is the main program and the loader, but the loader's tail is the
      main program, so the published list is not well formed up to it and the next append takes the main
      program's successor away. */
  lemma AloneIsNotFormed(scope: seq<Dep>, rtld: LinkMap, main: LinkMap)
    requires LoadGroup(scope, rtld, main, [])
    ensures RtldSecond(main, scope, rtld) == [main, rtld] && LastLoaded(main, []) != rtld
  {
    ScopeMapsHead(scope);
    var rest := Dependencies(scope);
    assert ScopeMaps(scope) == [main] + rest;
    forall i | 0 <= i < |rest|
      ensures rest[i] == rtld
    {
      assert ScopeMaps(scope)[i + 1] == rest[i] && ScopeMaps(scope)[0] == main;
      assert rest[i] in ScopeMaps(scope);
    }
    OnlyRtld(rest, rtld);
  }

  lemma {:induction false} OnlyRtld(maps: seq<LinkMap>, rtld: LinkMap)
    requires forall i :: 0 <= i < |maps| ==> maps[i] == rtld
    ensures NonRtld(maps, rtld) == []
    decreases |maps|
  {
    if maps != [] { OnlyRtld(maps[..|maps| - 1], rtld); }
  }

  lemma NoListFromRtld(d: CustomDebug, maps: seq<LinkMap>, rtld: LinkMap)
    requires |maps| > 1 && maps[1] == rtld && NoDuplicates(maps) && WalksBothWays(maps)
    ensures forall ns :: !Linked(rtld, d.tail, ns)
  {
    forall ns
      ensures !Linked(rtld, d.tail, ns)
    {
      LinkedOnlyAs(maps, rtld, d.tail, ns);
    }
  }
}
