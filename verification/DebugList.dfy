/** The debugger's list of loaded objects: append on load, unlink on drop, with a breakpoint call before
    and after every change, and the writes that startup makes to the same links behind the list's back. */
module DebugList {
  import opened LinkMaps
  import opened Sequences
  import opened StartupList

  const RT_CONSISTENT: int := 0
  const RT_ADD: int := 1
  const RT_DELETE: int := 2

  class RDebug {
    var map_: LinkMap?
    var state: int

    constructor ()
      ensures map_ == null && state == RT_CONSISTENT
    {
      map_, state := null, RT_CONSISTENT;
    }
  }

  /** What the debugger sees when it stops at the breakpoint, and whether it is a well-formed list. */
  datatype Stop = Stop(state: int, nodes: seq<LinkMap>, formed: bool)

  /** The list without the node at position `i`. */
  function Without(nodes: seq<LinkMap>, i: nat): seq<LinkMap>
    requires i < |nodes|
  {
    nodes[..i] + nodes[i + 1..]
  }

  /** The debug record leads to the node exactly when the list starts with it. */
  predicate LeadsAlike(lm: LinkMap, map_: LinkMap?, first: LinkMap?) {
    (map_ == lm) == (first == lm)
  }

  /** The four cases of the surgery, on the fields it writes. */
  ghost predicate Surgery(mapNow: LinkMap?, tailNow: LinkMap?, lm: LinkMap, prev: LinkMap?, next: LinkMap?,
                          map_: LinkMap?, tail: LinkMap?)
    reads prev, next
  {
    && mapNow == (if map_ != lm then map_ else if tail == lm then null else next)
    && tailNow == (if tail != lm then tail else if map_ == lm then null else prev)
    && (map_ != lm ==> prev != null && prev.lNext == if tail == lm then null else next)
    && (tail != lm ==> next != null && next.lPrev == if map_ == lm then null else prev)
  }

  class CustomDebug {
    var debug: RDebug?
    var tail: LinkMap?
    const internal: RDebug
    /** Where a debugger starts: the record's own `map`, until startup publishes another record. */
    ghost var first: LinkMap?
    ghost var nodes: seq<LinkMap>
    ghost var stops: seq<Stop>

    /** The links form the list of the nodes. */
    ghost predicate Formed()
      reads `debug, `tail, `first, `nodes, nodes
    {
      debug != null ==> Linked(first, tail, nodes)
    }

    ghost predicate Valid()
      reads `debug, `tail, `first, `nodes, debug, nodes
    {
      Formed() && (debug != null ==> first == debug.map_)
    }

    /** What holds whatever has been written to the links. */
    ghost predicate Tracked()
      reads `tail, `first, `nodes
    {
      && NoDuplicates(nodes)
      && (nodes == [] ==> tail == null && first == null)
      && (nodes != [] ==> tail != null && tail in nodes)
    }

    constructor (internal: RDebug)
      requires internal.map_ == null
      ensures debug == internal == this.internal && Valid() && Tracked() && nodes == [] && stops == []
    {
      this.internal := internal;
      debug, tail, first, nodes, stops := internal, null, null, [], [];
    }

    /** `init_host_debug`: takes over a host's list, walking it to its end. */
    method InitHost(host: RDebug, ghost hostNodes: seq<LinkMap>)
      requires Linked(host.map_, if hostNodes == [] then null else hostNodes[|hostNodes| - 1], hostNodes)
      modifies this`debug, this`tail, this`first, this`nodes
      ensures debug == host && nodes == hostNodes && Valid() && Tracked()
    {
      debug := host;
      var cur := host.map_;
      if cur != null {
        ghost var i := 0;
        while cur.lNext != null
          invariant i < |hostNodes| && cur == hostNodes[i]
          decreases |hostNodes| - i
        {
          cur := cur.lNext;
          i := i + 1;
        }
      }
      tail := cur;
      first, nodes := host.map_, hostNodes;
    }

    /** The breakpoint: the debugger may read the list here. */
    method CallDebugState()
      requires debug != null
      modifies this`stops
      ensures stops == old(stops) + [Stop(debug.state, nodes, Formed())]
    {
      stops := stops + [Stop(debug.state, nodes, Formed())];
    }

    /** `add_debug_link_map`, for a record just made. */
    method Add(lm: LinkMap)
      requires Tracked() && lm !in nodes
      modifies this`tail, this`first, this`nodes, this`stops, debug, lm, tail
      ensures Tracked()
      ensures old(Formed()) ==> Formed()
      ensures old(Valid()) ==> Valid()
      ensures debug == null ==>
                nodes == old(nodes) && stops == old(stops) && tail == old(tail) && first == old(first) && unchanged(lm)
      ensures debug != null ==>
                && nodes == old(nodes) + [lm] && tail == lm
                && lm.lPrev == old(tail) && lm.lNext == null
                && (old(tail) != null ==> old(tail).lNext == lm && old(tail).lPrev == old(tail.lPrev))
                && first == (if old(tail) == null then lm else old(first))
                && debug.map_ == (if old(tail) == null then lm else old(debug.map_))
                && debug.state == RT_CONSISTENT
                && stops == old(stops) + [Stop(RT_ADD, nodes, Formed()), Stop(RT_CONSISTENT, nodes, Formed())]
                && lm.lReal == (if debug != internal then null else if old(lm.lReal) == null then lm else old(lm.lReal))
    {
      hide Linked, NoDuplicates, Tracked;
      if debug == null { return; }
      var ownsNamespace := debug == internal;
      if ownsNamespace && lm.lReal == null {
        lm.lReal := lm;
      } else if !ownsNamespace {
        lm.lReal := null;
      }
      Append(debug, lm);
      assert old(Valid()) ==> Valid();
      debug.state := RT_ADD;
      CallDebugState();
      debug.state := RT_CONSISTENT;
      CallDebugState();
    }

    method Append(debug: RDebug, lm: LinkMap)
      requires debug == this.debug && Tracked() && lm !in nodes
      modifies this`tail, this`first, this`nodes, debug`map_, lm, tail
      ensures Tracked() && nodes == old(nodes) + [lm] && tail == lm
      ensures lm.lPrev == old(tail) && lm.lNext == null
      ensures old(tail) != null ==> old(tail).lNext == lm && old(tail).lPrev == old(tail.lPrev)
      ensures lm.lReal == old(lm.lReal)
      ensures first == (if old(tail) == null then lm else old(first))
      ensures debug.map_ == (if old(tail) == null then lm else old(debug.map_))
      ensures old(Formed()) ==> Formed()
    {
      var last := tail;
      lm.lPrev := last;
      lm.lNext := null;
      if last == null {
        debug.map_ := lm;
        first := lm;
      } else {
        last.lNext := lm;
      }
      tail := lm;
      nodes := nodes + [lm];
    }

    /** The record is linked: the debug record leads to it, or it has a predecessor. */
    predicate IsLinked(lm: LinkMap)
      reads `debug, debug, lm`lPrev
    {
      debug != null && (debug.map_ == lm || lm.lPrev != null)
    }

    /** On a well-formed list no drop follows a null link. */
    lemma DropFollowsNoNull(lm: LinkMap)
      requires Formed() && debug != null && lm in nodes
      ensures tail != lm ==> lm.lNext != null
      ensures first != lm ==> lm.lPrev != null
    {
      var at :| 0 <= at < |nodes| && nodes[at] == lm;
      assert at < |nodes| - 1 ==> nodes[at].lNext == nodes[at + 1];
      assert at > 0 ==> nodes[at].lPrev == nodes[at - 1];
    }

    /** `Drop for ExtraData`. A record that is not linked is left alone. Otherwise it is taken out of a
        well-formed list, which stays one exactly when the debug record leads to its first node and no other;
        of any other list the four fields below change. */
    method Drop(lm: LinkMap) returns (ghost at: nat)
      requires NoDuplicates(nodes) && (IsLinked(lm) && tail != lm ==> lm.lNext != null)
      modifies this`tail, this`first, this`nodes, this`stops, debug, nodes, lm.lPrev, lm.lNext
      ensures !old(IsLinked(lm)) ==>
                && nodes == old(nodes) && stops == old(stops) && tail == old(tail) && first == old(first)
                && (debug != null ==> unchanged(debug)) && (forall n :: n in nodes ==> unchanged(n))
      ensures old(IsLinked(lm)) ==>
                && debug.state == RT_CONSISTENT
                && stops == old(stops) + [Stop(RT_DELETE, old(nodes), old(Formed())),
                                          Stop(RT_CONSISTENT, nodes, Formed())]
                && lm !in nodes
                && (lm !in old(nodes) ==> nodes == old(nodes))
                && (lm in old(nodes) ==> at < |old(nodes)| && old(nodes)[at] == lm && nodes == Without(old(nodes), at))
      ensures old(IsLinked(lm)) && old(Formed()) && lm in old(nodes) ==>
                && (Formed() <==> LeadsAlike(lm, old(debug.map_), old(first)))
                && (Formed() ==> Tracked())
                && (old(Valid()) ==> Valid())
      ensures old(IsLinked(lm)) ==>
                Surgery(debug.map_, tail, lm, old(lm.lPrev), old(lm.lNext), old(debug.map_), old(tail))
    {
      at := 0;
      if debug == null { return; }
      if debug.map_ != lm && lm.lPrev == null { return; }
      if lm in nodes { at :| 0 <= at < |nodes| && nodes[at] == lm; }
      hide Linked, NoDuplicates, Surgery, LeadsAlike, Tracked;
      UnlinkWithStops(debug, lm, at);
    }

    /** The change itself, with a stop before and after it. */
    method UnlinkWithStops(debug: RDebug, lm: LinkMap, ghost at: nat)
      requires debug == this.debug && NoDuplicates(nodes) && IsLinked(lm) && (tail != lm ==> lm.lNext != null)
      requires lm in nodes ==> at < |nodes| && nodes[at] == lm
      modifies this`tail, this`first, this`nodes, this`stops, debug, nodes, lm.lPrev, lm.lNext
      ensures lm !in nodes && nodes == if lm in old(nodes) then Without(old(nodes), at) else old(nodes)
      ensures debug.state == RT_CONSISTENT
      ensures stops == old(stops) + [Stop(RT_DELETE, old(nodes), old(Formed())), Stop(RT_CONSISTENT, nodes, Formed())]
      ensures old(Formed()) && lm in old(nodes) && LeadsAlike(lm, old(debug.map_), old(first)) ==>
                Formed() && Tracked() && (old(first) == old(debug.map_) ==> first == debug.map_)
      ensures old(Formed()) && lm in old(nodes) && !LeadsAlike(lm, old(debug.map_), old(first)) ==> !Formed()
      ensures Surgery(debug.map_, tail, lm, old(lm.lPrev), old(lm.lNext), old(debug.map_), old(tail))
    {
      hide Linked, NoDuplicates, Surgery, LeadsAlike, Tracked, Without;
      debug.state := RT_DELETE;
      CallDebugState();
      Unlink(debug, lm, at);
      debug.state := RT_CONSISTENT;
      CallDebugState();
    }

    method Unlink(debug: RDebug, lm: LinkMap, ghost at: nat)
      requires debug == this.debug && NoDuplicates(nodes) && IsLinked(lm) && (tail != lm ==> lm.lNext != null)
      requires lm in nodes ==> at < |nodes| && nodes[at] == lm
      modifies this`tail, this`first, this`nodes, debug`map_, nodes, lm.lPrev, lm.lNext
      ensures lm !in nodes && nodes == if lm in old(nodes) then Without(old(nodes), at) else old(nodes)
      ensures old(Linked(first, tail, nodes)) && lm in old(nodes) && LeadsAlike(lm, old(debug.map_), old(first)) ==>
                Linked(first, tail, nodes) && Tracked() && (old(first) == old(debug.map_) ==> first == debug.map_)
      ensures old(Linked(first, tail, nodes)) && lm in old(nodes) && !LeadsAlike(lm, old(debug.map_), old(first)) ==>
                !Linked(first, tail, nodes)
      ensures Surgery(debug.map_, tail, lm, old(lm.lPrev), old(lm.lNext), old(debug.map_), old(tail))
    {
      ghost var formed := Linked(first, tail, nodes) && lm in nodes;
      assert formed ==> (at == 0 <==> first == lm) && (at == |nodes| - 1 <==> tail == lm);
      assert formed && at > 0 ==> lm.lPrev == nodes[at - 1] && nodes[at - 1].lNext == lm;
      assert formed && at < |nodes| - 1 ==> lm.lNext == nodes[at + 1];
      if debug.map_ == lm {
        UnlinkHead(debug, lm, at);
      } else if tail == lm {
        var prev := lm.lPrev;
        prev.lNext := null;
        tail := prev;
        if lm in nodes { nodes := Without(nodes, at); }
      } else {
        var prev, next := lm.lPrev, lm.lNext;
        prev.lNext := next;
        next.lPrev := prev;
        if lm in nodes { nodes := Without(nodes, at); }
      }
    }

    /** The two cases of the record that the debug record leads to. */
    method UnlinkHead(debug: RDebug, lm: LinkMap, ghost at: nat)
      requires debug == this.debug && NoDuplicates(nodes) && debug.map_ == lm && (tail != lm ==> lm.lNext != null)
      requires lm in nodes ==> at < |nodes| && nodes[at] == lm
      modifies this`tail, this`first, this`nodes, debug`map_, lm.lNext
      ensures lm !in nodes && nodes == if lm in old(nodes) then Without(old(nodes), at) else old(nodes)
      ensures old(Linked(first, tail, nodes)) && lm in old(nodes) && lm == old(first) ==>
                Linked(first, tail, nodes) && Tracked() && first == debug.map_
      ensures old(Linked(first, tail, nodes)) && lm in old(nodes) && lm != old(first) ==>
                !Linked(first, tail, nodes)
      ensures Surgery(debug.map_, tail, lm, old(lm.lPrev), old(lm.lNext), lm, old(tail))
    {
      ghost var formed := Linked(first, tail, nodes) && lm in nodes;
      assert formed ==> (at == 0 <==> first == lm) && (at == |nodes| - 1 <==> tail == lm);
      assert formed && at > 0 ==> nodes[at - 1].lNext == lm;
      assert formed && at < |nodes| - 1 ==> lm.lNext == nodes[at + 1];
      if tail == lm {
        debug.map_ := null;
        tail := null;
      } else {
        debug.map_ := lm.lNext;
        lm.lNext.lPrev := null;
      }
      if lm in nodes {
        if first == lm { first := if |nodes| > 1 then nodes[1] else null; }
        ghost var before := nodes;
        nodes := Without(nodes, at);
        if formed && at > 0 {
          assert nodes[at - 1] == before[at - 1] && nodes[at - 1].lNext == lm;
        }
      }
    }

    // ----- Startup's own writes -----

    /** The start of `link_startup_root`: the dynamic linker's links are cleared where it stands. */
    method Detach(rtld: LinkMap)
      modifies rtld
      ensures rtld.lPrev == null && rtld.lNext == null && rtld.lReal == rtld
      ensures old(Formed()) && debug != null && rtld in nodes ==> (Formed() <==> |nodes| == 1)
    {
      rtld.lNext := null;
      rtld.lPrev := null;
      rtld.lReal := rtld;
      if rtld in nodes {
        ghost var at :| 0 <= at < |nodes| && nodes[at] == rtld;
        assert at < |nodes| - 1 ==> nodes[at].lNext != nodes[at + 1];
        assert at > 0 ==> nodes[at].lPrev != nodes[at - 1];
      }
    }

    /** `publish_loaded_globals`: the search list is linked, and a record that starts at the main program
        is published. The loader's own record and tail stay as they were. */
    method Relink(main: LinkMap, maps: array<LinkMap>)
      requires NoDuplicates(maps[..]) && maps.Length > 0 && tail != null && tail in maps[..]
      modifies this`first, this`nodes, maps[..]
      ensures maps[..] == old(maps[..]) && nodes == maps[..] && first == main && Tracked() && WalksBothWays(nodes)
      ensures debug != null ==> (Formed() <==> main == maps[0] && tail == maps[maps.Length - 1])
      ensures debug != null ==>
                (Valid() <==> main == maps[0] && tail == maps[maps.Length - 1] && debug.map_ == maps[0])
    {
      LinkLoadedObjects(maps);
      nodes, first := maps[..], main;
      LinkedIsTwoWalks(nodes[0], nodes[|nodes| - 1], nodes);
    }
  }
}
