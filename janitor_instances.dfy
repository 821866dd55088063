/**
 * The janitor package's instance metadata: the same `items`-rewriting stages as
 * for images, with a zone-by-zone listing and zone-qualified delete requests.
 */
module JanitorInstances {
  import opened Wrappers
  import opened Seqs
  import Naming
  import opened Compute
  import opened Eligibility
  import opened Channels
  import opened JanitorDeleter

  /** One deletion record per instance, in list order. */
  function InstanceJobs(project: string, items: seq<Resource>): (jobs: seq<DeleteMetadata>)
    ensures |jobs| == |items|
  {
    seq(|items|, k requires 0 <= k < |items| => InstanceDeleteMetadata(project, items[k]))
  }

  /**
   * The `k`-th record deletes the `k`-th instance by name, in the zone named by the
   * last segment of its zone URL, and reports that URL as its zone.
   */
  lemma InstanceJobsOnePerItem(project: string, items: seq<Resource>)
    ensures forall k :: 0 <= k < |items| ==>
              InstanceJobs(project, items)[k].Call() ==
                Operations.InstancesDelete(project, Naming.NameFromURL(items[k].zone), items[k].name) &&
              InstanceJobs(project, items)[k].Project() == project &&
              InstanceJobs(project, items)[k].Zone() == items[k].zone
  {
  }

  /** Parsed and not created before `t`: what the expiry loop collects. */
  function IsFresh(t: int, parse: TimestampParser): Resource -> bool
  {
    (x: Resource) => parse(x.creationTimestamp).Some? && !(parse(x.creationTimestamp).value < t)
  }

  /** The collected list holds exactly the listed instances the age stage would not select. */
  lemma FreshComplementsOld(items: seq<Resource>, t: int, parse: TimestampParser)
    requires AllParse(items, parse)
    ensures forall x :: x in Keep(items, IsFresh(t, parse)) <==> x in items && x !in OldOnly(items, t, parse).value
  {
    forall x
      ensures x in Keep(items, IsFresh(t, parse)) <==> x in items && x !in OldOnly(items, t, parse).value
    {
      KeepMembers(items, IsFresh(t, parse), x);
      KeepMembers(items, IsOld(t, parse), x);
      if x in items {
        var k :| 0 <= k < |items| && items[k] == x;
        assert parse(x.creationTimestamp).Some?;
      }
    }
  }

  class InstanceJanitor {
    var project: string
    var items: seq<Resource>
    var expiredBefore: int
    var deleteSingletons: bool
    var blacklistPatterns: seq<string>
    var nameDelimiter: string

    /** The configuration fields the stages never change. */
    predicate SameConfig(p: string, e: int, d: bool, b: seq<string>, n: string)
      reads this
    {
      project == p && expiredBefore == e && deleteSingletons == d && blacklistPatterns == b && nameDelimiter == n
    }

    /** The blacklist argument `b` is accepted but not stored. */
    constructor (p: string, e: int, d: bool, b: seq<string>, n: string)
      ensures SameConfig(p, e, d, [], n) && items == []
    {
      project, expiredBefore, deleteSingletons, nameDelimiter := p, e, d, n;
      blacklistPatterns := [];
      items := [];
    }

    /**
     * Lists the zones, then each zone's instances page by page; a failed zone list or
     * page request is fatal (`exited`), otherwise `items` becomes every page of every
     * zone, zone by zone in zone-list order.
     */
    method Refresh(zones: ZoneList) returns (exited: bool)
      requires zones.Zones? ==> ZonesEnd(zones.items)
      modifies this
      ensures exited <==> zones.ZoneListError? || ListedZones(zones.items).None?
      ensures !exited ==> items == ListedZones(zones.items).value
      ensures exited ==> items == old(items)
      ensures SameConfig(old(project), old(expiredBefore), old(deleteSingletons), old(blacklistPatterns), old(nameDelimiter))
    {
      if zones.ZoneListError? {
        return true;
      }
      var zs := zones.items;
      var itl: seq<Resource> := [];
      var z := 0;
      ZonesEndSuffix(zs, 0);
      assert zs[0..] == zs;
      assert Prepend([], ListedZones(zs)) == ListedZones(zs) by {
        if ListedZones(zs).Some? {
          assert [] + ListedZones(zs).value == ListedZones(zs).value;
        }
      }
      while z < |zs|
        invariant 0 <= z <= |zs| && unchanged(this)
        invariant ZonesEnd(zs[z..])
        invariant ListedZones(zs) == Prepend(itl, ListedZones(zs[z..]))
      {
        ListedZonesStep(zs, z);
        var found := ListAll(zs[z].instances);
        if found.None? {
          return true;
        }
        PrependTwice(itl, found.value, ListedZones(zs[z + 1..]));
        itl := itl + found.value;
        z := z + 1;
      }
      assert zs[z..] == [];
      assert itl + [] == itl;
      items := itl;
      exited := false;
    }

    /**
     * With no patterns `items` is left alone; otherwise each instance is kept once for
     * every pattern that does not match its name, instance by instance.
     */
    method Blacklist(matches: Matcher)
      modifies this
      ensures blacklistPatterns == [] ==> items == old(items)
      ensures blacklistPatterns != [] ==> items == BlacklistPass(old(items), blacklistPatterns, matches)
      ensures SameConfig(old(project), old(expiredBefore), old(deleteSingletons), old(blacklistPatterns), old(nameDelimiter))
    {
      var bi: seq<Resource> := [];
      if |blacklistPatterns| == 0 {
        return;
      }
      var patterns := blacklistPatterns;
      var list := items;
      var k := 0;
      while k < |list|
        invariant 0 <= k <= |list| && unchanged(this)
        invariant bi == BlacklistPass(list[..k], patterns, matches)
      {
        var ins := list[k];
        var j := 0;
        while j < |patterns|
          invariant 0 <= j <= |patterns| && unchanged(this)
          invariant bi == BlacklistPass(list[..k], patterns, matches) + Copies(ins, patterns[..j], matches)
        {
          CopiesStep(BlacklistPass(list[..k], patterns, matches), ins, patterns, j, matches);
          if !matches(patterns[j], ins.name) {
            bi := bi + [ins];
          }
          j := j + 1;
        }
        assert patterns[..j] == patterns;
        BlacklistPassStep([], list, k, patterns, matches);
        k := k + 1;
      }
      assert list[..k] == list;
      items := bi;
    }

    /**
     * Keeps every instance except the first of its naming scheme, in order; the
     * `deleteSingletons` setting is not consulted.
     */
    method Singletons()
      modifies this
      ensures items == NonSingletons(old(items), SchemeOf(nameDelimiter))
      ensures SameConfig(old(project), old(expiredBefore), old(deleteSingletons), old(blacklistPatterns), old(nameDelimiter))
    {
      var scheme := SchemeOf(nameDelimiter);
      var list := items;
      var il: seq<Resource> := [];
      var nsm: map<string, bool> := map[];
      var k := 0;
      while k < |list|
        invariant 0 <= k <= |list| && unchanged(this)
        invariant nsm.Keys == Schemes(list[..k], scheme)
        invariant il == NonSingletons(list[..k], scheme)
      {
        var ins := list[k];
        var b := scheme(ins);
        NonSingletonsStep(list, k, scheme);
        if b !in nsm {
          nsm := nsm[b := true];
        } else {
          nsm := nsm[b := false];
          il := il + [ins];
        }
        k := k + 1;
      }
      assert list[..k] == list;
      items := il;
    }

    /**
     * Parses every creation timestamp, a parse error being fatal, and collects the
     * instances not created before `expiredBefore` into a local list (returned as
     * `unused`), which is then dropped: `items` is untouched.
     */
    method Expired(parse: TimestampParser) returns (exited: bool, unused: seq<Resource>)
      ensures exited <==> exists k :: 0 <= k < |items| && parse(items[k].creationTimestamp).None?
      ensures !exited ==> unused == Keep(items, IsFresh(expiredBefore, parse))
    {
      var inl: seq<Resource> := [];
      var k := 0;
      while k < |items|
        invariant 0 <= k <= |items|
        invariant forall j :: 0 <= j < k ==> parse(items[j].creationTimestamp).Some?
        invariant inl == Keep(items[..k], IsFresh(expiredBefore, parse))
      {
        var stamp := parse(items[k].creationTimestamp);
        if stamp.None? {
          return true, inl;
        }
        assert items[..k + 1][..k] == items[..k];
        if stamp.value < expiredBefore {
        } else {
          inl := inl + [items[k]];
        }
        k := k + 1;
      }
      assert items[..k] == items;
      return false, inl;
    }

    /** The records the workers will receive: one per instance, in `items` order. */
    function Queued(): seq<DeleteMetadata>
      reads this
    {
      InstanceJobs(project, items)
    }

    /** Sends one deletion record per instance, in order, then closes the queue. */
    method Delete(d: Channel<DeleteMetadata>)
      requires !d.closed
      modifies d
      ensures d.closed && d.buffer == old(d.buffer) + Queued()
    {
      var k := 0;
      while k < |items|
        invariant 0 <= k <= |items|
        invariant !d.closed && d.buffer == old(d.buffer) + InstanceJobs(project, items[..k])
      {
        assert InstanceJobs(project, items[..k + 1]) == InstanceJobs(project, items[..k]) + [InstanceDeleteMetadata(project, items[k])];
        d.Send(InstanceDeleteMetadata(project, items[k]));
        k := k + 1;
      }
      assert items[..k] == items;
      d.Close();
    }
  }
}
