/**
 * The janitor package's image metadata: an object whose `items` field each stage
 * rewrites in turn (refresh, blacklist, singletons, expiry) before the deletion
 * jobs are queued.
 */
module JanitorImages {
  import opened Wrappers
  import opened Seqs
  import Naming
  import opened Compute
  import opened Eligibility
  import opened Channels
  import opened JanitorDeleter

  /** One deletion record per image, in list order. */
  function ImageJobs(project: string, items: seq<Resource>): (jobs: seq<DeleteMetadata>)
    ensures |jobs| == |items|
  {
    seq(|items|, k requires 0 <= k < |items| => ImageDeleteMetadata(project, items[k]))
  }

  /**
   * The `k`-th record deletes the `k`-th image by name in the metadata's project and
   * reports no zone.
   */
  lemma ImageJobsOnePerItem(project: string, items: seq<Resource>)
    ensures forall k :: 0 <= k < |items| ==>
              ImageJobs(project, items)[k].Call() == Operations.ImagesDelete(project, items[k].name) &&
              ImageJobs(project, items)[k].Project() == project &&
              ImageJobs(project, items)[k].Zone() == ""
  {
  }

  class ImageJanitor {
    var project: string
    var items: seq<Resource>
    var expiredBefore: int
    var deleteSingletons: bool
    var blacklistPatterns: seq<string>
    var nameDelimiter: string

    /** The configuration fields the stages never change. */
    predicate SameConfig(p: string, e: int, d: bool, b: seq<string>, n: string)
      reads this
    {
      project == p && expiredBefore == e && deleteSingletons == d && blacklistPatterns == b && nameDelimiter == n
    }

    /** The blacklist argument `b` is accepted but not stored. */
    constructor (p: string, e: int, d: bool, b: seq<string>, n: string)
      ensures SameConfig(p, e, d, [], n) && items == []
    {
      project, expiredBefore, deleteSingletons, nameDelimiter := p, e, d, n;
      blacklistPatterns := [];
      items := [];
    }

    /**
     * Lists the project's images page by page; a failed request is fatal (`exited`),
     * otherwise `items` becomes every page's images in the order returned.
     */
    method Refresh(rs: seq<ListResponse>) returns (exited: bool)
      requires Ends(rs)
      modifies this
      ensures exited <==> Listed(rs).None?
      ensures !exited ==> items == Listed(rs).value
      ensures exited ==> items == old(items)
      ensures SameConfig(old(project), old(expiredBefore), old(deleteSingletons), old(blacklistPatterns), old(nameDelimiter))
    {
      var itl := ListAll(rs);
      if itl.None? {
        return true;
      }
      items := itl.value;
      exited := false;
    }

    /**
     * With no patterns `items` is left alone; otherwise each image is kept once for
     * every pattern that does not match its name, image by image.
     */
    method Blacklist(matches: Matcher)
      modifies this
      ensures blacklistPatterns == [] ==> items == old(items)
      ensures blacklistPatterns != [] ==> items == BlacklistPass(old(items), blacklistPatterns, matches)
      ensures SameConfig(old(project), old(expiredBefore), old(deleteSingletons), old(blacklistPatterns), old(nameDelimiter))
    {
      var bi: seq<Resource> := [];
      if |blacklistPatterns| == 0 {
        return;
      }
      var patterns := blacklistPatterns;
      var list := items;
      var k := 0;
      while k < |list|
        invariant 0 <= k <= |list| && unchanged(this)
        invariant bi == BlacklistPass(list[..k], patterns, matches)
      {
        var im := list[k];
        var j := 0;
        while j < |patterns|
          invariant 0 <= j <= |patterns| && unchanged(this)
          invariant bi == BlacklistPass(list[..k], patterns, matches) + Copies(im, patterns[..j], matches)
        {
          CopiesStep(BlacklistPass(list[..k], patterns, matches), im, patterns, j, matches);
          if !matches(patterns[j], im.name) {
            bi := bi + [im];
          }
          j := j + 1;
        }
        assert patterns[..j] == patterns;
        BlacklistPassStep([], list, k, patterns, matches);
        k := k + 1;
      }
      assert list[..k] == list;
      items := bi;
    }

    /**
     * Keeps every image except the first of its naming scheme, in order; the
     * `deleteSingletons` setting is not consulted.
     */
    method Singletons()
      modifies this
      ensures items == NonSingletons(old(items), SchemeOf(nameDelimiter))
      ensures SameConfig(old(project), old(expiredBefore), old(deleteSingletons), old(blacklistPatterns), old(nameDelimiter))
    {
      var scheme := SchemeOf(nameDelimiter);
      var list := items;
      var il: seq<Resource> := [];
      var nsm: map<string, bool> := map[];
      var k := 0;
      while k < |list|
        invariant 0 <= k <= |list| && unchanged(this)
        invariant nsm.Keys == Schemes(list[..k], scheme)
        invariant il == NonSingletons(list[..k], scheme)
      {
        var im := list[k];
        var b := scheme(im);
        NonSingletonsStep(list, k, scheme);
        if b !in nsm {
          nsm := nsm[b := true];
        } else {
          nsm := nsm[b := false];
          il := il + [im];
        }
        k := k + 1;
      }
      assert list[..k] == list;
      items := il;
    }

    /**
     * Parses every creation timestamp, a parse error being fatal. Each image goes to a
     * local list unless its stamp is before itself, which never holds, so that list
     * (returned as `unused`) is every image; it is then dropped and `items` is untouched.
     */
    method Expired(parse: TimestampParser) returns (exited: bool, unused: seq<Resource>)
      ensures exited <==> exists k :: 0 <= k < |items| && parse(items[k].creationTimestamp).None?
      ensures !exited ==> unused == items
    {
      var iml: seq<Resource> := [];
      var k := 0;
      while k < |items|
        invariant 0 <= k <= |items|
        invariant forall j :: 0 <= j < k ==> parse(items[j].creationTimestamp).Some?
        invariant iml == items[..k]
      {
        var stamp := parse(items[k].creationTimestamp);
        if stamp.None? {
          return true, iml;
        }
        if stamp.value < stamp.value {
        } else {
          iml := iml + [items[k]];
        }
        assert items[..k + 1] == items[..k] + [items[k]];
        k := k + 1;
      }
      assert items[..k] == items;
      return false, iml;
    }

    /** The records the workers will receive: one per image, in `items` order. */
    function Queued(): seq<DeleteMetadata>
      reads this
    {
      ImageJobs(project, items)
    }

    /** Sends one deletion record per image, in order, then closes the queue. */
    method Delete(d: Channel<DeleteMetadata>)
      requires !d.closed
      modifies d
      ensures d.closed && d.buffer == old(d.buffer) + Queued()
    {
      var k := 0;
      while k < |items|
        invariant 0 <= k <= |items|
        invariant !d.closed && d.buffer == old(d.buffer) + ImageJobs(project, items[..k])
      {
        assert ImageJobs(project, items[..k + 1]) == ImageJobs(project, items[..k]) + [ImageDeleteMetadata(project, items[k])];
        d.Send(ImageDeleteMetadata(project, items[k]));
        k := k + 1;
      }
      assert items[..k] == items;
      d.Close();
    }
  }
}
