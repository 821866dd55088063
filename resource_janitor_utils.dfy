/**
 * The resource-janitor's selection functions: list every image (or every
 * instance, zone by zone) through the blacklist, drop the first of each naming
 * scheme unless singletons may go, and keep what was created before the cut-off.
 */
module ResourceJanitorUtils {
  import opened Wrappers
  import opened Seqs
  import Naming
  import opened Compute
  import opened Eligibility

  /** Why a selection produced no list. */
  datatype SelectError =
    | ListFailed    // a page request failed; pages already read are dropped
    | ParseFailed   // a creation timestamp is not RFC 3339
    | ZonesFatal    // the zone list could not be read: the process exits

  /** The selection over a listing outcome: the listing's error, or the pipeline's. */
  function Selected(listing: Option<seq<Resource>>, t: int, deleteSingletons: bool, blacklist: seq<string>,
                    delim: string, matches: Matcher, parse: TimestampParser): Result<seq<Resource>, SelectError>
  {
    match listing
    case None => Failure(ListFailed)
    case Some(raw) =>
      match Eligible(raw, t, deleteSingletons, blacklist, delim, matches, parse)
      case None => Failure(ParseFailed)
      case Some(chosen) => Success(chosen)
  }

  /**
   * A failed listing is reported as such whatever the rest; otherwise the selection
   * fails iff some blacklist survivor that reaches the age stage has an unparseable
   * timestamp, and succeeds with a subsequence of the survivors, each created
   * strictly before `t`. With singleton deletion on, every old survivor is chosen.
   */
  lemma SelectedOutcomes(listing: Option<seq<Resource>>, t: int, deleteSingletons: bool, blacklist: seq<string>,
                         delim: string, matches: Matcher, parse: TimestampParser)
    ensures var r := Selected(listing, t, deleteSingletons, blacklist, delim, matches, parse);
            (r == Failure(ListFailed) <==> listing.None?) &&
            (listing.Some? ==>
               var survivors := BlacklistPass(listing.value, blacklist, matches);
               var candidates := SingletonStage(survivors, deleteSingletons, delim);
               (r == Failure(ParseFailed) <==> exists k :: 0 <= k < |candidates| && parse(candidates[k].creationTimestamp).None?) &&
               (r.Success? ==>
                  IsSubseq(r.value, survivors) &&
                  (forall x :: x in r.value ==> parse(x.creationTimestamp).Some? && parse(x.creationTimestamp).value < t) &&
                  (deleteSingletons ==> forall x :: x in r.value <==> x in survivors && parse(x.creationTimestamp).Some? && parse(x.creationTimestamp).value < t) &&
                  (deleteSingletons ==> forall x :: multiset(r.value)[x] ==
                                          if parse(x.creationTimestamp).Some? && parse(x.creationTimestamp).value < t
                                          then multiset(survivors)[x] else 0)))
  {
    if listing.Some? {
      var survivors := BlacklistPass(listing.value, blacklist, matches);
      var candidates := SingletonStage(survivors, deleteSingletons, delim);
      assert Eligible(listing.value, t, deleteSingletons, blacklist, delim, matches, parse) == OldOnly(candidates, t, parse);
      assert deleteSingletons ==> candidates == survivors;
      assert Selected(listing, t, deleteSingletons, blacklist, delim, matches, parse) == Failure(ParseFailed) <==>
             OldOnly(candidates, t, parse).None?;
      OldOnlyExactly(candidates, t, parse);
      if Eligible(listing.value, t, deleteSingletons, blacklist, delim, matches, parse).Some? {
        EligibleWithinSurvivors(listing.value, t, deleteSingletons, blacklist, delim, matches, parse);
      }
    }
  }

  /** With an empty blacklist (the default configuration) a successful listing selects nothing at all. */
  lemma SelectedEmptyBlacklist(listing: Option<seq<Resource>>, t: int, deleteSingletons: bool,
                               delim: string, matches: Matcher, parse: TimestampParser)
    ensures listing.Some? ==> Selected(listing, t, deleteSingletons, [], delim, matches, parse) == Success([])
  {
    if listing.Some? {
      EligibleEmptyBlacklist(listing.value, t, deleteSingletons, delim, matches, parse);
    }
  }

  /** The nested blacklist loops for one page: each item once per pattern it does not match. */
  method AppendUnblacklisted(acc: seq<Resource>, items: seq<Resource>, blacklist: seq<string>, matches: Matcher)
    returns (all: seq<Resource>)
    ensures all == acc + BlacklistPass(items, blacklist, matches)
  {
    all := acc;
    var k := 0;
    while k < |items|
      invariant 0 <= k <= |items|
      invariant all == acc + BlacklistPass(items[..k], blacklist, matches)
    {
      var item := items[k];
      var j := 0;
      while j < |blacklist|
        invariant 0 <= j <= |blacklist|
        invariant all == acc + BlacklistPass(items[..k], blacklist, matches) + Copies(item, blacklist[..j], matches)
      {
        CopiesStep(acc + BlacklistPass(items[..k], blacklist, matches), item, blacklist, j, matches);
        if !matches(blacklist[j], item.name) {
          all := all + [item];
        }
        j := j + 1;
      }
      assert blacklist[..j] == blacklist;
      BlacklistPassStep(acc, items, k, blacklist, matches);
      k := k + 1;
    }
    assert items[..k] == items;
  }

  /** One more page that is not the last: the loop's facts carry over to the next page. */
  lemma PageStep(rs: seq<ListResponse>, p: nat, acc: seq<Resource>, gathered: seq<Resource>, next: seq<Resource>,
                 blacklist: seq<string>, matches: Matcher)
    requires p < |rs| && rs[p].Page?
    requires forall k :: 0 <= k < p ==> !Final(rs[k])
    requires gathered == acc + BlacklistPass(PagesItems(rs[..p]), blacklist, matches)
    requires next == gathered + BlacklistPass(rs[p].items, blacklist, matches)
    ensures next == acc + BlacklistPass(PagesItems(rs[..p + 1]), blacklist, matches)
    ensures rs[p].nextPageToken != "" ==> forall k :: 0 <= k < p + 1 ==> !Final(rs[k])
  {
    var earlier := BlacklistPass(PagesItems(rs[..p]), blacklist, matches);
    var page := BlacklistPass(rs[p].items, blacklist, matches);
    assert rs[..p + 1] == rs[..p] + [rs[p]];
    PagesItemsSnoc(rs[..p], rs[p]);
    BlacklistConcat(PagesItems(rs[..p]), rs[p].items, blacklist, matches);
    ConcatAssoc(acc, earlier, page);
  }

  /**
   * The page loop: request a page, pass its items through the blacklist onto `acc`,
   * follow the continuation token until a last page; a failed request abandons
   * everything gathered so far.
   */
  method ListUnblacklisted(rs: seq<ListResponse>, acc: seq<Resource>, blacklist: seq<string>, matches: Matcher)
    returns (all: Option<seq<Resource>>)
    requires Ends(rs)
    ensures all.None? <==> Listed(rs).None?
    ensures all.Some? ==> all.value == acc + BlacklistPass(Listed(rs).value, blacklist, matches)
  {
    var gathered := acc;
    var p := 0;
    while true
      invariant 0 <= p < |rs|
      invariant forall k :: 0 <= k < p ==> !Final(rs[k])
      invariant exists k :: p <= k < |rs| && Final(rs[k])
      invariant gathered == acc + BlacklistPass(PagesItems(rs[..p]), blacklist, matches)
      decreases |rs| - p
    {
      if rs[p].ListError? {
        ListedSucceeds(rs, p);
        return None;
      }
      var next := AppendUnblacklisted(gathered, rs[p].items, blacklist, matches);
      PageStep(rs, p, acc, gathered, next, blacklist, matches);
      gathered := next;
      if rs[p].nextPageToken == "" {
        ListedSucceeds(rs, p);
        return Some(gathered);
      }
      p := p + 1;
    }
  }

  /**
   * Keeps the first resource of each naming scheme out (it is recorded in a map)
   * and passes every later one on, in order.
   */
  method GetNonSingletons(list: seq<Resource>, nameDelimiter: string) returns (nonSingletons: seq<Resource>)
    ensures nonSingletons == NonSingletons(list, SchemeOf(nameDelimiter))
  {
    nonSingletons := SkipFirstOfEachScheme(list, SchemeOf(nameDelimiter));
  }

  /** The `seen` map loop of getNonSingletons, for any naming scheme. */
  method SkipFirstOfEachScheme(list: seq<Resource>, scheme: Resource -> string) returns (nonSingletons: seq<Resource>)
    ensures nonSingletons == NonSingletons(list, scheme)
  {
    var seen: map<string, string> := map[];
    nonSingletons := [];
    var k := 0;
    while k < |list|
      invariant 0 <= k <= |list|
      invariant seen.Keys == Schemes(list[..k], scheme)
      invariant nonSingletons == NonSingletons(list[..k], scheme)
    {
      var name := scheme(list[k]);
      NonSingletonsStep(list, k, scheme);
      if name !in seen {
        seen := seen[name := "yes"];
      } else {
        nonSingletons := nonSingletons + [list[k]];
      }
      k := k + 1;
    }
    assert list[..k] == list;
  }

  /** Parses each timestamp in turn (the first failure is returned) and keeps those before `t`. */
  method GetOld(list: seq<Resource>, t: int, parse: TimestampParser) returns (r: Result<seq<Resource>, SelectError>)
    ensures OldOnly(list, t, parse).None? ==> r == Failure(ParseFailed)
    ensures OldOnly(list, t, parse).Some? ==> r == Success(OldOnly(list, t, parse).value)
  {
    var oldOnes := [];
    var k := 0;
    while k < |list|
      invariant 0 <= k <= |list|
      invariant AllParse(list[..k], parse)
      invariant oldOnes == Keep(list[..k], IsOld(t, parse))
    {
      var stamp := parse(list[k].creationTimestamp);
      if stamp.None? {
        return Failure(ParseFailed);
      }
      assert list[..k + 1][..k] == list[..k] && list[..k + 1][k] == list[k];
      if stamp.value < t {
        oldOnes := oldOnes + [list[k]];
      }
      k := k + 1;
    }
    assert list[..k] == list;
    return Success(oldOnes);
  }

  /**
   * Lists the project's images (newest first) through the blacklist, then applies
   * the singleton stage unless singletons may be deleted, then the age stage.
   */
  method GetOldAndNonSingletonImages(rs: seq<ListResponse>, t: int, deleteSingletons: bool, blacklist: seq<string>,
                                     nameDelimiter: string, matches: Matcher, parse: TimestampParser)
    returns (r: Result<seq<Resource>, SelectError>)
    requires Ends(rs)
    ensures r == Selected(Listed(rs), t, deleteSingletons, blacklist, nameDelimiter, matches, parse)
  {
    var allImages := ListUnblacklisted(rs, [], blacklist, matches);
    if allImages.None? {
      return Failure(ListFailed);
    }
    ghost var survivors := BlacklistPass(Listed(rs).value, blacklist, matches);
    assert allImages.value == survivors by {
      assert [] + survivors == survivors;
    }
    var nonSingletonImages: seq<Resource>;
    if !deleteSingletons {
      nonSingletonImages := GetNonSingletons(allImages.value, nameDelimiter);
    } else {
      nonSingletonImages := allImages.value;
    }
    assert nonSingletonImages == SingletonStage(survivors, deleteSingletons, nameDelimiter);
    r := GetOld(nonSingletonImages, t, parse);
  }

  /** One zone of the zone loop: a failed listing fails the whole, a successful one extends it. */
  lemma ZoneStep(zs: seq<Zone>, z: nat, listed: seq<Resource>, blacklist: seq<string>, matches: Matcher)
    requires z < |zs| && ZonesEnd(zs) && ZonesEnd(zs[z..])
    requires ListedZones(zs) == Prepend(listed, ListedZones(zs[z..]))
    ensures Ends(zs[z].instances) && ZonesEnd(zs[z + 1..])
    ensures Listed(zs[z].instances).None? ==> ListedZones(zs).None?
    ensures Listed(zs[z].instances).Some? ==>
              ListedZones(zs) == Prepend(listed + Listed(zs[z].instances).value, ListedZones(zs[z + 1..])) &&
              BlacklistPass(listed + Listed(zs[z].instances).value, blacklist, matches) ==
              BlacklistPass(listed, blacklist, matches) + BlacklistPass(Listed(zs[z].instances).value, blacklist, matches)
  {
    ListedZonesStep(zs, z);
    if Listed(zs[z].instances).Some? {
      PrependTwice(listed, Listed(zs[z].instances).value, ListedZones(zs[z + 1..]));
      BlacklistConcat(listed, Listed(zs[z].instances).value, blacklist, matches);
    }
  }

  /**
   * Reads the zone list (a failure is fatal), lists every zone's instances through
   * the blacklist, zone by zone, then applies the singleton and age stages.
   */
  method GetOldAndNonSingletonInstances(zones: ZoneList, t: int, deleteSingletons: bool, blacklist: seq<string>,
                                        nameDelimiter: string, matches: Matcher, parse: TimestampParser)
    returns (r: Result<seq<Resource>, SelectError>)
    requires zones.Zones? ==> ZonesEnd(zones.items)
    ensures zones.ZoneListError? ==> r == Failure(ZonesFatal)
    ensures zones.Zones? ==> r == Selected(ListedZones(zones.items), t, deleteSingletons, blacklist, nameDelimiter, matches, parse)
  {
    if zones.ZoneListError? {
      return Failure(ZonesFatal);
    }
    var zs := zones.items;
    ghost var listed: seq<Resource> := [];
    var allInstances: seq<Resource> := [];
    var z := 0;
    assert zs[0..] == zs;
    assert ListedZones(zs).Some? ==> [] + ListedZones(zs).value == ListedZones(zs).value;
    while z < |zs|
      invariant 0 <= z <= |zs| && ZonesEnd(zs[z..])
      invariant ListedZones(zs) == Prepend(listed, ListedZones(zs[z..]))
      invariant allInstances == BlacklistPass(listed, blacklist, matches)
    {
      ZoneStep(zs, z, listed, blacklist, matches);
      var more := ListUnblacklisted(zs[z].instances, allInstances, blacklist, matches);
      if more.None? {
        return Failure(ListFailed);
      }
      listed := listed + Listed(zs[z].instances).value;
      allInstances := more.value;
      z := z + 1;
    }
    assert listed + [] == listed;
    var nonSingletonInstances: seq<Resource>;
    if !deleteSingletons {
      nonSingletonInstances := GetNonSingletons(allInstances, nameDelimiter);
    } else {
      nonSingletonInstances := allInstances;
    }
    r := GetOld(nonSingletonInstances, t, parse);
  }
}
