/**
 * The slice of the Compute Engine API the janitors see: resources, paged
 * listings and the zone list. API calls are replaced by transcripts of their
 * responses, consumed in order.
 */
module Compute {
  import opened Wrappers
  import opened Seqs

  /** Compute Engine resource names are never empty. */
  type ResourceName = s: string | |s| > 0 witness "a"

  /**
   * An image or an instance: its name, its RFC 3339 creation timestamp and, for
   * an instance, the URL of its zone (images are global and carry "").
   */
  datatype Resource = Resource(name: ResourceName, creationTimestamp: string, zone: string)

  /** One response to a List call: a page with its continuation token, or an error. */
  datatype ListResponse = Page(items: seq<Resource>, nextPageToken: string) | ListError

  /** A response after which the listing loop stops. */
  predicate Final(r: ListResponse)
  {
    r.ListError? || r.nextPageToken == ""
  }

  /** The transcript reaches a last page or an error. */
  predicate Ends(rs: seq<ListResponse>)
  {
    exists k :: 0 <= k < |rs| && Final(rs[k])
  }

  /** Prefix every listing with `items`; a failed listing stays failed. */
  function Prepend(items: seq<Resource>, listing: Option<seq<Resource>>): Option<seq<Resource>>
  {
    match listing
    case None => None
    case Some(rest) => Some(items + rest)
  }

  /**
   * Following continuation tokens: every page's items in the order returned, or
   * None when any request fails (pages already fetched are discarded).
   */
  function Listed(rs: seq<ListResponse>): Option<seq<Resource>>
    requires Ends(rs)
    decreases |rs|
  {
    match rs[0]
    case ListError => None
    case Page(items, token) =>
      if token == "" then Some(items)
      else
        assert Ends(rs[1..]) by {
          var k :| 0 <= k < |rs| && Final(rs[k]);
          assert k > 0 && Final(rs[1..][k - 1]);
        }
        Prepend(items, Listed(rs[1..]))
  }

  /** A zone and the transcript of the instance listing requested for it. */
  datatype Zone = Zone(name: string, instances: seq<ListResponse>)

  /** The response to the single Zones.List call. */
  datatype ZoneList = Zones(items: seq<Zone>) | ZoneListError

  predicate ZonesEnd(zones: seq<Zone>)
  {
    forall k :: 0 <= k < |zones| ==> Ends(zones[k].instances)
  }

  /** Every zone's listing, concatenated zone by zone; None when any of them fails. */
  function ListedZones(zones: seq<Zone>): Option<seq<Resource>>
    requires ZonesEnd(zones)
    decreases |zones|
  {
    if zones == [] then Some([])
    else
      match Listed(zones[0].instances)
      case None => None
      case Some(items) => Prepend(items, ListedZones(zones[1..]))
  }

  /**
   * Characterisation of a successful listing: it succeeds iff the requests up to
   * the first last page all return pages, and then it is the concatenation of
   * exactly those pages.
   */
  lemma {:induction false} ListedSucceeds(rs: seq<ListResponse>, n: nat)
    requires n < |rs| && Final(rs[n])
    requires forall k :: 0 <= k < n ==> !Final(rs[k])
    ensures Ends(rs)
    ensures Listed(rs).Some? <==> rs[n].Page?
    ensures rs[n].Page? ==> Listed(rs) == Some(PagesItems(rs[..n + 1]))
    decreases n
  {
    if n > 0 {
      ListedSucceeds(rs[1..], n - 1);
      assert rs[..n + 1][1..] == rs[1..][..n];
    } else {
      assert Final(rs[0]);
      assert rs[..1][1..] == [];
      assert rs[0].Page? ==> PagesItems(rs[..1]) == rs[0].items;
    }
  }

  /** The items a response carries: a page's items, none for an error. */
  function PageItems(r: ListResponse): seq<Resource>
  {
    if r.Page? then r.items else []
  }

  /** All items of a run of responses, in order. */
  function PagesItems(rs: seq<ListResponse>): seq<Resource>
    decreases |rs|
  {
    if rs == [] then [] else PageItems(rs[0]) + PagesItems(rs[1..])
  }

  lemma {:induction false} PagesItemsSnoc(rs: seq<ListResponse>, r: ListResponse)
    ensures PagesItems(rs + [r]) == PagesItems(rs) + PageItems(r)
    decreases |rs|
  {
    var t := rs + [r];
    if rs == [] {
      assert t == [r] && t[1..] == [];
      assert PagesItems(t) == PageItems(r) + PagesItems([]);
    } else {
      assert t[0] == rs[0] && t[1..] == rs[1..] + [r];
      PagesItemsSnoc(rs[1..], r);
      ConcatAssoc(PageItems(rs[0]), PagesItems(rs[1..]), PageItems(r));
    }
  }

  lemma PrependTwice(a: seq<Resource>, b: seq<Resource>, listing: Option<seq<Resource>>)
    ensures Prepend(a, Prepend(b, listing)) == Prepend(a + b, listing)
  {
    if listing.Some? {
      assert a + (b + listing.value) == (a + b) + listing.value;
    }
  }

  /**
   * The page loop: request a page, append its items, and follow the continuation
   * token until a last page; a failed request abandons the listing.
   */
  method ListAll(rs: seq<ListResponse>) returns (listing: Option<seq<Resource>>)
    requires Ends(rs)
    ensures listing == Listed(rs)
  {
    var acc: seq<Resource> := [];
    var p := 0;
    while true
      invariant 0 <= p < |rs|
      invariant forall k :: 0 <= k < p ==> !Final(rs[k])
      invariant exists k :: p <= k < |rs| && Final(rs[k])
      invariant acc == PagesItems(rs[..p])
      decreases |rs| - p
    {
      if rs[p].ListError? {
        ListedSucceeds(rs, p);
        return None;
      }
      assert rs[..p + 1] == rs[..p] + [rs[p]];
      PagesItemsSnoc(rs[..p], rs[p]);
      acc := acc + rs[p].items;
      if rs[p].nextPageToken == "" {
        ListedSucceeds(rs, p);
        return Some(acc);
      }
      p := p + 1;
    }
  }

  /** One zone's step of the zone-by-zone listing. */
  lemma ListedZonesStep(zones: seq<Zone>, z: nat)
    requires z < |zones| && ZonesEnd(zones[z..])
    ensures ZonesEnd(zones[z + 1..]) && Ends(zones[z].instances)
    ensures ListedZones(zones[z..]) ==
            match Listed(zones[z].instances)
            case None => None
            case Some(items) => Prepend(items, ListedZones(zones[z + 1..]))
  {
    assert zones[z..][1..] == zones[z + 1..] && zones[z..][0] == zones[z];
  }

  /** ZonesEnd carries over to a suffix of the zone list. */
  lemma ZonesEndSuffix(zones: seq<Zone>, z: nat)
    requires ZonesEnd(zones) && z <= |zones|
    ensures ZonesEnd(zones[z..])
  {
  }
}
