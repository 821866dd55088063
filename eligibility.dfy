/**
 * The three eligibility stages, as pure functions over the listing order:
 * blacklist (as both janitors write it, and as evidently intended), singleton
 * exclusion by naming scheme, and the age threshold. The imperative stages of
 * both tools are proved against these definitions.
 */
module Eligibility {
  import opened Wrappers
  import opened Seqs
  import Naming
  import opened Compute

  /** Regular-expression matching: `matches(pattern, name)`. */
  type Matcher = (string, string) -> bool

  /** RFC 3339 parsing into nanoseconds since the epoch; None is a parse error. */
  type TimestampParser = string -> Option<int>

  // ---------------------------------------------------------------- Blacklist, as written

  /** The copies of `x` the nested pattern loop appends: one per pattern that does not match. */
  function Copies(x: Resource, patterns: seq<string>, matches: Matcher): seq<Resource>
    decreases |patterns|
  {
    if patterns == [] then []
    else
      var p := patterns[|patterns| - 1];
      Copies(x, patterns[..|patterns| - 1], matches) + (if matches(p, x.name) then [] else [x])
  }

  /** The blacklist loop: for each item in order, its copies. */
  function BlacklistPass(items: seq<Resource>, patterns: seq<string>, matches: Matcher): seq<Resource>
    decreases |items|
  {
    if items == [] then []
    else BlacklistPass(items[..|items| - 1], patterns, matches) + Copies(items[|items| - 1], patterns, matches)
  }

  /** The patterns that do not match `x`. */
  function Misses(x: Resource, matches: Matcher): string -> bool
  {
    (p: string) => !matches(p, x.name)
  }

  /** An item is copied exactly once per pattern it fails to match. */
  lemma {:induction false} CopiesAreRepeats(x: Resource, patterns: seq<string>, matches: Matcher)
    ensures Copies(x, patterns, matches) == Repeat(x, |Keep(patterns, Misses(x, matches))|)
    decreases |patterns|
  {
    if patterns != [] {
      CopiesAreRepeats(x, patterns[..|patterns| - 1], matches);
    }
  }

  /** One more pattern tried against `x`, after whatever the loop has gathered so far. */
  lemma CopiesStep(prefix: seq<Resource>, x: Resource, patterns: seq<string>, j: nat, matches: Matcher)
    requires j < |patterns|
    ensures matches(patterns[j], x.name) ==>
              prefix + Copies(x, patterns[..j + 1], matches) == prefix + Copies(x, patterns[..j], matches)
    ensures !matches(patterns[j], x.name) ==>
              prefix + Copies(x, patterns[..j + 1], matches) == prefix + Copies(x, patterns[..j], matches) + [x]
  {
    var before := Copies(x, patterns[..j], matches);
    assert patterns[..j + 1][..j] == patterns[..j];
    if matches(patterns[j], x.name) {
      assert before + [] == before;
    } else {
      ConcatAssoc(prefix, before, [x]);
    }
  }

  /** One more item through the blacklist loop, after whatever the loop has gathered so far. */
  lemma BlacklistPassStep(acc: seq<Resource>, items: seq<Resource>, k: nat, patterns: seq<string>, matches: Matcher)
    requires k < |items|
    ensures BlacklistPass(items[..k + 1], patterns, matches) ==
            BlacklistPass(items[..k], patterns, matches) + Copies(items[k], patterns, matches)
    ensures acc + BlacklistPass(items[..k + 1], patterns, matches) ==
            acc + BlacklistPass(items[..k], patterns, matches) + Copies(items[k], patterns, matches)
  {
    assert items[..k + 1][..k] == items[..k] && items[..k + 1][k] == items[k];
    ConcatAssoc(acc, BlacklistPass(items[..k], patterns, matches), Copies(items[k], patterns, matches));
  }

  lemma {:induction false} BlacklistConcat(a: seq<Resource>, b: seq<Resource>, patterns: seq<string>, matches: Matcher)
    ensures BlacklistPass(a + b, patterns, matches) == BlacklistPass(a, patterns, matches) + BlacklistPass(b, patterns, matches)
    decreases |b|
  {
    if b == [] {
      assert a + b == a;
    } else {
      var b' := b[..|b| - 1];
      var x := b[|b| - 1];
      var ab := a + b;
      assert ab[..|ab| - 1] == a + b' && ab[|ab| - 1] == x;
      assert BlacklistPass(ab, patterns, matches) ==
             BlacklistPass(a + b', patterns, matches) + Copies(x, patterns, matches);
      assert BlacklistPass(b, patterns, matches) == BlacklistPass(b', patterns, matches) + Copies(x, patterns, matches);
      BlacklistConcat(a, b', patterns, matches);
      ConcatAssoc(BlacklistPass(a, patterns, matches), BlacklistPass(b', patterns, matches), Copies(x, patterns, matches));
    }
  }

  lemma {:induction false} CopiesMembers(x: Resource, patterns: seq<string>, matches: Matcher, y: Resource)
    ensures y in Copies(x, patterns, matches) <==> y == x && exists k :: 0 <= k < |patterns| && !matches(patterns[k], x.name)
    decreases |patterns|
  {
    if patterns != [] {
      var ps := patterns[..|patterns| - 1];
      CopiesMembers(x, ps, matches, y);
      assert forall k :: 0 <= k < |ps| ==> ps[k] == patterns[k];
    }
  }

  /** An item survives iff it is listed and fails to match at least one pattern. */
  lemma {:induction false} BlacklistMembers(items: seq<Resource>, patterns: seq<string>, matches: Matcher, x: Resource)
    ensures x in BlacklistPass(items, patterns, matches) <==>
            x in items && exists k :: 0 <= k < |patterns| && !matches(patterns[k], x.name)
    decreases |items|
  {
    if items != [] {
      var s := items[..|items| - 1];
      BlacklistMembers(s, patterns, matches, x);
      CopiesMembers(items[|items| - 1], patterns, matches, x);
      assert items == s + [items[|items| - 1]];
    }
  }

  /** With no patterns nothing is appended: every item is dropped. */
  lemma {:induction false} BlacklistNoPatterns(items: seq<Resource>, matches: Matcher)
    ensures BlacklistPass(items, [], matches) == []
    decreases |items|
  {
    if items != [] {
      BlacklistNoPatterns(items[..|items| - 1], matches);
    }
  }

  /** The items `p` does not match. */
  function Unmatched(p: string, matches: Matcher): Resource -> bool
  {
    (x: Resource) => !matches(p, x.name)
  }

  /** With exactly one pattern, an item survives (once) iff that pattern does not match it. */
  lemma CopiesOnePattern(x: Resource, p: string, matches: Matcher)
    ensures Copies(x, [p], matches) == if matches(p, x.name) then [] else [x]
  {
    var ps: seq<string> := [p];
    assert ps[..0] == [];
  }

  lemma {:induction false} BlacklistOnePattern(items: seq<Resource>, p: string, matches: Matcher)
    ensures BlacklistPass(items, [p], matches) == Keep(items, Unmatched(p, matches))
    decreases |items|
  {
    if items != [] {
      BlacklistOnePattern(items[..|items| - 1], p, matches);
      CopiesOnePattern(items[|items| - 1], p, matches);
    }
  }

  // ---------------------------------------------------------------- Blacklist, as intended

  /** A name is blacklisted when at least one pattern matches it. */
  predicate Blacklisted(name: string, patterns: seq<string>, matches: Matcher)
  {
    exists k :: 0 <= k < |patterns| && matches(patterns[k], name)
  }

  function NotBlacklisted(patterns: seq<string>, matches: Matcher): Resource -> bool
  {
    (x: Resource) => !Blacklisted(x.name, patterns, matches)
  }

  /** Exclusion by any match, each item at most once, no patterns keeping everything. */
  function BlacklistExclude(items: seq<Resource>, patterns: seq<string>, matches: Matcher): seq<Resource>
  {
    Keep(items, NotBlacklisted(patterns, matches))
  }

  lemma BlacklistExcludeCorrect(items: seq<Resource>, patterns: seq<string>, matches: Matcher)
    ensures forall x :: x in BlacklistExclude(items, patterns, matches) <==>
                        x in items && !Blacklisted(x.name, patterns, matches)
    ensures forall x :: multiset(BlacklistExclude(items, patterns, matches))[x] ==
                        if Blacklisted(x.name, patterns, matches) then 0 else multiset(items)[x]
    ensures IsSubseq(BlacklistExclude(items, patterns, matches), items)
    ensures patterns == [] ==> BlacklistExclude(items, patterns, matches) == items
  {
    forall x {
      KeepMembers(items, NotBlacklisted(patterns, matches), x);
    }
    KeepMultiset(items, NotBlacklisted(patterns, matches));
    KeepIsSubseq(items, NotBlacklisted(patterns, matches));
    KeepAllOrNone(items, NotBlacklisted(patterns, matches));
  }

  /** With exactly one pattern the loop as written and the intended exclusion agree. */
  lemma {:induction false} BlacklistOnePatternAgrees(items: seq<Resource>, p: string, matches: Matcher)
    ensures BlacklistPass(items, [p], matches) == BlacklistExclude(items, [p], matches)
    decreases |items|
  {
    if items != [] {
      BlacklistOnePatternAgrees(items[..|items| - 1], p, matches);
      var x := items[|items| - 1];
      assert Blacklisted(x.name, [p], matches) <==> matches(p, x.name) by {
        if matches(p, x.name) { assert [p][0] == p; }
      }
      CopiesOnePattern(x, p, matches);
    }
  }

  /** A matcher for concrete cases: a pattern matches exactly the name it spells. */
  function ExactMatch(p: string, name: string): bool
  {
    p == name
  }

  lemma CopiesTwoPatterns(x: Resource, p: string, q: string, matches: Matcher)
    ensures Copies(x, [p, q], matches) ==
            (if matches(p, x.name) then [] else [x]) + (if matches(q, x.name) then [] else [x])
  {
    var ps: seq<string> := [p, q];
    assert ps[..1] == [p];
    CopiesOnePattern(x, p, matches);
  }

  lemma BlacklistOneItem(x: Resource, patterns: seq<string>, matches: Matcher)
    ensures BlacklistPass([x], patterns, matches) == Copies(x, patterns, matches)
  {
    var items: seq<Resource> := [x];
    assert items[..0] == [];
  }

  /**
   * With two patterns, an item matched by one of them survives the loop as written,
   * and an item matched by neither is appended twice.
   */
  lemma BlacklistTwoPatterns()
    ensures var x := Resource("tmp", "", "");
            BlacklistPass([x], ["tmp", "db"], ExactMatch) == [x] &&
            Blacklisted(x.name, ["tmp", "db"], ExactMatch)
    ensures var y := Resource("web", "", "");
            BlacklistPass([y], ["tmp", "db"], ExactMatch) == [y, y]
  {
    var x := Resource("tmp", "", "");
    var y := Resource("web", "", "");
    BlacklistOneItem(x, ["tmp", "db"], ExactMatch);
    BlacklistOneItem(y, ["tmp", "db"], ExactMatch);
    CopiesTwoPatterns(x, "tmp", "db", ExactMatch);
    CopiesTwoPatterns(y, "tmp", "db", ExactMatch);
    assert "tmp" != "db" && "tmp" != "web" && "db" != "web" by {
      assert "tmp"[0] != "db"[0] && "tmp"[0] != "web"[0] && "db"[0] != "web"[0];
    }
    assert ["tmp", "db"][0] == "tmp";
  }

  // ---------------------------------------------------------------- Singletons

  /** The naming scheme of a resource: its name's basename. */
  function SchemeOf(delim: string): Resource -> string
  {
    (x: Resource) => Naming.Basename(x.name, delim)
  }

  function Schemes(items: seq<Resource>, scheme: Resource -> string): set<string>
  {
    set k | 0 <= k < |items| :: scheme(items[k])
  }

  /** Every item except the first of its naming scheme, in order. */
  function NonSingletons(items: seq<Resource>, scheme: Resource -> string): seq<Resource>
    decreases |items|
  {
    if items == [] then []
    else
      var prefix := items[..|items| - 1];
      var x := items[|items| - 1];
      NonSingletons(prefix, scheme) + (if scheme(x) in Schemes(prefix, scheme) then [x] else [])
  }

  lemma SchemesSnoc(items: seq<Resource>, x: Resource, scheme: Resource -> string)
    ensures Schemes(items + [x], scheme) == Schemes(items, scheme) + {scheme(x)}
  {
    var s := items + [x];
    assert forall k :: 0 <= k < |items| ==> s[k] == items[k];
    assert s[|items|] == x;
  }

  /** Scanning one more item: its scheme joins the seen set, and it is passed on iff already seen. */
  lemma NonSingletonsStep(items: seq<Resource>, k: nat, scheme: Resource -> string)
    requires k < |items|
    ensures Schemes(items[..k + 1], scheme) == Schemes(items[..k], scheme) + {scheme(items[k])}
    ensures NonSingletons(items[..k + 1], scheme) ==
            NonSingletons(items[..k], scheme) + (if scheme(items[k]) in Schemes(items[..k], scheme) then [items[k]] else [])
  {
    assert items[..k + 1][..k] == items[..k] && items[..k + 1][k] == items[k];
    assert items[..k + 1] == items[..k] + [items[k]];
    SchemesSnoc(items[..k], items[k], scheme);
  }

  /** The members of naming scheme `b`. */
  function HasScheme(b: string, scheme: Resource -> string): Resource -> bool
  {
    (x: Resource) => scheme(x) == b
  }

  lemma {:induction false} SchemeAbsent(items: seq<Resource>, b: string, scheme: Resource -> string)
    ensures b in Schemes(items, scheme) <==> Keep(items, HasScheme(b, scheme)) != []
    decreases |items|
  {
    if items != [] {
      var prefix := items[..|items| - 1];
      SchemeAbsent(prefix, b, scheme);
      assert items == prefix + [items[|items| - 1]];
      SchemesSnoc(prefix, items[|items| - 1], scheme);
    }
  }

  /** The output is as long as the input minus the number of naming schemes. */
  lemma {:induction false} NonSingletonsLength(items: seq<Resource>, scheme: Resource -> string)
    ensures |NonSingletons(items, scheme)| == |items| - |Schemes(items, scheme)|
    decreases |items|
  {
    if items != [] {
      var prefix := items[..|items| - 1];
      var x := items[|items| - 1];
      NonSingletonsLength(prefix, scheme);
      assert items == prefix + [x];
      SchemesSnoc(prefix, x, scheme);
      var old_ := Schemes(prefix, scheme);
      if scheme(x) in old_ {
        assert old_ + {scheme(x)} == old_;
      } else {
        assert |old_ + {scheme(x)}| == |old_| + 1;
      }
    }
  }

  /**
   * Within each naming scheme, in listing order, the first member is kept back
   * and every later member is passed on.
   */
  lemma {:induction false} NonSingletonsGroups(items: seq<Resource>, b: string, scheme: Resource -> string)
    ensures var group := Keep(items, HasScheme(b, scheme));
            Keep(NonSingletons(items, scheme), HasScheme(b, scheme)) == if group == [] then [] else group[1..]
    decreases |items|
  {
    if items != [] {
      var prefix := items[..|items| - 1];
      var x := items[|items| - 1];
      var h := HasScheme(b, scheme);
      NonSingletonsGroups(prefix, b, scheme);
      SchemeAbsent(prefix, scheme(x), scheme);
      var tail := if scheme(x) in Schemes(prefix, scheme) then [x] else [];
      KeepConcat(NonSingletons(prefix, scheme), tail, h);
      if scheme(x) == b && scheme(x) in Schemes(prefix, scheme) {
        var g := Keep(prefix, h);
        assert (g + [x])[1..] == g[1..] + [x];
      }
    }
  }

  lemma {:induction false} NonSingletonsSubseq(items: seq<Resource>, scheme: Resource -> string)
    ensures IsSubseq(NonSingletons(items, scheme), items)
    decreases |items|
  {
    if items != [] {
      var prefix := items[..|items| - 1];
      var x := items[|items| - 1];
      NonSingletonsSubseq(prefix, scheme);
      var kept := NonSingletons(prefix, scheme);
      assert items == prefix + [x];
      SubseqSnoc(kept, prefix, x);
      if scheme(x) !in Schemes(prefix, scheme) {
        assert NonSingletons(items, scheme) == kept + [] == kept;
      }
    }
  }

  /** The singleton stage: skipped when singletons are to be deleted too. */
  function SingletonStage(items: seq<Resource>, deleteSingletons: bool, delim: string): seq<Resource>
  {
    if deleteSingletons then items else NonSingletons(items, SchemeOf(delim))
  }

  /**
   * A naming scheme with a single member never reaches the age stage unless
   * singletons are to be deleted, in which case every item passes unchanged.
   */
  lemma SingletonStageKeepsSingletons(items: seq<Resource>, deleteSingletons: bool, delim: string, x: Resource)
    requires Keep(items, HasScheme(SchemeOf(delim)(x), SchemeOf(delim))) == [x]
    ensures deleteSingletons <==> x in SingletonStage(items, deleteSingletons, delim)
    ensures deleteSingletons ==> SingletonStage(items, deleteSingletons, delim) == items
  {
    var scheme := SchemeOf(delim);
    var h := HasScheme(scheme(x), scheme);
    KeepMembers(items, h, x);
    if !deleteSingletons {
      NonSingletonsGroups(items, scheme(x), scheme);
      KeepMembers(NonSingletons(items, scheme), h, x);
    }
  }

  /** A name `b-l` whose suffix `l` holds no `-` belongs to naming scheme `b`. */
  lemma NumberedScheme(b: string, l: string)
    requires '-' !in l
    ensures SchemeOf("-")(Resource(b + "-" + l, "", "")) == b
  {
    assert b + "-" + l == b + ['-'] + l;
    Naming.BasenameCharDelimiter(b, '-', l);
  }

  lemma ThreeItems(a: Resource, b: Resource, c: Resource, scheme: Resource -> string)
    requires scheme(a) == scheme(b) != scheme(c)
    ensures NonSingletons([a, b, c], scheme) == [b]
  {
    var s1: seq<Resource> := [a];
    var s2: seq<Resource> := [a, b];
    var s3: seq<Resource> := [a, b, c];
    assert s1[..0] == [] && s2[..1] == s1 && s3[..2] == s2;
    assert NonSingletons(s1, scheme) == [];
    SchemesSnoc([], a, scheme);
    SchemesSnoc(s1, b, scheme);
    assert [] + [a] == s1 && s1 + [b] == s2;
    assert Schemes([], scheme) == {};
    assert Schemes(s2, scheme) == {scheme(a)};
    assert NonSingletons(s2, scheme) == [b];
  }

  lemma ScenarioSchemes()
    ensures SchemeOf("-")(Resource("web-2", "", "")) == "web"
    ensures SchemeOf("-")(Resource("web-1", "", "")) == "web"
    ensures SchemeOf("-")(Resource("api-1", "", "")) == "api"
  {
    NumberedScheme("web", "2");
    NumberedScheme("web", "1");
    NumberedScheme("api", "1");
    assert "web" + "-" + "2" == "web-2";
    assert "web" + "-" + "1" == "web-1";
    assert "api" + "-" + "1" == "api-1";
  }

  /**
   * The listing `web-2, web-1, api-1` (newest first) with delimiter `-` passes on
   * only `web-1`: the first of each naming scheme is kept back. The janitor
   * package's Singletons does this even when singletons are to be deleted, where
   * the stage would pass on all three.
   */
  lemma SingletonScenario()
    ensures var web2, web1, api1 := Resource("web-2", "", ""), Resource("web-1", "", ""), Resource("api-1", "", "");
            NonSingletons([web2, web1, api1], SchemeOf("-")) == [web1] &&
            SingletonStage([web2, web1, api1], false, "-") == [web1] &&
            SingletonStage([web2, web1, api1], true, "-") == [web2, web1, api1]
  {
    var web2, web1, api1 := Resource("web-2", "", ""), Resource("web-1", "", ""), Resource("api-1", "", "");
    var scheme := SchemeOf("-");
    ScenarioSchemes();
    assert "api" != "web" by { assert "api"[0] != "web"[0]; }
    ThreeItems(web2, web1, api1, scheme);
    assert SingletonStage([web2, web1, api1], false, "-") == NonSingletons([web2, web1, api1], scheme);
  }

  // ---------------------------------------------------------------- Age

  /** Created strictly before `t` (an unparseable timestamp never counts as old). */
  function IsOld(t: int, parse: TimestampParser): Resource -> bool
  {
    (x: Resource) => match parse(x.creationTimestamp) case Some(stamp) => stamp < t case None => false
  }

  predicate AllParse(items: seq<Resource>, parse: TimestampParser)
  {
    forall k :: 0 <= k < |items| ==> parse(items[k].creationTimestamp).Some?
  }

  /** The age stage: all-or-nothing on parse errors, then the items created before `t`. */
  function OldOnly(items: seq<Resource>, t: int, parse: TimestampParser): Option<seq<Resource>>
  {
    if AllParse(items, parse) then Some(Keep(items, IsOld(t, parse))) else None
  }

  /**
   * The age stage fails iff some timestamp does not parse; otherwise it keeps, in
   * order, exactly the items created strictly before `t`.
   */
  lemma OldOnlyExactly(items: seq<Resource>, t: int, parse: TimestampParser)
    ensures OldOnly(items, t, parse).None? <==>
            exists k :: 0 <= k < |items| && parse(items[k].creationTimestamp).None?
    ensures OldOnly(items, t, parse).Some? ==>
            var r := OldOnly(items, t, parse).value;
            IsSubseq(r, items) &&
            (forall x :: x in r <==> x in items && parse(x.creationTimestamp).Some? && parse(x.creationTimestamp).value < t) &&
            forall x :: multiset(r)[x] ==
                        if parse(x.creationTimestamp).Some? && parse(x.creationTimestamp).value < t
                        then multiset(items)[x] else 0
  {
    if AllParse(items, parse) {
      KeepIsSubseq(items, IsOld(t, parse));
      forall x {
        KeepMembers(items, IsOld(t, parse), x);
      }
      KeepMultiset(items, IsOld(t, parse));
    }
  }

  /** The threshold is strict: an item created exactly at `t` is never selected. */
  lemma OldOnlyStrict(items: seq<Resource>, t: int, parse: TimestampParser, x: Resource)
    requires parse(x.creationTimestamp) == Some(t)
    requires OldOnly(items, t, parse).Some?
    ensures x !in OldOnly(items, t, parse).value
  {
    KeepMembers(items, IsOld(t, parse), x);
  }

  // ---------------------------------------------------------------- Pipeline

  /** Blacklist, then singletons, then age, each stage reading the previous one's output. */
  function Eligible(raw: seq<Resource>, t: int, deleteSingletons: bool, blacklist: seq<string>,
                    delim: string, matches: Matcher, parse: TimestampParser): Option<seq<Resource>>
  {
    var survivors := BlacklistPass(raw, blacklist, matches);
    OldOnly(SingletonStage(survivors, deleteSingletons, delim), t, parse)
  }

  /** The eligible set is an order-preserving subsequence of the blacklist survivors. */
  lemma EligibleWithinSurvivors(raw: seq<Resource>, t: int, deleteSingletons: bool, blacklist: seq<string>,
                                delim: string, matches: Matcher, parse: TimestampParser)
    requires Eligible(raw, t, deleteSingletons, blacklist, delim, matches, parse).Some?
    ensures IsSubseq(Eligible(raw, t, deleteSingletons, blacklist, delim, matches, parse).value,
                     BlacklistPass(raw, blacklist, matches))
  {
    var survivors := BlacklistPass(raw, blacklist, matches);
    var candidates := SingletonStage(survivors, deleteSingletons, delim);
    if deleteSingletons { SubseqRefl(survivors); } else { NonSingletonsSubseq(survivors, SchemeOf(delim)); }
    OldOnlyExactly(candidates, t, parse);
    SubseqTrans(OldOnly(candidates, t, parse).value, candidates, survivors);
  }

  /** An empty blacklist makes the as-written pipeline select nothing. */
  lemma EligibleEmptyBlacklist(raw: seq<Resource>, t: int, deleteSingletons: bool,
                               delim: string, matches: Matcher, parse: TimestampParser)
    ensures Eligible(raw, t, deleteSingletons, [], delim, matches, parse) == Some([])
  {
    BlacklistNoPatterns(raw, matches);
  }

  /**
   * The pipeline as evidently intended: the configured blacklist excludes every
   * item one of its patterns matches, each item at most once, and an empty
   * blacklist excludes nothing; the singleton and age stages are unchanged.
   */
  function IntendedEligible(raw: seq<Resource>, t: int, deleteSingletons: bool, blacklist: seq<string>,
                            delim: string, matches: Matcher, parse: TimestampParser): Option<seq<Resource>>
  {
    OldOnly(SingletonStage(BlacklistExclude(raw, blacklist, matches), deleteSingletons, delim), t, parse)
  }

  /**
   * Everything the intended pipeline selects is a listed, non-blacklisted item
   * created strictly before `t`, in listing order and never more often than it
   * is listed; with no blacklist it is the singleton and age stages over the listing.
   */
  lemma IntendedEligibleCorrect(raw: seq<Resource>, t: int, deleteSingletons: bool, blacklist: seq<string>,
                                delim: string, matches: Matcher, parse: TimestampParser)
    ensures var r := IntendedEligible(raw, t, deleteSingletons, blacklist, delim, matches, parse);
            r.Some? ==>
              IsSubseq(r.value, raw) &&
              forall x :: x in r.value ==>
                x in raw && !Blacklisted(x.name, blacklist, matches) &&
                parse(x.creationTimestamp).Some? && parse(x.creationTimestamp).value < t
    ensures blacklist == [] ==>
            IntendedEligible(raw, t, deleteSingletons, blacklist, delim, matches, parse) ==
            OldOnly(SingletonStage(raw, deleteSingletons, delim), t, parse)
  {
    var survivors := BlacklistExclude(raw, blacklist, matches);
    var candidates := SingletonStage(survivors, deleteSingletons, delim);
    BlacklistExcludeCorrect(raw, blacklist, matches);
    if deleteSingletons { SubseqRefl(survivors); } else { NonSingletonsSubseq(survivors, SchemeOf(delim)); }
    SubseqMembers(candidates, survivors);
    OldOnlyExactly(candidates, t, parse);
    if OldOnly(candidates, t, parse).Some? {
      SubseqTrans(OldOnly(candidates, t, parse).value, candidates, survivors);
      SubseqTrans(OldOnly(candidates, t, parse).value, survivors, raw);
    }
  }
}
