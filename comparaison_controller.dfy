/**
 * Controllers/ComparaisonController.cs: the read-only comparison of the two
 * name lists, the two transfers, their bidirectional chaining, and the
 * characteristic sync with its per-software details.
 */
module ComparaisonController {
  import opened Text
  import opened Collections
  import opened Records
  import opened Snapshots
  import opened Phases
  import opened OperationsController

  // ============================================================ ComparerLogiciels

  /** The titles of the items having a Title key, in order. */
  function Titles(items: seq<SpItem>): (r: seq<string>)
    ensures |r| <= |items|
  {
    if items == [] then []
    else
      var item := items[|items| - 1];
      Titles(items[..|items| - 1]) + (if "Title" in item then [item["Title"]] else [])
  }

  /** The names trimmed and lower-cased, empties dropped: `Select(Trim().ToLower()).Where(non-empty)`. */
  function NormalizedNames(names: seq<string>): (r: seq<string>)
    ensures |r| <= |names|
  {
    if names == [] then []
    else
      var n := Normalize(names[|names| - 1]);
      NormalizedNames(names[..|names| - 1]) + (if n != [] then [n] else [])
  }

  /** The name list of the LINQ chain: normalised, without empties, de-duplicated and sorted. */
  function NameList(names: seq<string>): seq<string> {
    SortBy(Distinct(NormalizedNames(names)), Self)
  }

  /** `nomsEkialis` of the comparison. */
  function EkialisNameList(flat: seq<ComponentFlat>): seq<string> {
    NameList(seq(|flat|, k requires 0 <= k < |flat| => flat[k].name))
  }

  /** `nomsSharePoint` of the comparison. */
  function SharePointNameList(items: seq<SpItem>): seq<string> {
    NameList(Titles(items))
  }

  function In(names: seq<string>): string -> bool {
    (x: string) => x in names
  }

  function NotIn(names: seq<string>): string -> bool {
    (x: string) => x !in names
  }

  /** LINQ's `Except`: the distinct elements of `a` not in `b`, in order. */
  function Except(a: seq<string>, b: seq<string>): seq<string> {
    Filter(Distinct(a), NotIn(b))
  }

  /** LINQ's `Intersect`: the distinct elements of `a` also in `b`, in order. */
  function Intersect(a: seq<string>, b: seq<string>): seq<string> {
    Filter(Distinct(a), In(b))
  }

  /** The response of the comparison. */
  datatype Comparison = Comparison(totalEkialis: nat, totalSharePoint: nat, identiques: nat,
                                   dansEkialisPasDansSharePoint: seq<string>,
                                   dansSharePointPasDansEkialis: seq<string>)

  /** The comparison of two name lists. */
  function Compare(e: seq<string>, s: seq<string>): (c: Comparison)
    ensures c.totalEkialis == |e| && c.totalSharePoint == |s|
  {
    Comparison(|e|, |s|, |Intersect(e, s)|, Except(e, s), Except(s, e))
  }

  /** What the comparison reads: the flattened software components and the SharePoint items, or an exception. */
  datatype FlatFetch = FlatFetched(flat: seq<ComponentFlat>, items: seq<SpItem>) | FlatRaised

  /** `ComparerLogiciels`: a failed login answers 401 and a failed read 500. */
  function ComparerLogiciels(authenticated: bool, f: FlatFetch): (answer: Answer<Comparison>)
    ensures !authenticated <==> answer.Unauthorized?
    ensures authenticated && f.FlatRaised? <==> answer.ServerError?
    ensures answer.Ok? ==> answer.body.totalEkialis == |EkialisNameList(f.flat)|
  {
    if !authenticated then Unauthorized
    else if f.FlatRaised? then ServerError
    else Ok(Compare(EkialisNameList(f.flat), SharePointNameList(f.items)))
  }

  /** A name is in a normalised list exactly when it is the non-empty normalised form of one of the names. */
  lemma {:induction false} NormalizedNamesMeaning(names: seq<string>, x: string)
    ensures x in NormalizedNames(names) <==> x != [] && exists k :: 0 <= k < |names| && Normalize(names[k]) == x
  {
    if names != [] {
      var init := names[..|names| - 1];
      NormalizedNamesMeaning(init, x);
      if exists k :: 0 <= k < |init| && Normalize(init[k]) == x {
        var k :| 0 <= k < |init| && Normalize(init[k]) == x;
        assert names[k] == init[k];
      }
      if exists k :: 0 <= k < |names| && Normalize(names[k]) == x {
        var k :| 0 <= k < |names| && Normalize(names[k]) == x;
        if k < |init| {
          assert init[k] == names[k];
        }
      }
    }
  }

  /**
   * The name list holds every non-empty normalised name, once each,
   * in ascending ordinal order.
   */
  lemma NameListMeaning(names: seq<string>)
    ensures forall x :: x in NameList(names) <==> x in NormalizedNames(names)
    ensures NoDuplicates(NameList(names))
    ensures SortedBy(NameList(names), Self)
  {
    var d := Distinct(NormalizedNames(names));
    assert multiset(NameList(names)) == multiset(d);
    forall x
      ensures x in NameList(names) <==> x in d
    {
      assert x in NameList(names) <==> x in multiset(NameList(names));
      assert x in d <==> x in multiset(d);
    }
  }

  /** The difference lists hold exactly the names of one side missing from the other. */
  lemma ExceptMeaning(a: seq<string>, b: seq<string>, x: string)
    ensures x in Except(a, b) <==> x in a && x !in b
    ensures NoDuplicates(Except(a, b))
  {
    FilterMember(Distinct(a), NotIn(b), x);
    FilterSubMultiset(Distinct(a), NotIn(b));
  }

  /** Elements of a sequence without duplicates, counted through its set. */
  lemma FilterOfDistinctLength(s: seq<string>, p: string -> bool)
    requires NoDuplicates(s)
    ensures |Filter(s, p)| == |set x | x in s && p(x)|
  {
    FilterSubMultiset(s, p);
    LengthOfDistinct(Filter(s, p));
    forall x
      ensures x in Filter(s, p) <==> x in s && p(x)
    {
      FilterMember(s, p, x);
    }
    assert (set x | x in Filter(s, p)) == (set x | x in s && p(x));
  }

  /**
   * On duplicate-free lists the comparison partitions each side:
   * `totalEkialis = identiques + |E \ S|` and `totalSharePoint = identiques + |S \ E|`.
   */
  lemma ComparisonPartitions(e: seq<string>, s: seq<string>)
    requires NoDuplicates(e) && NoDuplicates(s)
    ensures var c := Compare(e, s);
      && c.totalEkialis == c.identiques + |c.dansEkialisPasDansSharePoint|
      && c.totalSharePoint == c.identiques + |c.dansSharePointPasDansEkialis|
  {
    DistinctOfDistinct(e);
    DistinctOfDistinct(s);
    FilterPartition(e, In(s), NotIn(s));
    FilterPartition(s, In(e), NotIn(e));
    FilterOfDistinctLength(e, In(s));
    FilterOfDistinctLength(s, In(e));
    assert (set x | x in e && In(s)(x)) == (set x | x in s && In(e)(x));
  }

  /** `Distinct` leaves a duplicate-free list as it is. */
  lemma {:induction false} DistinctOfDistinct(s: seq<string>)
    requires NoDuplicates(s)
    ensures Distinct(s) == s
  {
    if s != [] {
      var init := s[..|s| - 1];
      assert s == init + [s[|s| - 1]];
      assert multiset(s) == multiset(init) + multiset{s[|s| - 1]};
      forall x ensures multiset(init)[x] <= 1 {
        assert multiset(init)[x] <= multiset(s)[x];
      }
      DistinctOfDistinct(init);
      assert multiset(s)[s[|s| - 1]] == multiset(init)[s[|s| - 1]] + 1;
      assert s[|s| - 1] !in init;
    }
  }

  /** The comparison's two lists are duplicate-free, so its counters partition both sides. */
  lemma ComparerLogicielsPartitions(flat: seq<ComponentFlat>, items: seq<SpItem>)
    ensures var c := ComparerLogiciels(true, FlatFetched(flat, items)).body;
      && c.totalEkialis == c.identiques + |c.dansEkialisPasDansSharePoint|
      && c.totalSharePoint == c.identiques + |c.dansSharePointPasDansEkialis|
  {
    NameListMeaning(seq(|flat|, k requires 0 <= k < |flat| => flat[k].name));
    NameListMeaning(Titles(items));
    ComparisonPartitions(EkialisNameList(flat), SharePointNameList(items));
  }

  // ============================================================ the two transfers

  /**
   * A component without `componentClass.id`, read as the class "", is not
   * software: it adds nothing to the Ekialis snapshot of a transfer.
   */
  lemma ClasslessComponentIgnored(comps: seq<EkComponent>, c: EkComponent)
    requires c.classId == ""
    ensures EkialisCatalogue(comps + [c]) == EkialisCatalogue(comps)
    ensures EkialisNames(comps + [c]) == EkialisNames(comps)
  {
    assert (comps + [c])[..|comps|] == comps;
    EkialisNamesSnoc(comps, c);
  }

  /**
   * `SynchroniserVersSharePoint`: the Ekialis-to-SharePoint transfer, after
   * reading the characteristic list `ids` and building a dictionary from it
   * that nothing else uses: a duplicate id answers 500 before any write.
   * `GetCharacteristicsAsync` answers an empty list when its read fails, so
   * `None` never comes from it; the model answers 500 for it all the same.
   */
  method SynchroniserVersSharePoint(authenticated: bool, ids: Option<seq<int>>, f: Fetch, accept: nat -> bool)
    returns (answer: Answer<ToSharePointResponse>, calls: seq<Call>, ghost order: seq<string>)
    ensures !authenticated ==> answer == Unauthorized && calls == []
    ensures authenticated && (ids.None? || !UniqueIds(ids.value) || f.FetchRaised?) ==> answer == ServerError && calls == []
    ensures authenticated && ids.Some? && UniqueIds(ids.value) && f.Fetched? ==>
              && multiset(order) == multiset(MissingInSharePoint(f.components, f.items))
              && SendsListed(EkialisCatalogue(f.components), order, calls)
              && answer == Ok(ToSharePointResponse(ToSharePointCounters(f.components, f.items, accept), SentList(calls)))
  {
    order := [];
    if !authenticated {
      return Unauthorized, [], order;
    }
    if ids.None? || !UniqueIds(ids.value) || f.FetchRaised? {
      return ServerError, [], order;
    }
    var summary, o;
    summary, o, calls := AddMissingToSharePoint(f.components, f.items, accept);
    order := o;
    answer := Ok(ToSharePointResponse(summary, SentList(calls)));
  }

  /** The wrapped results of the bidirectional sync. */
  datatype Bidirectional = Bidirectional(versEkialis: Answer<ToEkialisResponse>, versSharePoint: Answer<ToSharePointResponse>)

  /**
   * `SynchronisationBidirectionnelle`: SharePoint -> Ekialis, then
   * Ekialis -> SharePoint, each with its own login and reads; both results
   * are wrapped whatever they are, and the first step's writes all come
   * before the second's.
   */
  method SynchronisationBidirectionnelle(auth1: bool, f1: Fetch, a1: nat -> bool,
                                         auth2: bool, ids: Option<seq<int>>, f2: Fetch, a2: nat -> bool)
    returns (answer: Answer<Bidirectional>, calls: seq<Call>,
             ghost toEkialis: seq<Call>, ghost toSharePoint: seq<Call>, ghost order: seq<string>)
    ensures answer.Ok? && calls == toEkialis + toSharePoint
    ensures !auth1 ==> answer.body.versEkialis == Unauthorized && toEkialis == []
    ensures auth1 && f1.FetchRaised? ==> answer.body.versEkialis == ServerError && toEkialis == []
    ensures auth1 && f1.Fetched? ==>
              var missing := MissingInEkialis(f1.components, f1.items);
              && AddsListed(missing, toEkialis)
              && answer.body.versEkialis == Ok(ToEkialisResponse(ToEkialisCounters(f1.components, f1.items, a1), AddedList(missing)))
    ensures !auth2 ==> answer.body.versSharePoint == Unauthorized && toSharePoint == []
    ensures auth2 && (ids.None? || !UniqueIds(ids.value) || f2.FetchRaised?) ==>
              answer.body.versSharePoint == ServerError && toSharePoint == []
    ensures auth2 && ids.Some? && UniqueIds(ids.value) && f2.Fetched? ==>
              && multiset(order) == multiset(MissingInSharePoint(f2.components, f2.items))
              && SendsListed(EkialisCatalogue(f2.components), order, toSharePoint)
              && answer.body.versSharePoint
                   == Ok(ToSharePointResponse(ToSharePointCounters(f2.components, f2.items, a2), SentList(toSharePoint)))
  {
    var toEkialisResult, c1 := SharePointVersEkialis(auth1, f1, a1);
    var toSharePointResult, c2, o := SynchroniserVersSharePoint(auth2, ids, f2, a2);
    order := o;
    toEkialis, toSharePoint := c1, c2;
    calls := c1 + c2;
    answer := Ok(Bidirectional(toEkialisResult, toSharePointResult));
  }

  // ============================================================ SynchroniserCaracteristiques

  /** One entry of `details`. */
  datatype Detail = Detail(nom: string, componentId: int, caracteristiquesEkialis: nat, champsSharePoint: nat)

  /** `details`: one entry per common key, in the order the keys were processed. */
  function Details(ek: map<string, EkEntry>, sp: map<string, map<string, string>>, order: seq<string>): (r: seq<Detail>)
    requires forall k :: 0 <= k < |order| ==> order[k] in ek && order[k] in sp
    ensures |r| == |order|
  {
    seq(|order|, k requires 0 <= k < |order| =>
      Detail(order[k], ek[order[k]].componentId, |ek[order[k]].values|, |sp[order[k]]|))
  }

  /** The response of the characteristic sync. */
  datatype CharResponse = CharResponse(summary: CharSummary, details: seq<Detail>)

  /** `SynchroniserCaracteristiques`: the characteristic phase, with one detail per common key. */
  method SynchroniserCaracteristiques(authenticated: bool, f: Fetch, accept: nat -> bool)
    returns (answer: Answer<CharResponse>, calls: seq<Call>, order: seq<string>)
    ensures !authenticated ==> answer == Unauthorized && calls == []
    ensures authenticated && f.FetchRaised? ==> answer == ServerError && calls == []
    ensures authenticated && f.Fetched? ==>
              var ek := EkialisRegistry(f.components); var sp := SharePointRegistry(f.items);
              && multiset(order) == multiset(ek.Keys * sp.Keys)
              && multiset(calls) == multiset(Planned(ek, sp))
              && (forall k :: 0 <= k < |order| ==> order[k] in ek && order[k] in sp)
              && answer == Ok(CharResponse(CharCounters(ek, sp, calls, accept), Details(ek, sp, order)))
  {
    order := [];
    if !authenticated {
      return Unauthorized, [], order;
    }
    if f.FetchRaised? {
      return ServerError, [], order;
    }
    var summary;
    summary, order, calls := SyncCharacteristics(f.components, f.items, accept);
    var ek := EkialisRegistry(f.components);
    var sp := SharePointRegistry(f.items);
    forall k | 0 <= k < |order|
      ensures order[k] in ek && order[k] in sp
    {
      assert order[k] in multiset(order);
    }
    answer := Ok(CharResponse(summary, Details(ek, sp, order)));
  }

  /** `details` names every common key exactly once, and nothing else. */
  lemma DetailsCoverCommonKeys(ek: map<string, EkEntry>, sp: map<string, map<string, string>>, order: seq<string>)
    requires multiset(order) == multiset(ek.Keys * sp.Keys)
    requires forall k :: 0 <= k < |order| ==> order[k] in ek && order[k] in sp
    ensures |Details(ek, sp, order)| == |ek.Keys * sp.Keys|
    ensures forall key :: key in ek && key in sp <==> exists k :: 0 <= k < |order| && Details(ek, sp, order)[k].nom == key
  {
    assert |multiset(order)| == |order|;
    forall key
      ensures key in ek && key in sp <==> exists k :: 0 <= k < |order| && Details(ek, sp, order)[k].nom == key
    {
      if key in ek && key in sp {
        assert key in multiset(order);
        var k :| 0 <= k < |order| && order[k] == key;
        assert Details(ek, sp, order)[k].nom == key;
      }
    }
  }
}
