/** The browse view of the home page: the catalog filtered by selected makes
    and a search text, in catalog order, shown eight vehicles per page. */
module Home {
  import opened Text
  import opened Seqs
  import opened StringOrder
  import opened Vehicles

  /** How many more vehicles each page shows. */
  const VehiclesPerPage: nat := 8

  function Min(a: int, b: int): int { if a <= b then a else b }

  // ---------------------------------------------------------------------------
  // Filtering
  // ---------------------------------------------------------------------------

  /** No make selected, or the vehicle's make is one of the selected ones. */
  predicate MatchesMake(selected: seq<string>, v: Vehicle)
    ensures |selected| == 0 ==> MatchesMake(selected, v)
    ensures |selected| > 0 ==> (MatchesMake(selected, v) <==> v.make in selected)
  {
    |selected| == 0 || v.make in selected
  }

  /** An empty query, or the query found in the make or the model ignoring
      case, or found verbatim in the decimal year. */
  predicate MatchesSearch(query: string, v: Vehicle)
    ensures query == "" ==> MatchesSearch(query, v)
    ensures Contains(v.make, query) || Contains(v.model, query) ==> MatchesSearch(query, v)
    ensures MatchesSearch(query, v) && query != "" ==>
      |query| <= |v.make| || |query| <= |v.model| || |query| <= |IntToString(v.year)|
  {
    ContainsLower(v.make, query);
    ContainsLower(v.model, query);
    || query == ""
    || Contains(Lower(v.make), Lower(query))
    || Contains(Lower(v.model), Lower(query))
    || Contains(IntToString(v.year), query)
  }

  /** Both tests of the filter callback. */
  predicate Passes(selected: seq<string>, query: string, v: Vehicle)
    ensures |selected| == 0 && query == "" ==> Passes(selected, query, v)
    ensures Passes(selected, query, v) && |selected| > 0 ==> v.make in selected
  {
    MatchesMake(selected, v) && MatchesSearch(query, v)
  }

  /** `vehicles.filter(...)` with both tests. */
  function Filter(catalog: seq<Vehicle>, selected: seq<string>, query: string): (r: seq<Vehicle>)
    ensures |r| <= |catalog|
    ensures forall v :: v in r ==> v in catalog && Passes(selected, query, v)
    ensures forall v :: v in catalog && Passes(selected, query, v) ==> v in r
  {
    if catalog == [] then []
    else
      var init, v := catalog[..|catalog| - 1], catalog[|catalog| - 1];
      assert catalog == init + [v];
      if Passes(selected, query, v) then Filter(init, selected, query) + [v]
      else Filter(init, selected, query)
  }

  /** The positions of the catalog whose vehicle passes, in ascending order. */
  ghost function Positions(catalog: seq<Vehicle>, selected: seq<string>, query: string): (p: seq<nat>)
    ensures forall k :: 0 <= k < |p| ==> p[k] < |catalog| && Passes(selected, query, catalog[p[k]])
    ensures forall k, l :: 0 <= k < l < |p| ==> p[k] < p[l]
    ensures forall i :: 0 <= i < |catalog| && Passes(selected, query, catalog[i]) ==> i in p
  {
    if catalog == [] then []
    else
      var n := |catalog| - 1;
      var p := Positions(catalog[..n], selected, query);
      if Passes(selected, query, catalog[n]) then p + [n] else p
  }

  /** The filtered list is the catalog read at exactly the passing positions,
      in catalog order. */
  lemma {:induction false} FilterAtPositions(catalog: seq<Vehicle>, selected: seq<string>, query: string)
    ensures IsEmbedding(Positions(catalog, selected, query), Filter(catalog, selected, query), catalog)
  {
    if catalog == [] {
    } else {
      var n := |catalog| - 1;
      var init, v := catalog[..n], catalog[n];
      assert catalog == init + [v];
      FilterAtPositions(init, selected, query);
      var f, p := Filter(init, selected, query), Positions(init, selected, query);
      if Passes(selected, query, v) {
        EmbeddingAppendBoth(p, f, init, v);
      } else {
        EmbeddingAppendRight(p, f, init, v);
      }
    }
  }

  /** Filtering only drops vehicles; the rest keep their catalog order. */
  lemma FilterIsSubsequence(catalog: seq<Vehicle>, selected: seq<string>, query: string)
    ensures IsSubsequence(Filter(catalog, selected, query), catalog)
  {
    FilterAtPositions(catalog, selected, query);
  }

  /** A weaker test keeps everything a stronger one keeps, in the same order. */
  lemma {:induction false} FilterMonotone(catalog: seq<Vehicle>, s1: seq<string>, q1: string, s2: seq<string>, q2: string)
    requires forall v :: v in catalog && Passes(s1, q1, v) ==> Passes(s2, q2, v)
    ensures IsSubsequence(Filter(catalog, s1, q1), Filter(catalog, s2, q2))
  {
    if catalog == [] {
      assert IsEmbedding([], Filter(catalog, s1, q1), Filter(catalog, s2, q2));
    } else {
      var init, v := catalog[..|catalog| - 1], catalog[|catalog| - 1];
      assert catalog == init + [v];
      FilterMonotone(init, s1, q1, s2, q2);
      var a, b := Filter(init, s1, q1), Filter(init, s2, q2);
      var idx: seq<nat> :| IsEmbedding(idx, a, b);
      if Passes(s1, q1, v) {
        EmbeddingAppendBoth(idx, a, b, v);
      } else if Passes(s2, q2, v) {
        EmbeddingAppendRight(idx, a, b, v);
      }
    }
  }

  /** Two tests that agree on every catalog vehicle filter alike. */
  lemma {:induction false} FilterExtensional(catalog: seq<Vehicle>, s1: seq<string>, q1: string, s2: seq<string>, q2: string)
    requires forall v :: v in catalog ==> Passes(s1, q1, v) == Passes(s2, q2, v)
    ensures Filter(catalog, s1, q1) == Filter(catalog, s2, q2)
  {
    if catalog != [] {
      var init := catalog[..|catalog| - 1];
      assert catalog == init + [catalog[|catalog| - 1]];
      FilterExtensional(init, s1, q1, s2, q2);
    }
  }

  /** No selected make and no query: the whole catalog. */
  lemma {:induction false} FilterEverything(catalog: seq<Vehicle>)
    ensures Filter(catalog, [], "") == catalog
  {
    if catalog != [] {
      var init := catalog[..|catalog| - 1];
      FilterEverything(init);
      assert catalog == init + [catalog[|catalog| - 1]];
    }
  }

  /** Selecting makes only narrows the result of the empty selection. */
  lemma SelectionNarrows(catalog: seq<Vehicle>, selected: seq<string>, query: string)
    ensures IsSubsequence(Filter(catalog, selected, query), Filter(catalog, [], query))
    ensures |Filter(catalog, selected, query)| <= |Filter(catalog, [], query)|
  {
    FilterMonotone(catalog, selected, query, [], query);
    SubsequenceBounds(Filter(catalog, selected, query), Filter(catalog, [], query));
  }

  /** Once some make is selected, selecting one more never removes a vehicle. */
  lemma AddedMakeWidens(catalog: seq<Vehicle>, selected: seq<string>, make: string, query: string)
    requires |selected| > 0
    ensures IsSubsequence(Filter(catalog, selected, query), Filter(catalog, selected + [make], query))
    ensures |Filter(catalog, selected, query)| <= |Filter(catalog, selected + [make], query)|
  {
    FilterMonotone(catalog, selected, query, selected + [make], query);
    SubsequenceBounds(Filter(catalog, selected, query), Filter(catalog, selected + [make], query));
  }

  /** Clearing the search text never removes a vehicle. */
  lemma ClearedSearchWidens(catalog: seq<Vehicle>, selected: seq<string>, query: string)
    ensures IsSubsequence(Filter(catalog, selected, query), Filter(catalog, selected, ""))
    ensures |Filter(catalog, selected, query)| <= |Filter(catalog, selected, "")|
  {
    FilterMonotone(catalog, selected, query, selected, "");
    SubsequenceBounds(Filter(catalog, selected, query), Filter(catalog, selected, ""));
  }

  /** Only which makes are selected matters, not their order or repetition. */
  lemma FilterDependsOnSelectedSet(catalog: seq<Vehicle>, s1: seq<string>, s2: seq<string>, query: string)
    requires forall m :: m in s1 <==> m in s2
    ensures Filter(catalog, s1, query) == Filter(catalog, s2, query)
  {
    if |s1| != 0 {
      assert s1[0] in s1;
    }
    if |s2| != 0 {
      assert s2[0] in s2;
    }
    FilterExtensional(catalog, s1, query, s2, query);
  }

  /** The search ignores the case of the query, also in its year test:
      a year's text holds no letters. */
  lemma SearchIgnoresQueryCase(query: string, v: Vehicle)
    ensures MatchesSearch(Lower(query), v) == MatchesSearch(query, v)
  {
    LowerIdempotent(query);
    var y := IntToString(v.year);
    if exists k :: 0 <= k < |query| && IsUpper(query[k]) {
      var k :| 0 <= k < |query| && IsUpper(query[k]);
      if Contains(y, query) {
        ContainsChars(y, query, k);
      }
      if Contains(y, Lower(query)) {
        ContainsChars(y, Lower(query), k);
      }
    } else {
      assert Lower(query) == query;
    }
  }

  lemma FilterIgnoresQueryCase(catalog: seq<Vehicle>, selected: seq<string>, query: string)
    ensures Filter(catalog, selected, Lower(query)) == Filter(catalog, selected, query)
  {
    forall v | v in catalog ensures Passes(selected, Lower(query), v) == Passes(selected, query, v) {
      SearchIgnoresQueryCase(query, v);
    }
    FilterExtensional(catalog, selected, Lower(query), selected, query);
  }

  // ---------------------------------------------------------------------------
  // Pagination
  // ---------------------------------------------------------------------------

  /** `filtered.slice(0, page * VEHICLES_PER_PAGE)`. */
  function Displayed(catalog: seq<Vehicle>, selected: seq<string>, query: string, page: nat): (r: seq<Vehicle>)
    ensures |r| == Min(|Filter(catalog, selected, query)|, page * VehiclesPerPage)
    ensures r == Filter(catalog, selected, query)[..|r|]
  {
    Take(Filter(catalog, selected, query), page * VehiclesPerPage)
  }

  /** One more page keeps what was shown and, while some filtered vehicle is
      still hidden, shows more. */
  lemma LoadMoreExtends(catalog: seq<Vehicle>, selected: seq<string>, query: string, page: nat)
    ensures Displayed(catalog, selected, query, page)
         == Displayed(catalog, selected, query, page + 1)[..|Displayed(catalog, selected, query, page)|]
    ensures |Displayed(catalog, selected, query, page)| < |Filter(catalog, selected, query)| ==>
      |Displayed(catalog, selected, query, page)| < |Displayed(catalog, selected, query, page + 1)|
  {
    var f := Filter(catalog, selected, query);
    var a, b := Displayed(catalog, selected, query, page), Displayed(catalog, selected, query, page + 1);
    assert a == f[..|a|] && b == f[..|b|] && |a| <= |b|;
  }

  /** With nothing selected and no query: the first page is the first eight
      catalog vehicles, one Load More later the first sixteen. */
  lemma FirstPagesOfCatalog(catalog: seq<Vehicle>)
    ensures Displayed(catalog, [], "", 1) == Take(catalog, 8)
    ensures Displayed(catalog, [], "", 2) == Take(catalog, 16)
  {
    FilterEverything(catalog);
  }

  /** A one-vehicle catalog, its make selected and its year searched: it is shown. */
  lemma SingleToyotaShown()
    ensures var v := Vehicle(1, "Toyota", "Sedan A", 2021, 25000, "30/35", 200, "");
      Displayed([v], ["Toyota"], "2021", 1) == [v]
  {
    var v := Vehicle(1, "Toyota", "Sedan A", 2021, 25000, "30/35", 200, "");
    assert NatToString(2) == "2";
    assert NatToString(20) == "20";
    assert NatToString(202) == "202";
    assert IntToString(2021) == "2021";
    assert Passes(["Toyota"], "2021", v);
  }

  // ---------------------------------------------------------------------------
  // Make selection
  // ---------------------------------------------------------------------------

  /** The new selection of `handleMakeToggle`: drop the make if selected,
      otherwise append it. */
  function Toggle(selected: seq<string>, make: string): (r: seq<string>)
    ensures forall m :: m in r <==> if m == make then make !in selected else m in selected
    ensures NoDups(selected) ==> NoDups(r)
  {
    if make in selected then Remove(selected, make) else selected + [make]
  }

  /** Toggling a make twice restores the selected set; from an unselected make
      it restores the very sequence. */
  lemma ToggleTwice(selected: seq<string>, make: string)
    ensures forall m :: m in Toggle(Toggle(selected, make), make) <==> m in selected
    ensures make !in selected ==> Toggle(Toggle(selected, make), make) == selected
  {
    if make !in selected {
      var t := selected + [make];
      assert t[..|t| - 1] == selected;
    }
  }

  /** ... and therefore restores the filtered list. */
  lemma ToggleTwiceSameFilter(catalog: seq<Vehicle>, selected: seq<string>, make: string, query: string)
    ensures Filter(catalog, Toggle(Toggle(selected, make), make), query) == Filter(catalog, selected, query)
  {
    ToggleTwice(selected, make);
    FilterDependsOnSelectedSet(catalog, Toggle(Toggle(selected, make), make), selected, query);
  }

  /** `vehicles.map(v => v.make)`: one make per vehicle, and a make is in the
      list exactly when some catalog vehicle has it. */
  function CatalogMakes(catalog: seq<Vehicle>): (r: seq<string>)
    ensures |r| == |catalog|
    ensures forall m :: m in r <==> exists v :: v in catalog && v.make == m
  {
    var r := seq(|catalog|, i requires 0 <= i < |catalog| => catalog[i].make);
    assert forall m :: m in r ==> exists v :: v in catalog && v.make == m by {
      forall m | m in r ensures exists v :: v in catalog && v.make == m {
        var i :| 0 <= i < |r| && r[i] == m;
        assert catalog[i] in catalog;
      }
    }
    assert forall v :: v in catalog ==> v.make in r by {
      forall v | v in catalog ensures v.make in r {
        var i :| 0 <= i < |catalog| && catalog[i] == v;
        assert r[i] == v.make;
      }
    }
    r
  }

  /** `allMakes`: the makes of the catalog, each once, in ascending order. */
  function AllMakes(catalog: seq<Vehicle>): (r: seq<string>)
    ensures StrictlySorted(r)
    ensures NoDups(r)
    ensures forall m :: m in r <==> exists v :: v in catalog && v.make == m
  {
    var makes := CatalogMakes(catalog);
    var d := Distinct(makes);
    SortStrictlySorted(d);
    StrictlySortedDistinct(Sort(d));
    SortSameElements(d);
    Sort(d)
  }

  /** The make buttons of a generated catalog are among the ten listed makes. */
  lemma GeneratedMakesListed(count: nat, draws: seq<Draw>)
    requires |draws| == count
    requires forall i :: 0 <= i < |draws| ==> DrawInRange(draws[i])
    ensures forall m :: m in AllMakes(GenerateVehicles(count, draws)) ==> m in Makes
  {
  }

  // ---------------------------------------------------------------------------
  // The view's state
  // ---------------------------------------------------------------------------

  /** The state of one browse view: the three inputs of the filter and the
      list it currently shows. */
  class BrowseView {
    const catalog: seq<Vehicle>
    var selectedMakes: seq<string>
    var page: nat
    var searchQuery: string
    var displayedVehicles: seq<Vehicle>

    /** Pages count from one and never pass the last non-empty page (Load
        More is only offered while a filtered vehicle is hidden); only make
        buttons of the catalog are ever selected, none twice; and the shown
        list is the one the filter effect computes from the current inputs. */
    ghost predicate Valid()
      reads this
    {
      && page >= 1
      && (page == 1 || (page - 1) * VehiclesPerPage < |Filter(catalog, selectedMakes, searchQuery)|)
      && NoDups(selectedMakes)
      && (forall m :: m in selectedMakes ==> m in AllMakes(catalog))
      && displayedVehicles == Displayed(catalog, selectedMakes, searchQuery, page)
    }

    /** Mounting the view: nothing selected, page one, the location's search
        text, and the first page computed. */
    constructor (catalog: seq<Vehicle>, search: string)
      ensures Valid()
      ensures this.catalog == catalog
      ensures selectedMakes == [] && page == 1 && searchQuery == search
    {
      this.catalog := catalog;
      selectedMakes := [];
      page := 1;
      searchQuery := search;
      displayedVehicles := Displayed(catalog, [], search, 1);
    }

    /** The location effect: the search text of the new location, back to page one. */
    method Navigate(search: string)
      requires Valid()
      modifies this
      ensures Valid()
      ensures searchQuery == search && page == 1
      ensures selectedMakes == old(selectedMakes)
    {
      searchQuery := search;
      page := 1;
      displayedVehicles := Displayed(catalog, selectedMakes, searchQuery, page);
    }

    /** `handleMakeToggle`, called from one of the `allMakes` buttons. */
    method ToggleMake(make: string)
      requires Valid()
      requires make in AllMakes(catalog)
      modifies this
      ensures Valid()
      ensures selectedMakes == Toggle(old(selectedMakes), make) && page == 1
      ensures searchQuery == old(searchQuery)
    {
      selectedMakes := Toggle(selectedMakes, make);
      page := 1;
      displayedVehicles := Displayed(catalog, selectedMakes, searchQuery, page);
    }

    /** `handleLoadMore`, called from the Load More button while it is rendered. */
    method LoadMore()
      requires Valid()
      requires LoadMoreVisible()
      modifies this
      ensures Valid()
      ensures page == old(page) + 1
      ensures selectedMakes == old(selectedMakes) && searchQuery == old(searchQuery)
      ensures |old(displayedVehicles)| < |displayedVehicles|
      ensures old(displayedVehicles) == displayedVehicles[..|old(displayedVehicles)|]
    {
      LoadMoreExtends(catalog, selectedMakes, searchQuery, page);
      page := page + 1;
      displayedVehicles := Displayed(catalog, selectedMakes, searchQuery, page);
    }

    /** Whether the Load More button is rendered: fewer vehicles shown than pass the filter. */
    function LoadMoreVisible(): (b: bool)
      reads this
      requires Valid()
      ensures b <==> page * VehiclesPerPage < |Filter(catalog, selectedMakes, searchQuery)|
      ensures !b ==> displayedVehicles == Filter(catalog, selectedMakes, searchQuery)
    {
      |displayedVehicles| < |Filter(catalog, selectedMakes, searchQuery)|
    }
  }
}
