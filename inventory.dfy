/**
 * The inventory page: the view model built from the catalog, the category
 * facets, the query pipeline (category, then search, then sort) and the
 * vehicle whose details are open.
 */
module Inventory {
  import opened Text
  import opened Seqs
  import opened Catalog

  /** A catalog vehicle with the two fields the page adds to it. */
  datatype InventoryVehicle = InventoryVehicle(vehicle: Vehicle, displayName: string, fuelLabel: string)

  /** `vehicles.map(...)`: one inventory vehicle per catalog vehicle, in
    * catalog order, named by FormatVehicleName and labelled by its fuel
    * type. */
  function InventoryVehicles(vs: seq<Vehicle>): (r: seq<InventoryVehicle>)
    ensures |r| == |vs|
    ensures forall i :: 0 <= i < |vs| ==>
      r[i].vehicle == vs[i] && r[i].displayName == FormatVehicleName(vs[i]) && r[i].fuelLabel == vs[i].fuelType
  {
    seq(|vs|, i requires 0 <= i < |vs| => InventoryVehicle(vs[i], FormatVehicleName(vs[i]), vs[i].fuelType))
  }

  // ---------------------------------------------------------------- facets

  datatype Facet = Facet(key: string, caption: string)

  const AllVehiclesFacet := Facet("all", "All Vehicles")

  /** Some vehicle carries tag `c`. */
  predicate Tagged(ivs: seq<InventoryVehicle>, c: string) {
    exists i :: 0 <= i < |ivs| && c in ivs[i].vehicle.categories
  }

  /** `inventoryVehicles.flatMap((vehicle) => vehicle.categories)`. */
  function AllTags(ivs: seq<InventoryVehicle>): (r: seq<string>)
    ensures forall c :: c in r <==> Tagged(ivs, c)
  {
    var ss := seq(|ivs|, i requires 0 <= i < |ivs| => ivs[i].vehicle.categories);
    assert forall c :: Tagged(ivs, c) <==> exists i :: 0 <= i < |ss| && c in ss[i] by {
      forall c ensures Tagged(ivs, c) <==> exists i :: 0 <= i < |ss| && c in ss[i] {
        if Tagged(ivs, c) {
          var i :| 0 <= i < |ivs| && c in ivs[i].vehicle.categories;
          assert c in ss[i];
        }
      }
    }
    Flatten(ss)
  }

  /** The keys of the derived facets, that is every facet after the first. */
  function FacetKeys(facets: seq<Facet>): (keys: seq<string>)
    requires |facets| >= 1
    ensures |keys| == |facets| - 1 && forall k :: 0 <= k < |keys| ==> keys[k] == facets[k + 1].key
  {
    seq(|facets| - 1, k requires 0 <= k < |facets| - 1 => facets[k + 1].key)
  }

  /** The category facets: "All Vehicles" first, then one facet per distinct
    * tag other than `'all'`, in category order, labelled by
    * FormatCategoryLabel. */
  method DeriveFacets(ivs: seq<InventoryVehicle>) returns (facets: seq<Facet>)
    ensures |facets| >= 1 && facets[0] == AllVehiclesFacet
    ensures forall k :: 1 <= k < |facets| ==> facets[k].caption == FormatCategoryLabel(facets[k].key)
    ensures Distinct(FacetKeys(facets))
    ensures forall c {:trigger c in FacetKeys(facets)} :: c in FacetKeys(facets) <==> c != "all" && Tagged(ivs, c)
    ensures forall i, j :: 0 <= i < j < |facets| - 1 ==> FacetOrdered(FacetKeys(facets)[i], FacetKeys(facets)[j])
  {
    var tags := DistinctTags(AllTags(ivs));
    var keys := SortCategoryKeys(tags);
    assert forall c :: c in keys <==> c in tags by {
      forall c ensures c in keys <==> c in tags {
        assert c in keys <==> c in multiset(keys);
        assert c in tags <==> c in multiset(tags);
      }
    }
    facets := LabelledFacets(keys);
  }

  /** The "All Vehicles" facet followed by one labelled facet per key. */
  function LabelledFacets(keys: seq<string>): (facets: seq<Facet>)
    ensures |facets| >= 1 && facets[0] == AllVehiclesFacet
    ensures FacetKeys(facets) == keys
    ensures forall k :: 1 <= k < |facets| ==> facets[k].caption == FormatCategoryLabel(facets[k].key)
  {
    var facets := [AllVehiclesFacet] + seq(|keys|, k requires 0 <= k < |keys| => Facet(keys[k], FormatCategoryLabel(keys[k])));
    assert FacetKeys(facets) == keys;
    facets
  }

  // -------------------------------------------------------- query pipeline

  /** The vehicle carries the selected tag. */
  predicate Carries(iv: InventoryVehicle, category: string) {
    category in iv.vehicle.categories
  }

  /** The category stage: everything for `'all'`, else the vehicles
    * carrying the selected tag. */
  function CategoryStage(ivs: seq<InventoryVehicle>, selected: string): (r: seq<InventoryVehicle>)
    ensures |r| <= |ivs|
    ensures selected == "all" ==> r == ivs
    ensures selected != "all" ==> forall iv {:trigger iv in r} :: iv in r <==> iv in ivs && Carries(iv, selected)
  {
    if selected == "all" then ivs else Filter(ivs, iv => Carries(iv, selected))
  }

  /** `searchQuery.trim().toLowerCase()`: the query with the whitespace at
    * both ends cut away, lower-cased. */
  function NormalizedQuery(q: string): (r: string)
    ensures |r| <= |q|
    ensures r == [] || (!IsWhitespace(r[0]) && !IsWhitespace(r[|r| - 1]))
    ensures forall i :: 0 <= i < |r| ==> r[i] == LowerChar(r[i])
    ensures exists i :: PaddedAt(q, i, |r|) && r == Lower(q[i..i + |r|])
  {
    var t := Trim(q);
    var i :| PaddedAt(q, i, |t|) && OccursAt(q, t, i);
    LowerTrimmed(t);
    Lower(t)
  }

  /** Lower-casing keeps a trimmed string trimmed and is idempotent. */
  lemma LowerTrimmed(t: string)
    requires t == [] || (!IsWhitespace(t[0]) && !IsWhitespace(t[|t| - 1]))
    ensures Lower(t) == [] || (!IsWhitespace(Lower(t)[0]) && !IsWhitespace(Lower(t)[|t| - 1]))
    ensures forall i :: 0 <= i < |t| ==> Lower(t)[i] == LowerChar(Lower(t)[i])
  {
  }

  /** The fields the search looks through, in the order they are joined. */
  function SearchableParts(iv: InventoryVehicle): (parts: seq<string>)
    ensures |parts| == 11
  {
    var v := iv.vehicle;
    [iv.displayName, v.make, v.model, TrimPart(v.trim), v.bodyStyle, iv.fuelLabel,
     v.location.city, v.location.state, Join(" ", v.categories), Join(" ", v.features), v.description]
  }

  /** The lower-cased, space-joined searchable text of a vehicle. */
  function SearchableText(iv: InventoryVehicle): string {
    Lower(Join(" ", SearchableParts(iv)))
  }

  predicate MatchesQuery(iv: InventoryVehicle, query: string) {
    Contains(SearchableText(iv), query)
  }

  /** The search stage: everything for an empty query, else the vehicles
    * whose searchable text contains the query. */
  function SearchStage(ivs: seq<InventoryVehicle>, query: string): (r: seq<InventoryVehicle>)
    ensures |r| <= |ivs|
    ensures query == "" ==> r == ivs
    ensures query != "" ==> forall iv {:trigger iv in r} :: iv in r <==> iv in ivs && MatchesQuery(iv, query)
  {
    if query == "" then ivs else Filter(ivs, iv => MatchesQuery(iv, query))
  }

  /** The vehicles the two filters keep, before sorting: a vehicle passes
    * exactly when it is in the catalog, carries the selected tag unless that
    * is `'all'`, and its searchable text contains the normalized query unless
    * that is empty. */
  function Matching(ivs: seq<InventoryVehicle>, selected: string, searchQuery: string): (r: seq<InventoryVehicle>)
    ensures |r| <= |ivs|
    ensures forall iv {:trigger iv in r} :: iv in r <==>
      && iv in ivs
      && (selected == "all" || Carries(iv, selected))
      && (NormalizedQuery(searchQuery) == "" || MatchesQuery(iv, NormalizedQuery(searchQuery)))
  {
    var c := CategoryStage(ivs, selected);
    assert forall iv {:trigger iv in c} :: iv in c <==> iv in ivs && (selected == "all" || Carries(iv, selected));
    SearchStage(c, NormalizedQuery(searchQuery))
  }

  /** The filters only remove vehicles. */
  lemma MatchingSubMultiset(ivs: seq<InventoryVehicle>, selected: string, searchQuery: string)
    ensures multiset(Matching(ivs, selected, searchQuery)) <= multiset(ivs)
  {
    var c := CategoryStage(ivs, selected);
    if selected != "all" {
      FilterSubMultiset(ivs, iv => Carries(iv, selected));
    }
    var q := NormalizedQuery(searchQuery);
    if q != "" {
      FilterSubMultiset(c, iv => MatchesQuery(iv, q));
    }
  }

  /** A query that occurs, in any letter case, inside one of the searched
    * fields finds the vehicle. */
  lemma SearchFindsField(iv: InventoryVehicle, k: nat, query: string)
    requires k < 11 && Contains(Lower(SearchableParts(iv)[k]), query)
    ensures MatchesQuery(iv, query)
  {
    var parts := SearchableParts(iv);
    JoinContainsPart(" ", parts, k);
    ContainsLower(Join(" ", parts), parts[k]);
    ContainsTransitive(SearchableText(iv), Lower(parts[k]), query);
  }

  /** Searching for a make, typed in any case and with surrounding blanks,
    * keeps every vehicle of that make that the category stage let
    * through. */
  lemma SearchByMake(ivs: seq<InventoryVehicle>, selected: string, searchQuery: string, iv: InventoryVehicle)
    requires iv in CategoryStage(ivs, selected)
    requires Contains(Lower(iv.vehicle.make), NormalizedQuery(searchQuery))
    ensures iv in Matching(ivs, selected, searchQuery)
  {
    SearchFindsField(iv, 1, NormalizedQuery(searchQuery));
  }

  datatype SortKey = Name | PriceAsc | PriceDesc | Year

  /** The comparator of the sort stage; `Name` compares display names. */
  function SortCompare(key: SortKey, a: InventoryVehicle, b: InventoryVehicle): (r: int)
    ensures r <= 0 <==> InKeyOrder(key, a, b)
    ensures r >= 0 <==> InKeyOrder(key, b, a)
  {
    LexCompareAntisymmetric(a.displayName, b.displayName);
    match key
    case PriceAsc => a.vehicle.price - b.vehicle.price
    case PriceDesc => b.vehicle.price - a.vehicle.price
    case Year => b.vehicle.year - a.vehicle.year
    case Name => LexCompare(a.displayName, b.displayName)
  }

  /** `a` may precede `b` under `key`. */
  function Order(key: SortKey): (InventoryVehicle, InventoryVehicle) -> bool {
    (a: InventoryVehicle, b: InventoryVehicle) => SortCompare(key, a, b) <= 0
  }

  lemma OrderTotalPreorder(key: SortKey)
    ensures TotalPreorder(Order(key))
  {
    if key == Name {
      forall a, b ensures Order(key)(a, b) || Order(key)(b, a) {
        LexCompareAntisymmetric(a.displayName, b.displayName);
      }
      forall a, b, c | Order(key)(a, b) && Order(key)(b, c) ensures Order(key)(a, c) {
        LexCompareTransitive(a.displayName, b.displayName, c.displayName);
      }
    }
  }

  /** What "`a` is listed before `b`" means for the fields under each key. */
  predicate InKeyOrder(key: SortKey, a: InventoryVehicle, b: InventoryVehicle) {
    match key
    case PriceAsc => a.vehicle.price <= b.vehicle.price
    case PriceDesc => a.vehicle.price >= b.vehicle.price
    case Year => a.vehicle.year >= b.vehicle.year
    case Name => LexCompare(a.displayName, b.displayName) <= 0
  }

  /** Every vehicle is listed in key order relative to every later one. */
  predicate SortedFor(key: SortKey, r: seq<InventoryVehicle>) {
    forall i, j :: 0 <= i < j < |r| ==> InKeyOrder(key, r[i], r[j])
  }

  /** `filteredVehicles`: the vehicles passing both filters, copied into a
    * fresh array and sorted there by the selected key. */
  method FilteredVehicles(ivs: seq<InventoryVehicle>, selected: string, sortKey: SortKey, searchQuery: string)
    returns (r: seq<InventoryVehicle>)
    ensures multiset(r) == multiset(Matching(ivs, selected, searchQuery))
    ensures |r| <= |ivs|
    ensures SortedFor(sortKey, r)
  {
    var m := Matching(ivs, selected, searchQuery);
    OrderTotalPreorder(sortKey);
    r := SortedCopy(m, Order(sortKey));
    assert SortedBy(r, Order(sortKey));
  }

  // ----------------------------------------------------- detail selection

  /** `find((vehicle) => vehicle.id === activeVehicleId) ?? null`: the first
    * vehicle with the stored id; a cleared id matches nothing. */
  function FindById(ivs: seq<InventoryVehicle>, id: Option<string>): (r: Option<InventoryVehicle>)
    ensures r.Some? <==> id.Some? && exists i :: 0 <= i < |ivs| && ivs[i].vehicle.id == id.value
    ensures r.Some? ==> exists i :: 0 <= i < |ivs| && ivs[i] == r.value && r.value.vehicle.id == id.value &&
                                    forall j :: 0 <= j < i ==> ivs[j].vehicle.id != id.value
  {
    if id.None? || ivs == [] then None
    else if ivs[0].vehicle.id == id.value then Some(ivs[0])
    else
      var r := FindById(ivs[1..], id);
      assert forall i :: 1 <= i < |ivs| ==> ivs[i] == ivs[1..][i - 1];
      r
  }

  /** The page state kept in hooks: the selected category, sort key,
    * search text and the id of the vehicle whose details are open. */
  class InventoryPage {
    const catalog: seq<InventoryVehicle>
    var selectedCategory: string
    var sortKey: SortKey
    var searchQuery: string
    var activeVehicleId: Option<string>

    /** The initial state: all vehicles, by name, no search, no details. */
    constructor(vs: seq<Vehicle>)
      ensures catalog == InventoryVehicles(vs)
      ensures selectedCategory == "all" && sortKey == Name && searchQuery == "" && activeVehicleId == None
    {
      catalog := InventoryVehicles(vs);
      selectedCategory := "all";
      sortKey := Name;
      searchQuery := "";
      activeVehicleId := None;
    }

    method SetSearchQuery(q: string)
      modifies this
      ensures searchQuery == q
      ensures selectedCategory == old(selectedCategory) && sortKey == old(sortKey) && activeVehicleId == old(activeVehicleId)
    {
      searchQuery := q;
    }

    method SetSelectedCategory(c: string)
      modifies this
      ensures selectedCategory == c
      ensures searchQuery == old(searchQuery) && sortKey == old(sortKey) && activeVehicleId == old(activeVehicleId)
    {
      selectedCategory := c;
    }

    method SetSortKey(k: SortKey)
      modifies this
      ensures sortKey == k
      ensures searchQuery == old(searchQuery) && selectedCategory == old(selectedCategory) && activeVehicleId == old(activeVehicleId)
    {
      sortKey := k;
    }

    /** Opening a vehicle's details stores its id. */
    method ViewDetails(iv: InventoryVehicle)
      modifies this
      ensures activeVehicleId == Some(iv.vehicle.id)
      ensures searchQuery == old(searchQuery) && selectedCategory == old(selectedCategory) && sortKey == old(sortKey)
    {
      activeVehicleId := Some(iv.vehicle.id);
    }

    /** `closeActiveVehicle`: clears the stored id and nothing else. */
    method CloseActiveVehicle()
      modifies this
      ensures activeVehicleId == None
      ensures searchQuery == old(searchQuery) && selectedCategory == old(selectedCategory) && sortKey == old(sortKey)
    {
      activeVehicleId := None;
    }

    /** The vehicles shown for the current state, with the count in
      * "Showing N of M". */
    method Results() returns (r: seq<InventoryVehicle>)
      ensures multiset(r) == multiset(Matching(catalog, selectedCategory, searchQuery))
      ensures |r| <= |catalog|
      ensures SortedFor(sortKey, r)
    {
      r := FilteredVehicles(catalog, selectedCategory, sortKey, searchQuery);
    }

    /** The vehicle whose details are shown: one with the stored id among the
      * current results, none once the filters exclude every such vehicle. */
    method ActiveVehicle() returns (a: Option<InventoryVehicle>)
      ensures a.Some? <==> (activeVehicleId.Some? &&
        exists iv :: iv in Matching(catalog, selectedCategory, searchQuery) && iv.vehicle.id == activeVehicleId.value)
      ensures a.Some? ==> a.value in Matching(catalog, selectedCategory, searchQuery) && a.value.vehicle.id == activeVehicleId.value
    {
      var r := Results();
      a := FindById(r, activeVehicleId);
      assert forall iv :: iv in r <==> iv in Matching(catalog, selectedCategory, searchQuery) by {
        forall iv ensures iv in r <==> iv in Matching(catalog, selectedCategory, searchQuery) {
          assert iv in r <==> iv in multiset(r);
        }
      }
    }
  }
}
