/**
 * The home page's selections over the catalog: the featured vehicles, the
 * category showcase, the catalog counts shown as insights, the options of
 * the interest form and the category chips above the featured vehicles.
 */
module Home {
  import opened Text
  import opened Seqs
  import opened Catalog

  // ------------------------------------------------------ featured picks

  /** A featured vehicle: its name and its first three features. */
  datatype FeaturedVehicle = FeaturedVehicle(vehicle: Vehicle, displayName: string, featureHighlights: seq<string>)

  predicate IsCertified(v: Vehicle) {
    v.certified
  }

  predicate NotCertified(v: Vehicle) {
    !v.certified
  }

  /** The comparator `a.price - b.price` allows `a` first. */
  predicate PriceLe(a: Vehicle, b: Vehicle) {
    a.price - b.price <= 0
  }

  /** The comparator `a.mileage - b.mileage` allows `a` first. */
  predicate MileageLe(a: Vehicle, b: Vehicle) {
    a.mileage - b.mileage <= 0
  }

  lemma PriceAndMileageTotalPreorders()
    ensures TotalPreorder(PriceLe) && TotalPreorder(MileageLe)
  {
  }

  function Feature(v: Vehicle): (f: FeaturedVehicle)
    ensures f.vehicle == v && f.displayName == FormatVehicleName(v)
    ensures |f.featureHighlights| == Min(3, |v.features|)
    ensures forall k :: 0 <= k < |f.featureHighlights| ==> f.featureHighlights[k] == v.features[k]
  {
    FeaturedVehicle(v, FormatVehicleName(v), Take(v.features, 3))
  }

  /** The catalog vehicles behind the featured entries. */
  function Picks(r: seq<FeaturedVehicle>): (vs: seq<Vehicle>)
    ensures |vs| == |r| && forall i :: 0 <= i < |r| ==> vs[i] == r[i].vehicle
  {
    seq(|r|, i requires 0 <= i < |r| => r[i].vehicle)
  }

  /** `s` is a prefix of the certified vehicles `c` followed by the others
    * `a`. */
  predicate PrefixOf(s: seq<Vehicle>, c: seq<Vehicle>, a: seq<Vehicle>) {
    && |s| <= |c| + |a|
    && (forall i :: 0 <= i < |s| && i < |c| ==> s[i] == c[i])
    && (forall i :: 0 <= i < |s| && |c| <= i ==> s[i] == a[i - |c|])
    && (forall k :: 0 <= k < |a| && |c| + k < |s| ==> s[|c| + k] == a[k])
  }

  lemma TakeConcatPrefix(c: seq<Vehicle>, a: seq<Vehicle>, n: nat)
    ensures PrefixOf(Take(c + a, n), c, a)
  {
    var s := Take(c + a, n);
    forall k | 0 <= k < |a| && |c| + k < |s| ensures s[|c| + k] == a[k] {
      assert s[|c| + k] == (c + a)[|c| + k];
    }
  }

  /** A prefix of the certified vehicles by price followed by the others by
    * mileage lists certified vehicles first, each part in its order. */
  lemma PrefixOrder(s: seq<Vehicle>, c: seq<Vehicle>, a: seq<Vehicle>)
    requires PrefixOf(s, c, a)
    requires forall k :: 0 <= k < |c| ==> c[k].certified
    requires forall k :: 0 <= k < |a| ==> !a[k].certified
    requires SortedBy(c, PriceLe) && SortedBy(a, MileageLe)
    ensures forall i, j :: 0 <= i < j < |s| && s[j].certified ==> s[i].certified
    ensures forall i, j :: 0 <= i < j < |s| && s[i].certified && s[j].certified ==> s[i].price <= s[j].price
    ensures forall i, j :: 0 <= i < j < |s| && !s[i].certified && !s[j].certified ==> s[i].mileage <= s[j].mileage
  {
    forall i, j | 0 <= i < j < |s| && !s[i].certified && !s[j].certified
      ensures s[i].mileage <= s[j].mileage
    {
      assert MileageLe(a[i - |c|], a[j - |c|]);
    }
  }

  /** A certified vehicle left out of the prefix costs at least as much as
    * every certified vehicle in it. */
  lemma PrefixCheapest(s: seq<Vehicle>, c: seq<Vehicle>, a: seq<Vehicle>)
    requires PrefixOf(s, c, a)
    requires forall k :: 0 <= k < |a| ==> !a[k].certified
    requires SortedBy(c, PriceLe)
    ensures forall i, v :: 0 <= i < |s| && v in c && s[i].certified && v !in s ==> s[i].price <= v.price
  {
    forall i, v | 0 <= i < |s| && v in c && s[i].certified && v !in s
      ensures s[i].price <= v.price
    {
      var k :| 0 <= k < |c| && c[k] == v;
      assert i < |c|;
      assert PriceLe(c[i], c[k]);
    }
  }

  /** A non-certified vehicle left out of the prefix has at least the
    * mileage of every non-certified vehicle in it, and a prefix reaching
    * the non-certified part holds every certified vehicle. */
  lemma PrefixLowestMileage(s: seq<Vehicle>, c: seq<Vehicle>, a: seq<Vehicle>)
    requires PrefixOf(s, c, a)
    requires forall k :: 0 <= k < |c| ==> c[k].certified
    requires SortedBy(a, MileageLe)
    ensures forall i, v :: 0 <= i < |s| && v in a && !s[i].certified && v !in s ==> s[i].mileage <= v.mileage
    ensures (exists i :: 0 <= i < |s| && !s[i].certified) ==> forall v :: v in c ==> v in s
  {
    forall i, v | 0 <= i < |s| && v in a && !s[i].certified && v !in s
      ensures s[i].mileage <= v.mileage
    {
      var k :| 0 <= k < |a| && a[k] == v;
      assert |c| <= i;
      assert s[i] == a[i - |c|];
      assert MileageLe(a[i - |c|], a[k]);
    }
    if exists i :: 0 <= i < |s| && !s[i].certified {
      forall v | v in c ensures v in s {
        var k :| 0 <= k < |c| && c[k] == v;
        assert s[k] == v;
      }
    }
  }

  /** The certified vehicles, sorted by ascending price. */
  method CertifiedByPrice(vs: seq<Vehicle>) returns (c: seq<Vehicle>)
    ensures multiset(c) == multiset(Filter(vs, IsCertified))
    ensures SortedBy(c, PriceLe)
    ensures forall k :: 0 <= k < |c| ==> c[k].certified
    ensures forall v {:trigger v in c} :: v in c <==> v in vs && v.certified
  {
    PriceAndMileageTotalPreorders();
    var f := Filter(vs, IsCertified);
    c := SortedCopy(f, PriceLe);
    forall v ensures v in c <==> v in f {
      assert v in c <==> v in multiset(c);
      assert v in f <==> v in multiset(f);
    }
    forall k | 0 <= k < |c| ensures c[k].certified {
      assert c[k] in c;
    }
  }

  /** The other vehicles, sorted by ascending mileage. */
  method OthersByMileage(vs: seq<Vehicle>) returns (a: seq<Vehicle>)
    ensures multiset(a) == multiset(Filter(vs, NotCertified))
    ensures SortedBy(a, MileageLe)
    ensures forall k :: 0 <= k < |a| ==> !a[k].certified
    ensures forall v {:trigger v in a} :: v in a <==> v in vs && !v.certified
  {
    PriceAndMileageTotalPreorders();
    var f := Filter(vs, NotCertified);
    a := SortedCopy(f, MileageLe);
    forall v ensures v in a <==> v in f {
      assert v in a <==> v in multiset(a);
      assert v in f <==> v in multiset(f);
    }
    forall k | 0 <= k < |a| ensures !a[k].certified {
      assert a[k] in a;
    }
  }

  /** `featuredVehiclesData`: the certified vehicles sorted by price, then
    * the others sorted by mileage, cut to four, each named and given its
    * first three features. */
  method FeaturedVehicles(vs: seq<Vehicle>) returns (r: seq<FeaturedVehicle>)
    ensures |r| == Min(4, |vs|)
    ensures multiset(Picks(r)) <= multiset(vs)
    ensures Distinct(vs) ==> Distinct(Picks(r))
    ensures forall i :: 0 <= i < |r| ==> r[i] == Feature(r[i].vehicle)
    ensures forall i, j :: 0 <= i < j < |r| && r[j].vehicle.certified ==> r[i].vehicle.certified
    ensures forall i, j :: 0 <= i < j < |r| && r[i].vehicle.certified && r[j].vehicle.certified ==>
      r[i].vehicle.price <= r[j].vehicle.price
    ensures forall i, j :: 0 <= i < j < |r| && !r[i].vehicle.certified && !r[j].vehicle.certified ==>
      r[i].vehicle.mileage <= r[j].vehicle.mileage
    ensures forall i, v :: 0 <= i < |r| && v in vs && v.certified && r[i].vehicle.certified && v !in Picks(r) ==>
      r[i].vehicle.price <= v.price
    ensures forall i, v :: 0 <= i < |r| && v in vs && !v.certified && !r[i].vehicle.certified && v !in Picks(r) ==>
      r[i].vehicle.mileage <= v.mileage
    ensures (exists i :: 0 <= i < |r| && !r[i].vehicle.certified) ==>
      forall v :: v in vs && v.certified ==> v in Picks(r)
  {
    var certified := CertifiedByPrice(vs);
    var additional := OthersByMileage(vs);
    var showcase := FeaturedPrefix(vs, certified, additional);
    PrefixOrder(showcase, certified, additional);
    PrefixCheapest(showcase, certified, additional);
    PrefixLowestMileage(showcase, certified, additional);
    r := FeatureAll(showcase);
  }

  /** `showcase.map(...)`: each pick named and given its highlights. */
  function FeatureAll(showcase: seq<Vehicle>): (r: seq<FeaturedVehicle>)
    ensures Picks(r) == showcase
    ensures forall i :: 0 <= i < |r| ==> r[i] == Feature(r[i].vehicle)
  {
    var r := seq(|showcase|, i requires 0 <= i < |showcase| => Feature(showcase[i]));
    assert Picks(r) == showcase;
    r
  }

  /** `[...certified, ...additional].slice(0, 4)`, with what it keeps of the
    * catalog. */
  function FeaturedPrefix(vs: seq<Vehicle>, certified: seq<Vehicle>, additional: seq<Vehicle>): (s: seq<Vehicle>)
    requires multiset(certified) == multiset(Filter(vs, IsCertified))
    requires multiset(additional) == multiset(Filter(vs, NotCertified))
    ensures |s| == Min(4, |vs|)
    ensures multiset(s) <= multiset(vs)
    ensures Distinct(vs) ==> Distinct(s)
    ensures PrefixOf(s, certified, additional)
  {
    PartsCoverCatalog(vs, certified, additional);
    var s := Take(certified + additional, 4);
    TakeConcatPrefix(certified, additional, 4);
    TakeSubMultiset(certified + additional, 4);
    if Distinct(vs) then
      DistinctSubMultiset(vs, s);
      s
    else s
  }

  /** The certified part and the other part together hold the catalog. */
  lemma PartsCoverCatalog(vs: seq<Vehicle>, certified: seq<Vehicle>, additional: seq<Vehicle>)
    requires multiset(certified) == multiset(Filter(vs, IsCertified))
    requires multiset(additional) == multiset(Filter(vs, NotCertified))
    ensures multiset(certified + additional) == multiset(vs)
    ensures |certified + additional| == |vs|
  {
    FilterPartition(vs, IsCertified, NotCertified);
    assert |certified + additional| == |multiset(certified + additional)|;
  }

  /** `interestOptions`: a prompt, the featured names in order, and a
    * request for a custom search. */
  function InterestOptions(featured: seq<FeaturedVehicle>): (r: seq<string>)
    ensures |r| == |featured| + 2
    ensures r[0] == "Select a vehicle" && r[|r| - 1] == "Schedule a custom search"
    ensures forall i :: 0 <= i < |featured| ==> r[i + 1] == featured[i].displayName
  {
    ["Select a vehicle"] + seq(|featured|, i requires 0 <= i < |featured| => featured[i].displayName) + ["Schedule a custom search"]
  }

  /** One category chip above the featured vehicles. */
  datatype Chip = Chip(category: string, caption: string)

  function ChipCategories(r: seq<Chip>): (cs: seq<string>)
    ensures |cs| == |r| && forall k :: 0 <= k < |r| ==> cs[k] == r[k].category
  {
    seq(|r|, k requires 0 <= k < |r| => r[k].category)
  }

  /** The tag lists of the featured vehicles, in order. */
  function CategoryLists(featured: seq<FeaturedVehicle>): (ss: seq<seq<string>>)
    ensures |ss| == |featured| && forall i :: 0 <= i < |featured| ==> ss[i] == featured[i].vehicle.categories
  {
    seq(|featured|, i requires 0 <= i < |featured| => featured[i].vehicle.categories)
  }

  /** `featuredVehicles.flatMap((vehicle) => vehicle.categories)`. */
  function FeaturedTags(featured: seq<FeaturedVehicle>): (r: seq<string>)
    ensures forall c :: c in r <==> exists i :: 0 <= i < |featured| && c in featured[i].vehicle.categories
  {
    Flatten(CategoryLists(featured))
  }

  /** The tags of each featured vehicle follow those of the vehicles before
    * it. */
  lemma FeaturedTagsOrder(featured: seq<FeaturedVehicle>, i: nat)
    requires i < |featured|
    ensures FeaturedTags(featured[..i]) + featured[i].vehicle.categories <= FeaturedTags(featured)
  {
    assert CategoryLists(featured[..i]) == CategoryLists(featured)[..i];
    FlattenPrefix(CategoryLists(featured), i);
  }

  /** The chips: the first three distinct tags other than `'all'` of the
    * featured vehicles, in order of first occurrence, each labelled. */
  function FeaturedCategoryChips(featured: seq<FeaturedVehicle>): (r: seq<Chip>)
    ensures |r| <= 3
    ensures Distinct(ChipCategories(r))
    ensures forall k :: 0 <= k < |r| ==> r[k].caption == FormatCategoryLabel(r[k].category)
    ensures forall k :: 0 <= k < |r| ==> r[k].category != "all" && r[k].category in FeaturedTags(featured)
    ensures forall i, j :: 0 <= i < j < |r| ==> FirstSeenBefore(FeaturedTags(featured), r[i].category, r[j].category)
    ensures |r| < 3 ==> forall c :: c in FeaturedTags(featured) && c != "all" ==> c in ChipCategories(r)
    ensures forall c :: c in FeaturedTags(featured) && c != "all" && c !in ChipCategories(r) ==>
      |r| == 3 && forall k :: 0 <= k < 3 ==> FirstSeenBefore(FeaturedTags(featured), r[k].category, c)
  {
    var all := FeaturedTags(featured);
    var tags := DistinctTags(all);
    var top := Take(tags, 3);
    FirstThreeTags(all, tags, top);
    Chips(top)
  }

  /** `.map((category) => ...)`: one labelled chip per tag. */
  function Chips(top: seq<string>): (r: seq<Chip>)
    ensures ChipCategories(r) == top
    ensures forall k :: 0 <= k < |r| ==> r[k].caption == FormatCategoryLabel(r[k].category)
  {
    var r := seq(|top|, k requires 0 <= k < |top| => Chip(top[k], FormatCategoryLabel(top[k])));
    assert ChipCategories(r) == top;
    r
  }

  /** `.slice(0, 3)` of the distinct tags: at most three of them, in order
    * of first occurrence, and a tag is cut off only after three that occur
    * before it. */
  lemma FirstThreeTags(all: seq<string>, tags: seq<string>, top: seq<string>)
    requires Distinct(tags)
    requires forall i, j :: 0 <= i < j < |tags| ==> FirstSeenBefore(all, tags[i], tags[j])
    requires forall c {:trigger c in tags} :: c in tags <==> c in all && c != "all"
    requires top == Take(tags, 3)
    ensures |top| <= 3 && Distinct(top)
    ensures forall k :: 0 <= k < |top| ==> top[k] != "all" && top[k] in all
    ensures forall i, j :: 0 <= i < j < |top| ==> FirstSeenBefore(all, top[i], top[j])
    ensures |top| < 3 ==> forall c :: c in all && c != "all" ==> c in top
    ensures forall c :: c in all && c != "all" && c !in top ==>
      |top| == 3 && forall k :: 0 <= k < 3 ==> FirstSeenBefore(all, top[k], c)
  {
    assert forall k :: 0 <= k < |top| ==> top[k] in tags;
    assert |top| < 3 ==> top == tags;
    forall c | c in all && c != "all" && c !in top
      ensures |top| == 3 && forall k :: 0 <= k < 3 ==> FirstSeenBefore(all, top[k], c)
    {
      assert c in tags;
      var p :| 0 <= p < |tags| && tags[p] == c;
    }
  }

  // --------------------------------------------------- category showcase

  /** The first vehicle in catalog order that carries tag `c`. */
  function FirstCarrier(vs: seq<Vehicle>, c: string): (r: Option<Vehicle>)
    ensures r.None? <==> forall k :: 0 <= k < |vs| ==> c !in vs[k].categories
    ensures r.Some? ==> exists k :: 0 <= k < |vs| && vs[k] == r.value && c in r.value.categories &&
                                    forall j :: 0 <= j < k ==> c !in vs[j].categories
  {
    if vs == [] then None
    else
      var init := vs[..|vs| - 1];
      var p := FirstCarrier(init, c);
      assert forall k :: 0 <= k < |init| ==> init[k] == vs[k];
      if p.Some? then p
      else if c in vs[|vs| - 1].categories then Some(vs[|vs| - 1])
      else None
  }

  /** The first carriers of a catalog extended by one vehicle: the earlier
    * first carrier if there is one, else the new vehicle if it carries the
    * tag. */
  lemma FirstCarrierStep(vs: seq<Vehicle>, i: nat)
    requires i < |vs|
    ensures forall c ::
      FirstCarrier(vs[..i + 1], c) ==
      (if FirstCarrier(vs[..i], c).Some? then FirstCarrier(vs[..i], c)
       else if c in vs[i].categories then Some(vs[i]) else None)
  {
    assert vs[..i + 1][..i] == vs[..i];
  }

  /** The inner `forEach`: each tag of `cats` without an entry yet is mapped
    * to `v` and appended to the key order. */
  method AddTags(m: map<string, Vehicle>, order: seq<string>, cats: seq<string>, v: Vehicle)
    returns (m': map<string, Vehicle>, order': seq<string>)
    requires Distinct(order) && forall c :: c in order <==> c in m
    ensures Distinct(order') && forall c :: c in order' <==> c in m'
    ensures forall c :: c in m' <==> c in m || c in cats
    ensures forall c :: c in m' ==> m'[c] == if c in m then m[c] else v
  {
    m', order' := m, order;
    var j := 0;
    while j < |cats|
      invariant 0 <= j <= |cats|
      invariant Distinct(order')
      invariant forall c :: c in order' <==> c in m'
      invariant forall c :: c in m' <==> c in m || c in cats[..j]
      invariant forall c :: c in m' ==> m'[c] == if c in m then m[c] else v
    {
      var c := cats[j];
      assert cats[..j + 1] == cats[..j] + [c];
      if c !in m' {
        m' := m'[c := v];
        order' := order' + [c];
      }
      j := j + 1;
    }
    assert cats[..j] == cats;
  }

  /** The `categoryMap` loop: every vehicle in turn, and each of its tags
    * other than `'all'` that has no entry yet is mapped to it. `order`
    * lists the keys in the order they were set. */
  method BuildCategoryMap(vs: seq<Vehicle>) returns (m: map<string, Vehicle>, order: seq<string>)
    ensures Distinct(order)
    ensures forall c {:trigger c in order} :: c in order <==> c in m
    ensures forall c {:trigger c in m} :: c in m <==> c != "all" && FirstCarrier(vs, c).Some?
    ensures forall c :: c in m ==> FirstCarrier(vs, c) == Some(m[c])
  {
    m := map[];
    order := [];
    var i := 0;
    while i < |vs|
      invariant 0 <= i <= |vs|
      invariant Distinct(order)
      invariant forall c :: c in order <==> c in m
      invariant forall c :: c in m <==> c != "all" && FirstCarrier(vs[..i], c).Some?
      invariant forall c :: c in m ==> FirstCarrier(vs[..i], c) == Some(m[c])
    {
      m, order := AddTags(m, order, Filter(vs[i].categories, NotAll), vs[i]);
      FirstCarrierStep(vs, i);
      i := i + 1;
    }
    assert vs[..i] == vs;
  }

  /** One entry of the category showcase. */
  datatype ShowcaseItem = ShowcaseItem(category: string, caption: string, vehicle: Vehicle, displayName: string)

  function ShowcaseCategories(items: seq<ShowcaseItem>): (cs: seq<string>)
    ensures |cs| == |items| && forall k :: 0 <= k < |items| ==> cs[k] == items[k].category
  {
    seq(|items|, k requires 0 <= k < |items| => items[k].category)
  }

  /** `.slice(0, 4).map(...)`: each kept key with its label, its vehicle
    * and that vehicle's name. */
  function ShowcaseItems(m: map<string, Vehicle>, top: seq<string>): (items: seq<ShowcaseItem>)
    requires forall k :: 0 <= k < |top| ==> top[k] in m
    ensures ShowcaseCategories(items) == top
    ensures forall k :: 0 <= k < |items| ==>
      && items[k].vehicle == m[top[k]]
      && items[k].caption == FormatCategoryLabel(top[k])
      && items[k].displayName == FormatVehicleName(m[top[k]])
  {
    var items := seq(|top|, k requires 0 <= k < |top| =>
      ShowcaseItem(top[k], FormatCategoryLabel(top[k]), m[top[k]], FormatVehicleName(m[top[k]])));
    assert ShowcaseCategories(items) == top;
    items
  }

  /** A key left out when keys ordered by the category comparator are cut
    * to `n` comes after every key kept, and the cut kept `n` keys. */
  lemma CutKeepsFirst(keys: seq<string>, n: nat, c: string)
    requires forall i, j :: 0 <= i < j < |keys| ==> FacetOrdered(keys[i], keys[j])
    requires c in keys && c !in Take(keys, n)
    ensures |Take(keys, n)| == n
    ensures forall k :: 0 <= k < n ==> FacetOrdered(Take(keys, n)[k], c)
  {
    var p :| 0 <= p < |keys| && keys[p] == c;
  }

  /** `categoryShowcaseData`: the map entries in category order, the first
    * four kept, each with its label and its vehicle's name. Entries are
    * compared by key only and the keys are distinct, so sorting the keys
    * and looking each one up gives the same list. */
  method CategoryShowcase(vs: seq<Vehicle>) returns (items: seq<ShowcaseItem>)
    ensures |items| <= 4
    ensures Distinct(ShowcaseCategories(items))
    ensures forall k :: 0 <= k < |items| ==>
      && items[k].category != "all"
      && FirstCarrier(vs, items[k].category) == Some(items[k].vehicle)
      && items[k].caption == FormatCategoryLabel(items[k].category)
      && items[k].displayName == FormatVehicleName(items[k].vehicle)
    ensures forall i, j :: 0 <= i < j < |items| ==> FacetOrdered(items[i].category, items[j].category)
    ensures forall c :: c != "all" && FirstCarrier(vs, c).Some? && c !in ShowcaseCategories(items) ==>
      |items| == 4 && forall k :: 0 <= k < |items| ==> FacetOrdered(items[k].category, c)
  {
    var m, order := BuildCategoryMap(vs);
    var keys := SortCategoryKeys(order);
    var top := Take(keys, 4);
    FirstFourKeys(vs, m, order, keys, top);
    items := ShowcaseItems(m, top);
  }

  /** `.slice(0, 4)` of the sorted keys of the category map: at most four
    * distinct tags other than `'all'`, in category order, each mapped to the
    * first vehicle carrying it, and a carried tag is cut off only after four
    * keys that come before it. */
  lemma FirstFourKeys(vs: seq<Vehicle>, m: map<string, Vehicle>, order: seq<string>, keys: seq<string>, top: seq<string>)
    requires forall c {:trigger c in order} :: c in order <==> c in m
    requires forall c {:trigger c in m} :: c in m <==> c != "all" && FirstCarrier(vs, c).Some?
    requires forall c :: c in m ==> FirstCarrier(vs, c) == Some(m[c])
    requires multiset(keys) == multiset(order) && Distinct(keys)
    requires forall i, j :: 0 <= i < j < |keys| ==> FacetOrdered(keys[i], keys[j])
    requires top == Take(keys, 4)
    ensures |top| <= 4 && Distinct(top)
    ensures forall k :: 0 <= k < |top| ==>
      top[k] in m && top[k] != "all" && FirstCarrier(vs, top[k]) == Some(m[top[k]])
    ensures forall i, j :: 0 <= i < j < |top| ==> FacetOrdered(top[i], top[j])
    ensures forall c :: c != "all" && FirstCarrier(vs, c).Some? && c !in top ==>
      |top| == 4 && forall k :: 0 <= k < 4 ==> FacetOrdered(top[k], c)
  {
    MultisetMembers(keys, order);
    assert forall k :: 0 <= k < |top| ==> top[k] in keys;
    forall c | c != "all" && FirstCarrier(vs, c).Some? && c !in top
      ensures |top| == 4 && forall k :: 0 <= k < 4 ==> FacetOrdered(top[k], c)
    {
      CutKeepsFirst(keys, 4, c);
    }
  }

  // -------------------------------------------------------------- counts

  /** `totalInventory`. */
  function TotalInventory(vs: seq<Vehicle>): (n: nat)
    ensures n == 0 <==> vs == []
  {
    |vs|
  }

  /** `certifiedCount`: the vehicles marked certified. */
  function CertifiedCount(vs: seq<Vehicle>): (n: nat)
    ensures n <= TotalInventory(vs)
  {
    |Filter(vs, IsCertified)|
  }

  /** The count reaches the total exactly when every vehicle is certified,
    * and is zero exactly when none is. */
  lemma CertifiedCountExtremes(vs: seq<Vehicle>)
    ensures CertifiedCount(vs) == TotalInventory(vs) <==> forall k :: 0 <= k < |vs| ==> vs[k].certified
    ensures CertifiedCount(vs) == 0 <==> forall k :: 0 <= k < |vs| ==> !vs[k].certified
  {
    FilterLength(vs, IsCertified);
  }

  predicate IsElectric(v: Vehicle) {
    "electric" in v.categories
  }

  predicate IsHybrid(v: Vehicle) {
    "hybrid" in v.categories
  }

  /** `electricCount`: the vehicles tagged `'electric'`. */
  function ElectricCount(vs: seq<Vehicle>): (n: nat)
    ensures n <= TotalInventory(vs)
  {
    |Filter(vs, IsElectric)|
  }

  lemma ElectricCountExtremes(vs: seq<Vehicle>)
    ensures ElectricCount(vs) == TotalInventory(vs) <==> forall k :: 0 <= k < |vs| ==> "electric" in vs[k].categories
    ensures ElectricCount(vs) == 0 <==> forall k :: 0 <= k < |vs| ==> "electric" !in vs[k].categories
  {
    FilterLength(vs, IsElectric);
  }

  /** `hybridCount`: the vehicles tagged `'hybrid'`. */
  function HybridCount(vs: seq<Vehicle>): (n: nat)
    ensures n <= TotalInventory(vs)
  {
    |Filter(vs, IsHybrid)|
  }

  lemma HybridCountExtremes(vs: seq<Vehicle>)
    ensures HybridCount(vs) == TotalInventory(vs) <==> forall k :: 0 <= k < |vs| ==> "hybrid" in vs[k].categories
    ensures HybridCount(vs) == 0 <==> forall k :: 0 <= k < |vs| ==> "hybrid" !in vs[k].categories
  {
    FilterLength(vs, IsHybrid);
  }

  /** The "Electric & Hybrid" figure as the page computes it: the sum of the
    * two counts, which can reach twice the catalog size. */
  function ElectrifiedFigureAsWritten(vs: seq<Vehicle>): (n: nat)
    ensures n <= 2 * TotalInventory(vs)
  {
    ElectricCount(vs) + HybridCount(vs)
  }

  /** A vehicle tagged both `'electric'` and `'hybrid'` is counted twice:
    * a catalog of one such vehicle shows 2. */
  lemma ElectrifiedFigureDoubleCounts(v: Vehicle)
    requires v.categories == ["electric", "hybrid"]
    ensures ElectrifiedFigureAsWritten([v]) == 2 > TotalInventory([v])
  {
    assert Filter([v], IsElectric) == [v] + Filter([v][1..], IsElectric);
    assert Filter([v], IsHybrid) == [v] + Filter([v][1..], IsHybrid);
  }

  predicate IsElectrified(v: Vehicle) {
    IsElectric(v) || IsHybrid(v)
  }

  predicate IsBoth(v: Vehicle) {
    IsElectric(v) && IsHybrid(v)
  }

  /** The figure the card describes: the vehicles that are electric or
    * hybrid, each counted once. */
  function ElectrifiedCount(vs: seq<Vehicle>): (n: nat)
    ensures n <= TotalInventory(vs)
  {
    |Filter(vs, IsElectrified)|
  }

  lemma ElectrifiedCountExtremes(vs: seq<Vehicle>)
    ensures ElectrifiedCount(vs) == TotalInventory(vs) <==>
      forall k :: 0 <= k < |vs| ==> "electric" in vs[k].categories || "hybrid" in vs[k].categories
    ensures ElectrifiedCount(vs) == 0 <==>
      forall k :: 0 <= k < |vs| ==> "electric" !in vs[k].categories && "hybrid" !in vs[k].categories
  {
    FilterLength(vs, IsElectrified);
  }

  /** The sum of the two counts exceeds the electrified count by exactly
    * the number of vehicles carrying both tags. */
  lemma {:induction false} ElectrifiedInclusionExclusion(vs: seq<Vehicle>)
    ensures ElectrifiedFigureAsWritten(vs) == ElectrifiedCount(vs) + |Filter(vs, IsBoth)|
  {
    if vs != [] {
      var t := vs[1..];
      ElectrifiedInclusionExclusion(t);
      assert Filter(vs, IsElectric) == (if IsElectric(vs[0]) then [vs[0]] else []) + Filter(t, IsElectric);
      assert Filter(vs, IsHybrid) == (if IsHybrid(vs[0]) then [vs[0]] else []) + Filter(t, IsHybrid);
      assert Filter(vs, IsElectrified) == (if IsElectrified(vs[0]) then [vs[0]] else []) + Filter(t, IsElectrified);
      assert Filter(vs, IsBoth) == (if IsBoth(vs[0]) then [vs[0]] else []) + Filter(t, IsBoth);
    }
  }

  /** `"${city}, ${state}"`. */
  function Destination(v: Vehicle): string {
    v.location.city + ", " + v.location.state
  }

  /** `vehicles.map(...)` to destinations. */
  function DestinationList(vs: seq<Vehicle>): (r: seq<string>)
    ensures |r| == |vs| && forall k :: 0 <= k < |vs| ==> r[k] == Destination(vs[k])
  {
    seq(|vs|, k requires 0 <= k < |vs| => Destination(vs[k]))
  }

  /** `destinationsServed`: the size of the set of destinations. */
  function DestinationsServed(vs: seq<Vehicle>): (n: nat)
    ensures n <= TotalInventory(vs)
    ensures n == 0 <==> vs == []
  {
    var ds := DestinationList(vs);
    var u := Dedupe(ds);
    assert vs != [] ==> ds[0] in u;
    |u|
  }

  /** The figure is the number of distinct destinations among the
    * catalog's vehicles. */
  lemma DestinationsServedCountsDistinct(vs: seq<Vehicle>)
    ensures DestinationsServed(vs) == |set k | 0 <= k < |vs| :: Destination(vs[k])|
  {
    var ds := DestinationList(vs);
    var u := Dedupe(ds);
    DistinctCardinality(u);
    assert (set x | x in u) == (set k | 0 <= k < |vs| :: Destination(vs[k])) by {
      forall x | x in u ensures exists k :: 0 <= k < |vs| && Destination(vs[k]) == x {
        var k :| 0 <= k < |ds| && ds[k] == x;
      }
      forall k | 0 <= k < |vs| ensures Destination(vs[k]) in u {
        assert ds[k] in ds;
      }
    }
  }

  /** One insight card: a title and the figure it shows, in decimal. */
  datatype Insight = Insight(title: string, value: string)

  /** A card showing `n` as `${n}`. */
  function Card(title: string, n: nat): (card: Insight)
    ensures card.title == title
    ensures Decimal(card.value)
    ensures ParseNat(card.value) == n
  {
    ParseNatString(n);
    Insight(title, NatString(n))
  }

  /** `inventoryInsights`: the four figures as the page shows them. The
    * "Electric & Hybrid" figure is the sum of the two counts, which counts
    * a vehicle carrying both tags twice (see ElectrifiedInclusionExclusion). */
  function InventoryInsights(vs: seq<Vehicle>): (r: seq<Insight>)
    ensures |r| == 4
    ensures r[0].title == "Vehicles Available" && Decimal(r[0].value) && ParseNat(r[0].value) == TotalInventory(vs)
    ensures r[1].title == "Certified Listings" && Decimal(r[1].value) && ParseNat(r[1].value) == CertifiedCount(vs)
    ensures r[2].title == "Electric & Hybrid" && Decimal(r[2].value)
      && ParseNat(r[2].value) == ElectricCount(vs) + HybridCount(vs)
    ensures r[3].title == "Cities Served" && Decimal(r[3].value) && ParseNat(r[3].value) == DestinationsServed(vs)
  {
    var available := Card("Vehicles Available", TotalInventory(vs));
    var certified := Card("Certified Listings", CertifiedCount(vs));
    var electrified := Card("Electric & Hybrid", ElectrifiedFigureAsWritten(vs));
    var cities := Card("Cities Served", DestinationsServed(vs));
    [available, certified, electrified, cities]
  }
}
