/**
 * The vehicle record and the helpers that the home page and the inventory
 * page both define: the display name, the category label, the preferred
 * category order and the comparator that sorts category tags by it.
 */
module Catalog {
  import opened Text
  import opened Seqs

  datatype Location = Location(city: string, state: string)

  /** One record of the static catalog. Numbers are whole in the data and
    * are kept as integers, except the acceleration time. */
  datatype Vehicle = Vehicle(
    id: string,
    vin: string,
    stockNumber: string,
    make: string,
    model: string,
    trim: Option<string>,
    year: int,
    price: int,
    mileage: int,
    fuelType: string,
    drivetrain: string,
    transmission: string,
    bodyStyle: string,
    exteriorColor: string,
    interiorColor: string,
    horsepower: int,
    torque: int,
    zeroToSixty: real,
    topSpeed: int,
    range: int,
    efficiency: string,
    seating: int,
    features: seq<string>,
    description: string,
    image: string,
    gallery: seq<string>,
    location: Location,
    certified: bool,
    categories: seq<string>)

  /** The year as it takes part in the name: `0` is falsy and is dropped. */
  function YearPart(year: int): string {
    if year == 0 then "" else IntString(year)
  }

  /** `vehicle.trim`, with an absent trim read as the (falsy) empty string. */
  function TrimPart(trim: Option<string>): string {
    match trim
    case Some(t) => t
    case None => ""
  }

  /** A string is truthy when it is not empty. */
  predicate Truthy(s: string) {
    s != ""
  }

  /** The candidate parts of a display name, in order. */
  function NameParts(v: Vehicle): seq<string> {
    [YearPart(v.year), v.make, v.model, TrimPart(v.trim)]
  }

  /** `[year, make, model, trim].filter(Boolean).join(' ')`: empty only when
    * every part is falsy, and every part occurs in it. */
  function FormatVehicleName(v: Vehicle): (r: string)
    ensures r == "" <==> forall k :: 0 <= k < 4 ==> NameParts(v)[k] == ""
    ensures forall k :: 0 <= k < 4 ==> Contains(r, NameParts(v)[k])
  {
    JoinTruthy(NameParts(v));
    Join(" ", Filter(NameParts(v), Truthy))
  }

  /** Joining the truthy parts gives the empty string only when no part is
    * truthy, and keeps every part. */
  lemma JoinTruthy(parts: seq<string>)
    ensures Join(" ", Filter(parts, Truthy)) == "" <==> forall k :: 0 <= k < |parts| ==> parts[k] == ""
    ensures forall k :: 0 <= k < |parts| ==> Contains(Join(" ", Filter(parts, Truthy)), parts[k])
  {
    var kept := Filter(parts, Truthy);
    var r := Join(" ", kept);
    if kept != [] {
      assert kept[0] in kept;
      assert |r| >= |kept[0]| > 0;
    } else {
      forall k | 0 <= k < |parts| ensures parts[k] == "" {
        assert parts[k] !in kept;
      }
    }
    forall k | 0 <= k < |parts| ensures Contains(r, parts[k]) {
      if parts[k] == "" {
        assert OccursAt(r, parts[k], 0);
      } else {
        assert parts[k] in kept;
        var j :| 0 <= j < |kept| && kept[j] == parts[k];
        JoinContainsPart(" ", kept, j);
      }
    }
  }

  /** Parts that are all truthy are all kept, in order. */
  lemma {:induction false} FilterTruthyKeepsAll(parts: seq<string>)
    requires forall k :: 0 <= k < |parts| ==> parts[k] != ""
    ensures Filter(parts, Truthy) == parts
  {
    if parts != [] {
      FilterTruthyKeepsAll(parts[1..]);
    }
  }

  /** An empty last part is filtered away. */
  lemma {:induction false} FilterTruthyDropsEmpty(parts: seq<string>)
    ensures Filter(parts + [""], Truthy) == Filter(parts, Truthy)
  {
    if parts == [] {
      assert [""][1..] == [];
    } else {
      assert (parts + [""])[1..] == parts[1..] + [""];
      FilterTruthyDropsEmpty(parts[1..]);
    }
  }

  /** With every part present the name is the four parts separated by single
    * spaces. */
  lemma DisplayNameAllParts(v: Vehicle, t: string)
    requires v.year != 0 && v.make != "" && v.model != "" && v.trim == Some(t) && t != ""
    ensures FormatVehicleName(v) == IntString(v.year) + " " + v.make + " " + v.model + " " + t
  {
    var parts := [IntString(v.year), v.make, v.model, t];
    assert NameParts(v) == parts;
    FilterTruthyKeepsAll(parts);
    assert Join(" ", parts[2..]) == v.model + " " + t;
    assert Join(" ", parts[1..]) == v.make + " " + (v.model + " " + t);
  }

  /** A missing or empty trim is left out, with no trailing space. */
  lemma DisplayNameWithoutTrim(v: Vehicle)
    requires v.year != 0 && v.make != "" && v.model != "" && TrimPart(v.trim) == ""
    ensures FormatVehicleName(v) == IntString(v.year) + " " + v.make + " " + v.model
  {
    var parts := [IntString(v.year), v.make, v.model];
    assert NameParts(v) == parts + [""];
    FilterTruthyDropsEmpty(parts);
    FilterTruthyKeepsAll(parts);
    assert Join(" ", parts[1..]) == v.make + " " + v.model;
  }

  function Dehyphen(c: char): char {
    if c == '-' then ' ' else c
  }

  /** `category.replace(/-/g, ' ')`. */
  function ReplaceHyphens(s: string): (r: string)
    ensures |r| == |s| && forall i :: 0 <= i < |s| ==> r[i] == Dehyphen(s[i])
  {
    seq(|s|, i requires 0 <= i < |s| => Dehyphen(s[i]))
  }

  /** The label of a category tag: "SUVs" for any casing of "suv";
    * otherwise hyphens become spaces and the first character of every
    * space-separated piece is upper-cased, the rest left as it is. */
  function FormatCategoryLabel(category: string): (r: string)
    ensures Lower(category) == "suv" ==> r == "SUVs"
    ensures Lower(category) != "suv" ==>
      |r| == |category| &&
      forall i :: 0 <= i < |r| ==>
        r[i] == if i == 0 || category[i - 1] == '-' || category[i - 1] == ' '
                then UpperChar(Dehyphen(category[i])) else Dehyphen(category[i])
  {
    var normalized := ReplaceHyphens(category);
    if Lower(category) == "suv" then "SUVs"
    else
      CapitalizeWordsTitleCase(normalized);
      CapitalizeWords(normalized)
  }

  /** The fixed preference order of category tags. */
  const BaseCategoryOrder: seq<string> := [
    "luxury", "electric", "hybrid", "performance", "suv", "sedan",
    "coupe", "convertible", "wagon", "truck", "adventure"
  ]

  /** `Array.prototype.indexOf`: the first index of `x`, or -1. */
  function IndexOf(s: seq<string>, x: string): (r: int)
    ensures -1 <= r < |s|
    ensures r == -1 <==> x !in s
    ensures r >= 0 ==> s[r] == x && x !in s[..r]
  {
    if x in s then FirstIndex(s, x) else -1
  }

  /** The comparator used to sort category tags against a preference
    * order: tags in the order by their position, every such tag before any
    * other, and the other tags by string comparison. */
  function RankCompare(order: seq<string>, a: string, b: string): (r: int)
    ensures r == 0 <==> a == b
    ensures r < 0 <==> a != b && RankOrdered(order, a, b)
  {
    var indexA := IndexOf(order, a);
    var indexB := IndexOf(order, b);
    LexCompareAntisymmetric(a, b);
    if indexA == -1 && indexB == -1 then LexCompare(a, b)
    else if indexA == -1 then 1
    else if indexB == -1 then -1
    else
      assert order[indexA] == a && order[indexB] == b;
      indexA - indexB
  }

  /** The comparator of both pages, over the fixed preference order. */
  function CategoryCompare(a: string, b: string): int {
    RankCompare(BaseCategoryOrder, a, b)
  }

  /** `a` may be placed before `b`. */
  predicate CategoryLe(a: string, b: string) {
    CategoryCompare(a, b) <= 0
  }

  /** The order the comparator puts two distinct tags in: tags of the
    * preference order by position, known before unknown, and unknown ones
    * by string comparison. */
  predicate RankOrdered(order: seq<string>, a: string, b: string) {
    && (a in order && b in order ==> IndexOf(order, a) < IndexOf(order, b))
    && (b in order ==> a in order)
    && (a !in order && b !in order ==> LexCompare(a, b) < 0)
  }

  predicate FacetOrdered(a: string, b: string) {
    RankOrdered(BaseCategoryOrder, a, b)
  }

  lemma RankCompareTransitive(order: seq<string>, x: string, y: string, z: string)
    requires RankCompare(order, x, y) <= 0 && RankCompare(order, y, z) <= 0
    ensures RankCompare(order, x, z) <= 0
  {
    if x !in order && y !in order && z !in order {
      LexCompareTransitive(x, y, z);
    }
  }

  lemma {:induction false} CategoryLeTotalPreorder()
    ensures TotalPreorder(CategoryLe)
  {
    forall x, y
      ensures CategoryLe(x, y) || CategoryLe(y, x)
    {
      LexCompareAntisymmetric(x, y);
    }
    forall x, y, z | CategoryLe(x, y) && CategoryLe(y, z)
      ensures CategoryLe(x, z)
    {
      RankCompareTransitive(BaseCategoryOrder, x, y, z);
    }
  }

  /** Two distinct tags that the comparator allows in this order are in
    * preference order, known before unknown, and unknown ones by string
    * comparison. */
  lemma CategoryLeOrdered(a: string, b: string)
    requires CategoryLe(a, b) && a != b
    ensures FacetOrdered(a, b)
  {
  }

  /** Every tag except the catch-all `'all'`. */
  predicate NotAll(c: string) {
    c != "all"
  }

  /** `x` first occurs in `tags` earlier than `y` does. */
  predicate FirstSeenBefore(tags: seq<string>, x: string, y: string) {
    x in tags && y in tags && FirstIndex(tags, x) < FirstIndex(tags, y)
  }

  /** `Array.from(new Set(tags)).filter((c) => c !== 'all')`: the distinct
    * tags other than `'all'`, in the order they first occur. */
  function DistinctTags(tags: seq<string>): (r: seq<string>)
    ensures Distinct(r)
    ensures forall c {:trigger c in r} :: c in r <==> c in tags && c != "all"
    ensures forall i, j :: 0 <= i < j < |r| ==> FirstSeenBefore(tags, r[i], r[j])
  {
    var d := Dedupe(tags);
    DedupeOrder(tags);
    FilterDistinct(d, NotAll);
    var before := (x: string, y: string) => FirstSeenBefore(tags, x, y);
    FilterKeepsOrder(d, NotAll, before);
    var r := Filter(d, NotAll);
    assert forall i, j :: 0 <= i < j < |r| ==> before(r[i], r[j]);
    r
  }

  /** `.sort(...)` with the category comparator, on a fresh array of
    * distinct tags. */
  method SortCategoryKeys(tags: seq<string>) returns (keys: seq<string>)
    requires Distinct(tags)
    ensures multiset(keys) == multiset(tags)
    ensures Distinct(keys)
    ensures forall i, j :: 0 <= i < j < |keys| ==> FacetOrdered(keys[i], keys[j])
  {
    CategoryLeTotalPreorder();
    keys := SortedCopy(tags, CategoryLe);
    DistinctSubMultiset(tags, keys);
    forall i, j | 0 <= i < j < |keys|
      ensures FacetOrdered(keys[i], keys[j])
    {
      CategoryLeOrdered(keys[i], keys[j]);
    }
  }
}
