# Muke-dealz dealership pages, modelled in Dafny

This project models the logic of the Muke-dealz used-car dealership site. It covers three core pieces:

- **The inventory page.** It builds a view model from the vehicle catalog and derives category facets, ordered by a preferred category order. It filters the vehicles by the selected category and a free-text search, then sorts them by name, price or year. It also keeps the id of the vehicle whose details panel is open.
- **The home page.** It selects up to four featured vehicles: certified ones by price first, then the others by mileage. It builds a showcase of up to four categories, each with the first vehicle that carries it, and shows catalog counts as insight cards. It also derives the interest-form options and the category chips above the featured vehicles.
- **The local image pool.** A fallback picture is chosen for a vehicle by hashing its id onto a fixed list of 46 image paths.

The catalog is a parameter (`seq<Vehicle>`), not the JSON import. Page state kept in React hooks is a class whose setters change one field each. Loops and in-place sorts are methods with loop invariants; the three loops are the image hash, the category-map fill and the sort.

Files:

- `text.dfy` (module `Text`): case mapping, `trim`, `join`/`split`, `includes`, the word capitalization of category labels, decimal rendering, and a lexicographic comparison.
- `seqs.dfy` (module `Seqs`): `filter`, the insertion-ordered `Set`, `flatMap`, `slice`, and `sort` on an array.
- `catalog.dfy` (module `Catalog`): the vehicle record, the display name, the category label and the category comparator, which both pages share.
- `inventory.dfy` (module `Inventory`): the inventory page.
- `home.dfy` (module `Home`): the home page.
- `images.dfy` (module `LocalVehicleImages`): the image pool and `getLocalVehicleImage`.

## Model

| member | source | states |
|---|---|---|
| Catalog.FormatVehicleName | app/inventory/page.tsx:51-54 | the name is empty exactly when year, make, model and trim are all falsy, and each of the four parts occurs in it |
| Catalog.DisplayNameAllParts | app/inventory/page.tsx:51-54 | with year, make, model and trim all present, the name is the four of them separated by single spaces |
| Catalog.DisplayNameWithoutTrim | app/inventory/page.tsx:51-54 | a missing or empty trim is dropped: the name is year, make and model with no trailing space |
| Catalog.FormatCategoryLabel | app/inventory/page.tsx:56-65 | exactly "SUVs" when the tag lower-cases to "suv"; otherwise the label has the tag's length, hyphens become spaces, and a character is upper-cased exactly when it starts the tag or follows a space or hyphen; every other character is kept |
| Catalog.ReplaceHyphens | app/inventory/page.tsx:57 | every hyphen becomes a space, every other character is kept, and the length is unchanged |
| Catalog.IndexOf | app/inventory/page.tsx:95-96 | -1 exactly when the tag is not in the order, otherwise the position of its first occurrence |
| Catalog.RankCompareTransitive | app/inventory/page.tsx:94-107 | the category comparator is transitive, as sorting requires |
| Catalog.CategoryLeTotalPreorder | app/inventory/page.tsx:94-107 | the category comparator over the preference order is total and transitive |
| Catalog.RankCompare | app/inventory/page.tsx:94-107 | zero exactly for equal tags. Negative exactly when the tags differ and are in this order: tags of the preference order follow their positions, every such tag comes before any other tag, and two other tags follow string order |
| Catalog.CategoryLeOrdered | app/page.tsx:151-164 | two distinct tags that the comparator lets stand in this order are in that order over the fixed preference order both pages use |
| Catalog.DistinctTags | app/inventory/page.tsx:87-89 | the result has no repeats and holds exactly the tags that occur, except 'all', in the order in which they first occur |
| Catalog.SortCategoryKeys | app/inventory/page.tsx:93-107 | the sorted keys are a permutation of the input, have no repeats, and every pair is in category order |
| Inventory.InventoryVehicles | app/inventory/page.tsx:67-71 | one entry per catalog vehicle in catalog order; its name is FormatVehicleName and its fuel label is the fuel type |
| Inventory.AllTags | app/inventory/page.tsx:88 | a tag is in the flattened list exactly when some vehicle carries it |
| Inventory.DeriveFacets | app/inventory/page.tsx:87-112 | the first facet is All Vehicles. The other keys have no repeats and are exactly the tags other than 'all' that some vehicle carries. They are pairwise in category order, and each is labelled by FormatCategoryLabel |
| Inventory.LabelledFacets | app/inventory/page.tsx:91-112 | "All Vehicles" followed by exactly the given keys, each labelled by FormatCategoryLabel |
| Inventory.CategoryStage | app/inventory/page.tsx:172-175 | for 'all' the catalog passes unchanged; otherwise a vehicle passes exactly when it carries the selected tag; never longer than the input |
| Inventory.NormalizedQuery | app/inventory/page.tsx:170 | the lower-cased slice of the query left after only whitespace is cut from both ends; it has no whitespace at either end and no upper-case letter |
| Inventory.SearchStage | app/inventory/page.tsx:177-197 | an empty query passes everything unchanged; otherwise a vehicle passes exactly when its searchable text contains the query |
| Inventory.Matching | app/inventory/page.tsx:169-197 | a vehicle survives both filters exactly when it is in the catalog, carries the selected tag unless that is 'all', and contains the normalized query unless it is empty; never more vehicles than the catalog |
| Inventory.MatchingSubMultiset | app/inventory/page.tsx:169-197 | the filters only remove vehicles, and never duplicate one |
| Inventory.SearchFindsField | app/inventory/page.tsx:179-195 | a query that occurs, in any letter case, in any one of the eleven searched fields keeps the vehicle |
| Inventory.SearchByMake | app/inventory/page.tsx:177-195 | a search for a make, in any case and with blanks around it, keeps every vehicle of that make that passed the category stage |
| Inventory.SearchableParts | app/inventory/page.tsx:179-191 | the search looks through eleven fields |
| Inventory.SortCompare | app/inventory/page.tsx:199-211 | non-positive exactly when the first vehicle may come first under the key (lower price for priceAsc, higher price for priceDesc, newer year for year, earlier name in string order for name); non-negative exactly when the second may |
| Inventory.OrderTotalPreorder | app/inventory/page.tsx:199-211 | the comparator of each sort key is total and transitive |
| Inventory.FilteredVehicles | app/inventory/page.tsx:169-214 | the result is a permutation of the vehicles that pass both filters and is no longer than the catalog. Prices are non-decreasing under priceAsc and non-increasing under priceDesc, years are non-increasing under year, and names are in string order under name |
| Inventory.FindById | app/inventory/page.tsx:217 | a vehicle is found exactly when the id is set and some vehicle has it, and the one found is the first with that id |
| Inventory.InventoryPage.constructor | app/inventory/page.tsx:153-157 | starts with category 'all', sort by name, an empty search and no open vehicle |
| Inventory.InventoryPage.SetSearchQuery | app/inventory/page.tsx:293 | stores the query; category, sort key and open vehicle are unchanged |
| Inventory.InventoryPage.SetSelectedCategory | app/inventory/page.tsx:305 | stores the category; the open vehicle's id is not cleared |
| Inventory.InventoryPage.SetSortKey | app/inventory/page.tsx:322 | stores the sort key; nothing else changes |
| Inventory.InventoryPage.ViewDetails | app/inventory/page.tsx:387 | stores the vehicle's id; the filters are unchanged |
| Inventory.InventoryPage.CloseActiveVehicle | app/inventory/page.tsx:221 | clears the stored id and nothing else |
| Inventory.InventoryPage.Results | app/inventory/page.tsx:169-214 | the vehicles shown for the current state, in key order; their count is at most the catalog size, as in "Showing N of M" at line 335 |
| Inventory.InventoryPage.ActiveVehicle | app/inventory/page.tsx:216-219 | present exactly when an id is stored and some vehicle passing the current filters has it; the vehicle shown has that id and passes the filters |
| Home.Feature | app/page.tsx:128-134 | keeps the vehicle, names it by FormatVehicleName, and its highlights are the first min(3, number of features) features |
| Home.PriceAndMileageTotalPreorders | app/page.tsx:122-125 | the price and mileage comparators are total and transitive |
| Home.PrefixOrder | app/page.tsx:126 | in a prefix of certified-by-price followed by others-by-mileage, certified vehicles come first, in price order, and the others follow in mileage order |
| Home.PrefixCheapest | app/page.tsx:120-126 | a certified vehicle that is left out costs at least as much as every certified vehicle kept |
| Home.PrefixLowestMileage | app/page.tsx:123-126 | a non-certified vehicle that is left out has at least the mileage of every non-certified vehicle kept, and a kept non-certified vehicle means every certified one was kept |
| Home.CertifiedByPrice | app/page.tsx:120-122 | a permutation of the certified vehicles, in non-decreasing price |
| Home.OthersByMileage | app/page.tsx:123-125 | a permutation of the non-certified vehicles, in non-decreasing mileage |
| Home.FeaturedPrefix | app/page.tsx:126 | min(4, catalog size) vehicles, drawn from the catalog without repetition, forming a prefix of the two sorted parts |
| Home.PartsCoverCatalog | app/page.tsx:120-126 | the certified part and the other part together hold the catalog exactly once |
| Home.FeaturedVehicles | app/page.tsx:119-135 | min(4, catalog size) entries, drawn from the catalog and with no vehicle twice when the catalog has none. Certified entries come first and in price order, the rest in mileage order. No certified vehicle left out is cheaper than a picked one, and no non-certified vehicle left out has lower mileage than a picked one. A non-certified pick means every certified vehicle was picked |
| Home.FeatureAll | app/page.tsx:128-134 | one featured entry per picked vehicle, in order |
| Home.InterestOptions | app/page.tsx:204-208 | "Select a vehicle", then the featured names in order, then "Schedule a custom search": two more entries than featured vehicles |
| Home.FeaturedTags | app/page.tsx:318 | a tag is listed exactly when some featured vehicle carries it |
| Home.FeaturedTagsOrder | app/page.tsx:318 | the tags of each featured vehicle follow, in their own order, the tags of all vehicles before it |
| Home.FirstThreeTags | app/page.tsx:318-320 | three distinct tags other than 'all' at most, in order of first occurrence. Fewer than three only when no other tag is left, and a tag left out first occurs after all three kept ones |
| Home.Chips | app/page.tsx:321-325 | one chip per tag, in the given order, each captioned by FormatCategoryLabel |
| Home.FeaturedCategoryChips | app/page.tsx:318-323 | at most three chips, no tag twice, never 'all', each a tag of a featured vehicle, in order of first occurrence, each labelled by FormatCategoryLabel. They are the first three: fewer only when no other tag is left, and every tag left out first occurs after all three chips |
| Home.FirstCarrier | app/page.tsx:140-147 | none exactly when no vehicle carries the tag, else the earliest vehicle that carries it |
| Home.FirstCarrierStep | app/page.tsx:140-147 | one more vehicle changes only the tags no earlier vehicle carried |
| Home.AddTags | app/page.tsx:141-147 | each tag without an entry is mapped to the vehicle and recorded once; existing entries are never overwritten |
| Home.BuildCategoryMap | app/page.tsx:138-148 | the map holds exactly the tags other than 'all' that some vehicle carries, each mapped to the first vehicle carrying it; the recorded key order has no repeats |
| Home.ShowcaseItems | app/page.tsx:165-172 | one entry per kept key, with its label, its mapped vehicle and that vehicle's name |
| Home.CutKeepsFirst | app/page.tsx:150-165 | a key lost by cutting the sorted keys to n comes after every key kept, and n keys were kept |
| Home.FirstFourKeys | app/page.tsx:149-164 | the first four sorted keys of the category map: at most four distinct tags other than 'all', each mapped to the first vehicle carrying it, in category order; a carried tag is cut off only after four keys that come before it |
| Home.CategoryShowcase | app/page.tsx:137-173 | at most four distinct tags, never 'all', each paired with the first vehicle carrying it and labelled. The entries are in category order, and a carried tag is left out only when four tags that come before it were kept |
| Home.TotalInventory | app/page.tsx:175 | zero exactly when the catalog is empty |
| Home.CertifiedCount | app/page.tsx:176 | never more than the total |
| Home.CertifiedCountExtremes | app/page.tsx:175-176 | equal to the total exactly when every vehicle is certified, zero exactly when none is |
| Home.ElectricCount | app/page.tsx:177 | never more than the total |
| Home.ElectricCountExtremes | app/page.tsx:177 | equal to the total exactly when every vehicle is tagged 'electric', zero exactly when none is |
| Home.HybridCount | app/page.tsx:178 | never more than the total |
| Home.HybridCountExtremes | app/page.tsx:178 | equal to the total exactly when every vehicle is tagged 'hybrid', zero exactly when none is |
| Home.ElectrifiedFigureAsWritten | app/page.tsx:194 | the figure the page shows, the electric count plus the hybrid count, is at most twice the catalog size |
| Home.ElectrifiedFigureDoubleCounts | app/page.tsx:194 | one vehicle tagged both 'electric' and 'hybrid' makes the figure as written show 2 for a catalog of one |
| Home.ElectrifiedCount | app/page.tsx:192-196 | the vehicles tagged 'electric' or 'hybrid', counted once each, never more than the total |
| Home.ElectrifiedCountExtremes | app/page.tsx:192-196 | equal to the total exactly when every vehicle has one of the tags, zero exactly when none has either |
| Home.ElectrifiedInclusionExclusion | app/page.tsx:177-178 | the sum of the two counts exceeds the electrified count by exactly the number of vehicles carrying both tags |
| Home.DestinationList | app/page.tsx:179 | one "city, state" string per vehicle, in catalog order |
| Home.DestinationsServed | app/page.tsx:179 | never more than the total, and zero exactly when the catalog is empty |
| Home.DestinationsServedCountsDistinct | app/page.tsx:179 | equal to the number of distinct "city, state" strings of the catalog |
| Home.Card | app/page.tsx:182-201 | the card keeps its title, and its value is the standard decimal form of the figure: non-empty digits, no leading zero, reading back as the figure |
| Home.InventoryInsights | app/page.tsx:181-202 | four cards titled as on the page. Each value is in standard decimal form (non-empty digits, no leading zero) and reads back as, in order: the total; the certified count; the electric count plus the hybrid count, as written; and the number of destinations |
| Text.Lower | app/inventory/page.tsx:170 | same length, every character lower-cased |
| Text.Trim | app/inventory/page.tsx:170 | a slice of the input with no whitespace at either end, and only whitespace cut away around it |
| Text.Split | app/inventory/page.tsx:62 | at least one piece, and no piece holds the separator |
| Text.JoinSplit | app/inventory/page.tsx:61-64 | joining the pieces of a split with the same separator gives the string back |
| Text.JoinContainsPart | app/inventory/page.tsx:179-192 | every field occurs in the space-joined text |
| Text.ContainsLower | app/inventory/page.tsx:193-195 | a piece occurring in a text still occurs after both are lower-cased |
| Text.ContainsTransitive | app/inventory/page.tsx:195 | an occurrence inside an occurrence is an occurrence |
| Text.TitleCase | app/inventory/page.tsx:61-64 | character-wise reference: a character is upper-cased exactly when it starts the string or follows a space |
| Text.CapitalizeWordsIsTitleCase | app/inventory/page.tsx:61-64 | splitting on spaces, capitalizing each piece and joining with spaces agrees with the character-wise reference |
| Text.CapitalizeWordsTitleCase | app/page.tsx:53-56 | the label capitalization equals the character-wise reference |
| Text.LexCompare | app/inventory/page.tsx:98 | the comparison is -1, 0 or 1 |
| Text.LexCompareAntisymmetric | app/inventory/page.tsx:209 | swapping the arguments negates the result, and zero means equal strings |
| Text.LexCompareTransitive | app/inventory/page.tsx:98 | the comparison is transitive |
| Text.NatString | app/page.tsx:184 | the standard decimal form: a non-empty string of digits without a leading zero |
| Text.IntString | app/inventory/page.tsx:52 | a non-negative number renders in standard decimal form (non-empty digits, no leading zero) reading back as it; a negative one as '-' followed by the standard decimal form of its magnitude |
| Text.ParseNatString | app/page.tsx:184 | the decimal rendering reads back as the same number |
| Seqs.Filter | app/page.tsx:120-121 | no longer than the input, and holds exactly the elements satisfying the condition |
| Seqs.FilterLength | app/page.tsx:176 | the filter keeps everything exactly when every element passes, and nothing exactly when none does |
| Seqs.FilterPartition | app/page.tsx:120-124 | a filter and its opposite together hold every element exactly once |
| Seqs.FilterKeepsOrder | app/inventory/page.tsx:89 | filtering keeps the relative order of what it keeps |
| Seqs.Dedupe | app/inventory/page.tsx:87-88 | the distinct values of the input, none twice, never longer than the input |
| Seqs.DedupeOrder | app/inventory/page.tsx:87-88 | the values come in the order of their first occurrence |
| Seqs.Flatten | app/inventory/page.tsx:88 | a value is in the result exactly when it is in one of the inner lists, and the length is the sum of their lengths |
| Seqs.FlattenPrefix | app/page.tsx:318 | each inner list follows, in order, the flattening of the lists before it, as a prefix of the whole result |
| Seqs.Take | app/page.tsx:126 | the first min(n, length) elements |
| Seqs.DistinctSubMultiset | app/page.tsx:126 | elements drawn, each at most as often, from a list without repeats have no repeats |
| Seqs.DistinctCardinality | app/page.tsx:179 | a list without repeats has as many elements as its set |
| Seqs.SortInPlace | app/inventory/page.tsx:94 | sorts the array in place by a total preorder, keeping every element |
| Seqs.SortedCopy | app/inventory/page.tsx:199 | a sorted permutation of the input, built on a fresh array so that the input is not changed |
| LocalVehicleImages.CodeUnits | lib/localVehicleImages.ts:59 | a character below U+10000 is one code unit equal to its code. Any other is two units, a high surrogate in D800-DBFF then a low one in DC00-DFFF, which decode back to the code point |
| LocalVehicleImages.Utf16 | lib/localVehicleImages.ts:58-59 | one or two code units per character |
| LocalVehicleImages.Utf16Append | lib/localVehicleImages.ts:58-59 | the code units of a concatenation are those of its parts, one after the other |
| LocalVehicleImages.Utf16Basic | lib/localVehicleImages.ts:58-59 | for text without characters above U+FFFF, the loop reads one code unit per character, equal to its code |
| LocalVehicleImages.HashOf | lib/localVehicleImages.ts:57-60 | the hash stays in [0, 2^32) after every step |
| LocalVehicleImages.HashIsPolyMod | lib/localVehicleImages.ts:57-60 | the step-wise hash equals the id's code units read in base 31, taken modulo 2^32 |
| LocalVehicleImages.LocalVehicleImagePaths | lib/localVehicleImages.ts:1-50 | 46 paths, one per file in order, each "/images/" followed by the file name |
| LocalVehicleImages.ImageFor | lib/localVehicleImages.ts:52-64 | the fallback for an empty pool, otherwise always an element of the pool |
| LocalVehicleImages.PickImage | lib/localVehicleImages.ts:52-64 | the loop computes the hash fold, and the method returns the pool entry at the hash modulo the pool size, or the fallback when the pool is empty |
| LocalVehicleImages.GetLocalVehicleImage | lib/localVehicleImages.ts:52-64 | always one of the 46 local paths: with a non-empty pool the fallback branch is never taken |
| LocalVehicleImages.EmptyIdFirstImage | lib/localVehicleImages.ts:2 | the empty id hashes to 0 and gets the path of the first file |
| LocalVehicleImages.SameUnitsSameImage | lib/localVehicleImages.ts:52-64 | ids with the same code units get the same picture |

## Left out

- JSX rendering, `next/image`, `next/link`, the header, footer and menu markup, and the `isMenuOpen` and `message` hooks: presentation only.
- `app/about/page.tsx`, `app/contact/page.tsx`, `app/layout.tsx` and `tailwind.config.ts` hold static content and configuration, with no logic to model.
- `formatCurrency` and `formatMileage`, and the `formattedPrice` and `formattedMileage` fields they fill. These are `Intl.NumberFormat` and `toLocaleString` calls whose output is locale data.
- The JSON import of the catalog: the catalog is a parameter of every operation.
- Prices, years and mileages are JavaScript numbers but whole in the data, so they are modelled as `int`. The acceleration time is a `real` and is only carried along.
- Text.LexCompare: plain lexicographic order on character codes stands in for `localeCompare`, so locale collation is not modelled. The name sort and the order among tags outside the preference order are proved for this comparison.
- Text.Lower: case mapping covers ASCII letters only. Unicode case mapping is not modelled.
- Text.Trim: strips the ECMAScript whitespace and line-terminator characters, written out as a set.
- Inventory.FilteredVehicles: states a permutation sorted by the key, but not the order of ties. The source gives no tie-breaker and relies on the engine's sort.
- Home.FeaturedVehicles: the order of vehicles with equal price, or with equal mileage, is not stated, for the same reason.
- Inventory.InventoryPage.ActiveVehicle: states that the shown vehicle has the stored id and passes the filters. It does not say which of several vehicles sharing an id is found first, because that depends on the tie order of the sort.
- Home.CategoryShowcase: the map entries are modelled by sorting their keys and then looking each one up. The comparator reads only the keys, and the keys are distinct, so the result is the same list.
- Inventory.DeriveFacets and Catalog.SortCategoryKeys sort a fresh copy of the derived keys rather than the derived array itself. Nothing else reads that array.
- LocalVehicleImages.EmptyIdFirstImage: the path is stated as `"/images/"` plus the first entry of the file list, which is `aaron-huber-8qYE6LGHW-c-unsplash.jpg`. The literal is not spelled out.
- `activeVehicleId` is an `Option<string>`, with `None` for `null`.

## Findings

| source | as written | input that shows it | evidently intended | confidence | as-written member | corrected member |
|---|---|---|---|---|---|---|
| app/page.tsx:194 | the "Electric & Hybrid" card shows `electricCount + hybridCount` | a catalog of one vehicle tagged both `electric` and `hybrid`: the card shows 2 although one vehicle is available | the number of vehicles that are electric or hybrid, each counted once; it is never more than the total | medium, not executed | Home.ElectrifiedFigureDoubleCounts | Home.ElectrifiedCount |

`Home.InventoryInsights` shows the figure as the page computes it (`Home.ElectrifiedFigureAsWritten`), and `Home.ElectrifiedFigureDoubleCounts` exhibits the double count. The corrected figure is `Home.ElectrifiedCount`, which is never more than the total. `Home.ElectrifiedInclusionExclusion` proves that the page's sum exceeds it by exactly the number of vehicles carrying both tags.
