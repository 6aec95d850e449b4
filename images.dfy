/**
 * The fallback picture of a vehicle: a fixed pool of local image paths, and
 * a rolling hash of the vehicle id that chooses one of them.
 */
module LocalVehicleImages {

  /** A UTF-16 code unit, as `charCodeAt` returns it. */
  type CodeUnit = x: int | 0 <= x < 0x1_0000

  const TwoTo32: nat := 0x1_0000_0000

  /** The UTF-16 encoding of one character: itself below U+10000, else a
    * surrogate pair. */
  function CodeUnits(c: char): (r: seq<CodeUnit>)
    ensures 1 <= |r| <= 2
    ensures c as int < 0x1_0000 <==> r == [c as int]
    ensures c as int >= 0x1_0000 ==>
              && |r| == 2
              && 0xD800 <= r[0] < 0xDC00 <= r[1] < 0xE000
              && 0x1_0000 + (r[0] as int - 0xD800) * 0x400 + (r[1] as int - 0xDC00) == c as int
  {
    if c as int < 0x1_0000 then [c as int]
    else
      var v := c as int - 0x1_0000;
      [0xD800 + v / 0x400, 0xDC00 + v % 0x400]
  }

  /** The code units of a string, the sequence `charCodeAt` walks through. */
  function Utf16(s: string): (r: seq<CodeUnit>)
    ensures |s| <= |r| <= 2 * |s|
  {
    if s == [] then [] else CodeUnits(s[0]) + Utf16(s[1..])
  }

  /** The encoding works character by character: the code units of a
    * concatenation are those of the parts, one after the other. */
  lemma {:induction false} Utf16Append(s: string, t: string)
    ensures Utf16(s + t) == Utf16(s) + Utf16(t)
  {
    if s == [] {
      assert s + t == t;
    } else {
      assert (s + t)[0] == s[0] && (s + t)[1..] == s[1..] + t;
      Utf16Append(s[1..], t);
    }
  }

  /** A string of characters below U+10000 has one code unit per
    * character, equal to its code. */
  lemma {:induction false} Utf16Basic(s: string)
    requires forall i :: 0 <= i < |s| ==> s[i] as int < 0x1_0000
    ensures |Utf16(s)| == |s|
    ensures forall i :: 0 <= i < |s| ==> Utf16(s)[i] == s[i] as int
  {
    if s != [] {
      Utf16Basic(s[1..]);
    }
  }

  /** The hash after the loop has read `units`: each step multiplies by 31,
    * adds the code unit and keeps the low 32 bits (`>>> 0`). */
  function HashOf(units: seq<CodeUnit>): (h: nat)
    ensures h < TwoTo32
  {
    if units == [] then 0
    else (HashOf(units[..|units| - 1]) * 31 + units[|units| - 1]) % TwoTo32
  }

  /** The hash without reduction: the code units as digits in base 31. */
  function Poly(units: seq<CodeUnit>): nat {
    if units == [] then 0 else Poly(units[..|units| - 1]) * 31 + units[|units| - 1]
  }

  /** Reducing after every step or only once at the end gives the same
    * result. */
  lemma {:induction false} HashIsPolyMod(units: seq<CodeUnit>)
    ensures HashOf(units) == Poly(units) % TwoTo32
  {
    if units != [] {
      var init := units[..|units| - 1];
      var u := units[|units| - 1];
      HashIsPolyMod(init);
      var p := Poly(init);
      var q := p / TwoTo32;
      assert p == q * TwoTo32 + p % TwoTo32;
      ModAddMultiple((p % TwoTo32) * 31 + u, q * 31);
      assert p * 31 + u == (p % TwoTo32) * 31 + u + q * 31 * TwoTo32;
    }
  }

  lemma ModAddMultiple(x: nat, k: nat)
    ensures (x + k * TwoTo32) % TwoTo32 == x % TwoTo32
  {
  }

  /** The image files shipped with the site. */
  const LocalVehicleImageFilenames: seq<string> := [
    "aaron-huber-8qYE6LGHW-c-unsplash.jpg",
    "david-moffatt-wg5OReRpgCo-unsplash.jpg",
    "josh-berquist-0kxOW0I-HLM-unsplash.jpg",
    "joshua-koblin-eqW1MPinEV4-unsplash.jpg",
    "kenny-eliason-FcyipqujfGg-unsplash.jpg",
    "marek-pospisil-oUBjd22gF6w-unsplash.jpg",
    "mitch-kemp-2w_Nxti8iKE-unsplash.jpg",
    "olav-tvedt-6lSBynPRaAQ-unsplash.jpg",
    "pexels-adrian-dorobantu-989175-2127733.jpg",
    "pexels-alshreef-32757555.jpg",
    "pexels-arnie-watkins-1337313-3156482.jpg",
    "pexels-avinashpatel-544542.jpg",
    "pexels-bradakan-30806975.jpg",
    "pexels-brett-sayles-1638459.jpg",
    "pexels-cesarperez209-733745.jpg",
    "pexels-charles-kettor-268979-831475.jpg",
    "pexels-danielspase-949796.jpg",
    "pexels-dom-j-7304-303316.jpg",
    "pexels-jacobmorch-457418.jpg",
    "pexels-junnoet-235222.jpg",
    "pexels-kampratt-5086489.jpg",
    "pexels-louis-gys-218031041-12040980.jpg",
    "pexels-lynxexotics-3802508.jpg",
    "pexels-mali-97458.jpg",
    "pexels-marco-antonio-diaz-213207-682484.jpg",
    "pexels-mikebirdy-1054211.jpg",
    "pexels-mikebirdy-112460.jpg",
    "pexels-mikebirdy-170811.jpg",
    "pexels-mikebirdy-244206.jpg",
    "pexels-mikebirdy-446389.jpg",
    "pexels-mikebirdy-452099.jpg",
    "pexels-mikebirdy-977003.jpg",
    "pexels-pashal-337909.jpg",
    "pexels-peely-712618.jpg",
    "pexels-pixabay-164654.jpg",
    "pexels-pixabay-210019.jpg",
    "pexels-pixabay-39855.jpg",
    "pexels-quintingellar-313779.jpg",
    "pexels-riel-png-250154.jpg",
    "pexels-sevenstormphotography-575386.jpg",
    "pexels-stephanlouis-5381501.jpg",
    "pexels-vladalex94-1402787.jpg",
    "pexels-yuraforrat-8642186.jpg",
    "pexels-zsolt-joo-483255-2882234.jpg",
    "stefan-rodriguez-2AovfzYV3rc-unsplash.jpg",
    "steven-binotto-o6yH_yAc2Ws-unsplash.jpg"
  ]

  /** `localVehicleImagePaths`: one path under `/images/` per file. */
  function LocalVehicleImagePaths(): (paths: seq<string>)
    ensures |paths| == |LocalVehicleImageFilenames| == 46
    ensures forall k :: 0 <= k < |paths| ==> paths[k] == "/images/" + LocalVehicleImageFilenames[k]
  {
    seq(|LocalVehicleImageFilenames|, k requires 0 <= k < |LocalVehicleImageFilenames| =>
      "/images/" + LocalVehicleImageFilenames[k])
  }

  /** The picture chosen from `pool` for an id: the fallback when the pool
    * is empty, else the entry at the hash modulo the pool size. */
  function ImageFor(pool: seq<string>, vehicleId: string, fallbackImage: string): (path: string)
    ensures |pool| == 0 ==> path == fallbackImage
    ensures |pool| > 0 ==> path in pool
  {
    if |pool| == 0 then fallbackImage else pool[HashOf(Utf16(vehicleId)) % |pool|]
  }

  /** The body of `getLocalVehicleImage` over a given pool. The index is
    * always inside the pool, so the `?? fallbackImage` of the last step
    * never applies. */
  method PickImage(pool: seq<string>, vehicleId: string, fallbackImage: string) returns (path: string)
    ensures path == ImageFor(pool, vehicleId, fallbackImage)
  {
    if |pool| == 0 {
      return fallbackImage;
    }
    var units := Utf16(vehicleId);
    var hash: nat := 0;
    var index := 0;
    while index < |units|
      invariant 0 <= index <= |units|
      invariant hash == HashOf(units[..index])
      invariant hash < TwoTo32
    {
      assert units[..index + 1][..index] == units[..index];
      hash := (hash * 31 + units[index]) % TwoTo32;
      index := index + 1;
    }
    assert units[..index] == units;
    var imageIndex := hash % |pool|;
    path := pool[imageIndex];
  }

  /** `getLocalVehicleImage`: a path of the local pool, chosen by the id. */
  method GetLocalVehicleImage(vehicleId: string, fallbackImage: string) returns (path: string)
    ensures path == ImageFor(LocalVehicleImagePaths(), vehicleId, fallbackImage)
    ensures path in LocalVehicleImagePaths()
  {
    path := PickImage(LocalVehicleImagePaths(), vehicleId, fallbackImage);
  }

  /** The empty id hashes to 0 and gets the picture of the first file. */
  lemma EmptyIdFirstImage(fallbackImage: string)
    ensures ImageFor(LocalVehicleImagePaths(), "", fallbackImage) == "/images/" + LocalVehicleImageFilenames[0]
  {
    assert Utf16("") == [];
    assert HashOf([]) % |LocalVehicleImagePaths()| == 0;
  }

  /** Ids with the same code units get the same picture, whatever the
    * pool. */
  lemma SameUnitsSameImage(pool: seq<string>, a: string, b: string, fallbackImage: string)
    requires Utf16(a) == Utf16(b)
    ensures ImageFor(pool, a, fallbackImage) == ImageFor(pool, b, fallbackImage)
  {
  }
}
