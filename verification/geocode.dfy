/**
 * The geocoding fallback resolver of `app/api/geocode/route.ts`: a district
 * name such as "대전광역시-서구-가수원동" is turned into an ordered list of
 * query strings, and each is sent to the geocoding provider in turn until
 * one yields a location.
 *
 * The romanization tables are parameters (`Tables`), the provider's HTTP
 * exchange is an injected function from (query, API key) to a `Reply`, and
 * the environment's API key is an `Option<string>`.
 */
module Geocode {
  import opened Wrappers
  import opened Strings

  /** Korean province and county names mapped to their romanized forms. */
  datatype Tables = Tables(provinces: map<string, string>, counties: map<string, string>)

  /** `table[key]` read as JavaScript does in a condition: a missing key and
      an empty romanization both count as no entry. */
  function Romanized(table: map<string, string>, key: string): Option<string>
  {
    if key in table && table[key] != [] then Some(table[key]) else None
  }

  /** `district.split('-').filter(Boolean)`. */
  function Segments(district: string): (parts: seq<string>)
    ensures forall i :: 0 <= i < |parts| ==> parts[i] != [] && '-' !in parts[i]
  {
    var pieces := Split(district, '-');
    var parts := NonEmpty(pieces);
    assert forall i :: 0 <= i < |parts| ==> '-' !in parts[i] by {
      forall i | 0 <= i < |parts| ensures '-' !in parts[i] {
        assert parts[i] in pieces;
      }
    }
    parts
  }

  /** A repeated separator counts once: "a--b" has the segments of "a-b". */
  lemma SegmentsIgnoreRepeatedSeparator(a: string, b: string)
    ensures Segments(a + "--" + b) == Segments(a + "-" + b)
  {
    assert a + "--" + b == a + ['-'] + ("-" + b);
    assert "-" + b == [] + ['-'] + b;
    SplitConcat(a, '-', "-" + b);
    SplitConcat([], '-', b);
    SplitConcat(a, '-', b);
    var x, y := Split(a, '-'), Split(b, '-');
    assert Split([], '-') == [[]];
    NonEmptyConcat(x, [[]] + y);
    NonEmptyConcat([[]], y);
    NonEmptyConcat(x, y);
    assert NonEmpty([[]]) == [];
  }

  function FullAddress(parts: seq<string>): string
  {
    Join(Reverse(parts) + ["KR"], ", ")
  }

  /** The candidate queries for the segments `parts`, pushed in the order of
      route.ts: full address, address without the neighbourhood, province,
      romanized province twice, romanized county with and without the
      province, county with the country name. Nothing is deduplicated. */
  function Candidates(parts: seq<string>, t: Tables): (r: seq<string>)
    ensures 1 <= |r| <= 8
    ensures |r| >= 1 + (if |parts| >= 1 then 1 else 0) + (if |parts| >= 2 then 2 else 0)
    ensures r[0] == FullAddress(parts)
    ensures |parts| == 0 ==> r == ["KR"]
    ensures |parts| >= 1 ==> r[if |parts| >= 2 then 2 else 1] == parts[0] + ", KR"
    ensures |parts| >= 2 ==> r[1] == FullAddress(parts[..|parts| - 1])
    ensures |parts| >= 2 ==> r[|r| - 1] == parts[1] + ", South Korea"
  {
    var province := ProvinceRomanization(parts, t);
    var county := CountyRomanization(parts, t);
    [FullAddress(parts)] + WithoutNeighborhoodStep(parts) + ProvinceStep(parts)
      + RomanProvinceStep(province) + RomanCountyStep(county, province) + CountyStep(parts)
  }

  function ProvinceRomanization(parts: seq<string>, t: Tables): Option<string>
  {
    if |parts| >= 1 then Romanized(t.provinces, parts[0]) else None
  }

  function CountyRomanization(parts: seq<string>, t: Tables): Option<string>
  {
    if |parts| >= 2 then Romanized(t.counties, parts[1]) else None
  }

  // One function per `if (...) queries.push(...)` of route.ts.

  function WithoutNeighborhoodStep(parts: seq<string>): seq<string>
  {
    if |parts| >= 2 then [FullAddress(parts[..|parts| - 1])] else []
  }

  function ProvinceStep(parts: seq<string>): seq<string>
  {
    if |parts| >= 1 then [parts[0] + ", KR"] else []
  }

  function RomanProvinceStep(province: Option<string>): seq<string>
  {
    if province.Some? then [province.value + ", KR", province.value + ", South Korea"] else []
  }

  function RomanCountyStep(county: Option<string>, province: Option<string>): seq<string>
  {
    if county.Some? then
      (if province.Some? then [county.value + ", " + province.value + ", South Korea"] else [])
      + [county.value + ", South Korea"]
    else []
  }

  function CountyStep(parts: seq<string>): seq<string>
  {
    if |parts| >= 2 then [parts[1] + ", South Korea"] else []
  }

  /** `generateQueryVariations(district)`. */
  function QueryVariations(district: string, t: Tables): seq<string>
  {
    Candidates(Segments(district), t)
  }

  /** Joining non-empty, dash-free segments with dashes and splitting the
      result again gives the segments back. */
  lemma SegmentsOfJoin(parts: seq<string>)
    requires forall i :: 0 <= i < |parts| ==> parts[i] != [] && '-' !in parts[i]
    ensures Segments(Join(parts, "-")) == parts
  {
    if |parts| == 0 {
      assert Split([], '-') == [[]];
      assert NonEmpty([[]]) == NonEmpty([]);
    } else {
      SplitOfJoin(parts);
      NonEmptyKeepsNonEmpty(parts);
    }
  }

  lemma {:induction false} SplitOfJoin(parts: seq<string>)
    requires |parts| > 0
    requires forall i :: 0 <= i < |parts| ==> '-' !in parts[i]
    ensures Split(Join(parts, "-"), '-') == parts
    decreases |parts|
  {
    SplitHeadIsPrefix(parts[0], '-');
    if |parts| > 1 {
      var rest := Join(parts[1..], "-");
      SplitOfJoin(parts[1..]);
      assert Join(parts, "-") == parts[0] + ['-'] + rest;
      SplitConcat(parts[0], '-', rest);
      assert parts == [parts[0]] + parts[1..];
    }
  }

  /** A district without empty pieces (no leading, trailing or doubled dash)
      is its segments joined by dashes. */
  lemma JoinOfSegments(district: string)
    requires forall p :: p in Split(district, '-') ==> p != []
    ensures Join(Segments(district), "-") == district
  {
    NonEmptyKeepsNonEmpty(Split(district, '-'));
    JoinSplit(district, '-');
  }

  /** Collapsing a doubled separator does not change the candidates. */
  lemma QueryVariationsIgnoreRepeatedSeparator(a: string, b: string, t: Tables)
    ensures QueryVariations(a + "--" + b, t) == QueryVariations(a + "-" + b, t)
  {
    SegmentsIgnoreRepeatedSeparator(a, b);
  }

  /** A district made only of separators (or empty) still yields one
      candidate, the bare country code. */
  lemma SeparatorsOnlyYieldCountryCode(district: string, t: Tables)
    requires forall i :: 0 <= i < |district| ==> district[i] == '-'
    ensures QueryVariations(district, t) == ["KR"]
  {
    SeparatorsOnlyHaveNoSegments(district);
  }

  lemma {:induction false} SeparatorsOnlyHaveNoSegments(district: string)
    requires forall i :: 0 <= i < |district| ==> district[i] == '-'
    ensures Segments(district) == []
    decreases |district|
  {
    if |district| > 0 {
      var rest := district[1..];
      SeparatorsOnlyHaveNoSegments(rest);
      assert district == [] + ['-'] + rest;
      SplitConcat([], '-', rest);
      NonEmptyConcat([[]], Split(rest, '-'));
    }
  }

  /** With one segment, the full address and the province query coincide. */
  lemma OneSegmentRepeatsProvince(parts: seq<string>, t: Tables)
    requires |parts| == 1
    ensures Candidates(parts, t)[0] == Candidates(parts, t)[1] == parts[0] + ", KR"
  {
    assert Reverse(parts) + ["KR"] == [parts[0], "KR"];
    assert Join([parts[0], "KR"], ", ") == parts[0] + ", " + Join(["KR"], ", ");
  }

  /** With two segments, the address without its last segment and the
      province query coincide: the provider is asked the same thing twice. */
  lemma TwoSegmentsRepeatProvince(parts: seq<string>, t: Tables)
    requires |parts| == 2
    ensures Candidates(parts, t)[1] == Candidates(parts, t)[2] == parts[0] + ", KR"
  {
    assert Reverse(parts[..1]) + ["KR"] == [parts[0], "KR"];
    assert Join([parts[0], "KR"], ", ") == parts[0] + ", " + Join(["KR"], ", ");
  }

  // ---------------------------------------------------------------------
  // The candidate list as a fixed sequence of optional slots.

  /** The eight kinds of candidate, in the order they are tried. */
  datatype Kind =
    | Address
    | AddressWithoutNeighborhood
    | Province
    | RomanProvince
    | RomanProvinceCountry
    | RomanCountyProvince
    | RomanCounty
    | CountyCountry

  const KindOrder: seq<Kind> := [Address, AddressWithoutNeighborhood, Province, RomanProvince,
                                 RomanProvinceCountry, RomanCountyProvince, RomanCounty, CountyCountry]

  /** The candidate of kind `k`, present exactly when the condition for that
      kind holds. */
  function Slot(k: Kind, parts: seq<string>, t: Tables): Option<string>
  {
    var n := |parts|;
    var province := ProvinceRomanization(parts, t);
    var county := CountyRomanization(parts, t);
    match k
    case Address => Some(FullAddress(parts))
    case AddressWithoutNeighborhood => if n >= 2 then Some(FullAddress(parts[..n - 1])) else None
    case Province => if n >= 1 then Some(parts[0] + ", KR") else None
    case RomanProvince => if province.Some? then Some(province.value + ", KR") else None
    case RomanProvinceCountry => if province.Some? then Some(province.value + ", South Korea") else None
    case RomanCountyProvince =>
      if county.Some? && province.Some? then Some(county.value + ", " + province.value + ", South Korea") else None
    case RomanCounty => if county.Some? then Some(county.value + ", South Korea") else None
    case CountyCountry => if n >= 2 then Some(parts[1] + ", South Korea") else None
  }

  /** A slot as a list of zero or one candidate. */
  function Opt(o: Option<string>): seq<string>
  {
    if o.Some? then [o.value] else []
  }

  /** The present values, in order. */
  function Present(slots: seq<Option<string>>): (r: seq<string>)
    ensures |r| <= |slots|
  {
    if |slots| == 0 then [] else Opt(slots[0]) + Present(slots[1..])
  }

  function SlotsOf(kinds: seq<Kind>, parts: seq<string>, t: Tables): (r: seq<Option<string>>)
    ensures |r| == |kinds|
    ensures forall i :: 0 <= i < |kinds| ==> r[i] == Slot(kinds[i], parts, t)
  {
    if |kinds| == 0 then [] else [Slot(kinds[0], parts, t)] + SlotsOf(kinds[1..], parts, t)
  }

  lemma {:induction false} PresentSnoc(a: seq<Option<string>>, x: Option<string>)
    ensures Present(a + [x]) == Present(a) + Opt(x)
    decreases |a|
  {
    if |a| == 0 {
      assert a + [x] == [x];
      assert [x][1..] == [];
    } else {
      assert (a + [x])[0] == a[0];
      assert (a + [x])[1..] == a[1..] + [x];
      PresentSnoc(a[1..], x);
    }
  }

  /** The present slots among the first `k + 1`. */
  lemma PresentPrefix(s: seq<Option<string>>, k: nat)
    requires k < |s|
    ensures Present(s[..k + 1]) == Present(s[..k]) + Opt(s[k])
  {
    assert s[..k + 1] == s[..k] + [s[k]];
    PresentSnoc(s[..k], s[k]);
  }

  /** Eight slots, unrolled. */
  lemma PresentOfEight(s: seq<Option<string>>)
    requires |s| == 8
    ensures Present(s) == Opt(s[0]) + Opt(s[1]) + Opt(s[2]) + Opt(s[3]) + Opt(s[4]) + Opt(s[5]) + Opt(s[6]) + Opt(s[7])
  {
    assert s[..0] == [];
    assert s[..8] == s;
    var o0, o1, o2, o3 := Opt(s[0]), Opt(s[1]), Opt(s[2]), Opt(s[3]);
    var o4, o5, o6, o7 := Opt(s[4]), Opt(s[5]), Opt(s[6]), Opt(s[7]);
    PresentPrefix(s, 0);
    assert Present(s[..1]) == o0;
    PresentPrefix(s, 1);
    assert Present(s[..2]) == o0 + o1;
    PresentPrefix(s, 2);
    assert Present(s[..3]) == o0 + o1 + o2;
    PresentPrefix(s, 3);
    assert Present(s[..4]) == o0 + o1 + o2 + o3;
    PresentPrefix(s, 4);
    assert Present(s[..5]) == o0 + o1 + o2 + o3 + o4;
    PresentPrefix(s, 5);
    assert Present(s[..6]) == o0 + o1 + o2 + o3 + o4 + o5;
    PresentPrefix(s, 6);
    assert Present(s[..7]) == o0 + o1 + o2 + o3 + o4 + o5 + o6;
    PresentPrefix(s, 7);
  }

  /** Each push of `Candidates` is the slot (or the two slots) it fills. */
  lemma StepsAreSlots(parts: seq<string>, t: Tables)
    ensures [FullAddress(parts)] == Opt(Slot(Address, parts, t))
    ensures WithoutNeighborhoodStep(parts) == Opt(Slot(AddressWithoutNeighborhood, parts, t))
    ensures ProvinceStep(parts) == Opt(Slot(Province, parts, t))
    ensures RomanProvinceStep(ProvinceRomanization(parts, t))
         == Opt(Slot(RomanProvince, parts, t)) + Opt(Slot(RomanProvinceCountry, parts, t))
    ensures RomanCountyStep(CountyRomanization(parts, t), ProvinceRomanization(parts, t))
         == Opt(Slot(RomanCountyProvince, parts, t)) + Opt(Slot(RomanCounty, parts, t))
    ensures CountyStep(parts) == Opt(Slot(CountyCountry, parts, t))
  {
  }

  lemma Regroup<T>(a: seq<T>, b: seq<T>, c: seq<T>, d: seq<T>, e: seq<T>, f: seq<T>, g: seq<T>, h: seq<T>)
    ensures a + b + c + (d + e) + (f + g) + h == a + b + c + d + e + f + g + h
  {
    var abc := a + b + c;
    assert abc + (d + e) == abc + d + e;
    var upToE := abc + d + e;
    assert upToE + (f + g) == upToE + f + g;
  }

  /** The pushes of `Candidates`, one slot at a time. */
  lemma CandidatesBySlot(parts: seq<string>, t: Tables)
    ensures Candidates(parts, t)
         == Opt(Slot(Address, parts, t)) + Opt(Slot(AddressWithoutNeighborhood, parts, t))
          + Opt(Slot(Province, parts, t)) + Opt(Slot(RomanProvince, parts, t))
          + Opt(Slot(RomanProvinceCountry, parts, t)) + Opt(Slot(RomanCountyProvince, parts, t))
          + Opt(Slot(RomanCounty, parts, t)) + Opt(Slot(CountyCountry, parts, t))
  {
    StepsAreSlots(parts, t);
    Regroup(Opt(Slot(Address, parts, t)), Opt(Slot(AddressWithoutNeighborhood, parts, t)),
            Opt(Slot(Province, parts, t)), Opt(Slot(RomanProvince, parts, t)),
            Opt(Slot(RomanProvinceCountry, parts, t)), Opt(Slot(RomanCountyProvince, parts, t)),
            Opt(Slot(RomanCounty, parts, t)), Opt(Slot(CountyCountry, parts, t)));
  }

  /** The candidates are exactly the present slots, taken in `KindOrder`:
      each kind appears at its fixed place and only under its condition. */
  lemma CandidatesAreOrderedSlots(parts: seq<string>, t: Tables)
    ensures Candidates(parts, t) == Present(SlotsOf(KindOrder, parts, t))
  {
    var s := SlotsOf(KindOrder, parts, t);
    PresentOfEight(s);
    CandidatesBySlot(parts, t);
    assert s[0] == Slot(Address, parts, t) && s[1] == Slot(AddressWithoutNeighborhood, parts, t);
    assert s[2] == Slot(Province, parts, t) && s[3] == Slot(RomanProvince, parts, t);
    assert s[4] == Slot(RomanProvinceCountry, parts, t) && s[5] == Slot(RomanCountyProvince, parts, t);
    assert s[6] == Slot(RomanCounty, parts, t) && s[7] == Slot(CountyCountry, parts, t);
  }

  // ---------------------------------------------------------------------
  // The provider exchange and the candidate loop.

  /** One element of the provider's JSON array. */
  datatype GeoHit = GeoHit(name: string, lat: real, lon: real, country: string,
                           state: Option<string>, localNames: map<string, string>)

  /** The parsed response body. */
  datatype Body = Unparsable | NotAnArray | Items(items: seq<GeoHit>)

  /** What one `fetch` produced: an exception, or a status and a body. */
  datatype Reply = Threw | Answered(ok: bool, body: Body)

  /** The resolved location returned to the client. */
  datatype GeoLocation = GeoLocation(lat: real, lon: real, name: string)

  /** `tryGeocode`: every failure (exception, non-ok status, unparsable or
      non-array body, empty array) becomes "no result"; otherwise the first
      array element. */
  function TryGeocode(reply: Reply): (r: Option<GeoHit>)
    ensures r.Some? <==> reply.Answered? && reply.ok && reply.body.Items? && |reply.body.items| > 0
    ensures r.Some? ==> r.value == reply.body.items[0]
  {
    match reply
    case Threw => None
    case Answered(ok, body) =>
      if !ok then None
      else match body
        case Items(items) => if |items| == 0 then None else Some(items[0])
        case _ => None
  }

  function ToLocation(hit: GeoHit): GeoLocation
  {
    GeoLocation(hit.lat, hit.lon, hit.name)
  }

  /** No candidate before index `k` yields a result. */
  ghost predicate MissesBefore(cands: seq<string>, k: int, key: string, fetch: (string, string) -> Reply)
    requires 0 <= k <= |cands|
  {
    forall i :: 0 <= i < k ==> TryGeocode(fetch(cands[i], key)).None?
  }

  /** What the candidate loop promises: the queries sent are a prefix of the
      candidates, in order; every query but a successful last one missed; a
      found location is the last query's first result, copied unchanged;
      and when nothing was found every candidate was tried once. */
  ghost predicate ResolvedAs(cands: seq<string>, key: string, fetch: (string, string) -> Reply,
                             found: Option<GeoLocation>, sent: seq<string>)
  {
    && sent <= cands
    && (found.None? ==> sent == cands && MissesBefore(cands, |cands|, key, fetch))
    && (found.Some? ==>
          && |sent| >= 1
          && MissesBefore(cands, |sent| - 1, key, fetch)
          && TryGeocode(fetch(cands[|sent| - 1], key)).Some?
          && found.value == ToLocation(TryGeocode(fetch(cands[|sent| - 1], key)).value))
  }

  /** The `for ... of queryVariations` loop of `GET`. `sent` lists the
      queries handed to the provider, one per request. */
  method ResolveCandidates(cands: seq<string>, key: string, fetch: (string, string) -> Reply)
    returns (found: Option<GeoLocation>, sent: seq<string>)
    ensures ResolvedAs(cands, key, fetch, found, sent)
  {
    sent := [];
    var i := 0;
    while i < |cands|
      invariant 0 <= i <= |cands|
      invariant sent == cands[..i]
      invariant MissesBefore(cands, i, key, fetch)
    {
      sent := sent + [cands[i]];
      var hit := TryGeocode(fetch(cands[i], key));
      if hit.Some? {
        assert sent == cands[..i + 1];
        return Some(ToLocation(hit.value)), sent;
      }
      i := i + 1;
    }
    assert cands[..i] == cands;
    found := None;
  }

  /** The loop's outcome is determined by the candidates and the provider:
      resolving the same input twice against the same provider sends the
      same queries and returns the same result. */
  lemma ResolutionIsDeterministic(cands: seq<string>, key: string, fetch: (string, string) -> Reply,
                                  f1: Option<GeoLocation>, s1: seq<string>,
                                  f2: Option<GeoLocation>, s2: seq<string>)
    requires ResolvedAs(cands, key, fetch, f1, s1)
    requires ResolvedAs(cands, key, fetch, f2, s2)
    ensures f1 == f2 && s1 == s2
  {
    if f1.Some? && f2.Some? {
      assert |s1| == |s2|;
      assert s1 == cands[..|s1|] && s2 == cands[..|s2|];
    }
  }

  /** When candidate `k` is the first to yield a result, exactly `k + 1`
      requests are made and that result is returned. */
  lemma FirstHitWins(cands: seq<string>, key: string, fetch: (string, string) -> Reply,
                     k: nat, found: Option<GeoLocation>, sent: seq<string>)
    requires k < |cands| && MissesBefore(cands, k, key, fetch)
    requires TryGeocode(fetch(cands[k], key)).Some?
    requires ResolvedAs(cands, key, fetch, found, sent)
    ensures |sent| == k + 1 && sent == cands[..k + 1]
    ensures found == Some(ToLocation(TryGeocode(fetch(cands[k], key)).value))
  {
  }

  // ---------------------------------------------------------------------
  // The GET handler.

  datatype GeoError = MissingQuery | InternalError | NotFound

  datatype GeoResponse = Located(location: GeoLocation) | Failed(error: GeoError)

  /** The HTTP status each response is sent with. */
  function StatusOf(r: GeoResponse): int
  {
    match r
    case Located(_) => 200
    case Failed(MissingQuery) => 400
    case Failed(InternalError) => 500
    case Failed(NotFound) => 404
  }

  /** `GET /api/geocode?q=...`. `query` is the `q` parameter and `apiKey`
      the configured key (`None` when absent); `sent` lists the provider
      requests made. */
  method HandleGeocode(query: Option<string>, apiKey: Option<string>, t: Tables,
                       fetch: (string, string) -> Reply)
    returns (resp: GeoResponse, sent: seq<string>)
    ensures (query.None? || query.value == []) ==> resp == Failed(MissingQuery) && sent == []
    ensures (query.Some? && query.value != [] && (apiKey.None? || apiKey.value == []))
            ==> resp == Failed(InternalError) && sent == []
    ensures resp.Failed? && resp.error == InternalError ==> query.Some? && query.value != []
    ensures (query.Some? && query.value != [] && apiKey.Some? && apiKey.value != []) ==>
              && ResolvedAs(QueryVariations(query.value, t), apiKey.value, fetch,
                            if resp.Located? then Some(resp.location) else None, sent)
              && (resp.Located? || resp == Failed(NotFound))
    ensures StatusOf(resp) == 200 <==> resp.Located?
  {
    if query.None? || query.value == [] {
      return Failed(MissingQuery), [];
    }
    if apiKey.None? || apiKey.value == [] {
      return Failed(InternalError), [];
    }
    var cands := QueryVariations(query.value, t);
    var found;
    found, sent := ResolveCandidates(cands, apiKey.value, fetch);
    resp := if found.Some? then Located(found.value) else Failed(NotFound);
  }
}
