/**
 * `searchDistricts` of `entities/location/lib/search.ts`: the autocomplete
 * filter over the static district list. The query is trimmed and
 * lower-cased (ASCII only), every district whose lower-cased form contains
 * it is kept in input order, and the list is cut to `maxResults`.
 */
module DistrictSearch {
  import opened Strings

  /** `MAX_RESULTS`, the default for `maxResults`. */
  const MaxResults: int := 20

  /** `districts.filter(d => d.toLowerCase().includes(lowerQuery))`. */
  function Matching(districts: seq<string>, lowerQuery: string): (r: seq<string>)
    ensures |r| <= |districts|
    ensures forall i :: 0 <= i < |r| ==> r[i] in districts && Contains(ToLower(r[i]), lowerQuery)
    ensures forall d :: d in districts && Contains(ToLower(d), lowerQuery) ==> d in r
  {
    if |districts| == 0 then []
    else if Contains(ToLower(districts[0]), lowerQuery) then [districts[0]] + Matching(districts[1..], lowerQuery)
    else Matching(districts[1..], lowerQuery)
  }

  /** The filter keeps input order and multiplicity: it distributes over
      concatenation, and (`MatchingOne`) keeps a single district exactly
      when it matches. */
  lemma {:induction false} MatchingConcat(a: seq<string>, b: seq<string>, lowerQuery: string)
    ensures Matching(a + b, lowerQuery) == Matching(a, lowerQuery) + Matching(b, lowerQuery)
    decreases |a|
  {
    if |a| > 0 {
      assert (a + b)[0] == a[0];
      assert (a + b)[1..] == a[1..] + b;
      MatchingConcat(a[1..], b, lowerQuery);
    } else {
      assert a + b == b;
    }
  }

  lemma MatchingOne(d: string, lowerQuery: string)
    ensures Matching([d], lowerQuery) == if Contains(ToLower(d), lowerQuery) then [d] else []
  {
    assert [d][1..] == [];
  }

  /** JavaScript's `s.slice(0, end)`: a negative `end` counts from the back. */
  function SliceTo<T>(s: seq<T>, end: int): (r: seq<T>)
    ensures r <= s
    ensures 0 <= end ==> |r| == if end < |s| then end else |s|
    ensures end < 0 ==> |r| == if |s| + end > 0 then |s| + end else 0
  {
    if end >= 0 then (if end < |s| then s[..end] else s)
    else if |s| + end > 0 then s[..|s| + end]
    else []
  }

  /** The query as it is matched: trimmed, then lower-cased. */
  function Needle(query: string): string
  {
    ToLower(Trim(query))
  }

  /** `searchDistricts(query, districts, maxResults)`. */
  function SearchDistricts(query: string, districts: seq<string>, maxResults: int): (r: seq<string>)
    ensures AllWhitespace(query) ==> r == []
    ensures 0 <= maxResults ==> |r| <= maxResults
    ensures forall i :: 0 <= i < |r| ==> r[i] in districts && Contains(ToLower(r[i]), Needle(query))
    ensures r <= Matching(districts, Needle(query))
    ensures !AllWhitespace(query) && |Matching(districts, Needle(query))| <= maxResults
            ==> r == Matching(districts, Needle(query))
    ensures !AllWhitespace(query) && 0 <= maxResults <= |Matching(districts, Needle(query))|
            ==> |r| == maxResults
  {
    var trimmed := Trim(query);
    if trimmed == [] then []
    else
      var lowerQuery := ToLower(trimmed);
      SliceTo(Matching(districts, lowerQuery), maxResults)
  }

  /** The call with the default limit never returns more than 20 districts. */
  lemma DefaultLimit(query: string, districts: seq<string>)
    ensures |SearchDistricts(query, districts, MaxResults)| <= 20
  {
  }

  /** Leading and trailing whitespace in the query does not change the result. */
  lemma SearchIgnoresPadding(ws: string, query: string, ws': string, districts: seq<string>, maxResults: int)
    requires AllWhitespace(ws) && AllWhitespace(ws')
    ensures SearchDistricts(ws + query + ws', districts, maxResults) == SearchDistricts(query, districts, maxResults)
  {
    TrimIgnoresPadding(ws, query, ws');
  }

  /** Two queries that agree up to ASCII case give the same result. */
  lemma SearchIsCaseInsensitive(q1: string, q2: string, districts: seq<string>, maxResults: int)
    requires ToLower(q1) == ToLower(q2)
    ensures SearchDistricts(q1, districts, maxResults) == SearchDistricts(q2, districts, maxResults)
  {
    TrimLowerCommute(q1);
    TrimLowerCommute(q2);
    assert Needle(q1) == Needle(q2);
    assert |Trim(q1)| == |Needle(q1)| && |Trim(q2)| == |Needle(q2)|;
  }
}
