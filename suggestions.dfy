/**
 * `GET /api/species-suggestions` (server.js): up to five names from the
 * loaded species list whose lower-cased form starts with the lower-cased
 * query, memoised for ever in `speciesCache` under the lower-cased query.
 */
module Suggestions {
  import opened Wrappers
  import opened Ascii

  const MaxSuggestions: nat := 5
  const MinQueryLength: nat := 2

  /** `name.toLowerCase().startsWith(lowerQuery)` */
  predicate NameMatches(name: string, lowerQuery: string) {
    StartsWith(Lower(name), lowerQuery)
  }

  /** `allSpecies.filter(...)`: the matching names, in list order. */
  function PrefixMatches(names: seq<string>, lowerQuery: string): (r: seq<string>)
    ensures |r| <= |names|
    ensures forall k :: 0 <= k < |r| ==> r[k] in names && NameMatches(r[k], lowerQuery)
  {
    if names == [] then []
    else
      var head := if NameMatches(names[0], lowerQuery) then [names[0]] else [];
      head + PrefixMatches(names[1..], lowerQuery)
  }

  /** `.slice(0, 5)` of the matches: the answer computed on a cache miss. */
  function Suggestions(names: seq<string>, lowerQuery: string): (r: seq<string>)
    ensures |r| <= MaxSuggestions
  {
    var matches := PrefixMatches(names, lowerQuery);
    if |matches| <= MaxSuggestions then matches else matches[..MaxSuggestions]
  }

  /** The filter keeps exactly the matching names. */
  lemma {:induction false} PrefixMatchesMembership(names: seq<string>, lowerQuery: string, x: string)
    ensures x in PrefixMatches(names, lowerQuery) <==> x in names && NameMatches(x, lowerQuery)
  {
    if names != [] {
      PrefixMatchesMembership(names[1..], lowerQuery, x);
      assert names == [names[0]] + names[1..];
    }
  }

  /** The filter keeps list order: filtering a concatenation concatenates the filtered parts. */
  lemma {:induction false} PrefixMatchesConcat(a: seq<string>, b: seq<string>, lowerQuery: string)
    ensures PrefixMatches(a + b, lowerQuery) == PrefixMatches(a, lowerQuery) + PrefixMatches(b, lowerQuery)
  {
    if a != [] {
      assert (a + b)[1..] == a[1..] + b;
      PrefixMatchesConcat(a[1..], b, lowerQuery);
    } else {
      assert a + b == b;
    }
  }

  /** The number of matching names strictly before position `i`. */
  function MatchesBefore(names: seq<string>, i: nat, lowerQuery: string): nat
    requires i <= |names|
  {
    |PrefixMatches(names[..i], lowerQuery)|
  }

  /**
   * Every matching name with fewer than five matching names before it is
   * returned, at the position given by how many matching names precede it.
   */
  lemma SuggestionRank(names: seq<string>, lowerQuery: string, i: nat)
    requires i < |names| && NameMatches(names[i], lowerQuery)
    requires MatchesBefore(names, i, lowerQuery) < MaxSuggestions
    ensures MatchesBefore(names, i, lowerQuery) < |Suggestions(names, lowerQuery)|
    ensures Suggestions(names, lowerQuery)[MatchesBefore(names, i, lowerQuery)] == names[i]
  {
    assert names == names[..i] + ([names[i]] + names[i + 1..]);
    PrefixMatchesConcat(names[..i], [names[i]] + names[i + 1..], lowerQuery);
    assert [names[i]] + names[i + 1..] == [names[i]] + names[i + 1..];
    assert ([names[i]] + names[i + 1..])[1..] == names[i + 1..];
  }

  /** Conversely, the k-th match is a name of the list with exactly k matches before it. */
  lemma {:induction false} MatchOrigin(names: seq<string>, lowerQuery: string, k: nat)
    requires k < |PrefixMatches(names, lowerQuery)|
    ensures exists i :: (0 <= i < |names| && names[i] == PrefixMatches(names, lowerQuery)[k]
                         && NameMatches(names[i], lowerQuery) && MatchesBefore(names, i, lowerQuery) == k)
  {
    var n := |names|;
    var init := names[..n - 1];
    assert names == init + [names[n - 1]];
    PrefixMatchesConcat(init, [names[n - 1]], lowerQuery);
    assert PrefixMatches([names[n - 1]], lowerQuery)
      == (if NameMatches(names[n - 1], lowerQuery) then [names[n - 1]] else []);
    if k < |PrefixMatches(init, lowerQuery)| {
      MatchOrigin(init, lowerQuery, k);
      var i :| 0 <= i < |init| && init[i] == PrefixMatches(init, lowerQuery)[k]
        && NameMatches(init[i], lowerQuery) && MatchesBefore(init, i, lowerQuery) == k;
      assert init[..i] == names[..i];
      assert names[i] == PrefixMatches(names, lowerQuery)[k];
    } else {
      assert names[..n - 1] == init;
      assert names[n - 1] == PrefixMatches(names, lowerQuery)[k];
    }
  }

  /**
   * The answer is the first min(5, k) matching names in list order, where k
   * is the number of matching names: position j holds the name with exactly
   * j matching names before it.
   */
  lemma SuggestionsAreFirstMatches(names: seq<string>, lowerQuery: string, j: nat)
    requires j < |Suggestions(names, lowerQuery)|
    ensures |Suggestions(names, lowerQuery)|
      == if |PrefixMatches(names, lowerQuery)| < MaxSuggestions
         then |PrefixMatches(names, lowerQuery)| else MaxSuggestions
    ensures exists i :: (0 <= i < |names| && names[i] == Suggestions(names, lowerQuery)[j]
                         && NameMatches(names[i], lowerQuery) && MatchesBefore(names, i, lowerQuery) == j)
  {
    MatchOrigin(names, lowerQuery, j);
  }

  /** Once five names match, names further down the list never displace them. */
  lemma LaterNamesDoNotDisplace(names: seq<string>, more: seq<string>, lowerQuery: string)
    requires |Suggestions(names, lowerQuery)| == MaxSuggestions
    ensures Suggestions(names + more, lowerQuery) == Suggestions(names, lowerQuery)
  {
    PrefixMatchesConcat(names, more, lowerQuery);
  }

  /**
   * One request as a transition of the cache: a missing or short query
   * answers `[]`; a cached lower-cased query answers its cached list (an
   * empty array is truthy in JavaScript, so an empty list is a hit too);
   * otherwise the fresh answer is stored and returned.
   */
  function SuggestStep(cache: map<string, seq<string>>, allSpecies: seq<string>, query: Option<string>)
    : (map<string, seq<string>>, seq<string>)
  {
    if query.None? || |query.value| < MinQueryLength then (cache, [])
    else
      var lowerQuery := Lower(query.value);
      if lowerQuery in cache then (cache, cache[lowerQuery])
      else
        var answer := Suggestions(allSpecies, lowerQuery);
        (cache[lowerQuery := answer], answer)
  }

  /**
   * After a long enough query the cache holds the answer under the lower-cased
   * query and every other entry is as before; a short query leaves it alone.
   * A hit answers the cached list and changes nothing; a miss answers the
   * first matches of the current list.
   */
  lemma SuggestStepRecords(cache: map<string, seq<string>>, allSpecies: seq<string>, query: Option<string>)
    ensures var (cache', answer) := SuggestStep(cache, allSpecies, query);
      && (query.None? || |query.value| < MinQueryLength ==> answer == [] && cache' == cache)
      && (query.Some? && |query.value| >= MinQueryLength ==>
            && Lower(query.value) in cache' && cache'[Lower(query.value)] == answer
            && cache'.Keys == cache.Keys + {Lower(query.value)}
            && (forall k :: k in cache && k != Lower(query.value) ==> cache'[k] == cache[k])
            && (Lower(query.value) in cache ==> cache' == cache && answer == cache[Lower(query.value)])
            && (Lower(query.value) !in cache ==> answer == Suggestions(allSpecies, Lower(query.value))))
  {
  }

  /** The cache after a sequence of requests, each paired with the species list of its moment. */
  function ReplayCache(cache: map<string, seq<string>>, requests: seq<(seq<string>, Option<string>)>)
    : map<string, seq<string>>
    decreases |requests|
  {
    if requests == [] then cache
    else ReplayCache(SuggestStep(cache, requests[0].0, requests[0].1).0, requests[1..])
  }

  /** No request removes or changes a cached entry. */
  lemma {:induction false} CacheEntriesPersist(cache: map<string, seq<string>>,
                                               requests: seq<(seq<string>, Option<string>)>, key: string)
    requires key in cache
    ensures key in ReplayCache(cache, requests) && ReplayCache(cache, requests)[key] == cache[key]
    decreases |requests|
  {
    if requests != [] {
      SuggestStepRecords(cache, requests[0].0, requests[0].1);
      CacheEntriesPersist(SuggestStep(cache, requests[0].0, requests[0].1).0, requests[1..], key);
    }
  }

  /**
   * A later query with the same lower-cased form gets the same answer and
   * leaves the cache alone, whatever requests came in between and whatever
   * the species list is by then.
   */
  lemma CachedAnswerRepeats(cache: map<string, seq<string>>, before: seq<string>,
                            between: seq<(seq<string>, Option<string>)>, after: seq<string>,
                            query: string, again: string)
    requires |query| >= MinQueryLength && Lower(again) == Lower(query)
    ensures var (cache', answer) := SuggestStep(cache, before, Some(query));
      var later := ReplayCache(cache', between);
      SuggestStep(later, after, Some(again)) == (later, answer)
  {
    SuggestStepRecords(cache, before, Some(query));
    CacheEntriesPersist(SuggestStep(cache, before, Some(query)).0, between, Lower(query));
    assert |again| == |Lower(again)| == |query|;
  }

  /** The cache agrees with the list: every entry is the answer the list gives now. */
  ghost predicate CacheAgrees(cache: map<string, seq<string>>, allSpecies: seq<string>) {
    forall k :: k in cache ==> cache[k] == Suggestions(allSpecies, k)
  }

  /** While the list does not change, the cache is invisible: answers are the uncached ones. */
  lemma CacheIsTransparent(cache: map<string, seq<string>>, allSpecies: seq<string>, query: Option<string>)
    requires CacheAgrees(cache, allSpecies)
    ensures var (cache', answer) := SuggestStep(cache, allSpecies, query);
      && CacheAgrees(cache', allSpecies)
      && answer == if query.None? || |query.value| < MinQueryLength then []
                   else Suggestions(allSpecies, Lower(query.value))
  {
  }

  /** A miss stored while the list was empty keeps answering `[]` after the list is loaded. */
  lemma StaleEmptyEntry()
    ensures var (cache', answer) := SuggestStep(map[], [], Some("Eg"));
      && answer == []
      && SuggestStep(cache', ["Egret"], Some("eg")).1 == []
      && SuggestStep(map[], ["Egret"], Some("eg")).1 == ["Egret"]
  {
    assert Lower("Eg") == "eg";
    assert Lower("Egret") == "egret";
    assert NameMatches("Egret", "eg");
  }

  /** The server's suggestion state: the loaded list and the memo map. */
  class SuggestionService {
    var allSpecies: seq<string>
    var speciesCache: map<string, seq<string>>

    constructor ()
      ensures allSpecies == [] && speciesCache == map[]
    {
      allSpecies, speciesCache := [], map[];
    }

    /** The assignment `allSpecies = ...` done by the preload step (its I/O is not modelled). */
    method ReplaceSpeciesList(names: seq<string>)
      modifies this`allSpecies
      ensures allSpecies == names
    {
      allSpecies := names;
    }

    /** The request handler. */
    method SpeciesSuggestions(query: Option<string>) returns (answer: seq<string>)
      modifies this`speciesCache
      ensures (speciesCache, answer) == SuggestStep(old(speciesCache), allSpecies, query)
    {
      if query.None? || |query.value| < MinQueryLength {
        return [];
      }
      var lowerQuery := Lower(query.value);
      if lowerQuery in speciesCache {
        return speciesCache[lowerQuery];
      }
      answer := PrefixMatches(allSpecies, lowerQuery);
      if |answer| > MaxSuggestions {
        answer := answer[..MaxSuggestions];
      }
      speciesCache := speciesCache[lowerQuery := answer];
    }
  }
}
