/** The player search's own filter: the service's name search also returns
    players that do not really match, and the client prunes them. */
module Matcher {
  import opened Ascii
  import opened Sequences
  import opened Players

  /** The query with every apostrophe removed ("De'Marcus" is stored as
      "DeMarcus"): no apostrophe is left, every other character stays, in
      order. */
  function StripApostrophes(s: string): (r: string)
    ensures '\'' !in r
    ensures SubsequenceOf(r, s)
    ensures forall c :: c != '\'' ==> multiset(r)[c] == multiset(s)[c]
  {
    if s == [] then []
    else
      var init, last := s[..|s| - 1], s[|s| - 1];
      var r' := StripApostrophes(init);
      assert s == init + [last];
      SubsequenceExtend(r', init, last);
      if last == '\'' then r' else r' + [last]
  }

  /** A query without apostrophes is left as it is; so stripping twice is
      stripping once. */
  lemma {:induction false} StripApostrophesKeepsClean(s: string)
    requires '\'' !in s
    ensures StripApostrophes(s) == s
    decreases |s|
  {
    if s != [] {
      var init := s[..|s| - 1];
      assert forall c :: c in init ==> c in s;
      StripApostrophesKeepsClean(init);
      assert init + [s[|s| - 1]] == s;
    }
  }

  predicate IsPrefix(needle: string, haystack: string) {
    |needle| <= |haystack| && haystack[..|needle|] == needle
  }

  /** Python's `needle in haystack` on strings, scanning start positions. */
  function Contains(haystack: string, needle: string): bool {
    IsPrefix(needle, haystack) || (haystack != [] && Contains(haystack[1..], needle))
  }

  /** `needle` occurs in `haystack` starting at position `i`. */
  predicate OccursAt(haystack: string, needle: string, i: int) {
    0 <= i <= |haystack| - |needle| && haystack[i..i + |needle|] == needle
  }

  /** `Contains` holds exactly when the needle occurs at some position. */
  lemma {:induction false} ContainsOccurs(haystack: string, needle: string)
    ensures Contains(haystack, needle) <==> exists i :: OccursAt(haystack, needle, i)
    decreases |haystack|
  {
    if IsPrefix(needle, haystack) {
      assert OccursAt(haystack, needle, 0);
    } else if haystack != [] {
      var tail := haystack[1..];
      ContainsOccurs(tail, needle);
      if exists i :: OccursAt(haystack, needle, i) {
        var i :| OccursAt(haystack, needle, i);
        assert i != 0;
        assert tail[i - 1..i - 1 + |needle|] == haystack[i..i + |needle|];
        assert OccursAt(tail, needle, i - 1);
      }
      if Contains(tail, needle) {
        var i :| OccursAt(tail, needle, i);
        assert haystack[i + 1..i + 1 + |needle|] == tail[i..i + |needle|];
        assert OccursAt(haystack, needle, i + 1);
      }
    }
  }

  /** The pruning test: the first name equals the query, or the query
      occurs in the last name, both ignoring case. */
  predicate Matches(p: Player, query: string) {
    Lower(p.firstName) == Lower(query) || Contains(Lower(p.lastName), Lower(query))
  }

  /** The candidates that pass the test, in the order the service returned
      them. */
  function Pruned(candidates: seq<Player>, query: string): seq<Player> {
    if candidates == [] then []
    else
      var init, last := candidates[..|candidates| - 1], candidates[|candidates| - 1];
      if Matches(last, query) then Pruned(init, query) + [last] else Pruned(init, query)
  }

  /** The pruned list keeps the candidates' order and holds exactly the
      matching ones, each as many times as the service returned it. */
  lemma {:induction false} PrunedFilters(candidates: seq<Player>, query: string)
    ensures SubsequenceOf(Pruned(candidates, query), candidates)
    ensures forall p :: p in Pruned(candidates, query) <==> p in candidates && Matches(p, query)
    ensures forall p ::
      multiset(Pruned(candidates, query))[p] == (if Matches(p, query) then multiset(candidates)[p] else 0)
    decreases |candidates|
  {
    if candidates != [] {
      var init, last := candidates[..|candidates| - 1], candidates[|candidates| - 1];
      PrunedFilters(init, query);
      assert candidates == init + [last];
      assert multiset(candidates) == multiset(init) + multiset{last};
      SubsequenceExtend(Pruned(init, query), init, last);
    }
  }

  /** `get_player` once the pages of search results are joined into
      `candidates`: strip the apostrophes from the name, keep the
      candidates that match it, in order. */
  method GetPlayer(name: string, candidates: seq<Player>) returns (playersFound: seq<Player>)
    ensures playersFound == Pruned(candidates, StripApostrophes(name))
    ensures forall p :: p in playersFound <==> p in candidates && Matches(p, StripApostrophes(name))
    ensures SubsequenceOf(playersFound, candidates)
    ensures forall p ::
      multiset(playersFound)[p] == (if Matches(p, StripApostrophes(name)) then multiset(candidates)[p] else 0)
  {
    var playerName := StripApostrophes(name);
    var prunedPlayersFound: seq<Player> := [];
    for i := 0 to |candidates|
      invariant prunedPlayersFound == Pruned(candidates[..i], playerName)
    {
      var entry := candidates[i];
      assert candidates[..i + 1][..i] == candidates[..i];
      if Lower(entry.firstName) == Lower(playerName) || Contains(Lower(entry.lastName), Lower(playerName)) {
        prunedPlayersFound := prunedPlayersFound + [entry];
      }
    }
    assert candidates[..|candidates|] == candidates;
    playersFound := prunedPlayersFound;
    PrunedFilters(candidates, playerName);
  }
}
