/** `scrape_creators` (app/main.rb:42-75): turn the creator cards of the
    listing page into creator records.

    The browser is replaced by the cards `find_elements` returns once the page
    has been scrolled. A card carries the results of its two lookups, already
    stripped: the display name and the `href` of the curtain link, with None
    where the lookup raised (a missing element, or a nil `href`). */
module Directory {
  import opened Sequences
  import opened Text

  /** Only this many cards are looked at, however many the page has. */
  const CardCap: nat := 50
  /** A link is kept only if it contains this path segment. */
  const WatchSegment: string := "/watch/"
  /** The name recorded when the display-name lookup raised. */
  const UnknownName: string := "Unknown"

  datatype Card = Card(name: Option<string>, url: Option<string>)

  datatype CreatorRecord = CreatorRecord(name: string, url: string)

  /** The identity of a record: its watch URL. */
  function UrlOf(r: CreatorRecord): string { r.url }

  /** Ruby's `cards.first(50)`. */
  function Examined(cards: seq<Card>): (first: seq<Card>)
    ensures |first| <= CardCap && |first| <= |cards|
    ensures first == cards[..|first|]
    ensures |cards| <= CardCap ==> first == cards
    ensures |cards| > CardCap ==> |first| == CardCap
  {
    if |cards| <= CardCap then cards else cards[..CardCap]
  }

  /** The record a card contributes: only a card whose link is present and
      contains `/watch/` gives one. */
  function Resolve(card: Card): (r: Option<CreatorRecord>)
    ensures r.Some? <==> card.url.Some? && Contains(card.url.value, WatchSegment)
    ensures r.Some? ==> card.url == Some(r.value.url) && r.value.name == card.name.GetOr(UnknownName)
  {
    if card.url.Some? && Contains(card.url.value, WatchSegment) then
      Some(CreatorRecord(card.name.GetOr(UnknownName), card.url.value))
    else None
  }

  /** The `records` array the loop builds: one record per card that
      resolves, in card order. */
  function Candidates(cards: seq<Card>): (records: seq<CreatorRecord>)
    ensures |records| <= |cards|
    ensures forall j :: 0 <= j < |records| ==>
      exists i :: 0 <= i < |cards| && Resolve(cards[i]) == Some(records[j])
    decreases |cards|
  {
    if cards == [] then []
    else
      var init := Candidates(cards[..|cards| - 1]);
      var last := cards[|cards| - 1];
      assert forall i :: 0 <= i < |cards| - 1 ==> cards[..|cards| - 1][i] == cards[i];
      match Resolve(last)
      case Some(r) => init + [r]
      case None => init
  }

  /** What `scrape_creators` returns for the given cards. */
  function SelectCreators(cards: seq<Card>): (unique: seq<CreatorRecord>)
    ensures |unique| <= CardCap && |unique| <= |cards|
    ensures DistinctKeys(unique, UrlOf)
  {
    DedupDistinct(Candidates(Examined(cards)), UrlOf);
    Dedup(Candidates(Examined(cards)), UrlOf)
  }

  /** The link of a card, the key that ties a record back to its card. */
  function LinkOf(card: Card): Option<string> { card.url }

  /** The loop over the first 50 cards, then the dedup by URL. */
  method ScrapeCreators(cards: seq<Card>) returns (unique: seq<CreatorRecord>)
    ensures unique == SelectCreators(cards)
    ensures |unique| <= CardCap && |unique| <= |cards|
    ensures DistinctKeys(unique, UrlOf)
    ensures forall j :: 0 <= j < |unique| ==> Contains(unique[j].url, WatchSegment)
  {
    var records: seq<CreatorRecord> := [];
    var first := Examined(cards);
    for idx := 0 to |first|
      invariant records == Candidates(first[..idx])
    {
      var card := first[idx];
      assert first[..idx + 1][..idx] == first[..idx];
      if card.url.Some? && Contains(card.url.value, WatchSegment) {
        records := records + [CreatorRecord(card.name.GetOr(UnknownName), card.url.value)];
      }
    }
    assert first[..|first|] == first;
    unique := Dedup(records, UrlOf);
    SelectedBound(cards);
    SelectedDistinct(cards);
    SelectedAreWatchRecords(cards);
  }

  /** At most min(50, number of cards) records come back. */
  lemma SelectedBound(cards: seq<Card>)
    ensures |SelectCreators(cards)| <= CardCap
    ensures |SelectCreators(cards)| <= |cards|
  {
  }

  /** Every record comes from one of the first 50 cards: its URL is that
      card's link, which contains `/watch/`, and its name is that card's
      display name, or "Unknown" where the name lookup raised. */
  lemma SelectedAreWatchRecords(cards: seq<Card>)
    ensures forall j :: 0 <= j < |SelectCreators(cards)| ==>
      Contains(SelectCreators(cards)[j].url, WatchSegment)
    ensures forall j :: 0 <= j < |SelectCreators(cards)| ==>
      exists i :: 0 <= i < |cards| && i < CardCap &&
        cards[i].url == Some(SelectCreators(cards)[j].url) &&
        SelectCreators(cards)[j].name == cards[i].name.GetOr(UnknownName)
  {
    var first := Examined(cards);
    var cand := Candidates(first);
    var r := SelectCreators(cards);
    DedupFirstOccurrence(cand, UrlOf);
    forall j | 0 <= j < |r|
      ensures Contains(r[j].url, WatchSegment)
      ensures exists i ::
        0 <= i < |cards| && i < CardCap &&
        cards[i].url == Some(r[j].url) && r[j].name == cards[i].name.GetOr(UnknownName)
    {
      var f := FirstIndex(cand, UrlOf, r[j].url);
      assert r[j] == cand[f];
      var i :| 0 <= i < |first| && Resolve(first[i]) == Some(cand[f]);
      assert first[i] == cards[i];
    }
  }

  /** A card among the first 50 whose link contains `/watch/` is never lost:
      a record with its URL comes back. */
  lemma SelectedComplete(cards: seq<Card>, i: nat)
    requires i < |cards| && i < CardCap
    requires cards[i].url.Some? && Contains(cards[i].url.value, WatchSegment)
    ensures HasKey(SelectCreators(cards), UrlOf, cards[i].url.value)
  {
    var first := Examined(cards);
    assert first[i] == cards[i];
    CandidatesComplete(first, i);
    var cand := Candidates(first);
    var k :| 0 <= k < |cand| && cand[k] == Resolve(cards[i]).value;
    assert UrlOf(cand[k]) == cards[i].url.value;
    DedupKeys(cand, UrlOf, cards[i].url.value);
  }

  lemma {:induction false} CandidatesComplete(cards: seq<Card>, i: nat)
    requires i < |cards| && Resolve(cards[i]).Some?
    ensures Resolve(cards[i]).value in Candidates(cards)
    decreases |cards|
  {
    var n := |cards| - 1;
    if i < n {
      assert cards[..n][i] == cards[i];
      CandidatesComplete(cards[..n], i);
    }
  }

  /** A card whose link contains `/watch/` puts its URL among the
      candidates. */
  lemma WatchLinkIsCandidate(cards: seq<Card>, i: nat)
    requires i < |cards| && cards[i].url.Some? && Contains(cards[i].url.value, WatchSegment)
    ensures HasKey(Candidates(cards), UrlOf, cards[i].url.value)
  {
    CandidatesComplete(cards, i);
    var cand := Candidates(cards);
    var k :| 0 <= k < |cand| && cand[k] == Resolve(cards[i]).value;
    assert UrlOf(cand[k]) == cards[i].url.value;
  }

  /** Reading one more card appends its record, if it has one. */
  lemma CandidatesSnoc(cards: seq<Card>)
    requires cards != []
    ensures Candidates(cards) == Candidates(cards[..|cards| - 1]) +
      (if Resolve(cards[|cards| - 1]).Some? then [Resolve(cards[|cards| - 1]).value] else [])
  {
  }

  /** A URL already among the candidates of the earlier cards keeps its
      first position when one more card is read. */
  lemma EarlierCandidate(cards: seq<Card>, u: string)
    requires cards != [] && HasKey(Candidates(cards[..|cards| - 1]), UrlOf, u)
    ensures HasKey(Candidates(cards), UrlOf, u)
    ensures FirstIndex(Candidates(cards), UrlOf, u) ==
      FirstIndex(Candidates(cards[..|cards| - 1]), UrlOf, u)
    ensures Candidates(cards)[FirstIndex(Candidates(cards), UrlOf, u)] ==
      Candidates(cards[..|cards| - 1])[FirstIndex(Candidates(cards[..|cards| - 1]), UrlOf, u)]
  {
    var ci := Candidates(cards[..|cards| - 1]);
    var cand := Candidates(cards);
    CandidatesSnoc(cards);
    assert cand[..|ci|] == ci;
    FirstIndexPrefix(cand, |ci|, UrlOf, u);
  }

  /** A URL first contributed by the last card sits after every earlier
      candidate, and that card is the first linking to it. */
  lemma NewCandidate(cards: seq<Card>, u: string)
    requires cards != [] && !HasKey(Candidates(cards[..|cards| - 1]), UrlOf, u)
    requires HasKey(Candidates(cards), UrlOf, u)
    ensures Resolve(cards[|cards| - 1]).Some? && Resolve(cards[|cards| - 1]).value.url == u
    ensures FirstIndex(Candidates(cards), UrlOf, u) == |Candidates(cards[..|cards| - 1])|
    ensures Candidates(cards)[|Candidates(cards[..|cards| - 1])|] == Resolve(cards[|cards| - 1]).value
    ensures HasKey(cards, LinkOf, Some(u)) && FirstIndex(cards, LinkOf, Some(u)) == |cards| - 1
  {
    var n := |cards| - 1;
    var init := cards[..n];
    var ci := Candidates(init);
    var cand := Candidates(cards);
    CandidatesSnoc(cards);
    if Resolve(cards[n]).None? {
      assert false;
    }
    var r := Resolve(cards[n]).value;
    assert cand == ci + [r];
    HasKeyAppend(ci, r, UrlOf, u);
    FirstIndexUnique(cand, UrlOf, u, |ci|);
    forall m | 0 <= m < n ensures LinkOf(cards[m]) != Some(u) {
      if LinkOf(cards[m]) == Some(u) {
        assert init[m] == cards[m];
        WatchLinkIsCandidate(init, m);
      }
    }
    FirstIndexUnique(cards, LinkOf, Some(u), n);
  }

  /** The first candidate with a given URL is the record of the first card
      linking to that URL. */
  lemma {:induction false} CandidateFirstCard(cards: seq<Card>, u: string)
    requires HasKey(Candidates(cards), UrlOf, u)
    ensures HasKey(cards, LinkOf, Some(u))
    ensures Resolve(cards[FirstIndex(cards, LinkOf, Some(u))]) ==
      Some(Candidates(cards)[FirstIndex(Candidates(cards), UrlOf, u)])
    decreases |cards|
  {
    var n := |cards| - 1;
    if HasKey(Candidates(cards[..n]), UrlOf, u) {
      CandidateFirstCard(cards[..n], u);
      EarlierCandidate(cards, u);
      FirstIndexPrefix(cards, n, LinkOf, Some(u));
    } else {
      NewCandidate(cards, u);
    }
  }

  /** Candidates with earlier first occurrences come from earlier cards. */
  lemma {:induction false} CandidateOrder(cards: seq<Card>, u: string, v: string)
    requires HasKey(Candidates(cards), UrlOf, u) && HasKey(Candidates(cards), UrlOf, v)
    requires FirstIndex(Candidates(cards), UrlOf, u) < FirstIndex(Candidates(cards), UrlOf, v)
    ensures HasKey(cards, LinkOf, Some(u)) && HasKey(cards, LinkOf, Some(v))
    ensures FirstIndex(cards, LinkOf, Some(u)) < FirstIndex(cards, LinkOf, Some(v))
    decreases |cards|
  {
    var n := |cards| - 1;
    var ci := Candidates(cards[..n]);
    if HasKey(ci, UrlOf, v) {
      CandidateFirstCard(cards[..n], v);
      EarlierCandidate(cards, v);
      FirstIndexPrefix(cards, n, LinkOf, Some(v));
      if HasKey(ci, UrlOf, u) {
        CandidateFirstCard(cards[..n], u);
        EarlierCandidate(cards, u);
        FirstIndexPrefix(cards, n, LinkOf, Some(u));
        CandidateOrder(cards[..n], u, v);
      } else {
        NewCandidate(cards, u);
        assert false;
      }
    } else {
      NewCandidate(cards, v);
      if HasKey(ci, UrlOf, u) {
        CandidateFirstCard(cards[..n], u);
        EarlierCandidate(cards, u);
        FirstIndexPrefix(cards, n, LinkOf, Some(u));
      } else {
        NewCandidate(cards, u);
        assert false;
      }
    }
  }

  /** The records follow the cards: record j is what the first of the
      first 50 cards linking to its URL resolves to (so that card's name
      wins over later cards with the same link), and records come in the
      order of those cards. */
  lemma SelectedFollowCards(cards: seq<Card>)
    ensures forall j :: 0 <= j < |SelectCreators(cards)| ==>
      HasKey(cards, LinkOf, Some(SelectCreators(cards)[j].url)) &&
      FirstIndex(cards, LinkOf, Some(SelectCreators(cards)[j].url)) < CardCap &&
      Resolve(cards[FirstIndex(cards, LinkOf, Some(SelectCreators(cards)[j].url))]) ==
        Some(SelectCreators(cards)[j])
    ensures forall i, j :: 0 <= i < j < |SelectCreators(cards)| ==>
      HasKey(cards, LinkOf, Some(SelectCreators(cards)[i].url)) &&
      HasKey(cards, LinkOf, Some(SelectCreators(cards)[j].url)) &&
      FirstIndex(cards, LinkOf, Some(SelectCreators(cards)[i].url)) <
      FirstIndex(cards, LinkOf, Some(SelectCreators(cards)[j].url))
  {
    var first := Examined(cards);
    var cand := Candidates(first);
    var r := SelectCreators(cards);
    DedupFirstOccurrence(cand, UrlOf);
    // The first card in the first 50 linking to a URL is the first overall.
    forall u | HasKey(first, LinkOf, Some(u))
      ensures HasKey(cards, LinkOf, Some(u))
      ensures FirstIndex(cards, LinkOf, Some(u)) == FirstIndex(first, LinkOf, Some(u)) < CardCap
      ensures cards[FirstIndex(cards, LinkOf, Some(u))] == first[FirstIndex(first, LinkOf, Some(u))]
    {
      var f := FirstIndex(first, LinkOf, Some(u));
      assert first[f] == cards[f];
      forall m | 0 <= m < f ensures LinkOf(cards[m]) != Some(u) {
        assert first[m] == cards[m];
      }
      FirstIndexUnique(cards, LinkOf, Some(u), f);
    }
    forall j | 0 <= j < |r|
      ensures HasKey(cards, LinkOf, Some(r[j].url)) &&
        FirstIndex(cards, LinkOf, Some(r[j].url)) < CardCap &&
        Resolve(cards[FirstIndex(cards, LinkOf, Some(r[j].url))]) == Some(r[j])
    {
      CandidateFirstCard(first, r[j].url);
    }
    forall i, j | 0 <= i < j < |r|
      ensures HasKey(cards, LinkOf, Some(r[i].url)) && HasKey(cards, LinkOf, Some(r[j].url)) &&
        FirstIndex(cards, LinkOf, Some(r[i].url)) < FirstIndex(cards, LinkOf, Some(r[j].url))
    {
      CandidateOrder(first, r[i].url, r[j].url);
    }
  }

  /** No two records share a URL. */
  lemma SelectedDistinct(cards: seq<Card>)
    ensures DistinctKeys(SelectCreators(cards), UrlOf)
  {
  }

  /** Each record is the first candidate with its URL, and the records keep
      the order of those first occurrences. */
  lemma SelectedFirstOccurrence(cards: seq<Card>)
    ensures var cand := Candidates(Examined(cards));
      forall j :: 0 <= j < |SelectCreators(cards)| ==>
        HasKey(cand, UrlOf, SelectCreators(cards)[j].url) &&
        SelectCreators(cards)[j] == cand[FirstIndex(cand, UrlOf, SelectCreators(cards)[j].url)]
    ensures var cand := Candidates(Examined(cards));
      forall i, j :: 0 <= i < j < |SelectCreators(cards)| ==>
        HasKey(cand, UrlOf, SelectCreators(cards)[i].url) &&
        HasKey(cand, UrlOf, SelectCreators(cards)[j].url) &&
        FirstIndex(cand, UrlOf, SelectCreators(cards)[i].url) <
        FirstIndex(cand, UrlOf, SelectCreators(cards)[j].url)
  {
    DedupFirstOccurrence(Candidates(Examined(cards)), UrlOf);
  }

  /** Deduplicating the result again changes nothing. */
  lemma SelectedIdempotent(cards: seq<Card>)
    ensures Dedup(SelectCreators(cards), UrlOf) == SelectCreators(cards)
  {
    SelectedDistinct(cards);
    DedupOfDistinct(SelectCreators(cards), UrlOf);
  }

  /** The cap is applied before the `/watch/` filter: cards after the 50th
      never matter, even when fewer than 50 of the first ones resolve. */
  lemma CapBeforeFilter(cards: seq<Card>, extra: seq<Card>)
    requires |cards| >= CardCap
    ensures SelectCreators(cards + extra) == SelectCreators(cards)
  {
    assert (cards + extra)[..CardCap] == cards[..CardCap];
  }

  /** 50 cards without a watch link followed by one with a watch link give
      no record at all. */
  lemma CapBeforeFilterExample()
    ensures SelectCreators(seq(CardCap, i => Card(Some("n"), None)) +
      [Card(Some("late"), Some("/watch/late"))]) == []
  {
    var dead := seq(CardCap, i => Card(Some("n"), None));
    CapBeforeFilter(dead, [Card(Some("late"), Some("/watch/late"))]);
    assert Examined(dead) == dead;
    NoWatchLinkNoCandidates(dead);
  }

  lemma {:induction false} NoWatchLinkNoCandidates(cards: seq<Card>)
    requires forall i :: 0 <= i < |cards| ==> cards[i].url.None?
    ensures Candidates(cards) == []
    decreases |cards|
  {
    if cards != [] {
      NoWatchLinkNoCandidates(cards[..|cards| - 1]);
    }
  }

  /** A profile link (`/profile/` followed by an id without a 'w') is
      dropped; a link with `/watch/` in it is kept, and when the name lookup
      raised the record is named "Unknown". */
  lemma WatchFilterExample(name: Option<string>, id: string, host: string, slug: string)
    requires 'w' !in id
    ensures Resolve(Card(name, Some("/profile/" + id))) == None
    ensures Resolve(Card(None, Some(host + WatchSegment + slug))) ==
      Some(CreatorRecord(UnknownName, host + WatchSegment + slug))
  {
    var profile := "/profile/" + id;
    assert 'w' !in profile by {
      assert 'w' !in "/profile/";
    }
    MissingCharNotContained(profile, WatchSegment, 1);
    var link := host + WatchSegment + slug;
    assert link[|host|..|host| + |WatchSegment|] == WatchSegment;
    assert OccursAt(link, WatchSegment, |host|);
  }

  /** Cards linking to A, A, B, C, B give the records for A, B, C. */
  lemma DedupByUrlExample()
    ensures var a, b, c := CreatorRecord("a", "/watch/a"), CreatorRecord("b", "/watch/b"),
      CreatorRecord("c", "/watch/c");
      Dedup([a, a, b, c, b], UrlOf) == [a, b, c]
  {
    var a, b, c := CreatorRecord("a", "/watch/a"), CreatorRecord("b", "/watch/b"),
      CreatorRecord("c", "/watch/c");
    var xs := [a, a, b, c, b];
    assert xs[..1] == [a] && xs[..2] == [a, a] && xs[..3] == [a, a, b];
    assert xs[..4] == [a, a, b, c];
    assert Dedup([a], UrlOf) == [a];
    assert Dedup([a, a], UrlOf) == [a];
    assert a.url != b.url && a.url != c.url && b.url != c.url;
    assert !HasKey([a], UrlOf, b.url);
    assert [a, a, b][..2] == [a, a] && [a, a, b, c][..3] == [a, a, b];
    assert Dedup([a, a, b], UrlOf) == [a, b];
    assert !HasKey([a, b], UrlOf, c.url) by {
      forall i | 0 <= i < 2 ensures UrlOf([a, b][i]) != c.url {
        if i == 0 { assert [a, b][i] == a; } else { assert [a, b][i] == b; }
      }
    }
    assert Dedup([a, a, b, c], UrlOf) == [a, b, c];
    assert UrlOf([a, b, c][1]) == b.url;
  }
}
