/** `scrape_chat_members` (app/main.rb:80-119): read the roster of one watch
    page, reloading it while it shows no member elements.

    The browser is replaced by `pages`: `pages[i]` is the list of member
    elements the page shows after the `i`-th navigation (counting from 0); a
    navigation past the end of `pages` shows none. */
module Roster {
  import opened Sequences
  import opened FieldReader

  /** The default of the `max_attempts` parameter. */
  const DefaultMaxAttempts: int := 3

  /** Roster names are compared as they are: the key of `uniq!`. */
  function Id(name: string): string { name }

  /** The names `reject!` leaves: not empty and not the creator's own. */
  predicate Kept(name: string, creatorName: string) {
    name != "" && name != creatorName
  }

  /** The block given to `reject!`, negated: the names it keeps. */
  function KeptBy(creatorName: string): string -> bool {
    name => Kept(name, creatorName)
  }

  /** Ruby's `member_cards.map { ... }`: one name per element. */
  function Names(elements: seq<Member>): (names: seq<string>)
    ensures |names| == |elements|
    ensures forall i :: 0 <= i < |elements| ==>
      (names[i] == "" <==>
         elements[i].Failed? ||
         (elements[i].t1 == "" && !Usable(elements[i].t2) && !Usable(elements[i].t3)))
  {
    seq(|elements|, i requires 0 <= i < |elements| => MemberName(elements[i]))
  }

  /** `reject!` of empty and creator names, then `uniq!`. */
  function CleanRoster(names: seq<string>, creatorName: string): (roster: seq<string>)
    ensures |roster| <= |names|
  {
    Dedup(Filter(names, KeptBy(creatorName)), Id)
  }

  lemma HasKeyIdIsIn(xs: seq<string>, k: string)
    ensures HasKey(xs, Id, k) <==> k in xs
  {
    if k in xs {
      var i :| 0 <= i < |xs| && xs[i] == k;
      assert Id(xs[i]) == k;
    }
  }

  /** One more raw name either extends the roster by that name or leaves it
      as it was. */
  lemma CleanRosterSnoc(names: seq<string>, x: string, creatorName: string)
    ensures CleanRoster(names + [x], creatorName) ==
      if Kept(x, creatorName) && x !in CleanRoster(names, creatorName)
      then CleanRoster(names, creatorName) + [x]
      else CleanRoster(names, creatorName)
  {
    var p := KeptBy(creatorName);
    var f := Filter(names, p);
    assert (names + [x])[..|names|] == names;
    HasKeyIdIsIn(Dedup(f, Id), x);
    if Kept(x, creatorName) {
      assert Filter(names + [x], p) == f + [x];
      assert (f + [x])[..|f|] == f;
    }
  }

  /** The roster holds no empty name and not the creator's own name; it
      holds every other raw name, and only raw names; it has no duplicates. */
  lemma CleanRosterSpec(names: seq<string>, creatorName: string, n: string)
    ensures "" !in CleanRoster(names, creatorName)
    ensures creatorName !in CleanRoster(names, creatorName)
    ensures n in CleanRoster(names, creatorName) <==> n in names && Kept(n, creatorName)
    ensures forall i, j :: 0 <= i < j < |CleanRoster(names, creatorName)| ==>
      CleanRoster(names, creatorName)[i] != CleanRoster(names, creatorName)[j]
  {
    var p := KeptBy(creatorName);
    var f := Filter(names, p);
    var r := CleanRoster(names, creatorName);
    HasKeyIdIsIn(r, n);
    HasKeyIdIsIn(f, n);
    DedupKeys(f, Id, n);
    FilterMembership(names, p, n);
    DedupDistinct(f, Id);
    HasKeyIdIsIn(r, "");
    HasKeyIdIsIn(f, "");
    DedupKeys(f, Id, "");
    FilterMembership(names, p, "");
    HasKeyIdIsIn(r, creatorName);
    HasKeyIdIsIn(f, creatorName);
    DedupKeys(f, Id, creatorName);
    FilterMembership(names, p, creatorName);
  }

  /** The roster lists names in the order of their first occurrence among
      the raw names. */
  lemma {:induction false} CleanRosterOrder(names: seq<string>, creatorName: string)
    ensures forall i, j :: 0 <= i < j < |CleanRoster(names, creatorName)| ==>
      HasKey(names, Id, CleanRoster(names, creatorName)[i]) &&
      HasKey(names, Id, CleanRoster(names, creatorName)[j]) &&
      FirstIndex(names, Id, CleanRoster(names, creatorName)[i]) <
      FirstIndex(names, Id, CleanRoster(names, creatorName)[j])
    decreases |names|
  {
    if names != [] {
      var n := |names| - 1;
      var init := names[..n];
      var x := names[n];
      assert names == init + [x];
      var r' := CleanRoster(init, creatorName);
      var r := CleanRoster(names, creatorName);
      CleanRosterOrder(init, creatorName);
      CleanRosterSnoc(init, x, creatorName);
      // A name kept from the prefix keeps its first index.
      forall m | 0 <= m < |r'|
        ensures HasKey(names, Id, r'[m]) && HasKey(init, Id, r'[m])
        ensures FirstIndex(names, Id, r'[m]) == FirstIndex(init, Id, r'[m]) < n
      {
        CleanRosterSpec(init, creatorName, r'[m]);
        HasKeyIdIsIn(init, r'[m]);
        FirstIndexPrefix(names, n, Id, r'[m]);
      }
      if r != r' {
        CleanRosterSpec(init, creatorName, x);
        HasKeyIdIsIn(init, x);
        assert forall m :: 0 <= m < n ==> Id(names[m]) != x by {
          forall m | 0 <= m < n ensures Id(names[m]) != x {
            assert names[m] == init[m];
          }
        }
        FirstIndexUnique(names, Id, x, n);
      }
      forall i, j | 0 <= i < j < |r|
        ensures HasKey(names, Id, r[i]) && HasKey(names, Id, r[j]) &&
          FirstIndex(names, Id, r[i]) < FirstIndex(names, Id, r[j])
      {
        assert r[i] == r'[i];
        if j < |r'| {
          assert r[j] == r'[j];
        } else {
          assert r == r' + [x] && r[j] == x;
        }
      }
      assert r == CleanRoster(names, creatorName);
    } else {
      assert CleanRoster(names, creatorName) == [];
    }
  }

  /** The first three raw names of the filtering example: "Alice", "",
      "Alice" clean to "Alice". */
  lemma CleanRosterExamplePrefix(alice: string, creator: string)
    requires alice != "" && alice != creator
    ensures CleanRoster([alice, "", alice], creator) == [alice]
  {
    var n1, n2 := [alice], [alice, ""];
    assert CleanRoster(n1, creator) == [alice] by {
      assert n1 == [] + [alice];
      CleanRosterSnoc([], alice, creator);
    }
    assert CleanRoster(n2, creator) == [alice] by {
      assert n2 == n1 + [""];
      CleanRosterSnoc(n1, "", creator);
    }
    assert [alice, "", alice] == n2 + [alice];
    CleanRosterSnoc(n2, alice, creator);
  }

  /** The filtering example: "Alice", "", "Alice", "Bob", "CreatorX" with
      creator "CreatorX" gives "Alice", "Bob" (for any three distinct
      non-empty names). */
  lemma CleanRosterExample(alice: string, bob: string, creator: string)
    requires alice != "" && bob != "" && creator != ""
    requires alice != bob && alice != creator && bob != creator
    ensures CleanRoster([alice, "", alice, bob, creator], creator) == [alice, bob]
  {
    var n3, n4 := [alice, "", alice], [alice, "", alice, bob];
    CleanRosterExamplePrefix(alice, creator);
    assert CleanRoster(n4, creator) == [alice, bob] by {
      assert n4 == n3 + [bob];
      CleanRosterSnoc(n3, bob, creator);
    }
    assert [alice, "", alice, bob, creator] == n4 + [creator];
    CleanRosterSnoc(n4, creator, creator);
  }

  /** The first navigation, at or after `from` and before `maxAttempts`,
      that shows at least one member element. */
  function FirstRenderedFrom(pages: seq<seq<Member>>, from: nat, maxAttempts: int): (k: Option<nat>)
    ensures k.Some? ==> from <= k.value < maxAttempts && |At(pages, k.value)| > 0
    ensures k.Some? ==> forall j :: from <= j < k.value ==> |At(pages, j)| == 0
    ensures k.None? ==> forall j :: from <= j < maxAttempts ==> |At(pages, j)| == 0
    decreases maxAttempts - from
  {
    if maxAttempts <= from then None
    else if |At(pages, from)| > 0 then Some(from)
    else FirstRenderedFrom(pages, from + 1, maxAttempts)
  }

  function FirstRendered(pages: seq<seq<Member>>, maxAttempts: int): Option<nat> {
    FirstRenderedFrom(pages, 0, maxAttempts)
  }

  /** What one call returns, with the number of navigations it made. */
  datatype RosterOutcome = RosterOutcome(members: seq<string>, navigations: nat)

  /** The outcome of the retry loop: the cleaned roster of the first
      navigation that shows any member element, or nothing once
      `maxAttempts` navigations have shown none. */
  function ChatMembers(pages: seq<seq<Member>>, creatorName: string, maxAttempts: int): (o: RosterOutcome)
    ensures o.navigations <= if maxAttempts > 0 then maxAttempts else 0
    ensures o.members != [] ==> o.navigations >= 1
  {
    match FirstRendered(pages, maxAttempts)
    case Some(k) => RosterOutcome(CleanRoster(Names(At(pages, k)), creatorName), k + 1)
    case None => RosterOutcome([], if maxAttempts > 0 then maxAttempts else 0)
  }

  /** The retry loop. */
  method ScrapeChatMembers(pages: seq<seq<Member>>, creatorName: string, maxAttempts: int)
    returns (partialMembers: seq<string>, navigations: nat)
    ensures RosterOutcome(partialMembers, navigations) == ChatMembers(pages, creatorName, maxAttempts)
  {
    var attempts := 0;
    partialMembers := [];
    navigations := 0;
    while attempts < maxAttempts
      invariant 0 <= attempts <= if maxAttempts > 0 then maxAttempts else 0
      invariant navigations == attempts && partialMembers == []
      invariant forall j :: 0 <= j < attempts ==> |At(pages, j)| == 0
    {
      navigations := navigations + 1;
      var memberCards := At(pages, attempts);
      if |memberCards| > 0 {
        partialMembers := Names(memberCards);
        partialMembers := Filter(partialMembers, KeptBy(creatorName));
        partialMembers := Dedup(partialMembers, Id);
        FirstRenderedIs(pages, maxAttempts, attempts);
        return;
      }
      attempts := attempts + 1;
    }
    assert FirstRendered(pages, maxAttempts).None?;
  }

  lemma FirstRenderedIs(pages: seq<seq<Member>>, maxAttempts: int, k: nat)
    requires k < maxAttempts && |At(pages, k)| > 0
    requires forall j :: 0 <= j < k ==> |At(pages, j)| == 0
    ensures FirstRendered(pages, maxAttempts) == Some(k)
  {
  }

  /** The loop navigates at least once when it may, and never more than
      `maxAttempts` times. */
  lemma RetryBound(pages: seq<seq<Member>>, creatorName: string, maxAttempts: int)
    ensures ChatMembers(pages, creatorName, maxAttempts).navigations <=
      if maxAttempts > 0 then maxAttempts else 0
    ensures maxAttempts > 0 ==> ChatMembers(pages, creatorName, maxAttempts).navigations >= 1
  {
  }

  /** The loop stops at the first navigation that shows any element, so it
      navigates once more than that navigation's index, and returns that
      page's cleaned roster. */
  lemma StopsAtFirstRendered(pages: seq<seq<Member>>, creatorName: string, maxAttempts: int, k: nat)
    requires k < maxAttempts && |At(pages, k)| > 0
    requires forall j :: 0 <= j < k ==> |At(pages, j)| == 0
    ensures ChatMembers(pages, creatorName, maxAttempts) ==
      RosterOutcome(CleanRoster(Names(At(pages, k)), creatorName), k + 1)
  {
    FirstRenderedIs(pages, maxAttempts, k);
  }

  /** When no navigation shows an element, the roster is empty after
      exactly `maxAttempts` navigations. */
  lemma ExhaustedIsEmpty(pages: seq<seq<Member>>, creatorName: string, maxAttempts: nat)
    requires forall j :: 0 <= j < maxAttempts ==> |At(pages, j)| == 0
    ensures ChatMembers(pages, creatorName, maxAttempts) == RosterOutcome([], maxAttempts)
  {
  }

  /** The returned roster is always clean: no empty name, not the creator's
      own name, no duplicates. */
  lemma ChatMembersClean(pages: seq<seq<Member>>, creatorName: string, maxAttempts: int)
    ensures "" !in ChatMembers(pages, creatorName, maxAttempts).members
    ensures creatorName !in ChatMembers(pages, creatorName, maxAttempts).members
    ensures var r := ChatMembers(pages, creatorName, maxAttempts).members;
      forall i, j :: 0 <= i < j < |r| ==> r[i] != r[j]
  {
    match FirstRendered(pages, maxAttempts)
    case Some(k) => CleanRosterSpec(Names(At(pages, k)), creatorName, "");
    case None =>
  }

  /** A first page whose only element cannot be read ends the loop: one
      navigation, an empty roster, and the later page that would have named
      "Bob" is never loaded. */
  lemma RenderedButEmptyIsFinal()
    ensures ChatMembers([[Failed], [Texts("Bob", None, None)]], "CreatorX", DefaultMaxAttempts) ==
      RosterOutcome([], 1)
  {
    var pages := [[Failed], [Texts("Bob", None, None)]];
    FirstRenderedIs(pages, DefaultMaxAttempts, 0);
    assert Names([Failed]) == [""];
    CleanRosterSpec([""], "CreatorX", "");
    assert forall n :: n !in CleanRoster([""], "CreatorX") by {
      forall n ensures n !in CleanRoster([""], "CreatorX") {
        CleanRosterSpec([""], "CreatorX", n);
      }
    }
  }

  /** Two empty loads and then a roster: three navigations and a non-empty
      result. */
  lemma ThirdAttemptExample()
    ensures var o := ChatMembers([[], [], [Texts("Alice", None, None)]], "CreatorX", DefaultMaxAttempts);
      o.navigations == 3 && o.members == ["Alice"]
  {
    var pages := [[], [], [Texts("Alice", None, None)]];
    FirstRenderedIs(pages, DefaultMaxAttempts, 2);
    assert At(pages, 2) == [Texts("Alice", None, None)];
    MemberNameFallback(Texts("Alice", None, None));
    assert Names(At(pages, 2)) == ["Alice"];
    assert [] + ["Alice"] == ["Alice"];
    CleanRosterSnoc([], "Alice", "CreatorX");
  }
}
