/** The per-record loop of `main` (app/main.rb:195-242) and the run as a
    whole: list the creators once, then for each record in order read its
    roster, check the watchlist and emit one output row whose member column
    is the roster joined with '|'. Timestamps, the CSV file, the e-mails and
    the `rescue`/`ensure` around the run are left out. */
module Harvest {
  import opened Sequences
  import opened Text
  import opened FieldReader
  import opened PageExpander
  import opened Directory
  import opened Roster
  import opened Watchlist

  /** One output row; the timestamp column is left out. */
  datatype HarvestRow = HarvestRow(creatorName: string, watchUrl: string, chatMembers: string)

  /** The roster read for the `i`-th record, whose watch page shows
      `At(rosterPages, i)` on successive navigations. */
  function RosterOf(record: CreatorRecord, rosterPages: seq<seq<seq<Member>>>, i: nat): seq<string> {
    ChatMembers(At(rosterPages, i), record.name, DefaultMaxAttempts).members
  }

  /** The row written for the `i`-th record. */
  function RowOf(record: CreatorRecord, rosterPages: seq<seq<seq<Member>>>, i: nat): HarvestRow {
    HarvestRow(record.name, record.url, Join(RosterOf(record, rosterPages, i)))
  }

  /** The rows of the whole run, one per record, in record order. */
  function Rows(records: seq<CreatorRecord>, rosterPages: seq<seq<seq<Member>>>): (rows: seq<HarvestRow>)
    ensures |rows| == |records|
    ensures forall i :: 0 <= i < |records| ==> rows[i] == RowOf(records[i], rosterPages, i)
  {
    seq(|records|, i requires 0 <= i < |records| => RowOf(records[i], rosterPages, i))
  }

  /** The alerts of the whole run: record by record, and within a record in
      configuration order. */
  function AllAlerts(records: seq<CreatorRecord>, rosterPages: seq<seq<seq<Member>>>,
                     specialUsernames: seq<string>): (alerts: seq<Alert>)
    ensures forall k :: 0 <= k < |alerts| ==>
      exists i :: 0 <= i < |records| && alerts[k].creatorName == records[i].name &&
        alerts[k].streamUrl == records[i].url && alerts[k].user in RosterOf(records[i], rosterPages, i)
    decreases |records|
  {
    if records == [] then []
    else
      var n := |records| - 1;
      assert forall i :: 0 <= i < n ==> records[..n][i] == records[i];
      AllAlerts(records[..n], rosterPages, specialUsernames) +
      AlertsFor(WatchedPresent(specialUsernames, RosterOf(records[n], rosterPages, n)), records[n])
  }

  /** The `each_with_index` loop over the creator records. */
  method ProcessRecords(records: seq<CreatorRecord>, rosterPages: seq<seq<seq<Member>>>,
                        specialUsernames: seq<string>)
    returns (rows: seq<HarvestRow>, alerts: seq<Alert>)
    ensures rows == Rows(records, rosterPages)
    ensures alerts == AllAlerts(records, rosterPages, specialUsernames)
  {
    rows, alerts := [], [];
    for idx := 0 to |records|
      invariant rows == Rows(records[..idx], rosterPages)
      invariant alerts == AllAlerts(records[..idx], rosterPages, specialUsernames)
    {
      var record := records[idx];
      var chatMembers, _ := ScrapeChatMembers(At(rosterPages, idx), record.name, DefaultMaxAttempts);
      var found := CheckWatchlist(specialUsernames, chatMembers, record);
      alerts := alerts + found;
      rows := rows + [HarvestRow(record.name, record.url, Join(chatMembers))];
      assert records[..idx + 1][..idx] == records[..idx];
      assert RosterOf(record, rosterPages, idx) == chatMembers;
      assert rows == Rows(records[..idx + 1], rosterPages) by {
        var next := Rows(records[..idx + 1], rosterPages);
        forall i | 0 <= i < idx + 1 ensures rows[i] == next[i] {
          assert records[..idx + 1][i] == records[i];
          if i < idx {
            assert records[..idx][i] == records[i];
          }
        }
      }
    }
    assert records[..|records|] == records;
  }

  /** Each row names its record, and its member column splits back into the
      roster whenever the roster is non-empty and no name contains '|'. */
  lemma RowsRoundTrip(records: seq<CreatorRecord>, rosterPages: seq<seq<seq<Member>>>, i: nat)
    requires i < |records|
    requires |RosterOf(records[i], rosterPages, i)| >= 1
    requires forall m :: m in RosterOf(records[i], rosterPages, i) ==> Separator !in m
    ensures Rows(records, rosterPages)[i].creatorName == records[i].name
    ensures Rows(records, rosterPages)[i].watchUrl == records[i].url
    ensures Split(Rows(records, rosterPages)[i].chatMembers) == RosterOf(records[i], rosterPages, i)
  {
    var roster := RosterOf(records[i], rosterPages, i);
    assert forall k :: 0 <= k < |roster| ==> Separator !in roster[k] by {
      forall k | 0 <= k < |roster| ensures Separator !in roster[k] {
        assert roster[k] in roster;
      }
    }
    SplitJoin(roster);
  }

  /** `alert` names a configured special username found in the roster of
      some record, together with that record's name and URL. */
  predicate Justified(alert: Alert, records: seq<CreatorRecord>,
                      rosterPages: seq<seq<seq<Member>>>, specialUsernames: seq<string>)
  {
    exists i :: 0 <= i < |records| && alert.creatorName == records[i].name &&
      alert.streamUrl == records[i].url && alert.user in specialUsernames &&
      alert.user in RosterOf(records[i], rosterPages, i)
  }

  /** Every alert of the run is justified by a record and its roster. */
  lemma {:induction false} AlertsAreJustified(records: seq<CreatorRecord>,
                                              rosterPages: seq<seq<seq<Member>>>,
                                              specialUsernames: seq<string>)
    ensures forall k :: 0 <= k < |AllAlerts(records, rosterPages, specialUsernames)| ==>
      Justified(AllAlerts(records, rosterPages, specialUsernames)[k], records, rosterPages,
                specialUsernames)
    decreases |records|
  {
    if records != [] {
      var n := |records| - 1;
      var init := records[..n];
      var before := AllAlerts(init, rosterPages, specialUsernames);
      var users := WatchedPresent(specialUsernames, RosterOf(records[n], rosterPages, n));
      var all := AllAlerts(records, rosterPages, specialUsernames);
      AlertsAreJustified(init, rosterPages, specialUsernames);
      forall k | 0 <= k < |all|
        ensures Justified(all[k], records, rosterPages, specialUsernames)
      {
        if k < |before| {
          assert all[k] == before[k];
          assert Justified(before[k], init, rosterPages, specialUsernames);
          var i :| 0 <= i < |init| &&
            before[k].creatorName == init[i].name && before[k].streamUrl == init[i].url &&
            before[k].user in specialUsernames && before[k].user in RosterOf(init[i], rosterPages, i);
          assert init[i] == records[i];
          assert RosterOf(init[i], rosterPages, i) == RosterOf(records[i], rosterPages, i);
        } else {
          var u := users[k - |before|];
          assert all[k] == Alert(u, records[n].name, records[n].url);
          AlertedIffPresent(specialUsernames, RosterOf(records[n], rosterPages, n), u);
        }
      }
    }
  }

  /** The whole run: expand the listing, select the creators, then process
      every record. It writes one row per selected creator, so never more
      than 50 and never more than there are cards. */
  method RunHarvest(heights: seq<int>, cards: seq<Card>, rosterPages: seq<seq<seq<Member>>>,
                    specialUsernames: seq<string>)
    returns (rows: seq<HarvestRow>, alerts: seq<Alert>)
    requires exists k: nat :: SettlesAt(heights, k)
    ensures rows == Rows(SelectCreators(cards), rosterPages)
    ensures alerts == AllAlerts(SelectCreators(cards), rosterPages, specialUsernames)
    ensures |rows| <= CardCap && |rows| <= |cards|
  {
    var _, _ := ScrollPage(heights);
    var creatorRecords := ScrapeCreators(cards);
    rows, alerts := ProcessRecords(creatorRecords, rosterPages, specialUsernames);
  }
}
