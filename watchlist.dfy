/** The watchlist check inside `main` (app/main.rb:217-223): for one creator,
    raise an alert for every configured special username that is in the
    roster, in configuration order. Sending the e-mail is left out; an alert
    is the arguments `send_user_notification` would be called with. */
module Watchlist {
  import opened Sequences
  import opened Directory

  datatype Alert = Alert(user: string, creatorName: string, streamUrl: string)

  /** The test `chat_members.include?(critical_user)`. */
  function InRoster(chatMembers: seq<string>): string -> bool {
    user => user in chatMembers
  }

  /** The special usernames that are alerted, with repeats, in order. */
  function WatchedPresent(specialUsernames: seq<string>, chatMembers: seq<string>): (users: seq<string>)
    ensures |users| <= |specialUsernames|
    ensures forall j :: 0 <= j < |users| ==> users[j] in chatMembers
  {
    Filter(specialUsernames, InRoster(chatMembers))
  }

  /** One alert per user, naming the creator and the stream. */
  function AlertsFor(users: seq<string>, record: CreatorRecord): (alerts: seq<Alert>)
    ensures |alerts| == |users|
    ensures forall j :: 0 <= j < |alerts| ==>
      alerts[j].user == users[j] && alerts[j].creatorName == record.name &&
      alerts[j].streamUrl == record.url
  {
    seq(|users|, i requires 0 <= i < |users| => Alert(users[i], record.name, record.url))
  }

  /** The `each` loop over the configured special usernames. */
  method CheckWatchlist(specialUsernames: seq<string>, chatMembers: seq<string>, record: CreatorRecord)
    returns (alerts: seq<Alert>)
    ensures alerts == AlertsFor(WatchedPresent(specialUsernames, chatMembers), record)
    ensures forall i :: 0 <= i < |alerts| ==>
      alerts[i].user in chatMembers && alerts[i].user in specialUsernames &&
      alerts[i].creatorName == record.name && alerts[i].streamUrl == record.url
  {
    alerts := [];
    for idx := 0 to |specialUsernames|
      invariant alerts == AlertsFor(WatchedPresent(specialUsernames[..idx], chatMembers), record)
    {
      var criticalUser := specialUsernames[idx];
      assert specialUsernames[..idx + 1][..idx] == specialUsernames[..idx];
      if criticalUser in chatMembers {
        alerts := alerts + [Alert(criticalUser, record.name, record.url)];
      }
    }
    assert specialUsernames[..|specialUsernames|] == specialUsernames;
    forall i | 0 <= i < |alerts|
      ensures alerts[i].user in specialUsernames
    {
      FilterMembership(specialUsernames, InRoster(chatMembers), alerts[i].user);
    }
  }

  /** A special username is alerted exactly when it is configured and in the
      roster, and as many times as it is configured. */
  lemma AlertedIffPresent(specialUsernames: seq<string>, chatMembers: seq<string>, user: string)
    ensures user in WatchedPresent(specialUsernames, chatMembers) <==>
      user in specialUsernames && user in chatMembers
    ensures multiset(WatchedPresent(specialUsernames, chatMembers))[user] ==
      if user in chatMembers then multiset(specialUsernames)[user] else 0
  {
    FilterMembership(specialUsernames, InRoster(chatMembers), user);
    FilterCount(specialUsernames, InRoster(chatMembers), user);
  }

  /** Alerts follow the configuration order. */
  lemma AlertsInConfiguredOrder(specialUsernames: seq<string>, chatMembers: seq<string>)
    ensures IsSubsequence(WatchedPresent(specialUsernames, chatMembers), specialUsernames)
  {
    FilterIsSubsequence(specialUsernames, InRoster(chatMembers));
  }

  /** Watchlist w1, w2 against roster w1, x, w2 alerts w1 and then w2. */
  lemma BothWatchedExample(w1: string, w2: string, x: string)
    ensures WatchedPresent([w1, w2], [w1, x, w2]) == [w1, w2]
  {
    var roster := [w1, x, w2];
    assert [w1, w2][..1] == [w1];
    assert Filter([w1], InRoster(roster)) == [w1] by {
      assert [w1][..0] == [];
    }
  }
}
