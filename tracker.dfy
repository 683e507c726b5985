/**
 * The GitHub tracker: the rate-limit bookkeeping around every request, the
 * filter over repository events, the paginated listing of an organization's
 * repositories, the ownership-change heuristic and the two polling loops
 * that detect transfers and store them.
 *
 * GitHub is an oracle: the reply to a request depends on what is asked and
 * on how many requests the session has sent before it, so two requests for
 * the same repository may be answered differently. Time is the integer
 * `clock` (UTC milliseconds), which only the tracker's sleeps advance.
 */
module Tracker {
  import opened Wrappers
  import opened Text
  import opened Seqs
  import opened Transfers
  import opened Database

  /**
   * The fields of `GET /repos/{name}` the tracker reads: `owner.login`,
   * `stargazers_count` (`None` when the key is absent) and `language`
   * (`None` when the key is absent, `Some(None)` for JSON null).
   */
  datatype RepoInfo = RepoInfo(owner: string, stars: Option<int>, language: Option<Option<string>>)

  /** A repository event: its `type` and its `created_at` in UTC milliseconds. */
  datatype Event = Event(kind: string, createdAt: int)

  /**
   * What one GET brings back: a response with its status, its parsed body
   * and the `X-RateLimit-Remaining` / `X-RateLimit-Reset` headers when
   * present, or no response at all because the request raised.
   */
  datatype Reply<T> =
    | Response(status: int, body: T, remaining: Option<int>, reset: Option<int>)
    | NoResponse

  /**
   * GitHub as the tracker sees it: the reply to a repository, an events or
   * an organization-page request, given the number of requests sent before.
   */
  datatype GitHub = GitHub(
    repo: (string, nat) -> Reply<RepoInfo>,
    events: (string, nat) -> Reply<seq<Event>>,
    orgPage: (string, nat, nat) -> Reply<seq<string>>)

  /**
   * The tracker's changing state: `remaining_requests`, `rate_limit_reset`
   * (epoch seconds), the clock (milliseconds) and the number of requests sent.
   */
  datatype Session = Session(remaining: int, reset: int, clock: int, sent: nat)

  /**
   * `check_rate_limit`: with fewer than ten requests left and the reset time
   * still ahead, sleep until one second past the reset; otherwise go on.
   */
  function AfterCheck(s: Session): (c: Session)
    ensures c.remaining == s.remaining && c.reset == s.reset && c.sent == s.sent
    ensures c.clock != s.clock <==> s.remaining < 10 && s.reset * 1000 > s.clock
    ensures c.clock >= s.clock
    ensures c.clock != s.clock ==> c.clock == s.reset * 1000 + 1000
  {
    var sleepTime := s.reset * 1000 - s.clock;
    if s.remaining < 10 && sleepTime > 0 then s.(clock := s.clock + sleepTime + 1000) else s
  }

  /** The session after a request, and the body `make_request` returns. */
  datatype Fetched<T> = Fetched(session: Session, body: Option<T>)

  /**
   * `make_request`: the rate-limit check, then one GET answered by `reply`.
   * A response overwrites both rate-limit fields from its headers (0 for a
   * missing header) and yields its body exactly when the status is 200; a
   * request that raised leaves them as the check left them.
   */
  function Request<T>(s: Session, reply: Reply<T>): (f: Fetched<T>)
    ensures f.session.sent == s.sent + 1
    ensures f.session.clock == AfterCheck(s).clock
    ensures reply.Response? ==> f.session.remaining == reply.remaining.GetOr(0) && f.session.reset == reply.reset.GetOr(0)
    ensures reply.NoResponse? ==> f.session.remaining == s.remaining && f.session.reset == s.reset
    ensures f.body.Some? <==> reply.Response? && reply.status == 200
    ensures f.body.Some? ==> f.body.value == reply.body
  {
    var c := AfterCheck(s);
    match reply
    case NoResponse => Fetched(c.(sent := c.sent + 1), None)
    case Response(status, body, remaining, reset) =>
      Fetched(Session(remaining.GetOr(0), reset.GetOr(0), c.clock, c.sent + 1), if status == 200 then Some(body) else None)
  }

  /** A reply `make_request` returns a body for: a response with status 200. */
  predicate Ok<T>(reply: Reply<T>) {
    reply.Response? && reply.status == 200
  }

  // ---------------------------------------------------------------------
  // Detection.
  // ---------------------------------------------------------------------

  /** The `language` of a detection: "Unknown" when the reply has no `language` key, JSON null as `None`. */
  function LanguageOf(info: RepoInfo): Option<string> {
    match info.language
    case None => Some("Unknown")
    case Some(l) => l
  }

  /**
   * The test of `detect_ownership_change`: the name splits on '/' into
   * exactly two parts, and the first differs, case-insensitively, from the
   * current owner.
   */
  predicate Flagged(name: string, info: RepoInfo) {
    var parts := Split(name, '/');
    |parts| == 2 && Lower(parts[0]) != Lower(info.owner)
  }

  /**
   * The heuristic of `detect_ownership_change` once the current information
   * is in hand: a flagged name is a transfer from the first part of the name
   * to the current owner, dated `date`.
   */
  function Detect(name: string, info: RepoInfo, date: int): (t: Option<Transfer>)
    ensures t.Some? <==> Flagged(name, info)
    ensures t.Some? ==> multiset(name)['/'] == 1
    ensures t.Some? ==> t.value.repo == name && t.value.newOwner == info.owner && t.value.date == date
    ensures t.Some? ==> Lower(t.value.oldOwner) != Lower(t.value.newOwner)
    ensures t.Some? ==> t.value.stars == info.stars.GetOr(0) && t.value.language == LanguageOf(info)
  {
    if Flagged(name, info) then
      Some(Transfer(name, Split(name, '/')[0], info.owner, date, info.stars.GetOr(0), LanguageOf(info)))
    else
      None
  }

  /**
   * For a name "A/B" (neither part holding '/') and current owner C, a
   * transfer is detected exactly when lower(A) != lower(C), and it records
   * the move of "A/B" from A to C.
   */
  lemma DetectPair(a: string, b: string, info: RepoInfo, date: int)
    requires '/' !in a && '/' !in b
    ensures Detect(a + "/" + b, info, date) ==
      if Lower(a) != Lower(info.owner)
      then Some(Transfer(a + "/" + b, a, info.owner, date, info.stars.GetOr(0), LanguageOf(info)))
      else None
  {
    SplitTwo(a, '/', b);
    assert a + "/" + b == a + ['/'] + b;
  }

  /** A name that does not hold exactly one '/' is skipped, whatever GitHub reports. */
  lemma DetectSkipsOtherNames(name: string, info: RepoInfo, date: int)
    requires multiset(name)['/'] != 1
    ensures Detect(name, info, date) == None
  {
    var parts := Split(name, '/');
    assert |parts| != 2;
  }

  // ---------------------------------------------------------------------
  // Repository events.
  // ---------------------------------------------------------------------

  /** An event `get_repo_events` keeps: not before `since`, of type TransferEvent or RepositoryEvent. */
  predicate IsTransferEvent(e: Event, since: int) {
    e.createdAt >= since && (e.kind == "TransferEvent" || e.kind == "RepositoryEvent")
  }

  function TransferEvents(events: seq<Event>, since: int): seq<Event> {
    Filter(e => IsTransferEvent(e, since), events)
  }

  /** The filtering loop of `get_repo_events`, over an `since` with a UTC offset. */
  method SelectTransferEvents(events: seq<Event>, since: int) returns (selected: seq<Event>)
    ensures selected == TransferEvents(events, since)
    ensures forall e :: e in selected <==> e in events && IsTransferEvent(e, since)
  {
    selected := [];
    var i := 0;
    while i < |events|
      invariant 0 <= i <= |events|
      invariant selected == TransferEvents(events[..i], since)
    {
      FilterSnoc(e => IsTransferEvent(e, since), events, i);
      var event := events[i];
      if event.createdAt < since {
        i := i + 1;
        continue;
      }
      if event.kind == "TransferEvent" || event.kind == "RepositoryEvent" {
        selected := selected + [event];
      }
      i := i + 1;
    }
    assert events[..i] == events;
    FilterMembers(e => IsTransferEvent(e, since), events);
  }

  /** A `datetime` as Python holds it: an instant, with or without a UTC offset. */
  datatype Moment = Moment(ms: int, aware: bool)

  /** `a < b` on datetimes: Python refuses to order a naive and an aware one (`TypeError`, here `None`). */
  function Earlier(a: Moment, b: Moment): Option<bool> {
    if a.aware != b.aware then None else Some(a.ms < b.ms)
  }

  /**
   * The filtering loop of `get_repo_events` as written: every event date is
   * parsed with an explicit "+00:00" offset, so it is aware; a comparison
   * Python refuses ends the call with `TypeError` (`None`).
   */
  function EventsAsWritten(events: seq<Event>, since: Moment): Option<seq<Event>>
    decreases |events|
  {
    if events == [] then Some([])
    else
      match Earlier(Moment(events[0].createdAt, true), since)
      case None => None
      case Some(before) =>
        var rest := EventsAsWritten(events[1..], since);
        if rest.None? then None
        else if !before && (events[0].kind == "TransferEvent" || events[0].kind == "RepositoryEvent")
        then Some([events[0]] + rest.value)
        else rest
  }

  /** The default `since` as written: `datetime.now() - timedelta(hours=1)`, which has no offset. */
  function DefaultSinceAsWritten(now: int): Moment {
    Moment(now - 3600000, false)
  }

  /**
   * With the default `since`, the call as written raises on every non-empty
   * list of events; among them a transfer event of this very moment, which
   * the filter with an aware `since` returns.
   */
  lemma DefaultSinceRaises(events: seq<Event>, now: int)
    ensures events != [] ==> EventsAsWritten(events, DefaultSinceAsWritten(now)) == None
    ensures TransferEvents([Event("TransferEvent", now)], now - 3600000) == [Event("TransferEvent", now)]
  {
    var e := Event("TransferEvent", now);
    assert IsTransferEvent(e, now - 3600000);
    assert [e][1..] == [];
    assert TransferEvents([e], now - 3600000) == [e] + TransferEvents([], now - 3600000);
  }

  /** Given an aware `since`, the loop as written returns exactly the filtered events. */
  lemma {:induction false} AwareSinceFilters(events: seq<Event>, since: int)
    ensures EventsAsWritten(events, Moment(since, true)) == Some(TransferEvents(events, since))
    decreases |events|
  {
    if events != [] {
      AwareSinceFilters(events[1..], since);
      var e, m := events[0], Moment(since, true);
      var rest := EventsAsWritten(events[1..], m);
      assert Earlier(Moment(e.createdAt, true), m) == Some(e.createdAt < since);
      assert TransferEvents(events, since) ==
        (if IsTransferEvent(e, since) then [e] else []) + TransferEvents(events[1..], since);
      if IsTransferEvent(e, since) {
        assert EventsAsWritten(events, m) == Some([e] + rest.value);
      } else {
        assert EventsAsWritten(events, m) == rest;
        assert [] + rest.value == rest.value;
      }
    }
  }

  // ---------------------------------------------------------------------
  // Organization listing.
  // ---------------------------------------------------------------------

  /** The names a page reply lists; an empty list for a failed or non-200 request. */
  function Listed(reply: Reply<seq<string>>): seq<string> {
    if reply.Response? && reply.status == 200 then reply.body else []
  }

  /** From page `bound` on, the listing of `org` is empty, whenever it is asked for. */
  ghost predicate PagesEnd(gh: GitHub, org: string, bound: nat) {
    forall page: nat, n: nat :: page >= bound ==> Listed(gh.orgPage(org, page, n)) == []
  }

  /** The session after listing an organization, and the repository names listed. */
  datatype Listing = Listing(session: Session, names: seq<string>)

  /**
   * `get_org_repos` from page `page` on: request the page; stop at a missing
   * or empty one, otherwise keep its names and go on with the next page.
   * Pages past `bound` are not asked for; when the listing ends by `bound`
   * (`PagesEnd`), page `bound` is empty and the loop stops there first.
   */
  function ListFrom(gh: GitHub, s: Session, org: string, page: nat, bound: nat): (l: Listing)
    ensures page <= bound ==> l.session.sent > s.sent
    ensures l.session.clock >= s.clock
    decreases bound + 1 - page
  {
    if page > bound then Listing(s, [])
    else
      var f := Request(s, gh.orgPage(org, page, s.sent));
      if f.body.None? || f.body.value == [] then Listing(f.session, [])
      else
        var rest := ListFrom(gh, f.session, org, page + 1, bound);
        Listing(rest.session, f.body.value + rest.names)
  }

  /**
   * The listing requests at most one page per page number below `bound`
   * plus the empty one that ends it, and every name it returns was listed
   * by some page from `page` on, before `bound`.
   */
  lemma {:induction false} ListFromPages(gh: GitHub, s: Session, org: string, page: nat, bound: nat)
    requires PagesEnd(gh, org, bound) && page <= bound
    ensures var l := ListFrom(gh, s, org, page, bound);
      && l.session.sent - s.sent <= bound - page + 1
      && forall x :: x in l.names ==> exists p: nat, n: nat :: page <= p < bound && x in Listed(gh.orgPage(org, p, n))
    decreases bound - page
  {
    var f := Request(s, gh.orgPage(org, page, s.sent));
    if !(f.body.None? || f.body.value == []) {
      assert Listed(gh.orgPage(org, page, s.sent)) == f.body.value;
      ListFromPages(gh, f.session, org, page + 1, bound);
    }
  }

  /** The names pages `page` to `m - 1` list, page `p` asked for as request number `sent + (p - page)`. */
  function PagesFrom(gh: GitHub, org: string, page: nat, m: nat, sent: nat): seq<string>
    decreases m - page
  {
    if page >= m then [] else Listed(gh.orgPage(org, page, sent)) + PagesFrom(gh, org, page + 1, m, sent + 1)
  }

  /** Page `m` is the first empty one from `page` on, with the pages asked for from request number `sent` on. */
  predicate FirstEmptyPage(gh: GitHub, org: string, page: nat, m: nat, sent: nat)
    decreases m - page
  {
    && page <= m
    && if page == m then Listed(gh.orgPage(org, page, sent)) == []
       else Listed(gh.orgPage(org, page, sent)) != [] && FirstEmptyPage(gh, org, page + 1, m, sent + 1)
  }

  /**
   * The listing is the concatenation, in page order, of the names of every
   * page before the first empty one; it stops there, after one request per
   * page including the empty one.
   */
  lemma {:induction false} ListFromConcat(gh: GitHub, s: Session, org: string, page: nat, m: nat, bound: nat)
    requires m <= bound && FirstEmptyPage(gh, org, page, m, s.sent)
    ensures var l := ListFrom(gh, s, org, page, bound);
      && l.names == PagesFrom(gh, org, page, m, s.sent)
      && l.session.sent == s.sent + (m - page) + 1
    decreases m - page
  {
    if page < m {
      var f := Request(s, gh.orgPage(org, page, s.sent));
      assert f.body == Some(Listed(gh.orgPage(org, page, s.sent)));
      ListFromConcat(gh, f.session, org, page + 1, m, bound);
    }
  }

  /** When the listing ends by `bound`, it has a first empty page, at `bound` at the latest. */
  lemma {:induction false} FirstEmptyPageExists(gh: GitHub, org: string, page: nat, bound: nat, sent: nat)
    requires PagesEnd(gh, org, bound) && page <= bound
    ensures exists m: nat :: m <= bound && FirstEmptyPage(gh, org, page, m, sent)
    decreases bound - page
  {
    if Listed(gh.orgPage(org, page, sent)) == [] {
      assert FirstEmptyPage(gh, org, page, page, sent);
    } else {
      FirstEmptyPageExists(gh, org, page + 1, bound, sent + 1);
      var m: nat :| m <= bound && FirstEmptyPage(gh, org, page + 1, m, sent + 1);
      assert FirstEmptyPage(gh, org, page, m, sent);
    }
  }

  // ---------------------------------------------------------------------
  // The polling loops.
  // ---------------------------------------------------------------------

  /** The tracker's session together with the rows of the transfer store. */
  datatype World = World(session: Session, rows: seq<Row>)

  /** The row `add_transfer` receives for a detected transfer, stamped `createdAt`. */
  function RowOf(t: Transfer, createdAt: int): Row {
    Row(t.repo, t.oldOwner, t.newOwner, t.date, t.stars, t.language, createdAt)
  }

  /** Row `r` holds transfer `t` (every column but the insertion time). */
  predicate Records(r: Row, t: Transfer) {
    r == RowOf(t, r.createdAt)
  }

  /** The key of every row that records `t`, whatever its insertion time. */
  function TransferKey(t: Transfer): Key {
    KeyOf(RowOf(t, 0))
  }

  /** The world after checking one repository, and the transfer detected, if any. */
  datatype Checked = Checked(world: World, found: Option<Transfer>)

  /**
   * One iteration of `check_repositories`: a first request for the
   * repository; when it yields nothing, go on at once. Otherwise
   * `detect_ownership_change` asks again and, on a detection, the transfer
   * is stored with the database clock in seconds; then 100 ms of sleep.
   */
  function CheckOne(gh: GitHub, w: World, name: string): Checked {
    var first := Request(w.session, gh.repo(name, w.session.sent));
    if first.body.None? then Checked(World(first.session, w.rows), None)
    else
      var second := Request(first.session, gh.repo(name, first.session.sent));
      var s := second.session;
      var t := if second.body.None? then None else Detect(name, second.body.value, s.clock);
      var rows := if t.None? then w.rows else InsertOrIgnore(w.rows, RowOf(t.value, s.clock / 1000));
      Checked(World(s.(clock := s.clock + 100), rows), t)
  }

  /** The world after a polling loop, and the transfers it returns. */
  datatype Sweep = Sweep(world: World, found: seq<Transfer>)

  function Found(t: Option<Transfer>): seq<Transfer> {
    if t.None? then [] else [t.value]
  }

  /** `check_repositories` over `repos`. */
  function CheckAll(gh: GitHub, w: World, repos: seq<string>): Sweep
    decreases |repos|
  {
    if repos == [] then Sweep(w, [])
    else
      var before := CheckAll(gh, w, repos[..|repos| - 1]);
      var step := CheckOne(gh, before.world, repos[|repos| - 1]);
      Sweep(step.world, before.found + Found(step.found))
  }

  /** `check_repositories` over one more repository of the list. */
  lemma CheckAllSnoc(gh: GitHub, w: World, repos: seq<string>, i: nat)
    requires i < |repos|
    ensures var before := CheckAll(gh, w, repos[..i]);
      var step := CheckOne(gh, before.world, repos[i]);
      CheckAll(gh, w, repos[..i + 1]) == Sweep(step.world, before.found + Found(step.found))
  {
    assert repos[..i + 1][..i] == repos[..i];
  }

  /**
   * What one iteration promises: time moves on; without a detection the
   * rows stay as they were; a detection of `name` is dated within the
   * iteration and is inserted, with every column it records, into the rows.
   */
  lemma CheckOneFacts(gh: GitHub, w: World, name: string)
    ensures var c := CheckOne(gh, w, name);
      && c.world.session.clock >= w.session.clock
      && c.world.session.sent > w.session.sent
      && (c.found.Some? <==>
            && Ok(gh.repo(name, w.session.sent))
            && Ok(gh.repo(name, w.session.sent + 1))
            && Flagged(name, gh.repo(name, w.session.sent + 1).body))
      && (c.found.None? ==> c.world.rows == w.rows)
      && (c.found.Some? ==>
            && c.found.value.repo == name
            && w.session.clock <= c.found.value.date < c.world.session.clock
            && w.session.sent + 1 < c.world.session.sent
            && Reported(gh, c.found.value, w.session.sent + 1)
            && (exists r :: Records(r, c.found.value) && c.world.rows == InsertOrIgnore(w.rows, r)))
  {
    var first := Request(w.session, gh.repo(name, w.session.sent));
    if first.body.Some? {
      var second := Request(first.session, gh.repo(name, first.session.sent));
      if second.body.Some? {
        var t := Detect(name, second.body.value, second.session.clock);
        if t.Some? {
          assert Records(RowOf(t.value, second.session.clock / 1000), t.value);
        }
      }
    }
  }

  /**
   * GitHub answered request number `n`, about `t`'s repository, with
   * status 200 and information from which the heuristic reports `t`.
   */
  predicate Reported(gh: GitHub, t: Transfer, n: nat) {
    var reply := gh.repo(t.repo, n);
    Ok(reply) && Detect(t.repo, reply.body, t.date) == Some(t)
  }

  /** The repositories the transfers name, in order. */
  function RepoNames(ts: seq<Transfer>): (names: seq<string>)
    ensures |names| == |ts|
    ensures forall i :: 0 <= i < |ts| ==> names[i] == ts[i].repo
    decreases |ts|
  {
    if ts == [] then [] else RepoNames(ts[..|ts| - 1]) + [ts[|ts| - 1].repo]
  }

  /** Selecting from one more repository: kept exactly when a transfer of it was found. */
  lemma RepoNamesSelect(ts: seq<Transfer>, t: Option<Transfer>, keep: seq<bool>, repos: seq<string>)
    requires repos != [] && |keep| == |repos| - 1 && RepoNames(ts) == Select(keep, repos[..|repos| - 1])
    requires t.Some? ==> t.value.repo == repos[|repos| - 1]
    ensures RepoNames(ts + Found(t)) == Select(keep + [t.Some?], repos)
  {
    assert (keep + [t.Some?])[..|keep|] == keep;
    if t.Some? {
      assert (ts + [t.value])[..|ts|] == ts;
    } else {
      assert ts + [] == ts;
    }
  }

  /** `names` is `repos` with some entries left out. */
  lemma SelectWitness(names: seq<string>, keep: seq<bool>, repos: seq<string>)
    requires |keep| == |repos| && names == Select(keep, repos)
    ensures exists k: seq<bool> :: |k| == |repos| && names == Select(k, repos)
  {
  }

  /** One more repository keeps the names a selection from the list, in order. */
  lemma SelectStep(ts: seq<Transfer>, t: Option<Transfer>, repos: seq<string>)
    requires repos != []
    requires exists keep: seq<bool> :: |keep| == |repos| - 1 && RepoNames(ts) == Select(keep, repos[..|repos| - 1])
    requires t.Some? ==> t.value.repo == repos[|repos| - 1]
    ensures exists keep: seq<bool> :: |keep| == |repos| && RepoNames(ts + Found(t)) == Select(keep, repos)
  {
    var keep: seq<bool> :| |keep| == |repos| - 1 && RepoNames(ts) == Select(keep, repos[..|repos| - 1]);
    RepoNamesSelect(ts, t, keep, repos);
    SelectWitness(RepoNames(ts + Found(t)), keep + [t.Some?], repos);
  }

  /** The transfers `check_repositories` returns name repositories of its list, in list order, some left out. */
  lemma {:induction false} CheckAllOrder(gh: GitHub, w: World, repos: seq<string>)
    ensures exists keep: seq<bool> :: |keep| == |repos| && RepoNames(CheckAll(gh, w, repos).found) == Select(keep, repos)
    decreases |repos|
  {
    if repos == [] {
      SelectWitness(RepoNames(CheckAll(gh, w, repos).found), [], repos);
    } else {
      var init, last := repos[..|repos| - 1], repos[|repos| - 1];
      CheckAllOrder(gh, w, init);
      var before := CheckAll(gh, w, init);
      var step := CheckOne(gh, before.world, last);
      assert step.found.Some? ==> step.found.value.repo == last by {
        CheckOneFacts(gh, before.world, last);
      }
      SelectStep(before.found, step.found, repos);
    }
  }

  /** The repositories whose reply, `answer(name)`, is a 200 the heuristic flags. */
  function FlaggedBy(answer: string -> Reply<RepoInfo>): string -> bool {
    name => Ok(answer(name)) && Flagged(name, answer(name).body)
  }

  /** One more repository: its transfer is named exactly when the repository passes `p`. */
  lemma FilterStep(ts: seq<Transfer>, t: Option<Transfer>, p: string -> bool, repos: seq<string>)
    requires repos != [] && RepoNames(ts) == Filter(p, repos[..|repos| - 1])
    requires t.Some? <==> p(repos[|repos| - 1])
    requires t.Some? ==> t.value.repo == repos[|repos| - 1]
    ensures RepoNames(ts + Found(t)) == Filter(p, repos)
  {
    var init, last := repos[..|repos| - 1], repos[|repos| - 1];
    var kept := if p(last) then [last] else [];
    assert RepoNames(ts + Found(t)) == RepoNames(ts) + kept by {
      if t.Some? {
        assert (ts + Found(t))[..|ts|] == ts;
      } else {
        AppendNothing(ts);
        AppendNothing(RepoNames(ts));
      }
    }
    assert Filter(p, [last]) == kept by {
      assert [last][1..] == [];
    }
    FrontLast(repos);
    FilterAppend(p, init, [last]);
  }

  /**
   * When GitHub answers each repository the same way whatever the request,
   * the transfers `check_repositories` returns name exactly the repositories
   * of the list whose answer is a 200 the heuristic flags, in list order.
   */
  lemma {:induction false} CheckAllFinds(gh: GitHub, answer: string -> Reply<RepoInfo>, w: World, repos: seq<string>)
    requires forall name, n :: gh.repo(name, n) == answer(name)
    ensures RepoNames(CheckAll(gh, w, repos).found) == Filter(FlaggedBy(answer), repos)
    decreases |repos|
  {
    if repos != [] {
      var init, last := repos[..|repos| - 1], repos[|repos| - 1];
      CheckAllFinds(gh, answer, w, init);
      var before := CheckAll(gh, w, init);
      var step := CheckOne(gh, before.world, last);
      assert (step.found.Some? <==> FlaggedBy(answer)(last)) && (step.found.Some? ==> step.found.value.repo == last) by {
        CheckOneFacts(gh, before.world, last);
      }
      FilterStep(before.found, step.found, FlaggedBy(answer), repos);
    }
  }

  /**
   * Each transfer `check_repositories` returns is what the heuristic
   * reports, on the date it carries, from GitHub's answer to one of the
   * requests of the run; its date is within the run; the clock never goes
   * back.
   */
  lemma {:induction false} CheckAllDetects(gh: GitHub, w: World, repos: seq<string>)
    ensures var sweep := CheckAll(gh, w, repos);
      && sweep.world.session.clock >= w.session.clock
      && sweep.world.session.sent >= w.session.sent
      && forall t :: t in sweep.found ==>
           && w.session.clock <= t.date < sweep.world.session.clock
           && exists n: nat :: w.session.sent <= n < sweep.world.session.sent && Reported(gh, t, n)
    decreases |repos|
  {
    if repos != [] {
      var init, last := repos[..|repos| - 1], repos[|repos| - 1];
      CheckAllDetects(gh, w, init);
      var before := CheckAll(gh, w, init);
      CheckOneFacts(gh, before.world, last);
    }
  }

  /** The transfers `check_repositories` returns are in strictly increasing order of detection time. */
  lemma {:induction false} CheckAllDatesIncrease(gh: GitHub, w: World, repos: seq<string>)
    ensures var found := CheckAll(gh, w, repos).found;
      forall i, j :: 0 <= i < j < |found| ==> found[i].date < found[j].date
    decreases |repos|
  {
    if repos != [] {
      var init, last := repos[..|repos| - 1], repos[|repos| - 1];
      CheckAllDatesIncrease(gh, w, init);
      CheckAllDetects(gh, w, init);
      var before := CheckAll(gh, w, init);
      CheckOneFacts(gh, before.world, last);
      var found := before.found + Found(CheckOne(gh, before.world, last).found);
      forall i, j | 0 <= i < j < |found|
        ensures found[i].date < found[j].date
      {
        if j == |before.found| {
          assert found[i] in before.found;
        }
      }
    }
  }

  /**
   * What a polling loop does to the table, given the transfers it returned:
   * it only appends; every row it adds records one of those transfers;
   * each of them has its key in the table; and unique keys stay unique.
   */
  ghost predicate Stored(before: seq<Row>, after: seq<Row>, found: seq<Transfer>) {
    && before <= after
    && (UniqueKeys(before) ==> UniqueKeys(after))
    && (forall t :: t in found ==> HasKey(after, TransferKey(t)))
    && (forall r :: r in after ==> r in before || exists t :: t in found && Records(r, t))
  }

  /** One more iteration keeps `Stored`: a detection is inserted or ignored, nothing else is written. */
  lemma StoredStep(rows0: seq<Row>, rows: seq<Row>, found: seq<Transfer>, t: Option<Transfer>, rows': seq<Row>)
    requires Stored(rows0, rows, found)
    requires t.None? ==> rows' == rows
    requires t.Some? ==> exists r :: Records(r, t.value) && rows' == InsertOrIgnore(rows, r)
    ensures Stored(rows0, rows', found + Found(t))
  {
    if t.None? {
      AppendNothing(found);
    } else {
      var r :| Records(r, t.value) && rows' == InsertOrIgnore(rows, r);
      assert KeyOf(r) == TransferKey(t.value);
      if UniqueKeys(rows0) {
        InsertKeepsKeysUnique(rows, r);
      }
      InsertOrIgnoreKeeps(rows, r);
      forall u | u in found + Found(t)
        ensures HasKey(rows', TransferKey(u))
      {
        if u in found {
          var x :| x in rows && KeyOf(x) == TransferKey(u);
          assert x in rows';
        }
      }
    }
  }

  /**
   * `check_repositories` only appends to the table: every row it adds
   * records one of the transfers it returns, every returned transfer has
   * its key in the table afterwards, and the uniqueness of keys is kept.
   */
  lemma {:induction false} CheckAllStores(gh: GitHub, w: World, repos: seq<string>)
    ensures var sweep := CheckAll(gh, w, repos);
      Stored(w.rows, sweep.world.rows, sweep.found)
    decreases |repos|
  {
    if repos == [] {
      assert Stored(w.rows, w.rows, []);
    } else {
      var init, last := repos[..|repos| - 1], repos[|repos| - 1];
      CheckAllStores(gh, w, init);
      var before := CheckAll(gh, w, init);
      var step := CheckOne(gh, before.world, last);
      CheckOneFacts(gh, before.world, last);
      StoredStep(w.rows, before.world.rows, before.found, step.found, step.world.rows);
    }
  }

  /**
   * Because every detection is dated with the clock at that moment, its key
   * is new whenever the table holds only rows dated before the loop: then
   * `INSERT OR IGNORE` never ignores, and every detection adds a row.
   */
  lemma {:induction false} CheckAllStoresEveryDetection(gh: GitHub, w: World, repos: seq<string>)
    requires forall r :: r in w.rows ==> r.date < w.session.clock
    ensures var sweep := CheckAll(gh, w, repos);
      && |sweep.world.rows| == |w.rows| + |sweep.found|
      && forall r :: r in sweep.world.rows ==> r.date < sweep.world.session.clock
    decreases |repos|
  {
    if repos != [] {
      var init, last := repos[..|repos| - 1], repos[|repos| - 1];
      CheckAllStoresEveryDetection(gh, w, init);
      var before := CheckAll(gh, w, init);
      var step := CheckOne(gh, before.world, last);
      CheckOneFacts(gh, before.world, last);
      if step.found.Some? {
        var r :| Records(r, step.found.value) && step.world.rows == InsertOrIgnore(before.world.rows, r);
        assert !HasKey(before.world.rows, KeyOf(r));
        assert step.world.rows == before.world.rows + [r];
      }
    }
  }

  /** Checking two lists one after the other is checking their concatenation. */
  lemma {:induction false} CheckAllAppend(gh: GitHub, w: World, a: seq<string>, b: seq<string>)
    ensures var first := CheckAll(gh, w, a);
      var second := CheckAll(gh, first.world, b);
      CheckAll(gh, w, a + b) == Sweep(second.world, first.found + second.found)
    decreases |b|
  {
    var first := CheckAll(gh, w, a);
    if b == [] {
      AppendNothing(a);
      AppendNothing(first.found);
    } else {
      var b', name := b[..|b| - 1], b[|b| - 1];
      var whole := CheckAll(gh, w, a + b');
      var second := CheckAll(gh, first.world, b');
      var step := CheckOne(gh, second.world, name);
      FrontLast(b);
      AppendAssoc(a, b', [name]);
      calc {
        CheckAll(gh, w, a + b);
        { CheckAllSnoc(gh, w, a + b' + [name], |a + b'|); AppendNothing(a + b' + [name]); assert (a + b' + [name])[..|a + b'|] == a + b'; }
        Sweep(CheckOne(gh, whole.world, name).world, whole.found + Found(CheckOne(gh, whole.world, name).found));
        { CheckAllAppend(gh, w, a, b'); }
        Sweep(step.world, (first.found + second.found) + Found(step.found));
        { AppendAssoc(first.found, second.found, Found(step.found)); }
        Sweep(step.world, first.found + (second.found + Found(step.found)));
        { CheckAllSnoc(gh, first.world, b' + [name], |b'|); AppendNothing(b' + [name]); assert (b' + [name])[..|b'|] == b'; }
        Sweep(CheckAll(gh, first.world, b).world, first.found + CheckAll(gh, first.world, b).found);
      }
    }
  }

  /** One organization of `check_organizations`: its listing, then its repositories. */
  function CheckOrg(gh: GitHub, w: World, org: string, bound: nat): Sweep
  {
    var listing := ListFrom(gh, w.session, org, 1, bound);
    CheckAll(gh, World(listing.session, w.rows), listing.names)
  }

  /** `check_organizations` over `orgs`. */
  function CheckOrgs(gh: GitHub, w: World, orgs: seq<string>, bound: nat): Sweep
    decreases |orgs|
  {
    if orgs == [] then Sweep(w, [])
    else
      var before := CheckOrgs(gh, w, orgs[..|orgs| - 1], bound);
      var after := CheckOrg(gh, before.world, orgs[|orgs| - 1], bound);
      Sweep(after.world, before.found + after.found)
  }

  /** Checking one more organization after `orgs`. */
  lemma CheckOrgsSnoc(gh: GitHub, w: World, orgs: seq<string>, org: string, bound: nat)
    ensures var before := CheckOrgs(gh, w, orgs, bound);
      var after := CheckOrg(gh, before.world, org, bound);
      CheckOrgs(gh, w, orgs + [org], bound) == Sweep(after.world, before.found + after.found)
  {
    assert (orgs + [org])[..|orgs + [org]| - 1] == orgs;
  }

  /**
   * Checking two lists of organizations one after the other is checking
   * their concatenation: `all_transfers` is the concatenation of the
   * per-organization results.
   */
  lemma {:induction false} CheckOrgsAppend(gh: GitHub, w: World, a: seq<string>, b: seq<string>, bound: nat)
    ensures var first := CheckOrgs(gh, w, a, bound);
      var second := CheckOrgs(gh, first.world, b, bound);
      CheckOrgs(gh, w, a + b, bound) == Sweep(second.world, first.found + second.found)
    decreases |b|
  {
    var first := CheckOrgs(gh, w, a, bound);
    if b == [] {
      AppendNothing(a);
      AppendNothing(first.found);
    } else {
      var b', org := b[..|b| - 1], b[|b| - 1];
      var whole := CheckOrgs(gh, w, a + b', bound);
      var second := CheckOrgs(gh, first.world, b', bound);
      var after := CheckOrg(gh, second.world, org, bound);
      calc {
        CheckOrgs(gh, w, a + b, bound);
        { FrontLast(b); AppendAssoc(a, b', [org]); }
        CheckOrgs(gh, w, (a + b') + [org], bound);
        { CheckOrgsSnoc(gh, w, a + b', org, bound); }
        Sweep(CheckOrg(gh, whole.world, org, bound).world, whole.found + CheckOrg(gh, whole.world, org, bound).found);
        { CheckOrgsAppend(gh, w, a, b', bound); }
        Sweep(after.world, (first.found + second.found) + after.found);
        { AppendAssoc(first.found, second.found, after.found); }
        Sweep(after.world, first.found + (second.found + after.found));
        { FrontLast(b); CheckOrgsSnoc(gh, first.world, b', org, bound); }
        Sweep(CheckOrgs(gh, first.world, b, bound).world, first.found + CheckOrgs(gh, first.world, b, bound).found);
      }
    }
  }

  /** `GitHubTracker`: the store it writes to, GitHub, and the rate-limit fields. */
  class GitHubTracker {
    const token: string
    const db: RepoRadarDB
    const github: GitHub
    var remainingRequests: int
    var rateLimitReset: int
    var clock: int
    var sent: nat

    function State(): Session
      reads this
    {
      Session(remainingRequests, rateLimitReset, clock, sent)
    }

    ghost predicate Valid()
      reads this, db
    {
      db.Valid()
    }

    /** `__init__`: no reset time known yet and the full hourly budget of 5000 requests. */
    constructor (token: string, db: RepoRadarDB, github: GitHub, now: int)
      requires db.Valid()
      ensures Valid()
      ensures this.token == token && this.db == db && this.github == github
      ensures State() == Session(5000, 0, now, 0)
    {
      this.token := token;
      this.db := db;
      this.github := github;
      rateLimitReset := 0;
      remainingRequests := 5000;
      clock := now;
      sent := 0;
    }

    /** `check_rate_limit`. */
    method CheckRateLimit()
      modifies this
      ensures State() == AfterCheck(old(State()))
    {
      if remainingRequests < 10 {
        var ahead := rateLimitReset * 1000 - clock;
        var sleepTime := if ahead > 0 then ahead else 0;
        if sleepTime > 0 {
          clock := clock + sleepTime + 1000;
        }
      }
    }

    /** `make_request`, where `reply` is GitHub's answer to this request. */
    method MakeRequest<T>(reply: Reply<T>) returns (body: Option<T>)
      modifies this
      ensures Fetched(State(), body) == Request(old(State()), reply)
    {
      CheckRateLimit();
      sent := sent + 1;
      match reply {
        case NoResponse =>
          body := None;
        case Response(status, b, remaining, reset) =>
          remainingRequests := remaining.GetOr(0);
          rateLimitReset := reset.GetOr(0);
          body := if status == 200 then Some(b) else None;
      }
    }

    /** `get_repo_info`. */
    method GetRepoInfo(name: string) returns (info: Option<RepoInfo>)
      modifies this
      ensures Fetched(State(), info) == Request(old(State()), github.repo(name, old(sent)))
    {
      info := MakeRequest(github.repo(name, sent));
    }

    /**
     * `get_repo_events`, with `since` an instant in UTC milliseconds; without
     * one, the hour before the call.
     */
    method GetRepoEvents(name: string, since: Option<int> := None) returns (events: seq<Event>)
      modifies this
      ensures var f := Request(old(State()), github.events(name, old(sent)));
        && State() == f.session
        && events == if f.body.None? then [] else TransferEvents(f.body.value, since.GetOr(old(clock) - 3600000))
    {
      var start := if since.None? then clock - 3600000 else since.value;
      var body := MakeRequest(github.events(name, sent));
      if body.None? || body.value == [] {
        return [];
      }
      events := SelectTransferEvents(body.value, start);
    }

    /** `get_org_repos`: pages 1, 2, ... until one is missing or empty. */
    method GetOrgRepos(org: string, ghost bound: nat) returns (repos: seq<string>)
      requires 1 <= bound && PagesEnd(github, org, bound)
      modifies this
      ensures Listing(State(), repos) == ListFrom(github, old(State()), org, 1, bound)
    {
      ghost var all := ListFrom(github, State(), org, 1, bound);
      ghost var todo := all.names;
      repos := [];
      var page := 1;
      while true
        invariant 1 <= page <= bound
        invariant ListFrom(github, State(), org, page, bound) == Listing(all.session, todo)
        invariant repos + todo == all.names
        decreases bound - page
      {
        ghost var before := State();
        var response := MakeRequest(github.orgPage(org, page, sent));
        if response.None? || response.value == [] {
          AppendNothing(repos);
          break;
        }
        assert Listed(github.orgPage(org, page, before.sent)) != [];
        var names := response.value;
        ghost var rest := ListFrom(github, State(), org, page + 1, bound);
        assert todo == names + rest.names;
        ghost var start := repos;
        var i := 0;
        while i < |names|
          invariant 0 <= i <= |names|
          invariant repos == start + names[..i]
          modifies {}
        {
          TakeSnoc(names, i);
          repos := repos + [names[i]];
          i := i + 1;
        }
        AppendNothing(names);
        AppendAssoc(start, names, rest.names);
        todo := rest.names;
        page := page + 1;
      }
    }

    /** `detect_ownership_change`: ask for the current information, then apply the heuristic, dated now. */
    method DetectOwnershipChange(name: string) returns (t: Option<Transfer>)
      modifies this
      ensures var f := Request(old(State()), github.repo(name, old(sent)));
        && State() == f.session
        && t == if f.body.None? then None else Detect(name, f.body.value, f.session.clock)
    {
      var info := GetRepoInfo(name);
      if info.None? {
        return None;
      }
      t := Detect(name, info.value, clock);
    }

    /**
     * One iteration of `check_repositories`: ask for the repository; when
     * there is an answer, detect, store a detection, and sleep 100 ms.
     */
    method CheckRepository(repo: string) returns (transfer: Option<Transfer>)
      requires Valid()
      modifies this, db
      ensures Valid()
      ensures Checked(World(State(), db.rows), transfer) == CheckOne(github, World(old(State()), old(db.rows)), repo)
    {
      var info := GetRepoInfo(repo);
      if info.None? {
        return None;
      }
      transfer := DetectOwnershipChange(repo);
      if transfer.Some? {
        var t := transfer.value;
        var stored := db.AddTransfer(clock / 1000, t.repo, t.oldOwner, t.newOwner, t.date, t.stars, t.language);
      }
      clock := clock + 100;
    }

    /** `check_repositories`. */
    method CheckRepositories(repos: seq<string>) returns (transfers: seq<Transfer>)
      requires Valid()
      modifies this, db
      ensures Valid()
      ensures Sweep(World(State(), db.rows), transfers) == CheckAll(github, World(old(State()), old(db.rows)), repos)
    {
      ghost var w := World(State(), db.rows);
      transfers := [];
      var i := 0;
      while i < |repos|
        invariant 0 <= i <= |repos|
        invariant Valid()
        invariant Sweep(World(State(), db.rows), transfers) == CheckAll(github, w, repos[..i])
      {
        CheckAllSnoc(github, w, repos, i);
        var transfer := CheckRepository(repos[i]);
        if transfer.Some? {
          transfers := transfers + [transfer.value];
        } else {
          AppendNothing(transfers);
        }
        i := i + 1;
      }
      AppendNothing(repos);
    }

    /** `check_organizations`. */
    method CheckOrganizations(orgs: seq<string>, ghost bound: nat) returns (all: seq<Transfer>)
      requires Valid()
      requires 1 <= bound && forall org :: org in orgs ==> PagesEnd(github, org, bound)
      modifies this, db
      ensures Valid()
      ensures Sweep(World(State(), db.rows), all) == CheckOrgs(github, World(old(State()), old(db.rows)), orgs, bound)
    {
      ghost var w := World(State(), db.rows);
      all := [];
      var i := 0;
      while i < |orgs|
        invariant 0 <= i <= |orgs|
        invariant Valid()
        invariant Sweep(World(State(), db.rows), all) == CheckOrgs(github, w, orgs[..i], bound)
      {
        var org := orgs[i];
        assert PagesEnd(github, org, bound) by {
          assert org in orgs;
        }
        ghost var now := World(State(), db.rows);
        var repos := GetOrgRepos(org, bound);
        var transfers := CheckRepositories(repos);
        assert Sweep(World(State(), db.rows), transfers) == CheckOrg(github, now, org, bound);
        TakeSnoc(orgs, i);
        CheckOrgsSnoc(github, w, orgs[..i], org, bound);
        all := all + transfers;
        i := i + 1;
      }
      AppendNothing(orgs);
    }
  }
}
