/**
 * The Slack notifier: the alert policy (`should_alert`), the single and the
 * batch message formats, and the sending methods. The webhook post itself is
 * an oracle `deliver` that says whether the post succeeded; every post the
 * notifier attempts is recorded in `posted`.
 */
module Notifier {
  import opened Wrappers
  import opened Text
  import opened Seqs
  import opened Transfers

  /** One webhook post: the URL, the title (`text`) and the message (`attachments[0].text`). */
  datatype Post = Post(url: string, title: string, message: string)

  const DefaultTitle: string := "RepoRadar Alert"
  const SingleTitle: string := "\U{1F514} High-Value Repository Transfer"
  const BatchTitle: string := "\U{1F514} Multiple Repository Transfers"

  /** The loop over `target_buyers`: does some lower-cased buyer occur in `owner`? */
  function MatchesTarget(targetBuyers: seq<string>, owner: string): bool
    decreases |targetBuyers|
  {
    if targetBuyers == [] then false
    else Contains(owner, Lower(targetBuyers[0])) || MatchesTarget(targetBuyers[1..], owner)
  }

  /** `should_alert`: enough stars, or a target buyer inside the new owner's name (both lower-cased). */
  predicate ShouldAlert(t: Transfer, targetBuyers: seq<string>, minStars: int) {
    t.stars >= minStars || MatchesTarget(targetBuyers, Lower(t.newOwner))
  }

  lemma {:induction false} MatchesTargetIff(targetBuyers: seq<string>, owner: string)
    ensures MatchesTarget(targetBuyers, owner) <==> exists b :: b in targetBuyers && Contains(owner, Lower(b))
    decreases |targetBuyers|
  {
    if targetBuyers != [] {
      MatchesTargetIff(targetBuyers[1..], owner);
      FirstRest(targetBuyers);
    }
  }

  /**
   * The alert policy: a transfer qualifies exactly when its stars reach the
   * threshold or some target buyer, lower-cased, occurs in the lower-cased new
   * owner; with no targets only the stars count.
   */
  lemma ShouldAlertIff(t: Transfer, targetBuyers: seq<string>, minStars: int)
    ensures ShouldAlert(t, targetBuyers, minStars) <==>
      t.stars >= minStars ||
      exists b, i :: b in targetBuyers && OccursAt(Lower(b), Lower(t.newOwner), i)
    ensures targetBuyers == [] ==> (ShouldAlert(t, targetBuyers, minStars) <==> t.stars >= minStars)
  {
    var owner := Lower(t.newOwner);
    MatchesTargetIff(targetBuyers, owner);
    forall b | b in targetBuyers {
      ContainsIff(owner, Lower(b));
    }
  }

  /** An empty target buyer matches every owner, so every transfer qualifies. */
  lemma EmptyTargetMatchesAll(t: Transfer, targetBuyers: seq<string>, minStars: int)
    requires "" in targetBuyers
    ensures ShouldAlert(t, targetBuyers, minStars)
  {
    ContainsEmpty(Lower(t.newOwner));
    assert Lower("") == "";
    MatchesTargetIff(targetBuyers, Lower(t.newOwner));
  }

  /** `[t for t in transfers if self.should_alert(t, target_buyers, min_stars)]`. */
  function Qualifying(transfers: seq<Transfer>, targetBuyers: seq<string>, minStars: int): seq<Transfer> {
    Filter(t => ShouldAlert(t, targetBuyers, minStars), transfers)
  }

  /**
   * The qualifying transfers are a stable filter: every occurrence of a
   * qualifying transfer is kept, none of another, and the selection of a
   * concatenation is the concatenation of the selections (so order is kept).
   */
  lemma QualifyingStable(transfers: seq<Transfer>, more: seq<Transfer>, targetBuyers: seq<string>, minStars: int)
    ensures forall t :: multiset(Qualifying(transfers, targetBuyers, minStars))[t] ==
                        if ShouldAlert(t, targetBuyers, minStars) then multiset(transfers)[t] else 0
    ensures Qualifying(transfers + more, targetBuyers, minStars) ==
      Qualifying(transfers, targetBuyers, minStars) + Qualifying(more, targetBuyers, minStars)
  {
    FilterCounts(t => ShouldAlert(t, targetBuyers, minStars), transfers);
    FilterAppend(t => ShouldAlert(t, targetBuyers, minStars), transfers, more);
  }

  /** Python's f-string rendering of the language: `None` prints as "None". */
  function LanguageText(language: Option<string>): string {
    match language
    case None => "None"
    case Some(l) => l
  }

  function RepoUrl(repo: string): string {
    "https://github.com/" + repo
  }

  const TransferHeadline: string := "\U{1F6A8} *Repository Transfer Detected*\n\n"

  /** The pieces of `format_transfer_message`, in order: literal text and the transfer's fields. */
  function TransferParts(t: Transfer): seq<string> {
    [ TransferHeadline,
      "*Repository:* `", t.repo,
      "`\n*From:* ", t.oldOwner,
      "\n*To:* ", t.newOwner,
      "\n*Stars:* \U{2B50} ", ThousandsSep(t.stars),
      "\n*Language:* ", LanguageText(t.language),
      "\n*GitHub:* ", RepoUrl(t.repo) ]
  }

  /** `format_transfer_message`: the pieces concatenated. */
  function FormatTransferMessage(t: Transfer): string {
    Concat(TransferParts(t))
  }

  /** Every piece of a concatenated message is contained in it. */
  lemma ContainsPart(parts: seq<string>, k: nat)
    requires k < |parts|
    ensures Contains(Concat(parts), parts[k])
  {
    ConcatAt(parts, k);
    ContainsInfix(Concat(parts[..k]), parts[k], Concat(parts[k + 1..]));
  }

  /** The last piece of a concatenated message is its suffix. */
  lemma EndsWithLastPart(parts: seq<string>)
    requires |parts| > 0
    ensures var m, last := Concat(parts), parts[|parts| - 1];
      |last| <= |m| && m[|m| - |last|..] == last
  {
  }

  /**
   * The single-transfer message names the repository, both owners, the
   * thousands-grouped stars and the language.
   */
  lemma FormatTransferMessageMentions(t: Transfer)
    ensures var m := FormatTransferMessage(t);
      && Contains(m, t.repo)
      && Contains(m, t.oldOwner)
      && Contains(m, t.newOwner)
      && Contains(m, ThousandsSep(t.stars))
      && Contains(m, LanguageText(t.language))
  {
    var parts := TransferParts(t);
    ContainsPart(parts, 2);
    ContainsPart(parts, 4);
    ContainsPart(parts, 6);
    ContainsPart(parts, 8);
    ContainsPart(parts, 10);
  }

  /** The single-transfer message opens with the headline and ends with the repository's GitHub URL. */
  lemma FormatTransferMessageFrame(t: Transfer)
    ensures var m := FormatTransferMessage(t);
      && TransferHeadline <= m
      && |RepoUrl(t.repo)| <= |m| && m[|m| - |RepoUrl(t.repo)|..] == RepoUrl(t.repo)
  {
    var parts := TransferParts(t);
    EndsWithLastPart(parts);
    ConcatAt(parts, 0);
    assert Concat(parts[..0]) == [];
  }

  // ---------------------------------------------------------------------
  // The batch message.
  // ---------------------------------------------------------------------

  /** How many entries the batch message lists: `qualifying_transfers[:10]`. */
  function Shown(n: nat): (k: nat)
    ensures k <= n && k <= 10
    ensures k == n || k == 10
  {
    if n < 10 then n else 10
  }

  /** The header line of the batch message, without its two line breaks. */
  function HeaderText(n: nat): string {
    Concat(["\U{1F6A8} *", IntToString(n), " High-Value Repository Transfers Detected*"])
  }

  function BatchHeader(n: nat): string {
    HeaderText(n) + "\n\n"
  }

  /** Entry `i` (counting from 1) of the numbered list, without its line break. */
  function EntryText(i: nat, t: Transfer): string {
    Concat([IntToString(i), ". `", t.repo, "` (", t.oldOwner, " \U{2192} ", t.newOwner, ") \U{2B50} ", ThousandsSep(t.stars)])
  }

  function EntryLine(i: nat, t: Transfer): string {
    EntryText(i, t) + "\n"
  }

  /** The closing line for the transfers beyond the first ten. */
  function MoreLine(extra: int): string {
    "\n" + MoreText(extra)
  }

  /** The entries for the first `n` transfers of `q`, numbered from 1. */
  function Entries(q: seq<Transfer>, n: nat): string
    requires n <= |q|
  {
    if n == 0 then "" else Entries(q, n - 1) + EntryLine(n, q[n - 1])
  }

  /** The batch message for two or more qualifying transfers. */
  function BatchMessage(q: seq<Transfer>): string {
    BatchHeader(|q|) + Entries(q, Shown(|q|)) + (if |q| > 10 then MoreLine(|q| - 10) else "")
  }

  /** The loop of `send_batch_alert` that builds the batch message with `+=`. */
  method ComposeBatchMessage(q: seq<Transfer>) returns (message: string)
    ensures message == BatchMessage(q)
  {
    var header := BatchHeader(|q|);
    message := header;
    var i := 0;
    while i < |q| && i < 10
      invariant 0 <= i <= Shown(|q|)
      invariant message == header + Entries(q, i)
    {
      var line := EntryLine(i + 1, q[i]);
      assert Entries(q, i + 1) == Entries(q, i) + line;
      message := message + line;
      i := i + 1;
    }
    if |q| > 10 {
      message := message + MoreLine(|q| - 10);
    }
  }

  /** Each of the first `n` entries stands in the list of `n` entries. */
  lemma {:induction false} EntriesHold(q: seq<Transfer>, n: nat, k: nat)
    requires k < n <= |q|
    ensures Contains(Entries(q, n), EntryLine(k + 1, q[k]))
    decreases n
  {
    if k == n - 1 {
      ContainsInfix(Entries(q, n - 1), EntryLine(n, q[n - 1]), "");
      assert Entries(q, n - 1) + EntryLine(n, q[n - 1]) + "" == Entries(q, n);
    } else {
      EntriesHold(q, n - 1, k);
      ContainsWithin(Entries(q, n - 1), EntryLine(k + 1, q[k]), "", EntryLine(n, q[n - 1]));
      assert "" + Entries(q, n - 1) + EntryLine(n, q[n - 1]) == Entries(q, n);
    }
  }

  /**
   * The batch message opens with the header that states the number of
   * qualifying transfers, holds the numbered entry of each of the first ten,
   * and ends with the "...and K more transfers" line exactly when there are
   * more than ten (otherwise it ends with a line break).
   */
  lemma BatchMessageShape(q: seq<Transfer>)
    ensures var m := BatchMessage(q);
      && BatchHeader(|q|) <= m
      && (forall k :: 0 <= k < Shown(|q|) ==> Contains(m, EntryLine(k + 1, q[k])))
      && (|q| > 10 ==> m[|m| - |MoreLine(|q| - 10)|..] == MoreLine(|q| - 10))
      && (|q| <= 10 ==> m[|m| - 1] == '\n')
  {
    var m := BatchMessage(q);
    var n := Shown(|q|);
    var head := BatchHeader(|q|);
    var body := Entries(q, n);
    var tail := if |q| > 10 then MoreLine(|q| - 10) else "";
    assert m == head + body + tail;
    forall k | 0 <= k < n
      ensures Contains(m, EntryLine(k + 1, q[k]))
    {
      EntriesHold(q, n, k);
      ContainsWithin(body, EntryLine(k + 1, q[k]), head, tail);
    }
  }

  /** Number of line breaks in a string. */
  function LineBreaks(s: string): nat
    decreases |s|
  {
    if s == [] then 0 else LineBreaks(s[..|s| - 1]) + (if s[|s| - 1] == '\n' then 1 else 0)
  }

  /** A string without a line break has none to count. */
  lemma {:induction false} NoLineBreaks(s: string)
    requires '\n' !in s
    ensures LineBreaks(s) == 0
    decreases |s|
  {
    if s != [] {
      assert s[..|s| - 1] + [s[|s| - 1]] == s;
      NoLineBreaks(s[..|s| - 1]);
    }
  }

  /** No repository or owner name of `q` holds a line break. */
  predicate OneLineNames(q: seq<Transfer>) {
    forall t :: t in q ==> '\n' !in t.repo && '\n' !in t.oldOwner && '\n' !in t.newOwner
  }

  /** An entry is one line when its names hold no line break. */
  lemma EntryLineBreaks(i: nat, t: Transfer)
    requires '\n' !in t.repo && '\n' !in t.oldOwner && '\n' !in t.newOwner
    ensures LineBreaks(EntryLine(i, t)) == 1
  {
    EntryTextOneLine(i, t);
    NoLineBreaks(EntryText(i, t));
    LineBreaksAfter(EntryText(i, t), "\n");
    assert "\n"[..0] == [];
  }

  lemma EntryTextOneLine(i: nat, t: Transfer)
    requires '\n' !in t.repo && '\n' !in t.oldOwner && '\n' !in t.newOwner
    ensures '\n' !in EntryText(i, t)
  {
    IntToStringOneLine(i);
    ThousandsSepOneLine(t.stars);
    ConcatAvoids([IntToString(i), ". `", t.repo, "` (", t.oldOwner, " \U{2192} ", t.newOwner, ") \U{2B50} ", ThousandsSep(t.stars)], '\n');
  }

  lemma {:induction false} EntriesLines(q: seq<Transfer>, n: nat)
    requires n <= |q|
    requires OneLineNames(q)
    ensures LineBreaks(Entries(q, n)) == n
    decreases n
  {
    if n > 0 {
      EntriesLines(q, n - 1);
      assert q[n - 1] in q;
      EntryLineBreaks(n, q[n - 1]);
      LineBreaksAfter(Entries(q, n - 1), EntryLine(n, q[n - 1]));
    }
  }

  /**
   * When no repository or owner name holds a line break, the batch message
   * has exactly one line per listed entry besides the header's two breaks and
   * the break that opens the "...and" line: min(n, 10) entries, plus one iff
   * n > 10.
   */
  lemma BatchMessageLines(q: seq<Transfer>)
    requires OneLineNames(q)
    ensures LineBreaks(BatchMessage(q)) == 2 + Shown(|q|) + (if |q| > 10 then 1 else 0)
  {
    var head, body := BatchHeader(|q|), Entries(q, Shown(|q|));
    var tail := if |q| > 10 then MoreLine(|q| - 10) else "";
    assert BatchMessage(q) == head + body + tail;
    LineBreaksAfter(head, body);
    LineBreaksAfter(head + body, tail);
    EntriesLines(q, Shown(|q|));
    HeaderLineBreaks(|q|);
    if |q| > 10 {
      MoreLineBreaks(|q| - 10);
    }
  }

  lemma HeaderTextOneLine(n: nat)
    ensures '\n' !in HeaderText(n)
  {
    IntToStringOneLine(n);
    ConcatAvoids(["\U{1F6A8} *", IntToString(n), " High-Value Repository Transfers Detected*"], '\n');
  }

  /** The header is one line followed by a blank one. */
  lemma HeaderLineBreaks(n: nat)
    ensures LineBreaks(BatchHeader(n)) == 2
    ensures |BatchHeader(n)| >= 2 && BatchHeader(n)[|BatchHeader(n)| - 2..] == "\n\n"
  {
    HeaderTextOneLine(n);
    NoLineBreaks(HeaderText(n));
    LineBreaksAfter(HeaderText(n), "\n\n");
    assert "\n\n"[..1] == "\n" && "\n"[..0] == [];
  }

  /** The "...and" line without its opening line break. */
  function MoreText(extra: int): string {
    Concat(["...and ", IntToString(extra), " more transfers"])
  }

  lemma MoreTextOneLine(extra: int)
    ensures '\n' !in MoreText(extra)
  {
    IntToStringOneLine(extra);
    ConcatAvoids(["...and ", IntToString(extra), " more transfers"], '\n');
  }

  lemma MoreLineBreaks(extra: int)
    ensures LineBreaks(MoreLine(extra)) == 1
  {
    MoreTextOneLine(extra);
    NoLineBreaks(MoreText(extra));
    LineBreaksAfter("\n", MoreText(extra));
    assert "\n"[..0] == [];
  }

  /** The line breaks of a concatenation are those of its two halves. */
  lemma {:induction false} LineBreaksAfter(a: string, b: string)
    ensures LineBreaks(a + b) == LineBreaks(a) + LineBreaks(b)
    decreases |b|
  {
    if b == [] {
      assert a + b == a;
    } else {
      assert (a + b)[..|a + b| - 1] == a + b[..|b| - 1];
      LineBreaksAfter(a, b[..|b| - 1]);
    }
  }

  /** The title of the alert for the qualifying transfers `q`. */
  function AlertTitle(q: seq<Transfer>): string {
    if |q| == 1 then SingleTitle else BatchTitle
  }

  /** The message of the alert: the single-transfer format for one, the batch format for more. */
  function AlertMessage(q: seq<Transfer>): string {
    if |q| == 1 then FormatTransferMessage(q[0]) else BatchMessage(q)
  }

  /** `SlackNotifier`: an optional webhook and the log of attempted posts. */
  class SlackNotifier {
    const webhookUrl: Option<string>
    const enabled: bool
    var posted: seq<Post>

    ghost predicate Valid()
      reads this
    {
      enabled == webhookUrl.Some?
    }

    /** `__init__`: notifications are enabled exactly when a webhook URL is given. */
    constructor (webhookUrl: Option<string> := None)
      ensures Valid()
      ensures this.webhookUrl == webhookUrl && enabled == webhookUrl.Some?
      ensures posted == []
    {
      this.webhookUrl := webhookUrl;
      this.enabled := webhookUrl.Some?;
      posted := [];
    }

    /** `send_message`: nothing is posted when disabled; otherwise one post, whose outcome is the result. */
    method SendMessage(message: string, deliver: Post -> bool, title: string := DefaultTitle)
      returns (ok: bool)
      requires Valid()
      modifies this
      ensures !enabled ==> !ok && posted == old(posted)
      ensures enabled ==>
        var p := Post(webhookUrl.value, title, message);
        posted == old(posted) + [p] && ok == deliver(p)
    {
      if !enabled {
        return false;
      }
      var p := Post(webhookUrl.value, title, message);
      posted := posted + [p];
      ok := deliver(p);
    }

    /** `send_transfer_alert`: posts the single-transfer message when the transfer qualifies. */
    method SendTransferAlert(t: Transfer, targetBuyers: seq<string>, deliver: Post -> bool, minStars: int := 1000)
      returns (ok: bool)
      requires Valid()
      modifies this
      ensures !(ShouldAlert(t, targetBuyers, minStars) && enabled) ==> !ok && posted == old(posted)
      ensures ShouldAlert(t, targetBuyers, minStars) && enabled ==>
        var p := Post(webhookUrl.value, SingleTitle, FormatTransferMessage(t));
        posted == old(posted) + [p] && ok == deliver(p)
    {
      if !ShouldAlert(t, targetBuyers, minStars) {
        return false;
      }
      var message := FormatTransferMessage(t);
      ok := SendMessage(message, deliver, SingleTitle);
    }

    /**
     * `send_batch_alert`: selects the qualifying transfers; with none it
     * posts nothing, with one it sends the single-transfer alert, with more
     * the batch message.
     */
    method SendBatchAlert(transfers: seq<Transfer>, targetBuyers: seq<string>, deliver: Post -> bool,
                          minStars: int := 1000)
      returns (ok: bool)
      requires Valid()
      modifies this
      ensures var q := Qualifying(transfers, targetBuyers, minStars);
        !(|q| > 0 && enabled) ==> !ok && posted == old(posted)
      ensures var q := Qualifying(transfers, targetBuyers, minStars);
        |q| > 0 && enabled ==>
          var p := Post(webhookUrl.value, AlertTitle(q), AlertMessage(q));
          posted == old(posted) + [p] && ok == deliver(p)
    {
      var q := Qualifying(transfers, targetBuyers, minStars);
      if |q| == 0 {
        return false;
      }
      if |q| == 1 {
        FilterMembers(t => ShouldAlert(t, targetBuyers, minStars), transfers);
        assert q[0] in q;
        ok := SendTransferAlert(q[0], targetBuyers, deliver, minStars);
        return;
      }
      var message := ComposeBatchMessage(q);
      ok := SendMessage(message, deliver, BatchTitle);
    }
  }
}
