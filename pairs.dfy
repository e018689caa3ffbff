/** The pair reconstructor `process_to_pairs` (app.py:239-287): group the
    records by session, sort each session by time, fold the bot turns that
    follow a user turn into that turn's pair, drop the pairs of the
    bot-initiated marker and sort what is left newest first. */
module Pairs {
  import opened Wrappers
  import opened Seqs
  import opened Sorting
  import opened Messages

  const Sentinel := "(Bot Initiated / Welcome)"
  const Separator := " \n "

  /** The Query of a pair that no user turn opened. */
  predicate IsSentinel(text: string)
  {
    text == Sentinel
  }

  /** One row of the result table. */
  datatype Pair = Pair(Timestamp: int, SessionID: string, UserID: string, Query: string, Response: string)

  /** The columns of a pair that come from its query message. */
  datatype Head = Head(Timestamp: int, SessionID: string, UserID: string, Query: string)

  function TimeOf(r: Record): int
  {
    r.Timestamp
  }

  /** The key that puts the newest pair first. */
  function Newest(p: Pair): int
  {
    -p.Timestamp
  }

  predicate NewestFirst(ps: seq<Pair>)
  {
    forall i, j :: 0 <= i < j < |ps| ==> ps[i].Timestamp >= ps[j].Timestamp
  }

  // ---------------------------------------------------------------------
  // The walk over one session, as the source performs it
  // ---------------------------------------------------------------------

  /** `current_pair["Response"] += " \n " + text`, or `= text` while it is empty. */
  function AddReply(response: string, text: string): string
  {
    if response != "" then response + Separator + text else text
  }

  function Flush(current: Option<Pair>): seq<Pair>
  {
    if current.Some? then [current.value] else []
  }

  /** The pairs the walk appends to `final_pairs` while it goes over `chats`
      with `current` as the open pair, including the final close. */
  function Walk(sid: string, current: Option<Pair>, chats: seq<Record>): seq<Pair>
    decreases |chats|
  {
    if chats == [] then Flush(current)
    else
      var chat := chats[0];
      if chat.Sender == User then
        Flush(current) + Walk(sid, Some(Pair(chat.Timestamp, sid, chat.UserID, chat.Message, "")), chats[1..])
      else if current.Some? then
        Walk(sid, Some(current.value.(Response := AddReply(current.value.Response, chat.Message))), chats[1..])
      else
        [Pair(chat.Timestamp, sid, chat.UserID, Sentinel, chat.Message)] + Walk(sid, None, chats[1..])
  }

  /** The replies folded into a pair's Response, one after the other. */
  function FoldReplies(response: string, texts: seq<string>): string
    decreases |texts|
  {
    if texts == [] then response else FoldReplies(AddReply(response, texts[0]), texts[1..])
  }

  // ---------------------------------------------------------------------
  // An independent description of the pairs of one session
  // ---------------------------------------------------------------------

  /** The number of bot turns before the next user turn. */
  function NextUser(chats: seq<Record>): (k: nat)
    ensures k <= |chats|
  {
    if chats == [] || chats[0].Sender == User then 0 else 1 + NextUser(chats[1..])
  }

  /** The turns before `NextUser(chats)` are bot turns and the one at it, if
      any, is a user turn. */
  lemma {:induction false} NextUserStops(chats: seq<Record>)
    ensures forall i :: 0 <= i < NextUser(chats) ==> chats[i].Sender == Bot
    ensures NextUser(chats) < |chats| ==> chats[NextUser(chats)].Sender == User
  {
    if chats != [] && chats[0].Sender == Bot {
      NextUserStops(chats[1..]);
    }
  }

  function Texts(chats: seq<Record>): (texts: seq<string>)
    ensures |texts| == |chats|
  {
    if chats == [] then [] else [chats[0].Message] + Texts(chats[1..])
  }

  /** `" \n ".join(texts)` */
  function Join(texts: seq<string>): string
  {
    if texts == [] then ""
    else if |texts| == 1 then texts[0]
    else texts[0] + Separator + Join(texts[1..])
  }

  function DropEmptyPrefix(texts: seq<string>): seq<string>
  {
    if texts != [] && texts[0] == "" then DropEmptyPrefix(texts[1..]) else texts
  }

  /** The Response built from the bot texts that answer a query: the texts
      joined with " \n ", leaving out empty texts that come before the first
      non-empty one (an empty Response is overwritten rather than extended). */
  function ReplyText(texts: seq<string>): string
  {
    Join(DropEmptyPrefix(texts))
  }

  /** The surviving pairs of one chronologically ordered session: one per user
      turn whose text is not the marker, answered by exactly the bot turns
      between it and the next user turn. Bot turns before the first user turn
      give nothing. */
  function Expected(sid: string, chats: seq<Record>): seq<Pair>
    decreases |chats|
  {
    if chats == [] then []
    else if chats[0].Sender == Bot then Expected(sid, chats[1..])
    else
      var k := 1 + NextUser(chats[1..]);
      var query := chats[0];
      (if !IsSentinel(query.Message)
       then [Pair(query.Timestamp, sid, query.UserID, query.Message, ReplyText(Texts(chats[1..k])))]
       else [])
      + Expected(sid, chats[k..])
  }

  /** `df[df['Query'] != "(Bot Initiated / Welcome)"]`, one row at a time. */
  function Surviving(p: Pair): Option<Pair>
  {
    if !IsSentinel(p.Query) then Some(p) else None
  }

  lemma {:induction false} FoldNonEmpty(response: string, texts: seq<string>)
    requires response != ""
    ensures FoldReplies(response, texts) == response + (if texts == [] then "" else Separator + Join(texts))
    decreases |texts|
  {
    if texts != [] {
      var t := texts[0];
      var next := response + Separator + t;
      FoldNonEmpty(next, texts[1..]);
      if |texts| == 1 {
        assert texts[1..] == [];
      } else {
        assert Join(texts) == t + Separator + Join(texts[1..]);
        assert next + (Separator + Join(texts[1..])) == response + (Separator + (t + Separator + Join(texts[1..])));
      }
    }
  }

  /** Folding replies into an empty Response gives the joined reply text. */
  lemma {:induction false} FoldFromEmpty(texts: seq<string>)
    ensures FoldReplies("", texts) == ReplyText(texts)
    decreases |texts|
  {
    if texts != [] {
      if texts[0] == "" {
        FoldFromEmpty(texts[1..]);
      } else {
        FoldNonEmpty(texts[0], texts[1..]);
        if |texts| == 1 {
          assert texts[1..] == [];
        }
      }
    }
  }

  /** With no empty texts the Response is exactly the " \n "-join of the replies. */
  lemma ReplyTextOfNonEmpty(texts: seq<string>)
    requires forall i :: 0 <= i < |texts| ==> texts[i] != ""
    ensures ReplyText(texts) == Join(texts)
  {
  }

  lemma {:induction false} TextsNonEmpty(chats: seq<Record>)
    requires forall i :: 0 <= i < |chats| ==> chats[i].Message != ""
    ensures forall i :: 0 <= i < |Texts(chats)| ==> Texts(chats)[i] != ""
    decreases |chats|
  {
    if chats != [] {
      TextsNonEmpty(chats[1..]);
    }
  }

  /** For records whose Messages are all non-empty, as every record the fetch
      loop returns is, the Response of a run of bot turns is exactly the
      `" \n "`-join of their texts: no leading empty reply is dropped. */
  lemma RepliesOfKeptRecords(chats: seq<Record>)
    requires forall i :: 0 <= i < |chats| ==> chats[i].Message != ""
    ensures ReplyText(Texts(chats)) == Join(Texts(chats))
  {
    TextsNonEmpty(chats);
    ReplyTextOfNonEmpty(Texts(chats));
  }

  /** From an open pair, the walk folds the bot turns up to the next user turn
      into that pair, closes it, and goes on as if nothing were open. */
  lemma {:induction false} OpenWalk(sid: string, p: Pair, chats: seq<Record>)
    ensures var k := NextUser(chats);
      Walk(sid, Some(p), chats) ==
        [p.(Response := FoldReplies(p.Response, Texts(chats[..k])))] + Walk(sid, None, chats[k..])
    decreases |chats|
  {
    var k := NextUser(chats);
    if chats == [] {
    } else if chats[0].Sender == User {
      assert chats[..0] == [] && chats[0..] == chats;
    } else {
      var rest := chats[1..];
      var p2 := p.(Response := AddReply(p.Response, chats[0].Message));
      OpenWalk(sid, p2, rest);
      assert k == 1 + NextUser(rest);
      TextsCons(chats, k);
    }
  }

  /** Cutting a nonempty run after its first `k` turns, seen from its tail. */
  lemma TextsCons(chats: seq<Record>, k: nat)
    requires 1 <= k <= |chats|
    ensures Texts(chats[..k]) == [chats[0].Message] + Texts(chats[1..][..k - 1])
    ensures chats[k..] == chats[1..][k - 1..]
  {
    assert chats[..k][1..] == chats[1..][..k - 1];
  }

  /** The walk, once the marker pairs are dropped, gives exactly the pairs of
      the independent description. */
  lemma {:induction false} WalkMatchesExpected(sid: string, chats: seq<Record>)
    ensures FilterMap(Walk(sid, None, chats), Surviving) == Expected(sid, chats)
    decreases |chats|
  {
    if chats != [] {
      var chat := chats[0];
      var rest := chats[1..];
      if chat.Sender == Bot {
        var welcome := Pair(chat.Timestamp, sid, chat.UserID, Sentinel, chat.Message);
        FilterMapAppend([welcome], Walk(sid, None, rest), Surviving);
        assert FilterMap([welcome], Surviving) == [];
        WalkMatchesExpected(sid, rest);
      } else {
        var p := Pair(chat.Timestamp, sid, chat.UserID, chat.Message, "");
        var k := NextUser(rest);
        OpenWalk(sid, p, rest);
        FoldFromEmpty(Texts(rest[..k]));
        var closed := p.(Response := ReplyText(Texts(rest[..k])));
        assert Walk(sid, None, chats) == [closed] + Walk(sid, None, rest[k..]);
        FilterMapAppend([closed], Walk(sid, None, rest[k..]), Surviving);
        WalkMatchesExpected(sid, rest[k..]);
        assert chats[1..1 + k] == rest[..k];
        assert chats[1 + k..] == rest[k..];
      }
    }
  }

  /** Bot turns before the first user turn of a session give no pair. */
  lemma {:induction false} LeadingBotsIgnored(sid: string, bots: seq<Record>, rest: seq<Record>)
    requires forall i :: 0 <= i < |bots| ==> bots[i].Sender == Bot
    ensures Expected(sid, bots + rest) == Expected(sid, rest)
    decreases |bots|
  {
    if bots != [] {
      assert (bots + rest)[0] == bots[0];
      assert (bots + rest)[1..] == bots[1..] + rest;
      LeadingBotsIgnored(sid, bots[1..], rest);
    } else {
      assert bots + rest == rest;
    }
  }

  /** The two-question session: the two bot answers to the first question are
      joined with " \n ", and the second question, left unanswered, has an
      empty Response. */
  lemma ExampleSession(sid: string, q1: Record, a1: Record, a2: Record, q2: Record)
    requires q1.Sender == User && a1.Sender == Bot && a2.Sender == Bot && q2.Sender == User
    requires !IsSentinel(q1.Message) && !IsSentinel(q2.Message) && a1.Message != ""
    ensures FilterMap(Walk(sid, None, [q1, a1, a2, q2]), Surviving) ==
      [Pair(q1.Timestamp, sid, q1.UserID, q1.Message, a1.Message + Separator + a2.Message),
       Pair(q2.Timestamp, sid, q2.UserID, q2.Message, "")]
  {
    var chats := [q1, a1, a2, q2];
    WalkMatchesExpected(sid, chats);
    assert chats[1..] == [a1, a2, q2];
    assert NextUser([a1, a2, q2]) == 2 by {
      assert NextUser([q2]) == 0;
      assert [a2, q2][1..] == [q2];
      assert NextUser([a2, q2]) == 1;
      assert [a1, a2, q2][1..] == [a2, q2];
    }
    assert chats[1..3] == [a1, a2];
    assert Texts([a1, a2]) == [a1.Message, a2.Message] by {
      assert [a1, a2][1..] == [a2];
    }
    assert Join([a1.Message, a2.Message]) == a1.Message + Separator + a2.Message by {
      assert [a1.Message, a2.Message][1..] == [a2.Message];
    }
    assert chats[3..] == [q2];
    assert Expected(sid, [q2]) == [Pair(q2.Timestamp, sid, q2.UserID, q2.Message, "")] by {
      assert [q2][1..1] == [] && [q2][1..] == [];
    }
  }

  /** One turn of the walk, taken at position `n` of the session. */
  lemma WalkStep(sid: string, current: Option<Pair>, chats: seq<Record>, n: nat)
    requires n < |chats|
    ensures var chat := chats[n];
      Walk(sid, current, chats[n..]) ==
        if chat.Sender == User then
          Flush(current) + Walk(sid, Some(Pair(chat.Timestamp, sid, chat.UserID, chat.Message, "")), chats[n + 1..])
        else if current.Some? then
          Walk(sid, Some(current.value.(Response := AddReply(current.value.Response, chat.Message))), chats[n + 1..])
        else
          [Pair(chat.Timestamp, sid, chat.UserID, Sentinel, chat.Message)] + Walk(sid, None, chats[n + 1..])
  {
    assert chats[n..][1..] == chats[n + 1..];
  }

  /** The pair walk a session is put through: the loop of the source over the
      session's chronologically sorted chats. */
  method WalkSession(sid: string, chats: seq<Record>) returns (pairs: seq<Pair>)
    ensures pairs == Walk(sid, None, chats)
    ensures FilterMap(pairs, Surviving) == Expected(sid, chats)
  {
    pairs := [];
    var current: Option<Pair> := None;
    var n := 0;
    while n < |chats|
      invariant 0 <= n <= |chats|
      invariant pairs + Walk(sid, current, chats[n..]) == Walk(sid, None, chats)
    {
      var chat := chats[n];
      WalkStep(sid, current, chats, n);
      if chat.Sender == User {
        var started := Some(Pair(chat.Timestamp, sid, chat.UserID, chat.Message, ""));
        assert pairs + Walk(sid, current, chats[n..]) == (pairs + Flush(current)) + Walk(sid, started, chats[n + 1..]);
        if current.Some? {
          pairs := pairs + [current.value];
        }
        current := started;
      } else if current.Some? {
        var p := current.value;
        if p.Response != "" {
          current := Some(p.(Response := p.Response + Separator + chat.Message));
        } else {
          current := Some(p.(Response := chat.Message));
        }
        assert current.value.Response == AddReply(p.Response, chat.Message);
      } else {
        pairs := pairs + [Pair(chat.Timestamp, sid, chat.UserID, Sentinel, chat.Message)];
      }
      n := n + 1;
    }
    if current.Some? {
      pairs := pairs + [current.value];
    }
    WalkMatchesExpected(sid, chats);
  }

  // ---------------------------------------------------------------------
  // Grouping by session
  // ---------------------------------------------------------------------

  /** The sessions in the order their first record appears: the key order of
      the `defaultdict` the records are grouped into. */
  function SessionOrder(rs: seq<Record>): (order: seq<string>)
    ensures forall i, j :: 0 <= i < j < |order| ==> order[i] != order[j]
    ensures forall sid :: sid in order <==> exists i :: 0 <= i < |rs| && rs[i].SessionID == sid
  {
    if rs == [] then []
    else
      var init := rs[..|rs| - 1];
      var o := SessionOrder(init);
      var sid := rs[|rs| - 1].SessionID;
      assert forall i :: 0 <= i < |init| ==> init[i] == rs[i];
      if sid in o then o else o + [sid]
  }

  /** The key order only grows as records arrive: the sessions of a prefix of
      the records come first, in the same order. With the membership clause of
      `SessionOrder`, this is first-appearance order. */
  lemma {:induction false} SessionOrderPrefix(rs: seq<Record>, m: nat)
    requires m <= |rs|
    ensures SessionOrder(rs[..m]) <= SessionOrder(rs)
    decreases |rs|
  {
    if m < |rs| {
      var init := rs[..|rs| - 1];
      SessionOrderPrefix(init, m);
      assert init[..m] == rs[..m];
    } else {
      assert rs[..m] == rs;
    }
  }

  /** The records of session `sid`, in their order in `rs`. */
  function SessionOf(rs: seq<Record>, sid: string): seq<Record>
  {
    if rs == [] then []
    else
      var init := rs[..|rs| - 1];
      SessionOf(init, sid) + (if rs[|rs| - 1].SessionID == sid then [rs[|rs| - 1]] else [])
  }

  /** The group of a session holds records of that session only, all from `rs`. */
  lemma {:induction false} SessionOfMembers(rs: seq<Record>, sid: string)
    ensures forall i :: 0 <= i < |SessionOf(rs, sid)| ==> SessionOf(rs, sid)[i].SessionID == sid
    ensures forall i :: 0 <= i < |SessionOf(rs, sid)| ==> SessionOf(rs, sid)[i] in rs
  {
    if rs != [] {
      var init := rs[..|rs| - 1];
      var last := rs[|rs| - 1];
      var tail := if last.SessionID == sid then [last] else [];
      var prev := SessionOf(init, sid);
      var group := SessionOf(rs, sid);
      SessionOfMembers(init, sid);
      assert group == prev + tail;
      assert rs == init + [last];
      forall i | 0 <= i < |group|
        ensures group[i].SessionID == sid && group[i] in rs
      {
        if i < |prev| {
          assert group[i] == prev[i];
          var j :| 0 <= j < |init| && init[j] == prev[i];
          assert rs[j] == init[j];
        } else {
          assert group[i] == last;
        }
      }
    }
  }

  lemma {:induction false} SessionOfAbsent(rs: seq<Record>, sid: string)
    requires sid !in SessionOrder(rs)
    ensures SessionOf(rs, sid) == []
  {
    if rs != [] {
      var init := rs[..|rs| - 1];
      assert sid !in SessionOrder(init);
      SessionOfAbsent(init, sid);
    }
  }

  /** `sessions` and the order of its keys after the grouping loop. */
  method GroupBySession(raw: seq<Record>) returns (sessions: map<string, seq<Record>>, order: seq<string>)
    ensures order == SessionOrder(raw)
    ensures forall sid :: sid in sessions <==> sid in order
    ensures forall sid :: sid in sessions ==> sessions[sid] == SessionOf(raw, sid)
  {
    sessions := map[];
    order := [];
    var i := 0;
    while i < |raw|
      invariant 0 <= i <= |raw|
      invariant order == SessionOrder(raw[..i])
      invariant forall sid :: sid in sessions <==> sid in order
      invariant forall sid :: sid in sessions ==> sessions[sid] == SessionOf(raw[..i], sid)
    {
      var msg := raw[i];
      var sid := msg.SessionID;
      assert raw[..i + 1][..i] == raw[..i];
      if sid in sessions {
        sessions := sessions[sid := sessions[sid] + [msg]];
      } else {
        SessionOfAbsent(raw[..i], sid);
        sessions := sessions[sid := [msg]];
        order := order + [sid];
      }
      i := i + 1;
    }
    assert raw[..i] == raw;
  }

  /** The chats of session `sid` after `chats.sort(key=Timestamp)`. */
  function SessionChats(raw: seq<Record>, sid: string): seq<Record>
  {
    SortBy(SessionOf(raw, sid), TimeOf)
  }

  /** `final_pairs` after the sessions in `order` have been walked. */
  function AllWalks(raw: seq<Record>, order: seq<string>): seq<Pair>
  {
    if order == [] then []
    else
      var sid := order[|order| - 1];
      AllWalks(raw, order[..|order| - 1]) + Walk(sid, None, SessionChats(raw, sid))
  }

  function AllExpected(raw: seq<Record>, order: seq<string>): seq<Pair>
  {
    if order == [] then []
    else
      var sid := order[|order| - 1];
      AllExpected(raw, order[..|order| - 1]) + Expected(sid, SessionChats(raw, sid))
  }

  /** The surviving pairs of all sessions, session after session in the order
      the sessions first appear. */
  function Reconstructed(raw: seq<Record>): seq<Pair>
  {
    AllExpected(raw, SessionOrder(raw))
  }

  lemma {:induction false} AllWalksFiltered(raw: seq<Record>, order: seq<string>)
    ensures FilterMap(AllWalks(raw, order), Surviving) == AllExpected(raw, order)
    decreases |order|
  {
    if order != [] {
      var sid := order[|order| - 1];
      var init := order[..|order| - 1];
      AllWalksFiltered(raw, init);
      FilterMapAppend(AllWalks(raw, init), Walk(sid, None, SessionChats(raw, sid)), Surviving);
      WalkMatchesExpected(sid, SessionChats(raw, sid));
    }
  }

  /** One more session in the walk over the key order. */
  lemma AllWalksStep(raw: seq<Record>, order: seq<string>, j: nat)
    requires j < |order|
    ensures AllWalks(raw, order[..j + 1]) == AllWalks(raw, order[..j]) + Walk(order[j], None, SessionChats(raw, order[j]))
  {
    assert order[..j + 1][..j] == order[..j];
  }

  /** The loop over the sessions, in key order: each session's chats are
      sorted by time and walked, and the pairs appended to `final_pairs`. */
  method WalkSessions(raw: seq<Record>, sessions: map<string, seq<Record>>, order: seq<string>)
    returns (finalPairs: seq<Pair>)
    requires forall sid :: sid in sessions <==> sid in order
    requires forall sid :: sid in sessions ==> sessions[sid] == SessionOf(raw, sid)
    ensures finalPairs == AllWalks(raw, order)
  {
    finalPairs := [];
    var j := 0;
    while j < |order|
      invariant 0 <= j <= |order|
      invariant finalPairs == AllWalks(raw, order[..j])
    {
      var sid := order[j];
      var chats := SortBy(sessions[sid], TimeOf);
      var pairs := WalkSession(sid, chats);
      AllWalksStep(raw, order, j);
      finalPairs := finalPairs + pairs;
      j := j + 1;
    }
    assert order[..j] == order;
  }

  /** The reconstructor: group, walk every session, drop the marker pairs and
      sort newest first. */
  method ProcessToPairs(raw: seq<Record>) returns (result: seq<Pair>)
    ensures NewestFirst(result)
    ensures multiset(result) == multiset(Reconstructed(raw))
    ensures multiset(FilterMap(result, PairHead)) == multiset(FilterMap(raw, QueryHead))
    ensures |result| == |FilterMap(raw, QueryHead)|
  {
    var sessions, order := GroupBySession(raw);
    var finalPairs := WalkSessions(raw, sessions, order);
    AllWalksFiltered(raw, order);
    result := [];
    if finalPairs != [] {
      var kept := FilterMap(finalPairs, Surviving);
      if kept != [] {
        result := SortBy(kept, Newest);
      }
    }
    ResultOf(raw, result);
  }

  /** A newest-first arrangement of the reconstructed pairs has one pair per
      non-marker user turn. */
  lemma ResultOf(raw: seq<Record>, result: seq<Pair>)
    requires SortedBy(result, Newest)
    requires multiset(result) == multiset(Reconstructed(raw))
    ensures NewestFirst(result)
    ensures multiset(FilterMap(result, PairHead)) == multiset(FilterMap(raw, QueryHead))
    ensures |result| == |FilterMap(raw, QueryHead)|
  {
    ReconstructedHeads(raw);
    FilterMapPermutation(result, Reconstructed(raw), PairHead);
    assert |multiset(result)| == |multiset(Reconstructed(raw))|;
  }

  // ---------------------------------------------------------------------
  // One pair per user question
  // ---------------------------------------------------------------------

  function PairHead(p: Pair): Option<Head>
  {
    Some(Head(p.Timestamp, p.SessionID, p.UserID, p.Query))
  }

  /** The head of the pair a record opens: user turns other than the marker. */
  function QueryHead(r: Record): Option<Head>
  {
    if r.Sender == User && !IsSentinel(r.Message)
    then Some(Head(r.Timestamp, r.SessionID, r.UserID, r.Message))
    else None
  }

  lemma {:induction false} PairHeadsLength(ps: seq<Pair>)
    ensures |FilterMap(ps, PairHead)| == |ps|
  {
    if ps != [] {
      assert ps == [ps[0]] + ps[1..];
      FilterMapAppend([ps[0]], ps[1..], PairHead);
      PairHeadsLength(ps[1..]);
    }
  }

  /** A leading run of `k` bot turns contributes no head. */
  lemma {:induction false} SkipBotRun(bots: seq<Record>, k: nat)
    requires k <= |bots|
    requires forall i :: 0 <= i < k ==> bots[i].Sender == Bot
    ensures FilterMap(bots, QueryHead) == FilterMap(bots[k..], QueryHead)
  {
    if k > 0 {
      SkipBotRun(bots[1..], k - 1);
      assert bots[1..][k - 1..] == bots[k..];
    }
  }

  /** Within one session, the pairs are headed by its non-marker user turns,
      in order. */
  lemma {:induction false} ExpectedHeads(sid: string, chats: seq<Record>)
    requires forall i :: 0 <= i < |chats| ==> chats[i].SessionID == sid
    ensures FilterMap(Expected(sid, chats), PairHead) == FilterMap(chats, QueryHead)
    decreases |chats|
  {
    if chats != [] {
      var first := chats[0];
      if first.Sender == Bot {
        FilterMapCons(chats, QueryHead);
        ExpectedHeads(sid, chats[1..]);
      } else {
        var k := 1 + NextUser(chats[1..]);
        QueryPairHead(sid, chats);
        QueryRecordHead(chats);
        ExpectedHeads(sid, chats[k..]);
      }
    }
  }

  /** The pairs of a session that opens with a user turn: that turn's head,
      then the heads of the pairs after its answers. */
  lemma QueryPairHead(sid: string, chats: seq<Record>)
    requires chats != [] && chats[0].Sender == User && chats[0].SessionID == sid
    ensures var k := 1 + NextUser(chats[1..]);
      FilterMap(Expected(sid, chats), PairHead)
        == FilterMap([chats[0]], QueryHead) + FilterMap(Expected(sid, chats[k..]), PairHead)
  {
    var first := chats[0];
    var k := 1 + NextUser(chats[1..]);
    var head := if !IsSentinel(first.Message)
      then [Pair(first.Timestamp, sid, first.UserID, first.Message, ReplyText(Texts(chats[1..k])))]
      else [];
    assert Expected(sid, chats) == head + Expected(sid, chats[k..]);
    assert FilterMap(head, PairHead) == FilterMap([first], QueryHead);
    FilterMapAppend(head, Expected(sid, chats[k..]), PairHead);
  }

  /** The records of a session that opens with a user turn: that turn's head,
      then the heads of the records after its answers. */
  lemma QueryRecordHead(chats: seq<Record>)
    requires chats != []
    ensures var k := 1 + NextUser(chats[1..]);
      FilterMap(chats, QueryHead) == FilterMap([chats[0]], QueryHead) + FilterMap(chats[k..], QueryHead)
  {
    var k := 1 + NextUser(chats[1..]);
    NextUserStops(chats[1..]);
    SkipBotRun(chats[1..], k - 1);
    assert chats[1..][k - 1..] == chats[k..];
    FilterMapCons(chats, QueryHead);
  }

  lemma SessionChatsHeads(raw: seq<Record>, sid: string)
    ensures multiset(FilterMap(Expected(sid, SessionChats(raw, sid)), PairHead))
         == multiset(FilterMap(SessionOf(raw, sid), QueryHead))
  {
    var group := SessionOf(raw, sid);
    var chats := SessionChats(raw, sid);
    SessionOfMembers(raw, sid);
    forall i | 0 <= i < |chats|
      ensures chats[i].SessionID == sid
    {
      assert chats[i] in multiset(group);
      var j :| 0 <= j < |group| && group[j] == chats[i];
    }
    ExpectedHeads(sid, chats);
    FilterMapPermutation(chats, group, QueryHead);
  }

  /** The images under `f` of the records of the sessions in `order`, each
      counted as often as it occurs. */
  function Grouped<U>(raw: seq<Record>, order: seq<string>, f: Record -> Option<U>): multiset<U>
  {
    if order == [] then multiset{}
    else Grouped(raw, order[..|order| - 1], f) + multiset(FilterMap(SessionOf(raw, order[|order| - 1]), f))
  }

  lemma {:induction false} AllExpectedHeads(raw: seq<Record>, order: seq<string>)
    ensures multiset(FilterMap(AllExpected(raw, order), PairHead)) == Grouped(raw, order, QueryHead)
    decreases |order|
  {
    if order != [] {
      var sid := order[|order| - 1];
      var init := order[..|order| - 1];
      AllExpectedHeads(raw, init);
      FilterMapAppend(AllExpected(raw, init), Expected(sid, SessionChats(raw, sid)), PairHead);
      SessionChatsHeads(raw, sid);
    }
  }

  /** Multiset regrouping, stated on its own only to keep the proof of
      `GroupedExtend` fast. */
  lemma Regroup<U>(a: multiset<U>, b: multiset<U>, c: multiset<U>, d: multiset<U>)
    ensures (a + b) + (c + d) == (a + c) + (b + d)
  {
  }

  /** One more record joins the group of its own session only. */
  lemma SessionOfSnoc<U>(raw: seq<Record>, x: Record, sid: string, f: Record -> Option<U>)
    ensures multiset(FilterMap(SessionOf(raw + [x], sid), f))
         == multiset(FilterMap(SessionOf(raw, sid), f))
          + (if x.SessionID == sid then multiset(FilterMap([x], f)) else multiset{})
  {
    var tail := if x.SessionID == sid then [x] else [];
    assert SessionOf(raw + [x], sid) == SessionOf(raw, sid) + tail by {
      assert (raw + [x])[..|raw + [x]| - 1] == raw;
    }
    FilterMapAppend(SessionOf(raw, sid), tail, f);
  }

  lemma LastIsNew(order: seq<string>)
    requires order != []
    requires forall i, j :: 0 <= i < j < |order| ==> order[i] != order[j]
    ensures order[|order| - 1] !in order[..|order| - 1]
  {
    var init := order[..|order| - 1];
    forall i | 0 <= i < |init|
      ensures init[i] != order[|order| - 1]
    {
      assert init[i] == order[i];
    }
  }

  /** One more record adds its image to its own session and to no other. */
  lemma {:induction false} GroupedExtend<U>(raw: seq<Record>, x: Record, order: seq<string>, f: Record -> Option<U>)
    requires forall i, j :: 0 <= i < j < |order| ==> order[i] != order[j]
    ensures Grouped(raw + [x], order, f) ==
      Grouped(raw, order, f) + (if x.SessionID in order then multiset(FilterMap([x], f)) else multiset{})
    decreases |order|
  {
    if order != [] {
      var sid := order[|order| - 1];
      var init := order[..|order| - 1];
      var hx := multiset(FilterMap([x], f));
      var t := if x.SessionID == sid then hx else multiset{};
      var before := if x.SessionID in init then hx else multiset{};
      assert order == init + [sid];
      GroupedExtend(raw, x, init, f);
      SessionOfSnoc(raw, x, sid, f);
      LastIsNew(order);
      assert (if x.SessionID in order then hx else multiset{}) == before + t;
      Regroup(Grouped(raw, init, f), before, multiset(FilterMap(SessionOf(raw, sid), f)), t);
    }
  }

  /** The sessions partition the records: for any image of a record, the
      images of the sessions' records together are those of all records. */
  lemma {:induction false} GroupedPartition<U>(raw: seq<Record>, f: Record -> Option<U>)
    ensures Grouped(raw, SessionOrder(raw), f) == multiset(FilterMap(raw, f))
    decreases |raw|
  {
    if raw != [] {
      var init := raw[..|raw| - 1];
      var x := raw[|raw| - 1];
      var order := SessionOrder(init);
      assert raw == init + [x];
      GroupedPartition(init, f);
      GroupedExtend(init, x, order, f);
      FilterMapAppend(init, [x], f);
      if x.SessionID !in order {
        SessionOfAbsent(init, x.SessionID);
        assert SessionOf(raw, x.SessionID) == [x];
        assert (order + [x.SessionID])[..|order|] == order;
      }
    }
  }

  /** A record as its own image. */
  function Whole(r: Record): Option<Record>
  {
    Some(r)
  }

  lemma {:induction false} FilterMapWhole(rs: seq<Record>)
    ensures FilterMap(rs, Whole) == rs
  {
    if rs != [] {
      FilterMapWhole(rs[1..]);
      assert rs == [rs[0]] + rs[1..];
    }
  }

  /** Every record is in the group of exactly one session, and each session's
      group is counted once: together the groups are the records. */
  lemma SessionsPartitionRecords(raw: seq<Record>)
    ensures Grouped(raw, SessionOrder(raw), Whole) == multiset(raw)
  {
    GroupedPartition(raw, Whole);
    FilterMapWhole(raw);
  }

  /** Every user turn other than the marker heads exactly one reconstructed
      pair, with its time, session, user and text, and no other pair exists. */
  lemma ReconstructedHeads(raw: seq<Record>)
    ensures multiset(FilterMap(Reconstructed(raw), PairHead)) == multiset(FilterMap(raw, QueryHead))
    ensures |Reconstructed(raw)| == |FilterMap(raw, QueryHead)|
  {
    AllExpectedHeads(raw, SessionOrder(raw));
    GroupedPartition(raw, QueryHead);
    PairHeadsLength(Reconstructed(raw));
    assert |multiset(FilterMap(Reconstructed(raw), PairHead))| == |multiset(FilterMap(raw, QueryHead))|;
  }
}
