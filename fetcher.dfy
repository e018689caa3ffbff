/** The pagination loop of `fetch_data` (app.py:145-234). The remote history
    API is given as the sequence of outcomes of successive requests; the loop
    asks for pages of 100 with an increasing offset until a page says no more
    are available, a response is not 200, or a request or its processing raises. */
module Fetcher {
  import opened Wrappers
  import opened Seqs
  import opened Messages

  const PageSize := 100
  const StatusOk := 200

  /** A response body: a decoded page (`messages` defaults to [] and
      `moreAvailable` to absent), or `Malformed`. `Malformed` stands for every
      body that raises before any of its messages yields a record:
      - one that `response.json()` cannot decode (app.py:193);
      - one that decodes to something other than an object, so that
        `data.get` raises (app.py:194);
      - one whose `messages` is not a list and not empty: a number, null or
        boolean raises at the `for` (app.py:200), and a non-empty string or
        object yields items that are not dictionaries, so the first
        `msg.get` raises (app.py:202).
      An empty string or object as `messages` iterates nothing and is the
      page with no messages. */
  datatype Body = Page(messages: seq<RawMessage>, moreAvailable: Option<bool>) | Malformed

  /** What one `requests.post` gives: a response, or a transport exception. */
  datatype Outcome = Response(status: int, body: Body) | ConnectionError

  /** The paging fields of one request body. */
  datatype Request = Request(skip: int, limit: int)

  /** The outcome of the k-th request; a server that has run out of scripted
      answers refuses the connection. */
  function OutcomeAt(server: seq<Outcome>, k: nat): Outcome
  {
    if k < |server| then server[k] else ConnectionError
  }

  /** What the loop over one page does: the records it appends, in order, and
      whether some message raised (which ends the loop over the page). */
  datatype PageYield = PageYield(records: seq<Record>, raised: bool)

  /** One message's effect on the page loop: nothing once a message has raised. */
  function Step(y: PageYield, e: Emission): PageYield
  {
    if y.raised then y
    else
      match e
      case Raise => PageYield(y.records, true)
      case Skip => y
      case Emit(r) => PageYield(y.records + [r], false)
  }

  /** The loop over the messages of a page. The recursion goes through
      `CollectLast` so that unfolding `Collect` once exposes only "empty or not",
      not a call of `Process`; this keeps the proofs about prefixes small. */
  function Collect(messages: seq<RawMessage>): PageYield
    decreases |messages|, 1
  {
    if messages == [] then PageYield([], false) else CollectLast(messages)
  }

  /** The loop over a non-empty page: the last message is processed only when
      none of the others raised. */
  function CollectLast(messages: seq<RawMessage>): PageYield
    requires messages != []
    decreases |messages|, 0
  {
    var y := Collect(messages[..|messages| - 1]);
    if y.raised then y else Step(y, Process(messages[|messages| - 1]))
  }

  /** What each message of a page gives, in order. */
  function Emissions(messages: seq<RawMessage>): (es: seq<Emission>)
    ensures |es| == |messages|
  {
    if messages == [] then []
    else Emissions(messages[..|messages| - 1]) + [Process(messages[|messages| - 1])]
  }

  /** The page loop over what the messages give. */
  function CollectOf(es: seq<Emission>): PageYield
  {
    if es == [] then PageYield([], false) else Step(CollectOf(es[..|es| - 1]), es[|es| - 1])
  }

  /** A 200 response whose body decodes: its messages are processed. */
  predicate Delivered(o: Outcome)
  {
    o.Response? && o.status == StatusOk && o.body.Page?
  }

  /** The outcome lets the loop ask for the next page. */
  predicate Continues(o: Outcome)
  {
    Delivered(o) && !Collect(o.body.messages).raised && o.body.moreAvailable == Some(true)
  }

  /** The records one outcome contributes. */
  function Yield(o: Outcome): seq<Record>
  {
    if Delivered(o) then Collect(o.body.messages).records else []
  }

  /** Every record the loop over a page keeps has a non-empty Message, since
      the filter drops empty text (app.py:208). */
  lemma {:induction false} CollectNonEmpty(messages: seq<RawMessage>)
    ensures forall i :: 0 <= i < |Collect(messages).records| ==> Collect(messages).records[i].Message != ""
    decreases |messages|
  {
    if messages != [] {
      var y := Collect(messages[..|messages| - 1]);
      CollectNonEmpty(messages[..|messages| - 1]);
      assert Collect(messages) == if y.raised then y else Step(y, Process(messages[|messages| - 1]));
      ProcessEmits(messages[|messages| - 1]);
    }
  }

  /** The index of the first request, from `k` on, after which the loop stops. */
  function LastPage(server: seq<Outcome>, k: nat): (last: nat)
    ensures k <= last <= if k < |server| then |server| else k
    decreases |server| - k
  {
    if k >= |server| || !Continues(server[k]) then k else LastPage(server, k + 1)
  }

  /** The request the loop stops after does not let it continue, and every
      request before it, from `k` on, does. */
  lemma {:induction false} LastPageStops(server: seq<Outcome>, k: nat)
    ensures !Continues(OutcomeAt(server, LastPage(server, k)))
    ensures forall i :: k <= i < LastPage(server, k) ==> Continues(OutcomeAt(server, i))
    decreases |server| - k
  {
    if k < |server| && Continues(server[k]) {
      LastPageStops(server, k + 1);
    }
  }

  /** The records of the first `n` outcomes, in page order and then in-page order. */
  function Gathered(server: seq<Outcome>, n: nat): seq<Record>
  {
    if n == 0 then [] else Gathered(server, n - 1) + Yield(OutcomeAt(server, n - 1))
  }

  /** Every record of the first `n` outcomes, and so every record `fetch_data`
      returns, has a non-empty Message. */
  lemma {:induction false} GatheredNonEmpty(server: seq<Outcome>, n: nat)
    ensures forall i :: 0 <= i < |Gathered(server, n)| ==> Gathered(server, n)[i].Message != ""
  {
    if n > 0 {
      GatheredNonEmpty(server, n - 1);
      var o := OutcomeAt(server, n - 1);
      if Delivered(o) {
        CollectNonEmpty(o.body.messages);
      }
    }
  }

  lemma {:induction false} LastPageFrom(server: seq<Outcome>, j: nat, k: nat)
    requires j <= k
    requires forall i :: j <= i < k ==> Continues(OutcomeAt(server, i))
    requires !Continues(OutcomeAt(server, k))
    ensures LastPage(server, j) == k
    decreases k - j
  {
    if j < k {
      assert Continues(OutcomeAt(server, j));
      LastPageFrom(server, j + 1, k);
    }
  }

  /** The loop stops at the first outcome that does not let it continue. */
  lemma LastPageIs(server: seq<Outcome>, k: nat)
    requires forall i :: 0 <= i < k ==> Continues(OutcomeAt(server, i))
    requires !Continues(OutcomeAt(server, k))
    ensures LastPage(server, 0) == k
  {
    LastPageFrom(server, 0, k);
  }

  lemma {:induction false} EmissionAt(messages: seq<RawMessage>, i: nat)
    requires i < |messages|
    ensures Emissions(messages)[i] == Process(messages[i])
    decreases |messages|
  {
    if i < |messages| - 1 {
      EmissionAt(messages[..|messages| - 1], i);
    }
  }

  /** The loop over the messages is the loop over what they give. */
  lemma {:induction false} CollectEmissions(messages: seq<RawMessage>)
    ensures Collect(messages) == CollectOf(Emissions(messages))
    decreases |messages|
  {
    if messages != [] {
      var init := messages[..|messages| - 1];
      var es := Emissions(messages);
      CollectEmissions(init);
      assert es[..|es| - 1] == Emissions(init);
    }
  }

  /** Once a message has raised, later messages change nothing. */
  lemma {:induction false} CollectSticky(messages: seq<RawMessage>, j: nat, n: nat)
    requires j <= n <= |messages| && Collect(messages[..j]).raised
    ensures Collect(messages[..n]) == Collect(messages[..j])
  {
    if n > j {
      CollectSticky(messages, j, n - 1);
      assert messages[..n][..n - 1] == messages[..n - 1];
      RaisedStays(messages[..n]);
    }
  }

  lemma RaisedStays(messages: seq<RawMessage>)
    requires messages != [] && Collect(messages[..|messages| - 1]).raised
    ensures Collect(messages) == Collect(messages[..|messages| - 1])
  {
  }

  lemma {:induction false} CollectOfSticky(es: seq<Emission>, j: nat, n: nat)
    requires j <= n <= |es| && CollectOf(es[..j]).raised
    ensures CollectOf(es[..n]) == CollectOf(es[..j])
  {
    if n > j {
      CollectOfSticky(es, j, n - 1);
      assert es[..n][..n - 1] == es[..n - 1];
    }
  }

  /** The record an emission contributes when it is one. */
  function Emitted(e: Emission): Option<Record>
  {
    if e.Emit? then Some(e.record) else None
  }

  /** A page on which nothing raises contributes the records of all its kept
      messages, in order. */
  lemma {:induction false} CollectNoRaise(es: seq<Emission>)
    requires forall q :: 0 <= q < |es| ==> !es[q].Raise?
    ensures CollectOf(es) == PageYield(FilterMap(es, Emitted), false)
    decreases |es|
  {
    if es != [] {
      var init := es[..|es| - 1];
      var last := es[|es| - 1];
      assert es == init + [last];
      CollectNoRaise(init);
      FilterMapAppend(init, [last], Emitted);
    }
  }

  /** A message that raises ends the page: the records kept are those of the
      messages before it. */
  lemma CollectFirstRaise(es: seq<Emission>, j: nat)
    requires j < |es| && es[j].Raise?
    requires forall q :: 0 <= q < j ==> !es[q].Raise?
    ensures CollectOf(es) == PageYield(FilterMap(es[..j], Emitted), true)
  {
    CollectNoRaise(es[..j]);
    assert es[..j + 1][..j] == es[..j];
    CollectOfSticky(es, j + 1, |es|);
    assert es[..|es|] == es;
  }

  /** A page is abandoned exactly when one of its messages raises. */
  lemma {:induction false} CollectRaised(es: seq<Emission>)
    ensures CollectOf(es).raised <==> exists q :: 0 <= q < |es| && es[q].Raise?
    decreases |es|
  {
    if es != [] {
      var init := es[..|es| - 1];
      CollectRaised(init);
      assert forall q :: 0 <= q < |init| ==> init[q] == es[q];
    }
  }

  /** A page that lets the loop go on contributes the records of all its kept
      messages. */
  lemma ContinuingYield(o: Outcome)
    requires Continues(o)
    ensures Yield(o) == FilterMap(Emissions(o.body.messages), Emitted)
  {
    CollectEmissions(o.body.messages);
    CollectRaised(Emissions(o.body.messages));
    CollectNoRaise(Emissions(o.body.messages));
  }

  /** A connection error, a status other than 200 or an undecodable body on
      page k ends the loop there, keeping the records of the earlier pages
      (for instance a 500 on the second of three pages keeps the first page). */
  lemma StopsOnFailure(server: seq<Outcome>, k: nat)
    requires forall i :: 0 <= i < k ==> Continues(OutcomeAt(server, i))
    requires !Delivered(OutcomeAt(server, k))
    ensures LastPage(server, 0) == k
    ensures Gathered(server, LastPage(server, 0) + 1) == Gathered(server, k)
  {
    LastPageIs(server, k);
  }

  lemma PageRaises(messages: seq<RawMessage>, j: nat)
    requires var es := Emissions(messages);
      j < |es| && es[j].Raise? && forall q :: 0 <= q < j ==> !es[q].Raise?
    ensures Collect(messages) == PageYield(FilterMap(Emissions(messages)[..j], Emitted), true)
  {
    CollectEmissions(messages);
    CollectFirstRaise(Emissions(messages), j);
  }

  /** A message that raises on page k ends the loop after the records of the
      messages before it on that page. */
  lemma StopsOnRaise(server: seq<Outcome>, k: nat, j: nat)
    requires forall i :: 0 <= i < k ==> Continues(OutcomeAt(server, i))
    requires Delivered(OutcomeAt(server, k))
    requires var es := Emissions(OutcomeAt(server, k).body.messages);
      j < |es| && es[j].Raise? && forall q :: 0 <= q < j ==> !es[q].Raise?
    ensures LastPage(server, 0) == k
    ensures Gathered(server, LastPage(server, 0) + 1)
         == Gathered(server, k) + FilterMap(Emissions(OutcomeAt(server, k).body.messages)[..j], Emitted)
  {
    var o := OutcomeAt(server, k);
    PageRaises(o.body.messages, j);
    assert !Continues(o);
    assert Yield(o) == FilterMap(Emissions(o.body.messages)[..j], Emitted);
    LastPageIs(server, k);
  }

  /** A page that does not say more are available is the last one asked for;
      all of its kept messages are returned. */
  lemma StopsOnFinalPage(server: seq<Outcome>, k: nat)
    requires forall i :: 0 <= i < k ==> Continues(OutcomeAt(server, i))
    requires Delivered(OutcomeAt(server, k))
    requires var es := Emissions(OutcomeAt(server, k).body.messages);
      forall q :: 0 <= q < |es| ==> !es[q].Raise?
    requires OutcomeAt(server, k).body.moreAvailable != Some(true)
    ensures LastPage(server, 0) == k
    ensures Gathered(server, LastPage(server, 0) + 1)
         == Gathered(server, k) + FilterMap(Emissions(OutcomeAt(server, k).body.messages), Emitted)
  {
    CollectEmissions(OutcomeAt(server, k).body.messages);
    CollectNoRaise(Emissions(OutcomeAt(server, k).body.messages));
    LastPageIs(server, k);
  }

  /** The loop `for msg in messages` of one page: the records it appends and
      whether a message raised, which abandons the rest of the page. */
  method ProcessPage(messages: seq<RawMessage>) returns (records: seq<Record>, raised: bool)
    ensures PageYield(records, raised) == Collect(messages)
  {
    records := [];
    raised := false;
    var i := 0;
    while i < |messages|
      invariant 0 <= i <= |messages|
      invariant Collect(messages[..i]) == PageYield(records, raised)
      invariant raised ==> i == |messages|
    {
      assert messages[..i + 1][..i] == messages[..i];
      match Process(messages[i])
      case Raise =>
        raised := true;
        CollectSticky(messages, i + 1, |messages|);
        i := |messages|;
      case Skip =>
        i := i + 1;
      case Emit(record) =>
        records := records + [record];
        i := i + 1;
    }
    assert messages[..i] == messages;
  }

  /** All of the first n requests let the loop continue. */
  predicate ContinuesUpTo(server: seq<Outcome>, n: nat)
  {
    n == 0 || (ContinuesUpTo(server, n - 1) && Continues(OutcomeAt(server, n - 1)))
  }

  lemma {:induction false} ContinuesUpToAll(server: seq<Outcome>, n: nat)
    ensures ContinuesUpTo(server, n) <==> forall i :: 0 <= i < n ==> Continues(OutcomeAt(server, i))
  {
    if n > 0 {
      ContinuesUpToAll(server, n - 1);
    }
  }

  /** One request of the loop, the n-th: the records it adds and whether the
      loop stops after it (a failed request, a message that raised, or a page
      that does not say more are available). */
  method FetchPage(server: seq<Outcome>, n: nat) returns (records: seq<Record>, stop: bool)
    requires ContinuesUpTo(server, n)
    ensures Gathered(server, n + 1) == Gathered(server, n) + records
    ensures !stop ==> n < |server| && ContinuesUpTo(server, n + 1)
    ensures stop ==> LastPage(server, 0) == n
  {
    ContinuesUpToAll(server, n);
    var response := OutcomeAt(server, n);
    if response.ConnectionError? || response.status != StatusOk || response.body.Malformed? {
      // a transport exception, a non-200 status, or an undecodable body
      LastPageIs(server, n);
      return [], true;
    }
    var raised;
    records, raised := ProcessPage(response.body.messages);
    stop := raised || response.body.moreAvailable != Some(true);
    if stop {
      LastPageIs(server, n);
    }
  }

  /** `fetch_data` without its I/O: the records returned and the requests
      issued. */
  method FetchData(server: seq<Outcome>) returns (allMessages: seq<Record>, sent: seq<Request>)
    ensures |sent| == LastPage(server, 0) + 1
    ensures forall k :: 0 <= k < |sent| ==> sent[k] == Request(PageSize * k, PageSize)
    ensures allMessages == Gathered(server, |sent|)
  {
    allMessages := [];
    sent := [];
    var skip := 0;
    var pageCount := 0;
    // `has_more` is true whenever the loop condition is tested: the loop is
    // left only by `break` (a failed request, a raise, or a final page).
    while true
      invariant pageCount <= |server|
      invariant skip == PageSize * pageCount
      invariant |sent| == pageCount
      invariant forall k :: 0 <= k < pageCount ==> sent[k] == Request(PageSize * k, PageSize)
      invariant ContinuesUpTo(server, pageCount)
      invariant allMessages == Gathered(server, pageCount)
      decreases |server| - pageCount
    {
      sent := sent + [Request(skip, PageSize)];
      var records, stop := FetchPage(server, pageCount);
      allMessages := allMessages + records;
      if stop {
        break;
      }
      pageCount := pageCount + 1;
      skip := skip + PageSize;
    }
  }
}
