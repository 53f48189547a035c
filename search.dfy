/** Historical search: the age cutoff over a newest-first stream of tweets,
    the backward pagination loop against the search API, and the OR query
    built from a list of hashtags. */
module Search {
  import opened Tweets

  /** Page size asked of the search API on every request (its maximum). */
  const TWEETS_PER_QUERY := 100

  // ---------------------------------------------------------------------
  // limit_tweet_age
  // ---------------------------------------------------------------------

  /** How the stop time is given: as an absolute timestamp, or as a delta
      subtracted from the creation time of the first tweet of the stream. */
  datatype Cutoff = Absolute(stopTime: int) | Relative(delta: int)

  /** The longest prefix of `tweets` in which no tweet was created before
      `stopTime`: the `for ... break` loop of the age filter. */
  function TakeNotOlder(tweets: seq<Tweet>, stopTime: int): seq<Tweet>
  {
    if tweets == [] || tweets[0].createdAt < stopTime then []
    else [tweets[0]] + TakeNotOlder(tweets[1..], stopTime)
  }

  /** What TakeNotOlder keeps: a prefix of the stream, every tweet of it
      created at or after `stopTime`, and it ends only at the end of the
      stream or at a tweet created before `stopTime`. */
  lemma {:induction false} TakeNotOlderSpec(tweets: seq<Tweet>, stopTime: int)
    ensures var r := TakeNotOlder(tweets, stopTime);
      && r <= tweets
      && (forall i :: 0 <= i < |r| ==> r[i].createdAt >= stopTime)
      && (|r| < |tweets| ==> tweets[|r|].createdAt < stopTime)
  {
    if tweets != [] && tweets[0].createdAt >= stopTime {
      TakeNotOlderSpec(tweets[1..], stopTime);
    }
  }

  /** Any prefix that keeps only tweets not older than `stopTime` and stops
      exactly at the first older one is the one TakeNotOlder computes. */
  lemma TakeNotOlderUnique(tweets: seq<Tweet>, stopTime: int, p: seq<Tweet>)
    requires p <= tweets
    requires forall i :: 0 <= i < |p| ==> p[i].createdAt >= stopTime
    requires |p| < |tweets| ==> tweets[|p|].createdAt < stopTime
    ensures p == TakeNotOlder(tweets, stopTime)
  {
    TakeNotOlderSpec(tweets, stopTime);
  }

  /** The stop time the filter compares against: the absolute one, or the
      first tweet's creation time minus the delta. */
  function StopTime(tweets: seq<Tweet>, cutoff: Cutoff): int
    requires cutoff.Absolute? || tweets != []
  {
    match cutoff
    case Absolute(t) => t
    case Relative(d) => tweets[0].createdAt - d
  }

  /** The tweets `limit_tweet_age` yields. With a relative cutoff the first
      tweet is always yielded and fixes the stop time; every other tweet is
      yielded until the first one created strictly before the stop time. */
  function LimitTweetAge(tweets: seq<Tweet>, cutoff: Cutoff): (r: seq<Tweet>)
    ensures r <= tweets
    ensures tweets == [] ==> r == []
    ensures cutoff.Relative? && tweets != [] ==> |r| >= 1
    ensures tweets != [] ==>
      var firstChecked := if cutoff.Relative? then 1 else 0;
      && (forall i :: firstChecked <= i < |r| ==> r[i].createdAt >= StopTime(tweets, cutoff))
      && (|r| < |tweets| ==> tweets[|r|].createdAt < StopTime(tweets, cutoff))
  {
    match cutoff
    case Absolute(t) =>
      TakeNotOlderSpec(tweets, t);
      TakeNotOlder(tweets, t)
    case Relative(d) =>
      if tweets == [] then []
      else
        TakeNotOlderSpec(tweets[1..], tweets[0].createdAt - d);
        [tweets[0]] + TakeNotOlder(tweets[1..], tweets[0].createdAt - d)
  }

  /** With an absolute stop time the first tweet gets no special treatment:
      a stream whose first tweet is already too old yields nothing. */
  lemma AbsoluteFirstTweetChecked(tweets: seq<Tweet>, stopTime: int)
    requires tweets != [] && tweets[0].createdAt < stopTime
    ensures LimitTweetAge(tweets, Absolute(stopTime)) == []
  {
  }

  /** A non-negative delta makes the relative cutoff the same as the
      absolute one it computes, since the first tweet then passes the check. */
  lemma RelativeIsAbsolute(tweets: seq<Tweet>, delta: int)
    requires tweets != [] && delta >= 0
    ensures LimitTweetAge(tweets, Relative(delta))
         == LimitTweetAge(tweets, Absolute(tweets[0].createdAt - delta))
  {
  }

  /** With a negative delta the stop time lies after the first tweet, which
      is yielded all the same; nothing after it is. */
  lemma NegativeDeltaYieldsOnlyFirst(tweets: seq<Tweet>, delta: int)
    requires tweets != [] && delta < 0
    requires forall i :: 0 < i < |tweets| ==> tweets[i].createdAt <= tweets[0].createdAt
    ensures LimitTweetAge(tweets, Relative(delta)) == [tweets[0]]
  {
  }

  /** The default delta, no time at all: in a stream whose later tweets
      are all strictly older than the first, only the first is yielded. */
  lemma DefaultDeltaYieldsOnlyFirst(tweets: seq<Tweet>)
    requires tweets != []
    requires forall i :: 0 < i < |tweets| ==> tweets[i].createdAt < tweets[0].createdAt
    ensures LimitTweetAge(tweets, Relative(0)) == [tweets[0]]
  {
  }

  /** Newest-first tweets zero, one, two and three hours old, with a delta
      of two hours: the first three are kept and the last is not. */
  lemma StopBoundaryExample(t0: int)
    ensures var ts := [Tweet(4, "4", t0, ""), Tweet(3, "3", t0 - 3600, ""),
                       Tweet(2, "2", t0 - 7200, ""), Tweet(1, "1", t0 - 10800, "")];
      LimitTweetAge(ts, Relative(7200)) == ts[..3]
  {
    var ts := [Tweet(4, "4", t0, ""), Tweet(3, "3", t0 - 3600, ""),
               Tweet(2, "2", t0 - 7200, ""), Tweet(1, "1", t0 - 10800, "")];
    assert TakeNotOlder(ts[3..], t0 - 7200) == [];
    assert TakeNotOlder(ts[2..], t0 - 7200) == [ts[2]];
    assert TakeNotOlder(ts[1..], t0 - 7200) == [ts[1], ts[2]];
  }

  /** LimitTweetAge is the only prefix with the properties its contract
      states: a prefix, at least the first tweet for a relative cutoff, every
      other kept tweet not older than the stop time, and ending at the end of
      the stream or at an older tweet. */
  lemma LimitTweetAgeUnique(tweets: seq<Tweet>, cutoff: Cutoff, n: nat)
    requires n <= |tweets|
    requires cutoff.Relative? && tweets != [] ==> n >= 1
    requires tweets != [] ==>
      var firstChecked := if cutoff.Relative? then 1 else 0;
      && (forall i :: firstChecked <= i < n ==> tweets[i].createdAt >= StopTime(tweets, cutoff))
      && (n < |tweets| ==> tweets[n].createdAt < StopTime(tweets, cutoff))
    ensures tweets[..n] == LimitTweetAge(tweets, cutoff)
  {
    if tweets == [] {
    } else if cutoff.Absolute? {
      TakeNotOlderUnique(tweets, cutoff.stopTime, tweets[..n]);
    } else {
      var stopTime := StopTime(tweets, cutoff);
      TakeNotOlderUnique(tweets[1..], stopTime, tweets[1..n]);
      assert tweets[..n] == [tweets[0]] + tweets[1..n];
    }
  }

  /** `limit_tweet_age` as the source runs it: one pass over the stream,
      taking the first tweet when the cutoff is relative, then leaving the
      loop at the first tweet created before the stop time. */
  method LimitTweetAgeStream(tweets: seq<Tweet>, cutoff: Cutoff) returns (out: seq<Tweet>)
    ensures out == LimitTweetAge(tweets, cutoff)
  {
    var stopTime: int;
    var i := 0;
    out := [];
    if cutoff.Absolute? {
      stopTime := cutoff.stopTime;
    } else {
      if |tweets| == 0 {
        return;
      }
      stopTime := tweets[0].createdAt - cutoff.delta;
      out := [tweets[0]];
      i := 1;
    }
    ghost var firstChecked := i;
    while i < |tweets|
      invariant firstChecked <= i <= |tweets|
      invariant out == tweets[..i]
      invariant forall k :: firstChecked <= k < i ==> tweets[k].createdAt >= stopTime
    {
      if tweets[i].createdAt < stopTime {
        break;
      }
      out := out + [tweets[i]];
      i := i + 1;
    }
    LimitTweetAgeUnique(tweets, cutoff, i);
  }

  // ---------------------------------------------------------------------
  // search_twitter
  // ---------------------------------------------------------------------

  /** What the search API answers to one request: a page of tweets
      (newest first, possibly empty), a `TweepError`, or an operator
      interrupt arriving while the request is in flight. */
  datatype Response = Page(tweets: seq<Tweet>) | ApiError(message: string) | Interrupted

  /** One request as sent: the query string, the page size and the
      `max_id` bound, if the query carries one. */
  datatype Request = Request(query: string, count: int, maxId: Option<int>)

  /** Why the pagination loop ended. `OutOfResponses` means that the
      sequence of answers the model is run against is used up. */
  datatype Exit = LimitReached | ApiFailed | EmptyPage | Cancelled | OutOfResponses

  /** A finished search: the requests sent, in order, the tweets yielded,
      in order, and why the loop ended. */
  datatype Run = Run(requests: seq<Request>, tweets: seq<Tweet>, exit: Exit)

  /** The loop guard `not max_results or n_tweets_found < max_results`:
      no limit and a limit of 0 both mean "unlimited". */
  predicate Continues(maxResults: Option<int>, found: int)
  {
    maxResults.None? || maxResults.value == 0 || found < maxResults.value
  }

  /** The `max_id` bound the next request carries: one below the cursor when
      the cursor is positive, otherwise whatever bound the query had. */
  function NextBound(maxId: int, bound: Option<int>): Option<int>
  {
    if maxId > 0 then Some(maxId - 1) else bound
  }

  /** Id of the oldest (last) tweet of a non-empty page: the new cursor. */
  function LastId(response: Response): int
    requires response.Page? && response.tweets != []
  {
    response.tweets[|response.tweets| - 1].id
  }

  /** The tweets a response carries: a page's, or none. */
  function PageTweets(response: Response): seq<Tweet>
  {
    if response.Page? then response.tweets else []
  }

  /** The tweets of the pages among `responses`, concatenated in order. */
  function Fetched(responses: seq<Response>): seq<Tweet>
  {
    if responses == [] then [] else PageTweets(responses[0]) + Fetched(responses[1..])
  }

  /** An answer the loop goes on from: a page with at least one tweet. */
  predicate HasTweets(response: Response)
  {
    response.Page? && response.tweets != []
  }

  /** How an answer without tweets ends the loop: an API error is reported
      and ends it, an interrupt ends it, an empty page ends it. */
  function StopReason(response: Response): Exit
  {
    match response
    case ApiError(_) => ApiFailed
    case Interrupted => Cancelled
    case Page(_) => EmptyPage
  }

  /** The pagination loop from a given state: cursor `maxId`, current
      `max_id` bound of the query and `found` tweets counted so far,
      answered by `responses` in order. */
  function Paginate(responses: seq<Response>, query: string, maxResults: Option<int>,
                    maxId: int, bound: Option<int>, found: int): Run
    decreases |responses|
  {
    if !Continues(maxResults, found) then Run([], [], LimitReached)
    else if responses == [] then Run([], [], OutOfResponses)
    else
      var request := Request(query, TWEETS_PER_QUERY, NextBound(maxId, bound));
      if !HasTweets(responses[0]) then Run([request], [], StopReason(responses[0]))
      else
        var page := responses[0].tweets;
        var rest := Paginate(responses[1..], query, maxResults, page[|page| - 1].id,
                             request.maxId, found + |page|);
        Run([request] + rest.requests, page + rest.tweets, rest.exit)
  }

  /** `search_twitter` from its initial state: no tweets counted, and the
      cursor and the query's bound both the caller's `max_id`, if given,
      the cursor -1 otherwise. */
  function SearchRun(responses: seq<Response>, query: string, maxResults: Option<int>,
                     maxId: Option<int>): Run
  {
    Paginate(responses, query, maxResults, if maxId.Some? then maxId.value else -1, maxId, 0)
  }

  /** A run sends at most one request per answer and yields exactly the
      tweets of the pages that answered its requests, in order; every
      request but the last was answered by a non-empty page, and every
      request carries the query and the page size. */
  lemma {:induction false} PaginateYieldsPages(responses: seq<Response>, query: string,
      maxResults: Option<int>, maxId: int, bound: Option<int>, found: int)
    ensures var r := Paginate(responses, query, maxResults, maxId, bound, found);
      && |r.requests| <= |responses|
      && r.tweets == Fetched(responses[..|r.requests|])
      && (forall k :: 0 <= k < |r.requests| - 1 ==> responses[k].Page? && responses[k].tweets != [])
      && (forall k :: 0 <= k < |r.requests| ==>
            r.requests[k].query == query && r.requests[k].count == TWEETS_PER_QUERY)
    decreases |responses|
  {
    var r := Paginate(responses, query, maxResults, maxId, bound, found);
    if Continues(maxResults, found) && responses != [] {
      if HasTweets(responses[0]) {
        var page := responses[0].tweets;
        var rest := Paginate(responses[1..], query, maxResults, page[|page| - 1].id,
                             NextBound(maxId, bound), found + |page|);
        PaginatePage(responses, query, maxResults, maxId, bound, found);
        PaginateYieldsPages(responses[1..], query, maxResults, page[|page| - 1].id,
                            NextBound(maxId, bound), found + |page|);
        assert responses[..|r.requests|][1..] == responses[1..][..|rest.requests|];
      } else {
        assert Fetched(responses[..1]) == PageTweets(responses[0]) + Fetched([]);
      }
    }
  }

  /** Paginate on a non-empty first page: its request, then the rest of
      the run from the page's last id; its tweets, then the rest's. */
  lemma PaginatePage(responses: seq<Response>, query: string, maxResults: Option<int>,
                     maxId: int, bound: Option<int>, found: int)
    requires Continues(maxResults, found) && responses != []
    requires responses[0].Page? && responses[0].tweets != []
    ensures var page := responses[0].tweets;
      var rest := Paginate(responses[1..], query, maxResults, page[|page| - 1].id,
                           NextBound(maxId, bound), found + |page|);
      var r := Paginate(responses, query, maxResults, maxId, bound, found);
      && r.requests[1..] == rest.requests
      && r.requests[0] == Request(query, TWEETS_PER_QUERY, NextBound(maxId, bound))
      && r.tweets == page + rest.tweets
  {
    var page := responses[0].tweets;
    var rest := Paginate(responses[1..], query, maxResults, page[|page| - 1].id,
                         NextBound(maxId, bound), found + |page|);
    assert ([Request(query, TWEETS_PER_QUERY, NextBound(maxId, bound))] + rest.requests)[1..]
           == rest.requests;
  }

  /** One round of the loop, seen from the requests and tweets gathered so
      far: a non-empty page adds one request with the next bound and the
      page's tweets, and the loop goes on from the page's last id as cursor;
      any other answer adds the request and ends the run. */
  lemma PaginateRound(requests: seq<Request>, tweets: seq<Tweet>, responses: seq<Response>,
                      query: string, maxResults: Option<int>, maxId: int, bound: Option<int>,
                      found: int)
    requires Continues(maxResults, found) && responses != []
    ensures var request := Request(query, TWEETS_PER_QUERY, NextBound(maxId, bound));
      var whole := Paginate(responses, query, maxResults, maxId, bound, found);
      var total := Run(requests + whole.requests, tweets + whole.tweets, whole.exit);
      if HasTweets(responses[0]) then
        var page := responses[0].tweets;
        var rest := Paginate(responses[1..], query, maxResults, page[|page| - 1].id,
                             NextBound(maxId, bound), found + |page|);
        Run((requests + [request]) + rest.requests, (tweets + page) + rest.tweets, rest.exit) == total
      else
        Run(requests + [request], tweets, StopReason(responses[0])) == total
  {
    var request := Request(query, TWEETS_PER_QUERY, NextBound(maxId, bound));
    if HasTweets(responses[0]) {
      var page := responses[0].tweets;
      var rest := Paginate(responses[1..], query, maxResults, page[|page| - 1].id,
                           NextBound(maxId, bound), found + |page|);
      assert (requests + [request]) + rest.requests == requests + ([request] + rest.requests);
      assert (tweets + page) + rest.tweets == tweets + (page + rest.tweets);
    } else {
      assert tweets + [] == tweets;
    }
  }

  /** `search_twitter` as the source runs it: before each request the
      query's `max_id` is set to one below a positive cursor; each answer is
      either the end of the loop or a page whose tweets are yielded, whose
      size is added to the count and whose last tweet becomes the cursor. */
  method SearchTwitter(responses: seq<Response>, query: string, maxResults: Option<int>,
                       initialMaxId: Option<int>)
    returns (requests: seq<Request>, tweets: seq<Tweet>, exit: Exit)
    ensures Run(requests, tweets, exit) == SearchRun(responses, query, maxResults, initialMaxId)
  {
    ghost var goal := SearchRun(responses, query, maxResults, initialMaxId);
    var found := 0;
    var maxId := if initialMaxId.Some? then initialMaxId.value else -1;
    var bound := initialMaxId;
    var remaining := responses;
    requests, tweets, exit := [], [], LimitReached;
    while Continues(maxResults, found)
      invariant exit == LimitReached
      invariant var rest := Paginate(remaining, query, maxResults, maxId, bound, found);
        Run(requests + rest.requests, tweets + rest.tweets, rest.exit) == goal
      decreases |remaining|
    {
      if remaining == [] {
        exit := OutOfResponses;
        assert requests + [] == requests && tweets + [] == tweets;
        break;
      }
      PaginateRound(requests, tweets, remaining, query, maxResults, maxId, bound, found);
      if maxId > 0 {
        bound := Some(maxId - 1);
      }
      var request := Request(query, TWEETS_PER_QUERY, bound);
      var response := remaining[0];
      remaining := remaining[1..];
      requests := requests + [request];
      match response {
        case ApiError(_) =>
          exit := ApiFailed;
          break;
        case Interrupted =>
          exit := Cancelled;
          break;
        case Page(page) =>
          if page == [] {
            exit := EmptyPage;
            break;
          }
          found := found + |page|;
          maxId := page[|page| - 1].id;
          tweets := tweets + page;
      }
    }
  }

  /** Why a run ended is read off the last answer it used: an API error,
      an interrupt or an empty page end the loop at once; otherwise the loop
      ended because the count reached the limit or the answers ran out. */
  lemma {:induction false} PaginateExit(responses: seq<Response>, query: string,
      maxResults: Option<int>, maxId: int, bound: Option<int>, found: int)
    ensures var r := Paginate(responses, query, maxResults, maxId, bound, found);
      && |r.requests| <= |responses|
      && (r.exit == ApiFailed <==> r.requests != [] && responses[|r.requests| - 1].ApiError?)
      && (r.exit == Cancelled <==> r.requests != [] && responses[|r.requests| - 1].Interrupted?)
      && (r.exit == EmptyPage <==> r.requests != [] && responses[|r.requests| - 1] == Page([]))
      && (r.exit == LimitReached ==> !Continues(maxResults, found + |r.tweets|))
      && (r.exit == OutOfResponses ==>
            |r.requests| == |responses| && Continues(maxResults, found + |r.tweets|))
    decreases |responses|
  {
    if Continues(maxResults, found) && responses != []
       && responses[0].Page? && responses[0].tweets != [] {
      var page := responses[0].tweets;
      PaginateExit(responses[1..], query, maxResults, page[|page| - 1].id,
                   NextBound(maxId, bound), found + |page|);
    }
  }

  /** No request is sent once the tweets counted so far reach a set
      limit: before the k-th request the count is that of the first k
      answers' pages, and the loop guard held of it. */
  lemma {:induction false} PaginateRespectsLimit(responses: seq<Response>, query: string,
      maxResults: Option<int>, maxId: int, bound: Option<int>, found: int)
    ensures var r := Paginate(responses, query, maxResults, maxId, bound, found);
      && |r.requests| <= |responses|
      && forall k :: 0 <= k < |r.requests| ==> Continues(maxResults, found + |Fetched(responses[..k])|)
    decreases |responses|
  {
    var r := Paginate(responses, query, maxResults, maxId, bound, found);
    if Continues(maxResults, found) && responses != []
       && responses[0].Page? && responses[0].tweets != [] {
      var page := responses[0].tweets;
      PaginateRespectsLimit(responses[1..], query, maxResults, page[|page| - 1].id,
                            NextBound(maxId, bound), found + |page|);
      assert responses[..1] == [responses[0]];
      forall k | 0 < k < |r.requests|
        ensures Continues(maxResults, found + |Fetched(responses[..k])|)
      {
        assert responses[..k][1..] == responses[1..][..k - 1];
      }
      assert responses[..0] == [];
    }
  }

  /** The cursor: the first request carries the bound computed from the
      initial state, and each later request carries one below the id of the
      last tweet of the page before it when that id is positive, and the
      previous request's bound otherwise. */
  lemma {:induction false} PaginateCursor(responses: seq<Response>, query: string,
      maxResults: Option<int>, maxId: int, bound: Option<int>, found: int)
    ensures var r := Paginate(responses, query, maxResults, maxId, bound, found);
      && |r.requests| <= |responses|
      && (r.requests != [] ==> r.requests[0].maxId == NextBound(maxId, bound))
      && (forall k :: 0 <= k < |r.requests| - 1 ==>
            && responses[k].Page? && responses[k].tweets != []
            && r.requests[k + 1].maxId == NextBound(LastId(responses[k]), r.requests[k].maxId))
    decreases |responses|
  {
    var r := Paginate(responses, query, maxResults, maxId, bound, found);
    if Continues(maxResults, found) && responses != []
       && responses[0].Page? && responses[0].tweets != [] {
      var page := responses[0].tweets;
      PaginateCursor(responses[1..], query, maxResults, page[|page| - 1].id,
                     NextBound(maxId, bound), found + |page|);
    }
  }

  /** A set limit is not a hard cap: the last page is yielded whole, so
      with pages of at most TWEETS_PER_QUERY tweets a run yields fewer than
      the limit plus one page. */
  lemma {:induction false} PaginateOvershoot(responses: seq<Response>, query: string, limit: int,
      maxId: int, bound: Option<int>, found: int)
    requires limit > 0 && found < limit + TWEETS_PER_QUERY
    requires forall k :: 0 <= k < |responses| ==> |PageTweets(responses[k])| <= TWEETS_PER_QUERY
    ensures found + |Paginate(responses, query, Some(limit), maxId, bound, found).tweets|
            < limit + TWEETS_PER_QUERY
    decreases |responses|
  {
    if Continues(Some(limit), found) && responses != []
       && responses[0].Page? && responses[0].tweets != [] {
      var page := responses[0].tweets;
      assert |PageTweets(responses[0])| <= TWEETS_PER_QUERY;
      PaginateOvershoot(responses[1..], query, limit, page[|page| - 1].id,
                        NextBound(maxId, bound), found + |page|);
    }
  }

  /** A limit of one and a first page of two tweets: both are yielded. */
  lemma OvershootExample(query: string)
    ensures var ts := [Tweet(2, "2", 0, ""), Tweet(1, "1", 0, "")];
      SearchRun([Page(ts)], query, Some(1), None).tweets == ts
  {
  }

  /** Ids strictly decrease along `tweets`: newest first, no id twice. */
  ghost predicate NewestFirst(tweets: seq<Tweet>)
  {
    forall i, j :: 0 <= i < j < |tweets| ==> tweets[i].id > tweets[j].id
  }

  /** Every tweet is at or below the `max_id` bound, if there is one. */
  ghost predicate WithinBound(tweets: seq<Tweet>, bound: Option<int>)
  {
    bound.Some? ==> forall t :: t in tweets ==> t.id <= bound.value
  }

  /** How the search API is assumed to answer one request: the page is
      newest first, has positive ids and stays within the request's bound. */
  ghost predicate AnswersInOrder(response: Response, request: Request)
  {
    && NewestFirst(PageTweets(response))
    && WithinBound(PageTweets(response), request.maxId)
    && (forall t :: t in PageTweets(response) ==> t.id > 0)
  }

  /** The server answers every request of a run in that order. */
  ghost predicate ServerOrdered(responses: seq<Response>, requests: seq<Request>)
    decreases |requests|
  {
    requests == [] || responses == []
    || (AnswersInOrder(responses[0], requests[0]) && ServerOrdered(responses[1..], requests[1..]))
  }

  /** The first request of an ordered run is answered in order, and the
      rest of the run is ordered. */
  lemma ServerOrderedTail(responses: seq<Response>, requests: seq<Request>)
    requires ServerOrdered(responses, requests) && responses != [] && requests != []
    ensures AnswersInOrder(responses[0], requests[0])
    ensures ServerOrdered(responses[1..], requests[1..])
  {
  }

  /** A page that answers its request in order is newest first and within
      the request's bound, and its last tweet's id is positive. */
  lemma AnswerFacts(page: seq<Tweet>, request: Request)
    requires page != [] && AnswersInOrder(Page(page), request)
    ensures NewestFirst(page) && WithinBound(page, request.maxId)
    ensures NextBound(page[|page| - 1].id, request.maxId) == Some(page[|page| - 1].id - 1)
  {
    assert page[|page| - 1] in PageTweets(Page(page));
  }

  /** Tweets within a bound, followed by tweets within a bound no higher,
      are all within the first bound. */
  lemma WithinBoundAppend(page: seq<Tweet>, rest: seq<Tweet>, bound: Option<int>, restBound: Option<int>)
    requires WithinBound(page, bound) && WithinBound(rest, restBound)
    requires bound.Some? ==> restBound.Some? && restBound.value <= bound.value
    ensures WithinBound(page + rest, bound)
  {
    if bound.Some? {
      forall t | t in page + rest ensures t.id <= bound.value {
        if t !in page {
          assert t in rest;
        }
      }
    }
  }

  /** A newest-first page followed by newest-first tweets all older than
      the page's last tweet is newest first. */
  lemma NewestFirstAppend(page: seq<Tweet>, rest: seq<Tweet>)
    requires page != [] && NewestFirst(page) && NewestFirst(rest)
    requires WithinBound(rest, Some(page[|page| - 1].id - 1))
    ensures NewestFirst(page + rest)
  {
  }

  /** Each request after the first is bounded by the cursor the answer
      before it left: the chaining of requests that a run shows. */
  ghost predicate Chained(responses: seq<Response>, requests: seq<Request>)
    decreases |requests|
  {
    |requests| <= 1
    || (&& responses != [] && HasTweets(responses[0])
        && requests[1].maxId == NextBound(LastId(responses[0]), requests[0].maxId)
        && Chained(responses[1..], requests[1..]))
  }

  /** The requests of a run are chained by the cursor. */
  lemma {:induction false} PaginateChained(responses: seq<Response>, query: string,
      maxResults: Option<int>, maxId: int, bound: Option<int>, found: int)
    ensures Chained(responses, Paginate(responses, query, maxResults, maxId, bound, found).requests)
    decreases |responses|
  {
    var r := Paginate(responses, query, maxResults, maxId, bound, found);
    if Continues(maxResults, found) && responses != [] && HasTweets(responses[0]) {
      var page := responses[0].tweets;
      var rest := Paginate(responses[1..], query, maxResults, page[|page| - 1].id,
                           NextBound(maxId, bound), found + |page|);
      PaginatePage(responses, query, maxResults, maxId, bound, found);
      PaginateChained(responses[1..], query, maxResults, page[|page| - 1].id,
                      NextBound(maxId, bound), found + |page|);
      PaginateCursor(responses[1..], query, maxResults, page[|page| - 1].id,
                     NextBound(maxId, bound), found + |page|);
    }
  }

  /** The tweets of chained requests answered in order are newest first and
      within the first request's bound. */
  lemma {:induction false} OrderedPagesNewestFirst(responses: seq<Response>, requests: seq<Request>)
    requires |requests| <= |responses|
    requires ServerOrdered(responses, requests) && Chained(responses, requests)
    ensures NewestFirst(Fetched(responses[..|requests|]))
    ensures requests != [] ==> WithinBound(Fetched(responses[..|requests|]), requests[0].maxId)
    decreases |requests|
  {
    if requests != [] {
      var n := |requests|;
      ServerOrderedTail(responses, requests);
      var page := PageTweets(responses[0]);
      var rest := Fetched(responses[1..][..n - 1]);
      assert responses[..n][1..] == responses[1..][..n - 1];
      assert Fetched(responses[..n]) == page + rest;
      if n == 1 {
        assert rest == [];
        assert page + rest == page;
        assert NewestFirst(page) && WithinBound(page, requests[0].maxId);
      } else {
        OrderedPagesNewestFirst(responses[1..], requests[1..]);
        assert responses[0] == Page(page);
        AnswerFacts(page, requests[0]);
        NewestFirstAppend(page, rest);
        WithinBoundAppend(page, rest, requests[0].maxId, requests[1].maxId);
      }
    }
  }

  /** Against a server that answers in that order, the cursor makes every
      page strictly older than the one before it: the tweets a run yields
      are newest first, so none is yielded twice, and all stay within the
      first request's bound. */
  lemma {:induction false} PaginateNewestFirst(responses: seq<Response>, query: string,
      maxResults: Option<int>, maxId: int, bound: Option<int>, found: int)
    requires ServerOrdered(responses, Paginate(responses, query, maxResults, maxId, bound, found).requests)
    ensures var r := Paginate(responses, query, maxResults, maxId, bound, found);
      NewestFirst(r.tweets) && WithinBound(r.tweets, NextBound(maxId, bound))
  {
    var r := Paginate(responses, query, maxResults, maxId, bound, found);
    PaginateYieldsPages(responses, query, maxResults, maxId, bound, found);
    PaginateCursor(responses, query, maxResults, maxId, bound, found);
    PaginateChained(responses, query, maxResults, maxId, bound, found);
    OrderedPagesNewestFirst(responses, r.requests);
    if r.requests == [] {
      assert r.tweets == [];
    }
  }

  /** The bound `next` is present and strictly below `previous`, if that is. */
  predicate StepsDown(previous: Option<int>, next: Option<int>)
  {
    next.Some? && (previous.Some? ==> next.value < previous.value)
  }

  /** Chained requests answered in order step down at every position. */
  lemma {:induction false} ChainedStepsDown(responses: seq<Response>, requests: seq<Request>, k: int)
    requires ServerOrdered(responses, requests) && Chained(responses, requests)
    requires 0 <= k < |requests| - 1
    ensures StepsDown(requests[k].maxId, requests[k + 1].maxId)
    decreases k
  {
    ServerOrderedTail(responses, requests);
    if k == 0 {
      var page := responses[0].tweets;
      assert responses[0] == Page(page);
      AnswerFacts(page, requests[0]);
      assert page[|page| - 1] in page;
    } else {
      ChainedStepsDown(responses[1..], requests[1..], k - 1);
    }
  }

  /** Against a server that answers in that order, every request after the
      first carries a bound, and each bound is strictly below the one before
      it, so no id range is asked for twice. */
  lemma {:induction false} PaginateCursorDecreases(responses: seq<Response>, query: string,
      maxResults: Option<int>, maxId: int, bound: Option<int>, found: int)
    requires ServerOrdered(responses, Paginate(responses, query, maxResults, maxId, bound, found).requests)
    ensures var r := Paginate(responses, query, maxResults, maxId, bound, found);
      forall k :: 0 <= k < |r.requests| - 1 ==> StepsDown(r.requests[k].maxId, r.requests[k + 1].maxId)
  {
    var r := Paginate(responses, query, maxResults, maxId, bound, found);
    PaginateChained(responses, query, maxResults, maxId, bound, found);
    forall k | 0 <= k < |r.requests| - 1
      ensures StepsDown(r.requests[k].maxId, r.requests[k + 1].maxId)
    {
      ChainedStepsDown(responses, r.requests, k);
    }
  }

  /** The first request of a search carries no bound unless the caller gave
      a `max_id`, and then one below it if it is positive. */
  lemma SearchFirstRequest(responses: seq<Response>, query: string, maxResults: Option<int>,
                           maxId: Option<int>)
    requires responses != [] && Continues(maxResults, 0)
    ensures var r := SearchRun(responses, query, maxResults, maxId);
      && r.requests != []
      && r.requests[0] == Request(query, TWEETS_PER_QUERY,
                                  if maxId.Some? && maxId.value > 0 then Some(maxId.value - 1) else maxId)
  {
  }

  /** An empty first page ends the search after one request, with nothing
      yielded. */
  lemma SearchEmptyFirstPage(responses: seq<Response>, query: string, maxResults: Option<int>,
                             maxId: Option<int>)
    requires responses != [] && responses[0] == Page([]) && Continues(maxResults, 0)
    ensures var r := SearchRun(responses, query, maxResults, maxId);
      |r.requests| == 1 && r.tweets == [] && r.exit == EmptyPage
  {
  }

  // ---------------------------------------------------------------------
  // read_query: the OR query
  // ---------------------------------------------------------------------

  /** The query built from the lines of the hashtag list: each line with a
      '#' in front, joined by " OR ". Lines are taken as given. */
  function OrQuery(hashtags: seq<string>): (q: string)
    ensures q == "" <==> hashtags == []
  {
    if |hashtags| == 0 then ""
    else if |hashtags| == 1 then "#" + hashtags[0]
    else "#" + hashtags[0] + " OR " + OrQuery(hashtags[1..])
  }

  /** `sep.join(parts)` as a left-to-right accumulation: the parts in order,
      with `sep` between each two. */
  function Join(sep: string, parts: seq<string>): string
  {
    if |parts| == 0 then ""
    else if |parts| == 1 then parts[0]
    else Join(sep, parts[..|parts| - 1]) + sep + parts[|parts| - 1]
  }

  /** Each hashtag with a '#' in front. */
  function Tagged(hashtags: seq<string>): seq<string>
  {
    seq(|hashtags|, i requires 0 <= i < |hashtags| => "#" + hashtags[i])
  }

  /** Two hashtags give "#python OR #dafny". */
  lemma OrQueryExample()
    ensures OrQuery(["python", "dafny"]) == "#python OR #dafny"
  {
  }

  /** Querying for two lists of hashtags one after the other is querying
      for each and joining the two queries with " OR ". */
  lemma {:induction false} OrQueryAppend(a: seq<string>, b: seq<string>)
    requires a != [] && b != []
    ensures OrQuery(a + b) == OrQuery(a) + " OR " + OrQuery(b)
    decreases |a|
  {
    if |a| > 1 {
      assert (a + b)[1..] == a[1..] + b;
      OrQueryAppend(a[1..], b);
    } else {
      assert (a + b)[1..] == b;
    }
  }

  /** The query is exactly `' OR '.join('#' + h for h in hashtags)`. */
  lemma {:induction false} OrQueryIsJoin(hashtags: seq<string>)
    ensures OrQuery(hashtags) == Join(" OR ", Tagged(hashtags))
    decreases |hashtags|
  {
    if |hashtags| > 1 {
      var init := hashtags[..|hashtags| - 1];
      var last := hashtags[|hashtags| - 1];
      assert hashtags == init + [last];
      assert Tagged(hashtags)[..|hashtags| - 1] == Tagged(init);
      OrQueryIsJoin(init);
      OrQueryAppend(init, [last]);
    }
  }
}
