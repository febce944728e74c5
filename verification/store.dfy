/**
 The shared store and the two handler bodies that run under its lock.

 Each handler holds the store's single mutex for its whole body, so each
 request is one atomic step from a store to a store and a response. A
 history of concurrent requests is modelled by the order in which they
 acquired the lock (`Run`).
 */
module Store {
  import opened Model
  import opened Ordering

  /** The state behind the mutex: the tweets in the order they were stored. */
  datatype Tweets = Tweets(tweets: seq<Tweet>)

  /** A request as the store sees it: a write carries the decoded body and
      the identifier and timestamp drawn for it; a read carries nothing. */
  datatype Request = Write(req: TweetRequest, id: string, now: int) | Read

  /** The body of a response: the last stored tweet (if any) after a write,
      or the sorted copy after a read. */
  datatype Response = Created(last: Option<Tweet>) | Listing(tweets: seq<Tweet>)

  /** The store after one handler body and the response it produced. */
  datatype Step = Step(store: Tweets, response: Response)

  /** `Vec::last`. */
  function Last(s: seq<Tweet>): (r: Option<Tweet>)
    ensures r.None? <==> |s| == 0
    ensures r.Some? ==> r.value == s[|s| - 1]
  {
    if |s| == 0 then None else Some(s[|s| - 1])
  }

  /** The body of the `tweet` handler once the lock is held: append the tweet
      the request yields, if any, and answer with the last stored tweet. */
  function PostTweet(store: Tweets, req: TweetRequest, id: string, now: int): (r: Step)
    ensures |r.store.tweets| == |store.tweets| + (if req.message.Some? then 1 else 0)
    ensures store.tweets <= r.store.tweets
    ensures req.message.Some? ==>
              r.store.tweets[|store.tweets|] == NewTweet(req.message.value, id, now)
    ensures r.response.Created?
    ensures r.response.last.None? <==> |r.store.tweets| == 0
    ensures r.response.last.Some? ==>
              r.response.last.value == r.store.tweets[|r.store.tweets| - 1]
  {
    var tweets :=
      match ToTweet(req, id, now)
      case Some(t) => store.tweets + [t]
      case None => store.tweets;
    Step(Tweets(tweets), Created(Last(tweets)))
  }

  /** What a write answers, by case: the new tweet when a message is
      present; otherwise the store is untouched and the answer is the
      previously last tweet, or nothing on an empty store. */
  lemma PostTweetResponse(store: Tweets, req: TweetRequest, id: string, now: int)
    ensures req.message.Some? ==>
              PostTweet(store, req, id, now).response
              == Created(Some(Tweet(id, req.message.value, now)))
    ensures req.message.None? && |store.tweets| > 0 ==>
              PostTweet(store, req, id, now)
              == Step(store, Created(Some(store.tweets[|store.tweets| - 1])))
    ensures req.message.None? && |store.tweets| == 0 ==>
              PostTweet(store, req, id, now) == Step(store, Created(None))
  {
    var r := PostTweet(store, req, id, now);
    if req.message.Some? {
      assert r.store.tweets == store.tweets + [NewTweet(req.message.value, id, now)];
    }
  }

  /** The body of the `list_tweets` handler once the lock is held: a copy of
      the stored tweets sorted newest first; the store is left as it was. */
  function ListTweets(store: Tweets): (r: Step)
    ensures r.store == store
    ensures r.response.Listing?
    ensures multiset(r.response.tweets) == multiset(store.tweets)
    ensures AdjacentNewestFirst(r.response.tweets)
    ensures forall k :: At(r.response.tweets, k) == At(store.tweets, k)
  {
    var sorted := SortNewestFirst(store.tweets);
    AdjacentNewestFirstIffNewestFirst(sorted);
    SortNewestFirstIsStableSort(store.tweets, sorted);
    Step(store, Listing(sorted))
  }

  /** The read answer is the one and only stable newest-first sort of the
      store. */
  lemma ListTweetsIsStableSort(store: Tweets, r: seq<Tweet>)
    ensures ListTweets(store).response.tweets == r <==> StablySortedFrom(r, store.tweets)
  {
    SortNewestFirstIsStableSort(store.tweets, r);
  }

  /** One request handled under the lock. */
  function Handle(store: Tweets, q: Request): (r: Step)
    ensures q.Read? ==> r.store == store
    ensures q.Read? ==> r == ListTweets(store)
    ensures q.Write? ==> r == PostTweet(store, q.req, q.id, q.now)
  {
    match q
    case Write(req, id, now) => PostTweet(store, req, id, now)
    case Read => ListTweets(store)
  }

  /** The tweet a single request mints, if any. */
  function MintedBy(q: Request): seq<Tweet> {
    match q
    case Write(req, id, now) =>
      (match ToTweet(req, id, now) case Some(t) => [t] case None => [])
    case Read => []
  }

  /** The store after handling one request: it grows by exactly what the
      request mints. */
  function After(store: Tweets, q: Request): (r: Tweets)
    ensures r.tweets == store.tweets + MintedBy(q)
  {
    match q
    case Write(req, id, now) => PostTweet(store, req, id, now).store
    case Read => store
  }

  /** `After` is the store that `Handle` leaves behind. */
  lemma AfterIsHandle(store: Tweets, q: Request)
    ensures After(store, q) == Handle(store, q).store
  {
  }

  /** The tweets the writes of `qs` mint, in request order. */
  function Minted(qs: seq<Request>): (r: seq<Tweet>)
    ensures |r| <= |qs|
  {
    if |qs| == 0 then [] else MintedBy(qs[0]) + Minted(qs[1..])
  }

  /** The store after the requests `qs` were handled one at a time, in the
      order in which they took the lock: the tweets already stored followed
      by every tweet the writes minted, none lost, duplicated or reordered. */
  function Run(store: Tweets, qs: seq<Request>): (r: Tweets)
    ensures r.tweets == store.tweets + Minted(qs)
    decreases |qs|
  {
    if |qs| == 0 then store
    else
      var next := After(store, qs[0]);
      var r := Run(next, qs[1..]);
      assert r.tweets == store.tweets + (MintedBy(qs[0]) + Minted(qs[1..]));
      r
  }

  /** Minting distributes over concatenated histories. */
  lemma {:induction false} MintedAppend(a: seq<Request>, b: seq<Request>)
    ensures Minted(a + b) == Minted(a) + Minted(b)
  {
    if |a| == 0 {
      assert a + b == b;
    } else {
      assert (a + b)[0] == a[0];
      assert (a + b)[1..] == a[1..] + b;
      calc {
        Minted(a + b);
        MintedBy(a[0]) + Minted(a[1..] + b);
        { MintedAppend(a[1..], b); }
        MintedBy(a[0]) + (Minted(a[1..]) + Minted(b));
        (MintedBy(a[0]) + Minted(a[1..])) + Minted(b);
        Minted(a) + Minted(b);
      }
    }
  }

  /** A read mints nothing, wherever it falls in the history. */
  lemma MintedSkipsRead(before: seq<Request>, after: seq<Request>)
    ensures Minted(before + [Read] + after) == Minted(before + after)
  {
    assert Minted([Read]) == [];
    MintedAppend(before, [Read]);
    MintedAppend(before + [Read], after);
    MintedAppend(before, after);
  }

  /** A read, wherever it falls in the history, changes nothing a later
      request observes. */
  lemma ReadChangesNothing(store: Tweets, qs: seq<Request>, i: nat)
    requires i <= |qs|
    ensures Run(store, qs[..i] + [Read] + qs[i..]) == Run(store, qs)
  {
    MintedSkipsRead(qs[..i], qs[i..]);
    assert qs[..i] + qs[i..] == qs;
    var r, r' := Run(store, qs[..i] + [Read] + qs[i..]), Run(store, qs);
    assert r.tweets == r'.tweets;
  }

  /** Writes that all carry a message each store exactly one tweet, holding
      that write's message, identifier and timestamp. */
  lemma {:induction false} WritesWithMessage(qs: seq<Request>)
    requires forall i :: 0 <= i < |qs| ==> qs[i].Write? && qs[i].req.message.Some?
    ensures |Minted(qs)| == |qs|
    ensures forall i :: 0 <= i < |qs| ==>
              Minted(qs)[i] == Tweet(qs[i].id, qs[i].req.message.value, qs[i].now)
  {
    if |qs| > 0 {
      WritesWithMessage(qs[1..]);
      var q := qs[0];
      assert Minted(qs) == [Tweet(q.id, q.req.message.value, q.now)] + Minted(qs[1..]);
    }
  }

  /** No two tweets share an identifier. */
  predicate UniqueIds(s: seq<Tweet>) {
    forall i, j :: 0 <= i < j < |s| ==> s[i].id != s[j].id
  }

  /** The request draws an identifier: it is a write that carries a message
      (a write without one never mints a tweet, so draws no UUID). */
  predicate DrawsId(q: Request) {
    q.Write? && q.req.message.Some?
  }

  /** The identifiers drawn for the writes of `qs` differ from one another
      and from every identifier already stored; v4 UUIDs are only
      probabilistically unique, so this is assumed of the generator. */
  predicate FreshIds(store: Tweets, qs: seq<Request>) {
    && (forall i :: 0 <= i < |qs| && DrawsId(qs[i]) ==>
          forall t :: t in store.tweets ==> t.id != qs[i].id)
    && (forall i, j :: 0 <= i < j < |qs| && DrawsId(qs[i]) && DrawsId(qs[j]) ==>
          qs[i].id != qs[j].id)
  }

  /** With fresh identifiers, every history keeps the stored identifiers
      unique. */
  lemma {:induction false} RunKeepsUniqueIds(store: Tweets, qs: seq<Request>)
    requires UniqueIds(store.tweets)
    requires FreshIds(store, qs)
    ensures UniqueIds(Run(store, qs).tweets)
    decreases |qs|
  {
    if |qs| > 0 {
      var next := After(store, qs[0]);
      assert UniqueIds(next.tweets) by {
        if qs[0].Write? && qs[0].req.message.Some? {
          var s := next.tweets;
          assert s == store.tweets + [s[|store.tweets|]];
          forall i, j | 0 <= i < j < |s|
            ensures s[i].id != s[j].id
          {
            if j == |store.tweets| {
              assert s[i] in store.tweets;
            }
          }
        }
      }
      var rest := qs[1..];
      assert FreshIds(next, rest) by {
        forall i, t | 0 <= i < |rest| && DrawsId(rest[i]) && t in next.tweets
          ensures t.id != rest[i].id
        {
          assert rest[i] == qs[i + 1];
          if t !in store.tweets {
            assert t == next.tweets[|store.tweets|];
          }
        }
        forall i, j | 0 <= i < j < |rest| && DrawsId(rest[i]) && DrawsId(rest[j])
          ensures rest[i].id != rest[j].id
        {
          assert rest[i] == qs[i + 1] && rest[j] == qs[j + 1];
        }
      }
      RunKeepsUniqueIds(next, rest);
    }
  }

  /** A write stamped later than every stored tweet keeps the storage order
      strictly chronological. */
  lemma PostKeepsChronological(store: Tweets, req: TweetRequest, id: string, now: int)
    requires StrictlyChronological(store.tweets)
    requires forall t :: t in store.tweets ==> t.createdAt < now
    ensures StrictlyChronological(PostTweet(store, req, id, now).store.tweets)
  {
    var s := PostTweet(store, req, id, now).store.tweets;
    forall i, j | 0 <= i < j < |s|
      ensures s[i].createdAt < s[j].createdAt
    {
      if j == |store.tweets| {
        assert s[i] in store.tweets;
      }
    }
  }

  /** When the store is strictly chronological, the read answer is the store
      reversed: the most recently stored tweet first. */
  lemma ListChronologicalIsReverse(store: Tweets)
    requires StrictlyChronological(store.tweets)
    ensures ListTweets(store).response.tweets == Reverse(store.tweets)
  {
    SortChronologicalIsReverse(store.tweets);
  }

  /** Posting "first" and then "second" to an empty store and reading:
      the later tweet comes first, and on equal timestamps the stored order
      is kept. */
  lemma FirstThenSecond(id1: string, id2: string, t1: int, t2: int)
    ensures
      var first, second := Tweet(id1, "first", t1), Tweet(id2, "second", t2);
      var store := Run(Tweets([]), [Write(RequestFor(first), id1, t1),
                                    Write(RequestFor(second), id2, t2)]);
      ListTweets(store).response.tweets
      == if t1 < t2 then [second, first] else [first, second]
  {
    var first, second := Tweet(id1, "first", t1), Tweet(id2, "second", t2);
    var qs := [Write(RequestFor(first), id1, t1), Write(RequestFor(second), id2, t2)];
    assert Minted(qs) == [first] + Minted(qs[1..]);
    assert Minted(qs[1..]) == [second] + Minted(qs[1..][1..]);
    assert Run(Tweets([]), qs).tweets == [first, second];
    var rest := SortNewestFirst([first, second][1..]);
    assert rest == Insert(second, []);
  }

  /** A write without a message on an empty store answers nothing, and a
      read afterwards answers an empty list. */
  lemma AbsentOnEmptyStore(id: string, now: int)
    ensures PostTweet(Tweets([]), TweetRequest(None), id, now) == Step(Tweets([]), Created(None))
    ensures ListTweets(Run(Tweets([]), [Write(TweetRequest(None), id, now)])).response
            == Listing([])
  {
    var qs := [Write(TweetRequest(None), id, now)];
    assert Minted(qs) == [] + Minted(qs[1..]);
  }
}
