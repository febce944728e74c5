/**
 The record model of the tweet service: what a stored tweet is, how one is
 minted, and how a decoded write request turns into one.

 The identifier generator (a random v4 UUID) and the UTC clock are not part
 of the model: their results are passed in as `id` and `now`. A timestamp is
 an integer, ordered as chrono orders `DateTime<Utc>`.
 */
module Model {

  datatype Option<+T> = None | Some(value: T)

  /** A stored post. */
  datatype Tweet = Tweet(id: string, message: string, createdAt: int)

  /** The decoded body of a write request; the `message` field may be missing. */
  datatype TweetRequest = TweetRequest(message: Option<string>)

  /** `Tweet::new`: the message is kept verbatim, the identifier and the
      timestamp are the ones drawn for this call. */
  function NewTweet(message: string, id: string, now: int): (t: Tweet)
    ensures t.message == message
    ensures t.id == id
    ensures t.createdAt == now
  {
    Tweet(id, message, now)
  }

  /** Every tweet is the one `Tweet::new` mints from its own fields, so the
      three inputs of `NewTweet` are all a tweet holds. */
  lemma NewTweetOfFields(t: Tweet)
    ensures NewTweet(t.message, t.id, t.createdAt) == t
  {
  }

  /** `TweetRequest::to_tweet`: a tweet exactly when a message is present,
      whatever its text (the empty string included). */
  function ToTweet(req: TweetRequest, id: string, now: int): (r: Option<Tweet>)
    ensures r.Some? <==> req.message.Some?
    ensures r.Some? ==> r.value.message == req.message.value
    ensures r.Some? ==> r.value.id == id && r.value.createdAt == now
  {
    match req.message
    case Some(message) => Some(NewTweet(message, id, now))
    case None => None
  }

  /** The request a client sends to have `t` posted. */
  function RequestFor(t: Tweet): (req: TweetRequest)
    ensures req.message == Some(t.message)
  {
    TweetRequest(Some(t.message))
  }

  /** Converting a request is inverted by `RequestFor`: a request yields `t`
      (with `t`'s identifier and timestamp drawn) exactly when it is the
      request for `t`. */
  lemma ToTweetInverse(req: TweetRequest, t: Tweet)
    ensures ToTweet(req, t.id, t.createdAt) == Some(t) <==> req == RequestFor(t)
  {
    if ToTweet(req, t.id, t.createdAt) == Some(t) {
      assert req.message == Some(t.message);
    }
  }

  /** An explicitly empty message is not rejected: it yields a tweet with an
      empty text, unlike a missing one. */
  lemma EmptyMessageIsAccepted(id: string, now: int)
    ensures ToTweet(TweetRequest(Some("")), id, now) == Some(Tweet(id, "", now))
    ensures ToTweet(TweetRequest(None), id, now) == None
  {
  }
}
