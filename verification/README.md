# Tweet store model

This project models the in-memory tweet store of a small Rust web service
(`src/main.rs`). The service keeps a `Vec<Tweet>` behind one `Mutex` and has
two handlers. `tweet` appends the tweet a request yields, if any, and answers
with the last stored tweet. `list_tweets` answers with a copy of the store
sorted newest first. Each handler holds the lock for its whole body. Each
body is therefore modelled as one atomic, pure step from a store to a new
store and a response. A concurrent history is modelled as the sequence of
requests in the order they took the lock.

Modules:

- `Model` (`model.dfy`): the `Tweet` record, the `TweetRequest` body,
  `Tweet::new` (`NewTweet`) and `TweetRequest::to_tweet` (`ToTweet`). The UUID
  generator and the UTC clock are not modelled. Their results are the
  parameters `id: string` and `now: int`. A timestamp is an integer with
  integer order.
- `Ordering` (`ordering.dfy`): the newest-first, stable sort that the
  read handler applies with Rust's `sort_by` (comparator reversed on
  `created_at`). The sort is written as a
  functional insertion sort. Its result is also characterised without
  reference to the algorithm: `StablySortedFrom` means the result is newest
  first and keeps, for every timestamp, the input's tweets with that
  timestamp in input order. `StableSortIsUnique` proves that this
  characterisation admits exactly one sequence. So Rust's own stable sort
  returns the same answer.
- `Store` (`store.dfy`): the store state `Tweets`, the bodies of the two
  handlers (`PostTweet`, `ListTweets`), one request under the lock
  (`Handle`) and a serialised history (`Run`).

On three points the service behaves in a way a reader might not expect; the model follows the code:

- An explicitly empty message (`"message": ""`) is accepted. It yields a
  tweet with empty text. Only a missing field yields no tweet.
- The sort is stable, because `sort_by` is stable. Tweets with equal
  timestamps keep their insertion order in the read answer.
- A write without a message still answers with `tweets.last()`. That is the
  previously last tweet, or nothing on an empty store.

## Model

| member | source | states |
|---|---|---|
| Model.NewTweet | src/main.rs:20-27 | the new tweet carries the given message verbatim and the identifier and timestamp drawn for it |
| Model.NewTweetOfFields | src/main.rs:13-27 | a tweet holds nothing beyond its three fields: minting from a tweet's own fields gives back that tweet |
| Model.ToTweet | src/main.rs:35-41 | a tweet is produced exactly when the message is present; it holds that message, the drawn identifier and the drawn timestamp |
| Model.ToTweetInverse | src/main.rs:35-41 | a request yields tweet `t` (with `t`'s identifier and time drawn) if and only if it is the request carrying `t`'s message |
| Model.EmptyMessageIsAccepted | src/main.rs:36-41 | a present empty message yields a tweet with empty text; a missing message yields none |
| Ordering.AdjacentNewestFirstIffNewestFirst | src/main.rs:54 | "each tweet at least as recent as its successor" and "at least as recent as every later tweet" are equivalent |
| Ordering.Insert | src/main.rs:54 | inserting one tweet adds exactly that tweet to the multiset |
| Ordering.InsertKeepsNewestFirst | src/main.rs:54 | inserting into a newest-first sequence keeps it newest first |
| Ordering.SortNewestFirst | src/main.rs:53-54 | the sorted copy is a permutation of the input and is newest first |
| Ordering.InsertAt | src/main.rs:54 | in any sequence, an inserted tweet goes ahead of the existing tweets with its timestamp; other timestamp classes are unchanged |
| Ordering.SortAt | src/main.rs:54 | for every timestamp, the sorted copy lists that timestamp's tweets in input order (stability) |
| Ordering.StableSortIsUnique | src/main.rs:54 | two newest-first sequences that agree on every timestamp class are equal |
| Ordering.SortNewestFirstIsStableSort | src/main.rs:53-54 | a sequence is a stable newest-first sort of the input if and only if it equals the sort's result |
| Ordering.SortChronologicalIsReverse | src/main.rs:53-54 | when stored timestamps strictly increase, the sorted copy is the stored sequence reversed |
| Store.Last | src/main.rs:67 | the answer is absent exactly on an empty sequence, and otherwise is its final element |
| Store.PostTweet | src/main.rs:61-67 | the store grows by exactly one tweet when a message is present and by none otherwise; the old tweets stay an unchanged prefix; the new tweet is at the end; the answer is the last tweet of the resulting store |
| Store.PostTweetResponse | src/main.rs:62-67 | with a message, the answer is the new tweet; without one, the store is unchanged and the answer is the previously last tweet, or nothing on an empty store |
| Store.ListTweets | src/main.rs:52-55 | the read leaves the store unchanged; its answer is a permutation of the store, newest first by adjacent pairs, and stable on equal timestamps |
| Store.ListTweetsIsStableSort | src/main.rs:53-54 | the read answer is exactly the one sequence that is a stable newest-first sort of the store |
| Store.Handle | src/main.rs:49-68 | a read leaves the store unchanged and answers the stable newest-first listing of `list_tweets`; a write is the `tweet` handler body |
| Store.Run | src/main.rs:52-66 | after a serialised history the store is the old tweets followed by every minted tweet in lock order, with none lost, duplicated or reordered |
| Store.ReadChangesNothing | src/main.rs:50-55 | inserting a read anywhere in a history leaves the final store unchanged |
| Store.WritesWithMessage | src/main.rs:62-66 | a history of writes that all carry a message stores exactly one tweet per write, with that write's message, identifier and timestamp |
| Store.RunKeepsUniqueIds | src/main.rs:21-26 | if the identifiers drawn by writes that carry a message are fresh, the stored identifiers stay pairwise distinct through any history |
| Store.PostKeepsChronological | src/main.rs:21-26 | a write stamped after every stored tweet keeps storage order strictly chronological |
| Store.ListChronologicalIsReverse | src/main.rs:53-54 | on a strictly chronological store the read answer is the most recent tweet first, i.e. the store reversed |
| Store.FirstThenSecond | src/main.rs:49-68 | posting "first" then "second" and reading gives "second" first when it is strictly later, and otherwise keeps "first" first |
| Store.AbsentOnEmptyStore | src/main.rs:62-67 | a write without a message on an empty store answers nothing, and a read afterwards answers an empty list |

## Left out

- HTTP plumbing: actix-web routing, the `greet` endpoint, the `app_data` lookup, response status codes, `main` and server binding. These are transport and hold no store logic.
- JSON encoding and decoding by serde. Requests enter the model already decoded as `TweetRequest`.
- The `Mutex` itself and lock poisoning. Each handler body is one atomic step, and `Run` takes the order in which the lock was granted as its input.
- Identifier and clock generation (`Uuid::new_v4`, `Utc::now`). Their results are parameters. Identifier freshness is the assumption `FreshIds`, since v4 UUIDs are only probabilistically unique. Clock monotonicity is the assumption in `PostKeepsChronological`.
- Timestamp precision and time zones: `DateTime<Utc>` is an integer with integer order.
- Ordering.SortNewestFirst: uses insertion sort, not Rust's sort algorithm. `StableSortIsUnique` shows that every stable newest-first sort gives the same result.
