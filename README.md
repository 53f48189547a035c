# tweetstash in Dafny

A model of the retrieval-and-storage core of tweetstash, a tool that runs
historical searches against the Twitter search API and saves each tweet as
one JSON file, named by its id, in a stash directory.

- `tweets.dfy` (module `Tweets`): the `Tweet` value (numeric `id`, textual
  `idStr`, integer `createdAt` timestamp, verbatim payload) and `Option`.
- `search.dfy` (module `Search`), from `src/tweetstash/search.py`:
  - `limit_tweet_age` is a pure prefix function (`LimitTweetAge`, built on
    `TakeNotOlder`). `LimitTweetAgeStream` is the one-pass loop the source
    runs, proved equal to it.
  - `search_twitter` is the pagination loop: the method `SearchTwitter`,
    proved equal to the recursive specification `SearchRun`/`Paginate`.
    Lemmas about `Paginate` state what the loop promises: the requests it
    sends, how the cursor moves, why and where it stops, and which tweets
    it yields.
  - The remote API is a finite sequence of answers (`Response`): a page, a
    `TweepError`, or an operator interrupt. Each answer goes to one request,
    in order.
  - The OR join of `read_query` is `OrQuery`, proved equal to
    `' OR '.join(...)` written as a fold (`Join`).
- `stash.dfy` (module `Stash`), from `src/tweetstash/stash.py`:
  - The class `FileStash` has a `files: map<string, Tweet>` field, from file
    name to stored tweet, and a constant `baseDir`.
  - Its file names follow `tweet_path`. Its methods are `is_stashed`,
    `stash`, `unstash` and `all_ids`, plus the inherited `stash_many`,
    `unstash_many` and `unstash_all`.
  - Each method that writes is specified by a function on the map
    (`Stashed`, `StashedAll`). The lemmas about those functions give
    idempotence, the frame, and which tweet wins when ids repeat.
  - `Stem` gives a path's stem the way Python's `pathlib` does. The
    round-trip between ids and file names is proved with it.

Behaviour worth knowing, all stated and proved in the model:

- `max_results` of `None` and of `0` both mean "unlimited" (`not
  max_results`). The limit is not a hard cap: the last page is yielded
  whole (`PaginateOvershoot`, `OvershootExample`).
- A `max_id` given by the caller is sent as-is on the first request if it
  is not positive. If it is positive, it is decremented first, as the
  source does on every request (`SearchFirstRequest`).
- The cursor moves to the last tweet's id after every non-empty page, but
  the query's `max_id` bound only changes when the cursor is positive.
  Otherwise the query keeps its previous bound (`NextBound`, `PaginateCursor`).
- With a negative delta the first tweet is still yielded, although it was
  created before the stop time it fixes (`NegativeDeltaYieldsOnlyFirst`).
- The file of the empty id is `.json`, and `pathlib` gives that name the
  stem `.json`, not the empty string. So the id/stem round-trip holds
  exactly for non-empty ids (`StemOfFileName`). `unstash_all` reads every
  listed file back when no file is named `.json` (`FileStash.UnstashAll`).
  A listed `.json` is never read from itself: its stem is `.json`, so the
  file opened is `.json.json` (`SuffixReadsOtherFile`).
- `readlines()` keeps line terminators. `OrQuery` takes the lines exactly
  as given, without stripping them.

## Model

| member | source | states |
|---|---|---|
| Search.TakeNotOlderSpec | src/tweetstash/search.py:40-43 | the filter loop keeps a prefix of the stream, every kept tweet created at or after the stop time, and it ends only at the end of the stream or at a tweet created before the stop time |
| Search.TakeNotOlderUnique | src/tweetstash/search.py:40-43 | any prefix with those three properties is the one the loop keeps, so they characterise it |
| Search.LimitTweetAge | src/tweetstash/search.py:29-43 | output is a prefix of the input; empty input gives empty output; with a relative cutoff the first tweet is always yielded, and the stop time is its creation time minus the delta; every other yielded tweet is at or after the stop time and the next one, if any, is before it |
| Search.AbsoluteFirstTweetChecked | src/tweetstash/search.py:29-43 | with an absolute stop time the first tweet is checked like the others: a too-old first tweet yields nothing |
| Search.RelativeIsAbsolute | src/tweetstash/search.py:33-43 | with a non-negative delta the relative cutoff yields what the absolute cutoff it computes yields |
| Search.NegativeDeltaYieldsOnlyFirst | src/tweetstash/search.py:37-43 | with a negative delta the first tweet is yielded even though the stop time lies after it, and in a newest-first stream (no later tweet newer than the first) no later tweet is |
| Search.DefaultDeltaYieldsOnlyFirst | src/tweetstash/search.py:29-43 | with the default delta `timedelta()` (zero), a stream whose later tweets are all strictly older than the first yields only the first tweet |
| Search.LimitTweetAgeUnique | src/tweetstash/search.py:29-43 | any prefix of the stream with the properties LimitTweetAge promises is the one it yields, so those properties characterise the filter |
| Search.StopBoundaryExample | src/tweetstash/search.py:37-43 | tweets 0, 1, 2 and 3 hours old with a 2-hour delta: exactly the first three are yielded |
| Search.LimitTweetAgeStream | src/tweetstash/search.py:9-43 | the one-pass loop over the stream (first tweet taken for a relative cutoff, then leave at the first too-old tweet) yields exactly LimitTweetAge |
| Search.PaginateYieldsPages | src/tweetstash/search.py:176-195 | at most one request per answer; the yielded tweets are the concatenated pages answering the requests, in order; every request but the last was answered by a non-empty page; every request carries the query and the page size of 100 |
| Search.PaginatePage | src/tweetstash/search.py:176-195 | on a non-empty page the run sends one request with the query, the page size and the next bound, yields the page, and goes on from the page's last id as the cursor |
| Search.PaginateRound | src/tweetstash/search.py:176-195 | one round of the loop from any point of a run: a non-empty page extends the requests and the tweets and leaves the rest of the run from the new cursor; any other answer ends the run after that request with the exit it calls for |
| Search.PaginateExit | src/tweetstash/search.py:176-198 | the loop ends with ApiFailed, Cancelled or EmptyPage exactly when the last answer used was an API error, an interrupt or an empty page; LimitReached only when the count has reached a set limit; running out of answers only with the guard still true |
| Search.PaginateRespectsLimit | src/tweetstash/search.py:176-192 | before every request the count of tweets found so far (the sum of the earlier pages' sizes) satisfies the loop guard, so no request is sent once a set limit is reached |
| Search.PaginateCursor | src/tweetstash/search.py:173-193 | the first request's bound comes from the initial cursor and bound; each later request carries the last id of the previous page minus one when that id is positive, and the previous bound otherwise |
| Search.PaginateChained | src/tweetstash/search.py:176-193 | the requests of a run are chained: each request after the first follows a non-empty page and is bounded by that page's last id |
| Search.ChainedStepsDown | src/tweetstash/search.py:178-193 | chained requests answered by pages with positive ids within their request's bound carry bounds that are present after the first and strictly decrease |
| Search.OrderedPagesNewestFirst | src/tweetstash/search.py:178-195 | the pages answering chained requests, each newest first and within its request's bound, concatenate to newest-first tweets within the first request's bound |
| Search.PaginateCursorDecreases | src/tweetstash/search.py:178-193 | against a server whose pages are newest first, positive and within their request's bound, every request after the first is bounded and each bound is strictly below the previous one |
| Search.PaginateNewestFirst | src/tweetstash/search.py:178-195 | against such a server the yielded tweets have strictly decreasing ids, so no tweet is yielded twice, and they stay within the first request's bound |
| Search.PaginateOvershoot | src/tweetstash/search.py:176-195 | with a positive limit and pages of at most 100 tweets, a run yields fewer than the limit plus 100 tweets |
| Search.OvershootExample | src/tweetstash/search.py:176-195 | a limit of 1 and a first page of 2 tweets yields both: the last page is not truncated |
| Search.SearchFirstRequest | src/tweetstash/search.py:170-182 | the first request has no max_id unless the caller gave one; a given positive max_id is sent minus one, any other is sent as given |
| Search.SearchEmptyFirstPage | src/tweetstash/search.py:181-188 | an empty first page ends the search after one request, with nothing yielded |
| Search.SearchTwitter | src/tweetstash/search.py:139-201 | the while loop over the cursor, the count and the query bound sends the requests, yields the tweets and stops for the reason the SearchRun specification gives |
| Search.OrQuery | src/tweetstash/search.py:134 | the query is empty exactly when the list of hashtags is |
| Search.OrQueryExample | src/tweetstash/search.py:134 | hashtags "python" and "dafny" give "#python OR #dafny" |
| Search.OrQueryAppend | src/tweetstash/search.py:134 | the query for two non-empty lists in a row is the two queries joined by " OR " |
| Search.OrQueryIsJoin | src/tweetstash/search.py:134 | the query is " OR ".join of the hashtags each prefixed with '#', in input order |
| Stash.LastDotOfFileName | src/tweetstash/stash.py:44-45 | the last dot of a stash file name is the one that begins ".json" |
| Stash.StemOfFileName | src/tweetstash/stash.py:44-45 | the stem of tweet_path's name is the id again exactly when the id is non-empty |
| Stash.FileNameOfStem | src/tweetstash/stash.py:60-62 | every ".json" name except ".json" itself is the file name of its stem |
| Stash.SuffixReadsOtherFile | src/tweetstash/stash.py:44-45 | the stem of the name ".json" is ".json", so reading it back opens ".json.json", not the listed file |
| Stash.FileNameInjective | src/tweetstash/stash.py:44-45 | different ids get different files |
| Stash.Stashed | src/tweetstash/stash.py:50-54 | after stash the tweet's file exists; it holds the new tweet when overwrite is set or the file was absent, the old content otherwise; no other file is added, changed or removed |
| Stash.StashIdempotent | src/tweetstash/stash.py:52 | stashing the same tweet twice without overwrite is stashing it once |
| Stash.StashKeepsExisting | src/tweetstash/stash.py:52 | stashing without overwrite a tweet whose file exists leaves the directory unchanged |
| Stash.StashedConsistent | src/tweetstash/stash.py:50-54 | if every file holds the tweet whose id names it, stash keeps it so |
| Stash.ConsistentRead | src/tweetstash/stash.py:56-58 | in such a directory the file read for an id holds a tweet with that id |
| Stash.StashListsOneName | src/tweetstash/stash.py:50-62 | after stash, the glob of all_ids lists exactly the names it listed before plus the stashed tweet's own file |
| Stash.StemsAreStashedIds | src/tweetstash/stash.py:60-62 | in a consistent directory with non-empty ids, the stems of the ".json" files are exactly the stored tweets' ids |
| Stash.ListedIdsAreStashed | src/tweetstash/stash.py:60-62 | the same holds of the ids of any listing of those files |
| Stash.EnumerationSize | src/tweetstash/stash.py:60-62 | a listing of a set of file names without repeats has one entry per name |
| Stash.ReadListing | src/tweetstash/stash.py:28-29 | without a file named ".json", every listed name is the file name of its stem, the listing has one entry per ".json" file, and reading the stems reads each listed file, all of them when none is missing |
| Stash.StashedAllConsistent | src/tweetstash/stash.py:16-18 | stash_many keeps a directory consistent: every file still holds the tweet whose id names it |
| Stash.StashedAllKeeps | src/tweetstash/stash.py:16-18 | stash_many keeps every existing file and adds exactly the files of the tweets' ids |
| Stash.StashedAllFirstWins | src/tweetstash/stash.py:16-18 | when ids repeat, the first tweet with a new id is the one stored |
| Stash.StashedAllNoop | src/tweetstash/stash.py:16-18 | stash_many over tweets whose files all exist changes nothing |
| Stash.StashedAllIdempotent | src/tweetstash/stash.py:16-18 | running stash_many twice over the same tweets is running it once |
| Stash.FileStash.constructor | src/tweetstash/stash.py:41-42 | the base directory is the one given, "." if none; the stash sees the files already there |
| Stash.FileStash.TweetPath | src/tweetstash/stash.py:44-45 | the path is base_dir / (id + ".json"); its name matches "*.json" and its stem is the id for a non-empty id |
| Stash.FileStash.IsStashed | src/tweetstash/stash.py:47-48 | true exactly when the id's file exists |
| Stash.FileStash.Stash | src/tweetstash/stash.py:50-54 | the new directory is Stashed of the old one; consistency is kept |
| Stash.FileStash.Unstash | src/tweetstash/stash.py:56-58 | the tweet in the id's file, or NotFound with its path when the file is absent; in a consistent directory the tweet has that id |
| Stash.FileStash.AllIds | src/tweetstash/stash.py:60-62 | the stems of all ".json" files, one per file; in a consistent directory with non-empty ids, exactly the stored ids |
| Stash.FileStash.StashMany | src/tweetstash/stash.py:16-18 | the new directory is that of stashing each tweet in order without overwrite; consistency is kept |
| Stash.FileStash.UnstashMany | src/tweetstash/stash.py:24-26 | the tweet of each id in order, up to the first id without a file, where it stops with that path |
| Stash.FileStash.UnstashAll | src/tweetstash/stash.py:28-29 | reads the file of each listed stem, in listing order, and fails exactly when it stops early; if no file is named ".json", nothing fails, one tweet is read per ".json" file, each listed file's tweet is read back under its own name, and every ".json" file's tweet is among those read; on failure it stops at the listed name ".json", whose stem's file is missing, and returns that stem's tweet path |
| Stash.StashThenUnstash | src/tweetstash/stash.py:47-58 | the new directory is Stashed of the old one, so the tweet's file exists (is_stashed holds); after stash, unstash of the tweet's id gives the tweet if it was new or overwrite was set; otherwise the stash is unchanged and gives the old tweet |

## Left out

- `read_auth`, `search_from_config_dir` and the file reading of `read_query`: credential and configuration file I/O and tweepy authentication objects. Only the OR join of `read_query` is modelled.
- The tweepy call itself: the API is the sequence of answers passed to `SearchTwitter`. That sequence is finite, so a run also ends when it is used up (`OutOfResponses`); the source's loop can go on for as long as the server keeps answering.
- `Search.SearchTwitter`: the arbitrary keyword arguments (`lang`, `geocode`, `since_id`, ...) and the overwrite of the `query` key at search.py:170 are not modelled; the query is one string. The `max_id` bound is an integer, not the string the source puts into the query.
- `Search.SearchTwitter`: `search_twitter` is a generator, so the next request is sent only when the consumer asks for the tweet after the last one of a page. A consumer that stops early (an age cutoff over the search stream, say) also stops the requests. The model returns the run a consumer sees when it reads the stream to the end.
- `Search.LimitTweetAgeStream`: `limit_tweet_age` is a generator over an iterator; the model takes the whole stream as a sequence and returns the whole output, so it does not capture that no tweet after the first too-old one is ever drawn from the input.
- `KeyboardInterrupt` is modelled only as an interrupt arriving during a request (`Interrupted`). The tqdm progress bar and the printed error message are left out: they are output only.
- `Search.LimitTweetAge`: the source calls `next(tweets)` when no stop time is given, so its input must be an iterator (a plain list, which the docstring's "sequence" allows, raises `TypeError` there); the model's sequence stands for the iterator's contents.
- `limit_tweet_age`'s `**stop_delta_kwargs` are folded into the integer delta. The default `timedelta()` is `Relative(0)`: not "no limit", but a stop time equal to the first tweet's creation time (`DefaultDeltaYieldsOnlyFirst`). Time is an integer, not a `datetime`.
- JSON serialisation is a verbatim round-trip: the stored value is the `Tweet`.
- The filesystem is one map from file name to content in the base directory. Ids containing a path separator (files in subdirectories), I/O errors other than a missing file, and files that do not hold a tweet are not modelled.
- `Stash.FileStash.AllIds` and `Stash.FileStash.UnstashAll` return lists, not lazy generators. The glob's order is not modelled: the model lists the files in some order and returns that order as a ghost result.
- `Stash.FileStash.UnstashMany`: the Python generator yields the earlier tweets and then raises; the model returns those tweets together with the missing path.
- The abstract base class `Stash` is not a separate entity. The methods it provides (`stash_many`, `unstash_many`, `unstash_all`) are methods of `FileStash`.
- `src/tweetstash/cli.py` (argument parsing and wiring) is not part of this model. Neither are the author partitioning, directory creation, in-memory id index, term batching and live streaming its constructor arguments point to: the stash and search code modelled here has none of them.
