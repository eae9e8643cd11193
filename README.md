# Jetcaster: latest episodes of followed podcasts

A Dafny model of the one piece of logic the Jetcaster podcast sample implements itself:
`GetLatestFollowedEpisodesUseCase.invoke()`, which turns the current list of followed
podcasts and the current episode list of each of them into a single feed.

For one snapshot of the followed podcasts the use case

- emits the empty feed straight away, and subscribes to no episode list, when nothing is
  followed;
- otherwise asks the episode store for each followed podcast's episodes, one request per
  podcast in followed order, each with the podcast's URI and a limit of 5;
- concatenates the lists it gets back in that order and sorts the result by the episodes'
  `published` date-time, latest first, with Kotlin's stable `sortedByDescending`.

Files:

- `episodes.dfy` (module `Episodes`): the entities — `Podcast`, `Episode`,
  `EpisodeToPodcast`, `PodcastWithExtraInfo` — and the sort key `Published`
  (`it.episode.published`). An episode's `published` is an integer: its date-time's rank in
  the natural order of offset date-times, which compares the instant first and the local
  date-time second. Two entries tie only when their `published` values are equal, so two
  date-times at one instant with different offsets are not a tie.
- `sort_by_published.dfy` (module `SortByPublished`): the specification of a stable
  newest-first sort (`IsStableSortDesc`: sorted, a permutation, and for every `published`
  value the entries with that value keep their order), a stable insertion sort that meets
  it, and the proof that the specification has exactly one solution. Whatever algorithm
  the Kotlin runtime uses, its stable sort therefore gives the same sequence as this one.
- `latest_followed_episodes.dfy` (module `LatestFollowedEpisodes`): `Invoke`, the requests
  it makes, and the properties of the feed, stated against `FollowedLists`, a reference
  definition of "each followed podcast's list, in followed order" that does not go
  through the request machinery.

The episode store is a parameter of `Invoke`: a function from a request's podcast URI and
limit to the list that request currently yields. Nothing is assumed about it. The lists
need not respect the limit and need not be sorted.

## Model

| member | source | states |
|---|---|---|
| `LatestFollowedEpisodes.Invoke` | Jetcaster/core/src/main/java/com/example/jetcaster/core/data/domain/GetLatestFollowedEpisodesUseCase.kt:37-51 | an empty followed snapshot yields no requests and the empty feed; otherwise exactly one request per followed podcast, in followed order, with that podcast's URI and limit 5 |
| `LatestFollowedEpisodes.Requests` | Jetcaster/core/src/main/java/com/example/jetcaster/core/data/domain/GetLatestFollowedEpisodesUseCase.kt:44-45 | the mapped requests have the followed list's length, and the i-th asks for the i-th followed podcast's URI with limit 5 |
| `LatestFollowedEpisodes.LatestLists` | Jetcaster/core/src/main/java/com/example/jetcaster/core/data/domain/GetLatestFollowedEpisodesUseCase.kt:43-47 | the values handed to the combiner are, in request order, the store's current list for each request |
| `LatestFollowedEpisodes.LatestListsAreFollowedLists` | Jetcaster/core/src/main/java/com/example/jetcaster/core/data/domain/GetLatestFollowedEpisodesUseCase.kt:43-47 | the requests deliver exactly each followed podcast's list fetched with limit 5, in followed order |
| `LatestFollowedEpisodes.Flatten` | Jetcaster/core/src/main/java/com/example/jetcaster/core/data/domain/GetLatestFollowedEpisodesUseCase.kt:48 | `flatten()`: the flattened list is as long as all lists together; its members and its order at each `published` value are stated by FlattenMembers and FlattenPublishedAt |
| `LatestFollowedEpisodes.FlattenMembers` | Jetcaster/core/src/main/java/com/example/jetcaster/core/data/domain/GetLatestFollowedEpisodesUseCase.kt:48 | an element is in the flattened list exactly when it is in one of the lists |
| `LatestFollowedEpisodes.FlattenPublishedAt` | Jetcaster/core/src/main/java/com/example/jetcaster/core/data/domain/GetLatestFollowedEpisodesUseCase.kt:48 | the entries of the flattened list with one `published` value are those of each list with that value, list after list |
| `LatestFollowedEpisodes.FeedIsStableSortOfFollowed` | Jetcaster/core/src/main/java/com/example/jetcaster/core/data/domain/GetLatestFollowedEpisodesUseCase.kt:40-48 | the feed is a stable newest-first sort of the followed podcasts' lists concatenated in followed order, the empty snapshot included |
| `LatestFollowedEpisodes.FeedIsPermutation` | Jetcaster/core/src/main/java/com/example/jetcaster/core/data/domain/GetLatestFollowedEpisodesUseCase.kt:48 | the feed's multiset equals that of the concatenation: no episode dropped or duplicated |
| `LatestFollowedEpisodes.FeedLength` | Jetcaster/core/src/main/java/com/example/jetcaster/core/data/domain/GetLatestFollowedEpisodesUseCase.kt:48 | the feed's length is the sum of the lengths of the followed podcasts' lists |
| `LatestFollowedEpisodes.FeedNewestFirst` | Jetcaster/core/src/main/java/com/example/jetcaster/core/data/domain/GetLatestFollowedEpisodesUseCase.kt:48 | for every i < j in the feed, entry i's `published` value is not below entry j's |
| `LatestFollowedEpisodes.FeedTiesInFollowedOrder` | Jetcaster/core/src/main/java/com/example/jetcaster/core/data/domain/GetLatestFollowedEpisodesUseCase.kt:44-48 | entries with equal `published` values appear podcast by podcast in followed order, and within one podcast in its list's order |
| `LatestFollowedEpisodes.FeedIsOnlyStableSort` | Jetcaster/core/src/main/java/com/example/jetcaster/core/data/domain/GetLatestFollowedEpisodesUseCase.kt:48 | any stable newest-first sort of the concatenation equals the feed: the same inputs always give the same feed |
| `LatestFollowedEpisodes.ResortingFeedChangesNothing` | Jetcaster/core/src/main/java/com/example/jetcaster/core/data/domain/GetLatestFollowedEpisodesUseCase.kt:48 | sorting the feed again by `published` leaves it unchanged |
| `LatestFollowedEpisodes.FeedEntriesComeFromFollowed` | Jetcaster/core/src/main/java/com/example/jetcaster/core/data/domain/GetLatestFollowedEpisodesUseCase.kt:39-47 | an entry is in the feed if and only if it is in the list of some podcast of the current followed snapshot |
| `LatestFollowedEpisodes.FeedDependsOnlyOnFollowed` | Jetcaster/core/src/main/java/com/example/jetcaster/core/data/domain/GetLatestFollowedEpisodesUseCase.kt:38-47 | two stores that agree on the current followed podcasts' requests give the same requests and the same feed, so no podcast outside the snapshot contributes |
| `LatestFollowedEpisodes.TwoPodcastScenario` | Jetcaster/core/src/main/java/com/example/jetcaster/core/data/domain/GetLatestFollowedEpisodesUseCase.kt:37-51 | followed A then B, A with episodes at 9 and 5, B with one at 7: requests (A, 5), (B, 5) and the feed 9, 7, 5 |
| `Episodes.Published` | Jetcaster/core/src/main/java/com/example/jetcaster/core/data/domain/GetLatestFollowedEpisodesUseCase.kt:48 | the sort selector `it.episode.published` of a feed entry; SortedDesc, PublishedAt and every sort lemma order entries by it |
| `SortByPublished.Insert` | Jetcaster/core/src/main/java/com/example/jetcaster/core/data/domain/GetLatestFollowedEpisodesUseCase.kt:48 | inserting adds exactly the one entry to the multiset |
| `SortByPublished.InsertSorted` | Jetcaster/core/src/main/java/com/example/jetcaster/core/data/domain/GetLatestFollowedEpisodesUseCase.kt:48 | inserting into a newest-first sequence keeps it newest first |
| `SortByPublished.InsertPublishedAt` | Jetcaster/core/src/main/java/com/example/jetcaster/core/data/domain/GetLatestFollowedEpisodesUseCase.kt:48 | the inserted entry goes before every entry with its own `published` value, and entries with equal values keep their order |
| `SortByPublished.SortByPublishedDesc` | Jetcaster/core/src/main/java/com/example/jetcaster/core/data/domain/GetLatestFollowedEpisodesUseCase.kt:48 | the result is sorted newest first, is a permutation of the input, and keeps the input order among equal `published` values |
| `SortByPublished.StableSortUnique` | Jetcaster/core/src/main/java/com/example/jetcaster/core/data/domain/GetLatestFollowedEpisodesUseCase.kt:48 | two newest-first sequences that agree on the entries at every `published` value are equal |
| `SortByPublished.StableSortDeterministic` | Jetcaster/core/src/main/java/com/example/jetcaster/core/data/domain/GetLatestFollowedEpisodesUseCase.kt:48 | any two stable newest-first sorts of one input are the same sequence |
| `SortByPublished.SortSortedIsIdentity` | Jetcaster/core/src/main/java/com/example/jetcaster/core/data/domain/GetLatestFollowedEpisodesUseCase.kt:48 | sorting a sequence that is already newest first returns it unchanged |
| `SortByPublished.SortIdempotent` | Jetcaster/core/src/main/java/com/example/jetcaster/core/data/domain/GetLatestFollowedEpisodesUseCase.kt:48 | sorting twice gives the same as sorting once |

## Left out

- `Graph.kt` as a whole: dependency-injection wiring (lazy singletons, the HTTP client and its cache, the Room database, coroutine dispatchers) with no behaviour of its own to state.
- The stream semantics of `flatMapLatest`, `combine` and `flowOf`: cancelling the per-podcast subscriptions of a superseded snapshot, and waiting until every per-podcast list has produced a value before the first emission. These belong to the coroutines library; the model evaluates the use case on one snapshot, that is on the latest value of every input.
- Error and completion propagation from the two stores: the use case adds no handling of its own.
- The contracts of `followedPodcastsSortedByLastEpisode()` and `episodesInPodcast(uri, limit)`: their sources are not part of this model, so the followed list and the per-podcast lists are arbitrary inputs. In particular nothing assumes a list holds at most 5 entries or is already sorted.
- `OffsetDateTime`: `published` is an integer, the date-time's rank in `OffsetDateTime`'s natural order (instant first, then local date-time), and is compared only by that order. The date-time fields are not modelled; two date-times at the same instant with different offsets have different ranks, ordered by local date-time, as in the source, so they are not ties.
- `SortByPublished.SortByPublishedDesc`: the Kotlin runtime's sorting algorithm (a merge-based stable sort) is not reproduced; the model uses a stable insertion sort, and `SortByPublished.StableSortUnique` shows that every stable sort gives the same result.
- The entity classes (`EpisodeToPodcast`, `Podcast`, `Episode`, `PodcastWithExtraInfo`) are not part of this model's source files; only the fields the use case reads, plus a few identifying ones, are modelled.
