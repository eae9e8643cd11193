/** `GetLatestFollowedEpisodesUseCase.invoke()`: from the latest snapshot of the followed
    podcasts and the latest episode list of each of them, the single feed of followed
    episodes, newest first.

    The reactive layer (a new followed snapshot supersedes the previous one; the feed is
    recomputed from the latest value of every per-podcast list) is modelled by evaluating
    `Invoke` on one snapshot: the followed list, and the episode store as a function from
    a request's (podcast URI, limit) to the list that request currently yields. */
module LatestFollowedEpisodes {
  import opened Episodes
  import opened SortByPublished

  /** How many episodes are requested from each followed podcast. */
  const EpisodeLimit: nat := 5

  /** One `episodesInPodcast(uri, limit)` subscription. */
  datatype EpisodeRequest = EpisodeRequest(podcastUri: Uri, limit: nat)

  /** What one followed-podcasts snapshot gives rise to: the per-podcast episode requests
      it subscribes to, in order, and the feed it emits. */
  datatype Generation = Generation(requests: seq<EpisodeRequest>, feed: seq<EpisodeToPodcast>)

  /** `followedPodcasts.map { p -> episodeStore.episodesInPodcast(p.podcast.uri, 5) }`,
      as the requests it makes. */
  function Requests(followed: seq<PodcastWithExtraInfo>): (r: seq<EpisodeRequest>)
    ensures |r| == |followed|
    ensures forall i :: 0 <= i < |followed| ==>
              r[i].podcastUri == followed[i].podcast.uri && r[i].limit == EpisodeLimit
  {
    if followed == [] then []
    else [EpisodeRequest(followed[0].podcast.uri, EpisodeLimit)] + Requests(followed[1..])
  }

  /** The latest value of every request's list, in request order (what `combine` hands to
      its transform). */
  function LatestLists(requests: seq<EpisodeRequest>, episodesInPodcast: (Uri, nat) -> seq<EpisodeToPodcast>)
    : (r: seq<seq<EpisodeToPodcast>>)
    ensures |r| == |requests|
    ensures forall i :: 0 <= i < |requests| ==>
              r[i] == episodesInPodcast(requests[i].podcastUri, requests[i].limit)
  {
    if requests == [] then []
    else [episodesInPodcast(requests[0].podcastUri, requests[0].limit)]
         + LatestLists(requests[1..], episodesInPodcast)
  }

  /** `flatten()`: the lists concatenated in order. */
  function Flatten<T>(lists: seq<seq<T>>): (r: seq<T>)
    ensures |r| == TotalLength(lists)
  {
    if lists == [] then [] else lists[0] + Flatten(lists[1..])
  }

  /** The sum of the lengths of the lists. */
  function TotalLength<T>(lists: seq<seq<T>>): nat
  {
    if lists == [] then 0 else |lists[0]| + TotalLength(lists[1..])
  }

  /** `invoke()` on one followed snapshot; an empty snapshot emits the empty feed at once
      and subscribes to nothing. */
  function Invoke(followed: seq<PodcastWithExtraInfo>, episodesInPodcast: (Uri, nat) -> seq<EpisodeToPodcast>)
    : (g: Generation)
    ensures followed == [] ==> g.requests == [] && g.feed == []
    ensures |g.requests| == |followed|
    ensures forall i :: 0 <= i < |followed| ==>
              g.requests[i] == EpisodeRequest(followed[i].podcast.uri, EpisodeLimit)
  {
    if followed == [] then Generation([], [])
    else
      var requests := Requests(followed);
      var lists := LatestLists(requests, episodesInPodcast);
      Generation(requests, SortByPublishedDesc(Flatten(lists)))
  }

  // ---------------------------------------------------------------------------------
  // Reference definition and properties of the feed

  /** Independent of the request machinery: the episode list of each followed podcast,
      asked for with the episode limit, in followed order. */
  function FollowedLists(followed: seq<PodcastWithExtraInfo>, episodesInPodcast: (Uri, nat) -> seq<EpisodeToPodcast>)
    : seq<seq<EpisodeToPodcast>>
  {
    seq(|followed|, i requires 0 <= i < |followed| => episodesInPodcast(followed[i].podcast.uri, EpisodeLimit))
  }

  /** The entries with `published` value `t` of each list, list by list. */
  function PublishedAtEach(lists: seq<seq<EpisodeToPodcast>>, t: int): seq<seq<EpisodeToPodcast>>
  {
    if lists == [] then [] else [PublishedAt(lists[0], t)] + PublishedAtEach(lists[1..], t)
  }

  lemma {:induction false} FlattenMembers<T>(lists: seq<seq<T>>, x: T)
    ensures x in Flatten(lists) <==> exists i :: 0 <= i < |lists| && x in lists[i]
  {
    if lists != [] {
      FlattenMembers(lists[1..], x);
      if x in Flatten(lists[1..]) {
        var i :| 0 <= i < |lists[1..]| && x in lists[1..][i];
        assert x in lists[i + 1];
      }
      if exists i :: 0 <= i < |lists| && x in lists[i] {
        var i :| 0 <= i < |lists| && x in lists[i];
        if i > 0 {
          assert x in lists[1..][i - 1];
        }
      }
    }
  }

  lemma {:induction false} FlattenPublishedAt(lists: seq<seq<EpisodeToPodcast>>, t: int)
    ensures PublishedAt(Flatten(lists), t) == Flatten(PublishedAtEach(lists, t))
  {
    if lists != [] {
      PublishedAtAppend(lists[0], Flatten(lists[1..]), t);
      FlattenPublishedAt(lists[1..], t);
      assert PublishedAtEach(lists, t)[1..] == PublishedAtEach(lists[1..], t);
    }
  }

  /** The request machinery delivers exactly the followed podcasts' lists. */
  lemma LatestListsAreFollowedLists(followed: seq<PodcastWithExtraInfo>, episodesInPodcast: (Uri, nat) -> seq<EpisodeToPodcast>)
    ensures LatestLists(Requests(followed), episodesInPodcast) == FollowedLists(followed, episodesInPodcast)
  {
  }

  /** The feed is the stable newest-first sort of the followed podcasts' lists, concatenated
      in followed order; this holds for the empty snapshot too. */
  lemma FeedIsStableSortOfFollowed(followed: seq<PodcastWithExtraInfo>, episodesInPodcast: (Uri, nat) -> seq<EpisodeToPodcast>)
    ensures IsStableSortDesc(Flatten(FollowedLists(followed, episodesInPodcast)), Invoke(followed, episodesInPodcast).feed)
  {
    LatestListsAreFollowedLists(followed, episodesInPodcast);
    if followed == [] {
      assert FollowedLists(followed, episodesInPodcast) == [];
    }
  }

  /** No episode is dropped or duplicated: the feed holds every entry of the followed
      podcasts' lists exactly as often as the lists do. */
  lemma FeedIsPermutation(followed: seq<PodcastWithExtraInfo>, episodesInPodcast: (Uri, nat) -> seq<EpisodeToPodcast>)
    ensures multiset(Invoke(followed, episodesInPodcast).feed)
         == multiset(Flatten(FollowedLists(followed, episodesInPodcast)))
  {
    FeedIsStableSortOfFollowed(followed, episodesInPodcast);
  }

  /** The feed is as long as the followed podcasts' lists together. */
  lemma FeedLength(followed: seq<PodcastWithExtraInfo>, episodesInPodcast: (Uri, nat) -> seq<EpisodeToPodcast>)
    ensures |Invoke(followed, episodesInPodcast).feed| == TotalLength(FollowedLists(followed, episodesInPodcast))
  {
    var lists := FollowedLists(followed, episodesInPodcast);
    FeedIsPermutation(followed, episodesInPodcast);
    assert |multiset(Invoke(followed, episodesInPodcast).feed)| == |multiset(Flatten(lists))|;
  }

  /** The feed is newest first. */
  lemma FeedNewestFirst(followed: seq<PodcastWithExtraInfo>, episodesInPodcast: (Uri, nat) -> seq<EpisodeToPodcast>)
    ensures var feed := Invoke(followed, episodesInPodcast).feed;
            forall i, j :: 0 <= i < j < |feed| ==> Published(feed[i]) >= Published(feed[j])
  {
    FeedIsStableSortOfFollowed(followed, episodesInPodcast);
  }

  /** Ties keep the order of the concatenation: the entries with any one `published` value
      appear podcast by podcast in followed order, and within one podcast in the order
      of its list. */
  lemma FeedTiesInFollowedOrder(followed: seq<PodcastWithExtraInfo>, episodesInPodcast: (Uri, nat) -> seq<EpisodeToPodcast>, t: int)
    ensures PublishedAt(Invoke(followed, episodesInPodcast).feed, t)
         == Flatten(PublishedAtEach(FollowedLists(followed, episodesInPodcast), t))
  {
    FeedIsStableSortOfFollowed(followed, episodesInPodcast);
    FlattenPublishedAt(FollowedLists(followed, episodesInPodcast), t);
  }

  /** The feed is the only sequence that is a stable newest-first sort of the followed
      podcasts' lists, so the result has no freedom beyond the inputs. */
  lemma FeedIsOnlyStableSort(followed: seq<PodcastWithExtraInfo>, episodesInPodcast: (Uri, nat) -> seq<EpisodeToPodcast>,
                             r: seq<EpisodeToPodcast>)
    requires IsStableSortDesc(Flatten(FollowedLists(followed, episodesInPodcast)), r)
    ensures r == Invoke(followed, episodesInPodcast).feed
  {
    FeedIsStableSortOfFollowed(followed, episodesInPodcast);
    StableSortDeterministic(Flatten(FollowedLists(followed, episodesInPodcast)), r, Invoke(followed, episodesInPodcast).feed);
  }

  /** Sorting the feed again leaves it unchanged. */
  lemma ResortingFeedChangesNothing(followed: seq<PodcastWithExtraInfo>, episodesInPodcast: (Uri, nat) -> seq<EpisodeToPodcast>)
    ensures SortByPublishedDesc(Invoke(followed, episodesInPodcast).feed) == Invoke(followed, episodesInPodcast).feed
  {
    FeedIsStableSortOfFollowed(followed, episodesInPodcast);
    SortSortedIsIdentity(Invoke(followed, episodesInPodcast).feed);
  }

  /** An entry is in the feed exactly when it is in the list of some podcast of the current
      followed snapshot. */
  lemma FeedEntriesComeFromFollowed(followed: seq<PodcastWithExtraInfo>, episodesInPodcast: (Uri, nat) -> seq<EpisodeToPodcast>,
                                    e: EpisodeToPodcast)
    ensures e in Invoke(followed, episodesInPodcast).feed
        <==> exists i :: 0 <= i < |followed| && e in episodesInPodcast(followed[i].podcast.uri, EpisodeLimit)
  {
    var lists := FollowedLists(followed, episodesInPodcast);
    FeedIsPermutation(followed, episodesInPodcast);
    assert e in Invoke(followed, episodesInPodcast).feed <==> e in multiset(Flatten(lists));
    FlattenMembers(lists, e);
    if exists i :: 0 <= i < |followed| && e in episodesInPodcast(followed[i].podcast.uri, EpisodeLimit) {
      var i :| 0 <= i < |followed| && e in episodesInPodcast(followed[i].podcast.uri, EpisodeLimit);
      assert e in lists[i];
    }
  }

  /** Only the current snapshot matters: two stores that give the same lists for the
      followed podcasts' requests give the same requests and the same feed, whatever they
      give for any other podcast or limit. */
  lemma FeedDependsOnlyOnFollowed(followed: seq<PodcastWithExtraInfo>,
                                  store1: (Uri, nat) -> seq<EpisodeToPodcast>, store2: (Uri, nat) -> seq<EpisodeToPodcast>)
    requires forall i :: 0 <= i < |followed| ==>
               store1(followed[i].podcast.uri, EpisodeLimit) == store2(followed[i].podcast.uri, EpisodeLimit)
    ensures Invoke(followed, store1) == Invoke(followed, store2)
  {
    LatestListsAreFollowedLists(followed, store1);
    LatestListsAreFollowedLists(followed, store2);
    assert FollowedLists(followed, store1) == FollowedLists(followed, store2);
  }

  /** A worked snapshot: podcast A, followed first, has episodes published at 9 and 5;
      podcast B has one published at 7. The feed interleaves them as 9, 7, 5. */
  lemma TwoPodcastScenario()
    ensures
      var a, b := Podcast("A", "A"), Podcast("B", "B");
      var a1 := EpisodeToPodcast(Episode("a1", "A", "a1", 9), a);
      var a2 := EpisodeToPodcast(Episode("a2", "A", "a2", 5), a);
      var b1 := EpisodeToPodcast(Episode("b1", "B", "b1", 7), b);
      var store := (u: Uri, n: nat) => if u == "A" then [a1, a2] else if u == "B" then [b1] else [];
      var g := Invoke([PodcastWithExtraInfo(a, 3), PodcastWithExtraInfo(b, 1)], store);
      g.requests == [EpisodeRequest("A", 5), EpisodeRequest("B", 5)] && g.feed == [a1, b1, a2]
  {
    var a, b := Podcast("A", "A"), Podcast("B", "B");
    var a1 := EpisodeToPodcast(Episode("a1", "A", "a1", 9), a);
    var a2 := EpisodeToPodcast(Episode("a2", "A", "a2", 5), a);
    var b1 := EpisodeToPodcast(Episode("b1", "B", "b1", 7), b);
    var store := (u: Uri, n: nat) => if u == "A" then [a1, a2] else if u == "B" then [b1] else [];
    var followed := [PodcastWithExtraInfo(a, 3), PodcastWithExtraInfo(b, 1)];
    var requests := Requests(followed);
    assert requests == [EpisodeRequest("A", 5), EpisodeRequest("B", 5)];
    var lists := LatestLists(requests, store);
    assert lists == [[a1, a2], [b1]];
    assert Flatten(lists) == [a1, a2, b1] by {
      assert Flatten(lists[1..]) == [b1] + Flatten([]);
    }
    var s := [a1, a2, b1];
    assert s[1..] == [a2, b1] && s[1..][1..] == [b1] && s[1..][1..][1..] == [];
    assert SortByPublishedDesc([b1]) == Insert(b1, []) == [b1];
    assert Insert(a2, [b1]) == [b1] + Insert(a2, []) == [b1, a2];
    assert SortByPublishedDesc([a2, b1]) == [b1, a2];
    assert Insert(a1, [b1, a2]) == [a1, b1, a2];
    assert SortByPublishedDesc(s) == [a1, b1, a2];
  }
}
