/** The entities the followed-episodes feed is built from. Only the fields that the
    feed computation reads, or that identify an entry, are modelled. */
module Episodes {

  /** A podcast or episode URI: an opaque, stable identifier used as a lookup key. */
  type Uri = string

  datatype Podcast = Podcast(uri: Uri, title: string)

  /** `published` stands for the episode's publication date-time as its rank in the
      natural order of offset date-times: by instant, then by local date-time. A larger
      value comes later in that order, and two values are equal only when the date-times
      compare as equal, so two date-times at one instant with different offsets differ. */
  datatype Episode = Episode(uri: Uri, podcastUri: Uri, title: string, published: int)

  /** One feed entry: an episode together with the podcast it belongs to. */
  datatype EpisodeToPodcast = EpisodeToPodcast(episode: Episode, podcast: Podcast)

  /** One element of the followed-podcasts snapshot. The store orders the snapshot by
      `lastEpisodeDate`; the feed computation reads only `podcast.uri`. */
  datatype PodcastWithExtraInfo = PodcastWithExtraInfo(podcast: Podcast, lastEpisodeDate: int)

  /** The sort key of a feed entry: `it.episode.published`. */
  function Published(e: EpisodeToPodcast): int
  {
    e.episode.published
  }
}
