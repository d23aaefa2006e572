/** The flat media catalog of draft/media/base_mediamodel.py: read-only
    Media, Episode and Movie values that validate what they are built from,
    and a TvShow that keeps a list of episodes unique by (number, season)
    in insertion order. */
module BaseMediaModel {
  import opened Outcomes

  /** One character that Python's `str.isspace()` accepts. */
  predicate IsSpace(c: char) {
    || c == ' '
    || '\t' <= c <= '\r'                  // \t \n \v \f \r
    || '\U{1c}' <= c <= '\U{1f}'          // file, group, record, unit separators
    || c == '\U{85}' || c == '\U{a0}' || c == '\U{1680}'
    || '\U{2000}' <= c <= '\U{200a}'
    || c == '\U{2028}' || c == '\U{2029}' || c == '\U{202f}' || c == '\U{205f}' || c == '\U{3000}'
  }

  /** `s.isspace()`: at least one character, and all of them whitespace. */
  predicate IsSpaceString(s: string) {
    |s| > 0 && forall i :: 0 <= i < |s| ==> IsSpace(s[i])
  }

  /** The title test of `Media.__init__`: `not title or title.isspace()`. */
  predicate BlankTitle(title: string) {
    title == "" || IsSpaceString(title)
  }

  /** A title is refused exactly when none of its characters is visible. */
  lemma BlankTitleMeansNoVisibleChar(title: string)
    ensures BlankTitle(title) <==> forall i :: 0 <= i < |title| ==> IsSpace(title[i])
  {
  }

  /** `int(x) if x else None`: the optional duration and season arguments,
      with Python's falsy 0 stored as None. */
  function Normalise(x: Option<int>): (r: Option<int>)
    ensures r.None? <==> x.None? || x == Some(0)
    ensures r.Some? ==> r == x && r.value != 0
  {
    if x.None? || x == Some(0) then None else x
  }

  /** Any media item: a title and an optional duration in minutes. */
  datatype Media = Media(title: string, duration: Option<int>)

  /** `Media(title, duration)`: refuses a blank title, otherwise stores the
      title as given and the normalised duration. */
  function NewMedia(title: string, duration: Option<int>): (r: Result<Media>)
    ensures r.Err? <==> BlankTitle(title)
    ensures r.Err? ==> r.error == EmptyTitle
    ensures r.Ok? ==> r.value.title == title && r.value.duration == Normalise(duration)
  {
    if BlankTitle(title) then Err(EmptyTitle) else Ok(Media(title, Normalise(duration)))
  }

  /** Every media built by NewMedia has a visible character in its title
      and no stored zero duration. */
  lemma NewMediaIsWellFormed(title: string, duration: Option<int>)
    requires NewMedia(title, duration).Ok?
    ensures var m := NewMedia(title, duration).value;
      (exists i :: 0 <= i < |m.title| && !IsSpace(m.title[i])) && m.duration != Some(0)
  {
    BlankTitleMeansNoVisibleChar(title);
  }

  /** `hm_duration`: `divmod(duration, 60)` when a duration is set, None
      otherwise. Python's `divmod` floors; with the positive divisor 60 that
      agrees with Dafny's Euclidean `/` and `%`, also for negative values. */
  function HmDuration(duration: Option<int>): (r: Option<(int, int)>)
    ensures r.None? <==> duration.None? || duration == Some(0)
    ensures r.Some? ==> r.value.0 * 60 + r.value.1 == duration.value && 0 <= r.value.1 < 60
  {
    if duration.None? || duration == Some(0) then None
    else Some((duration.value / 60, duration.value % 60))
  }

  /** Hours and minutes are the only pair with that sum and minutes below
      60, so HmDuration is the one `divmod` answer. */
  lemma HmDurationUnique(d: int, h: int, m: int)
    requires d != 0 && h * 60 + m == d && 0 <= m < 60
    ensures HmDuration(Some(d)) == Some((h, m))
  {
    var r := HmDuration(Some(d)).value;
    assert (r.0 - h) * 60 == m - r.1;
  }

  /** An episode: a media with a number and an optional season. */
  datatype Episode = Episode(title: string, duration: Option<int>, number: int, season: Option<int>)

  /** `Episode(title, number, season, duration)`. */
  function NewEpisode(title: string, number: int, season: Option<int>, duration: Option<int>): (r: Result<Episode>)
    ensures r.Err? <==> BlankTitle(title)
    ensures r.Err? ==> r.error == EmptyTitle
    ensures r.Ok? ==> r.value == Episode(title, Normalise(duration), number, Normalise(season))
  {
    match NewMedia(title, duration)
    case Err(e) => Err(e)
    case Ok(m) => Ok(Episode(m.title, m.duration, number, Normalise(season)))
  }

  /** `Episode.__eq__`: same number and same season. */
  predicate SameEpisode(a: Episode, b: Episode) {
    a.number == b.number && a.season == b.season
  }

  /** Episode equality ignores the title and the duration, and is an
      equivalence relation. */
  lemma SameEpisodeIsKeyEquality(a: Episode, b: Episode, c: Episode)
    ensures SameEpisode(a, b) <==> (a.number, a.season) == (b.number, b.season)
    ensures SameEpisode(a, a)
    ensures SameEpisode(a, b) ==> SameEpisode(b, a)
    ensures SameEpisode(a, b) && SameEpisode(b, c) ==> SameEpisode(a, c)
  {
  }

  /** `episode in episodes`, with Python's `in` using `__eq__`. */
  predicate Listed(episodes: seq<Episode>, e: Episode) {
    exists i :: 0 <= i < |episodes| && SameEpisode(episodes[i], e)
  }

  /** No two listed episodes are equal. */
  predicate Unique(episodes: seq<Episode>) {
    forall i, j :: 0 <= i < j < |episodes| ==> !SameEpisode(episodes[i], episodes[j])
  }

  /** `[e for e in episodes if e.season == n]`. */
  function SeasonFilter(episodes: seq<Episode>, n: int): (r: seq<Episode>)
    ensures |r| <= |episodes|
    ensures forall e :: e in r <==> e in episodes && e.season == Some(n)
    decreases |episodes|
  {
    if episodes == [] then []
    else
      var init, last := episodes[..|episodes| - 1], episodes[|episodes| - 1];
      assert episodes == init + [last];
      SeasonFilter(init, n) + (if last.season == Some(n) then [last] else [])
  }

  /** One unfolding of SeasonFilter at an appended episode. */
  lemma FilterAppend(episodes: seq<Episode>, e: Episode, n: int)
    ensures SeasonFilter(episodes + [e], n) == SeasonFilter(episodes, n) + (if e.season == Some(n) then [e] else [])
  {
    assert (episodes + [e])[..|episodes|] == episodes;
  }

  /** The filter keeps insertion order and multiplicity: its result is the
      subsequence of `episodes` at the strictly increasing positions `idx`,
      and `idx` holds every position whose episode is of season n. */
  lemma {:induction false} FilterIsSubsequence(episodes: seq<Episode>, n: int) returns (idx: seq<nat>)
    ensures |idx| == |SeasonFilter(episodes, n)|
    ensures forall k :: 0 <= k < |idx| ==> idx[k] < |episodes| && SeasonFilter(episodes, n)[k] == episodes[idx[k]]
    ensures forall k, l :: 0 <= k < l < |idx| ==> idx[k] < idx[l]
    ensures forall i :: 0 <= i < |episodes| && episodes[i].season == Some(n) ==> i in idx
    decreases |episodes|
  {
    if episodes == [] {
      idx := [];
    } else {
      var init, last := episodes[..|episodes| - 1], episodes[|episodes| - 1];
      var before := FilterIsSubsequence(init, n);
      assert episodes == init + [last];
      FilterAppend(init, last, n);
      if last.season == Some(n) {
        idx := before + [|init|];
      } else {
        idx := before;
      }
      forall i | 0 <= i < |episodes| && episodes[i].season == Some(n) ensures i in idx {
        if i < |init| {
          assert init[i] == episodes[i];
          assert i in before;
        } else {
          assert idx[|idx| - 1] == i;
        }
      }
    }
  }

  /** Within one season of a unique list, episode numbers do not repeat. */
  lemma {:induction false} FilterNumbersDistinct(episodes: seq<Episode>, n: int)
    requires Unique(episodes)
    ensures forall i, j :: 0 <= i < j < |SeasonFilter(episodes, n)| ==>
      SeasonFilter(episodes, n)[i].number != SeasonFilter(episodes, n)[j].number
    decreases |episodes|
  {
    if episodes != [] {
      var init, last := episodes[..|episodes| - 1], episodes[|episodes| - 1];
      assert Unique(init);
      FilterNumbersDistinct(init, n);
      var f := SeasonFilter(init, n);
      if last.season == Some(n) {
        forall i | 0 <= i < |f| ensures f[i].number != last.number {
          assert f[i] in f;
          var k :| 0 <= k < |init| && init[k] == f[i];
          assert episodes[k] == init[k];
          assert !SameEpisode(episodes[k], last);
        }
      }
    }
  }

  /** A film with an optional director. */
  datatype Movie = Movie(title: string, duration: Option<int>, director: Option<string>)

  /** `Movie(title, duration, director)`: the title is checked first; a
      director made only of whitespace is refused; an empty or absent
      director is stored as None. */
  function NewMovie(title: string, duration: Option<int>, director: Option<string>): (r: Result<Movie>)
    ensures BlankTitle(title) ==> r == Err(EmptyTitle)
    ensures !BlankTitle(title) && director.Some? && IsSpaceString(director.value) ==> r == Err(BlankDirector)
    ensures r.Ok? <==> !BlankTitle(title) && !(director.Some? && IsSpaceString(director.value))
    ensures r.Ok? ==> r.value.title == title && r.value.duration == Normalise(duration)
    ensures r.Ok? ==> r.value.director == if director == Some("") then None else director
  {
    match NewMedia(title, duration)
    case Err(e) => Err(e)
    case Ok(m) =>
      if director.Some? && director.value != "" && IsSpaceString(director.value) then Err(BlankDirector)
      else Ok(Movie(m.title, m.duration, if director == Some("") then None else director))
  }

  /** A stored director is never empty and never blank. */
  lemma MovieDirectorIsVisible(title: string, duration: Option<int>, director: Option<string>)
    requires NewMovie(title, duration, director).Ok?
    ensures var d := NewMovie(title, duration, director).value.director;
      d.Some? ==> exists i :: 0 <= i < |d.value| && !IsSpace(d.value[i])
  {
  }

  /** The flat show: episodes in insertion order, unique by (number, season). */
  class TvShow {
    const name: string
    /** The `_episodes` list. */
    var episodes: seq<Episode>

    ghost predicate Valid()
      reads this
    {
      Unique(episodes)
    }

    constructor (name: string)
      ensures this.name == name && episodes == [] && Valid()
    {
      this.name := name;
      episodes := [];
    }

    /** `get_episodes(season_number)`: for a truthy season number, the
        episodes of that season in insertion order; otherwise a copy of all
        of them. */
    function GetEpisodes(seasonNumber: Option<int>): (r: seq<Episode>)
      reads this
      ensures seasonNumber.None? || seasonNumber == Some(0) ==> r == episodes
      ensures seasonNumber.Some? && seasonNumber.value != 0 ==>
        forall e :: e in r <==> e in episodes && e.season == seasonNumber
    {
      if seasonNumber.None? || seasonNumber == Some(0) then episodes
      else SeasonFilter(episodes, seasonNumber.value)
    }

    /** For a truthy season number, `get_episodes` lists that season's
        episodes in the order they were added, each once: its result is
        `episodes` at strictly increasing positions that cover every
        episode of the season. */
    lemma GetEpisodesInOrder(seasonNumber: int) returns (idx: seq<nat>)
      requires seasonNumber != 0
      ensures var r := GetEpisodes(Some(seasonNumber));
        && |idx| == |r|
        && (forall k :: 0 <= k < |idx| ==> idx[k] < |episodes| && r[k] == episodes[idx[k]])
        && (forall k, l :: 0 <= k < l < |idx| ==> idx[k] < idx[l])
        && (forall i :: 0 <= i < |episodes| && episodes[i].season == Some(seasonNumber) ==> i in idx)
    {
      idx := FilterIsSubsequence(episodes, seasonNumber);
    }

    /** `add_episode(title, number, season)`: builds the episode (a blank
        title raises), raises if an equal one is listed, otherwise appends
        it at the end. */
    method AddEpisode(title: string, number: int, season: Option<int>) returns (r: Outcome)
      requires Valid()
      modifies this
      ensures Valid()
      ensures var e := Episode(title, None, number, Normalise(season));
        && r == (if BlankTitle(title) then Fail(EmptyTitle)
                 else if Listed(old(episodes), e) then Fail(EpisodeExists)
                 else Pass)
        && episodes == if r.Pass? then old(episodes) + [e] else old(episodes)
    {
      var made := NewEpisode(title, number, season, None);
      if made.Err? {
        return Fail(made.error);
      }
      var e := made.value;
      if exists i :: 0 <= i < |episodes| && SameEpisode(episodes[i], e) {
        return Fail(EpisodeExists);
      }
      episodes := episodes + [e];
      r := Pass;
    }
  }

  /** What a caller of the flat show can conclude: a second episode
      (1, season 1) is refused whatever its title. */
  method FlatDuplicateScenario() {
    var show := new TvShow("Show");
    assert !BlankTitle("a") && !BlankTitle("b") by {
      assert !IsSpace("a"[0]) && !IsSpace("b"[0]);
    }
    var r := show.AddEpisode("a", 1, Some(1));
    assert show.episodes == [Episode("a", None, 1, Some(1))];
    r := show.AddEpisode("b", 1, Some(1));
    assert SameEpisode(show.episodes[0], Episode("b", None, 1, Some(1)));
    assert r == Fail(EpisodeExists) && |show.episodes| == 1;
  }

  /** Season 1 lists its episodes in the order they were added, and no
      season number lists everything. */
  method FlatFilterScenario(show: TvShow, a: Episode, b: Episode, c: Episode)
    requires show.episodes == [a, b, c]
    requires a.season == Some(1) && b.season == Some(2) && c.season == Some(1)
  {
    FilterAppend([a, b], c, 1);
    FilterAppend([a], b, 1);
    FilterAppend([], a, 1);
    assert [a, b] + [c] == [a, b, c] && [a] + [b] == [a, b] && [] + [a] == [a];
    assert show.GetEpisodes(Some(1)) == [a, c];
    assert show.GetEpisodes(None) == [a, b, c];
  }
}
