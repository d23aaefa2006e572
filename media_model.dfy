/** The hierarchical media catalog of
    training/projects/mediamanager/mediamodel.py: a TvShow owns Seasons, a
    Season owns Episodes, and both lists are kept free of duplicate numbers
    and sorted by number after every change. */
module MediaModel {
  import opened Outcomes
  import opened KeyedSeq

  /** An episode. Its number is fixed at construction; its title and its
      stored duration can be reassigned. */
  class Episode {
    const number: int
    var title: string
    /** The `_duration` attribute: 0 stands for "not set". */
    var storedDuration: int

    constructor (title: string, number: int, duration: int)
      ensures this.number == number && this.title == title
      ensures storedDuration == duration
    {
      this.number := number;
      this.title := title;
      storedDuration := duration;
    }

    /** The `duration` getter: raises while the duration is not set. */
    function Duration(): (r: Result<int>)
      reads this
      ensures r.Err? <==> storedDuration == 0
      ensures r.Err? ==> r.error == DurationNotSet
      ensures r.Ok? ==> r.value == storedDuration
    {
      if storedDuration == 0 then Err(DurationNotSet) else Ok(storedDuration)
    }

    /** The `duration` setter. */
    method SetDuration(value: int)
      modifies this`storedDuration
      ensures storedDuration == value
      ensures Duration() == if value == 0 then Err(DurationNotSet) else Ok(value)
    {
      storedDuration := value;
    }

    /** The `duration` deleter: back to "not set". */
    method ClearDuration()
      modifies this`storedDuration
      ensures storedDuration == 0
      ensures Duration() == Err(DurationNotSet)
    {
      storedDuration := 0;
    }
  }

  /** The sort keys `lambda x: x.number` of the two lists. */
  function EpisodeNumber(e: Episode): int { e.number }
  function SeasonNumber(s: Season): int { s.number }

  /** A season: its episodes, strictly ascending by number. */
  class Season {
    const number: int
    /** The `_episodes` list. */
    var episodes: seq<Episode>

    /** No two episodes share a number and the list is sorted by number. */
    ghost predicate Valid()
      reads this
    {
      Ascending(episodes, EpisodeNumber)
    }

    constructor (number: int)
      ensures this.number == number && episodes == [] && Valid()
    {
      this.number := number;
      episodes := [];
    }

    /** `item in season`: compares numbers only. */
    method Contains(item: Episode) returns (b: bool)
      ensures b <==> HasKey(episodes, item.number, EpisodeNumber)
    {
      for i := 0 to |episodes|
        invariant forall k :: 0 <= k < i ==> episodes[k].number != item.number
      {
        if episodes[i].number == item.number {
          return true;
        }
      }
      return false;
    }

    /** `sort`: Python's stable `list.sort` by episode number. */
    method Sort()
      modifies this
      ensures episodes == SortByKey(old(episodes), EpisodeNumber)
    {
      episodes := StableSort(episodes, EpisodeNumber);
    }

    /** `add`: raises on a number already present and leaves the list as it
        was; otherwise appends and re-sorts, which places the episode among
        the others by number. */
    method Add(episode: Episode) returns (r: Outcome)
      requires Valid()
      modifies this
      ensures Valid()
      ensures r == if HasKey(old(episodes), episode.number, EpisodeNumber) then Fail(EpisodeExists) else Pass
      ensures r.Fail? ==> episodes == old(episodes)
      ensures r.Pass? ==> episodes == InsertByKey(old(episodes), episode, EpisodeNumber)
      ensures r.Pass? ==> |episodes| == |old(episodes)| + 1
      ensures r.Pass? ==> multiset(episodes) == multiset(old(episodes)) + multiset{episode}
    {
      var present := Contains(episode);
      if present {
        return Fail(EpisodeExists);
      }
      ghost var before := episodes;
      episodes := episodes + [episode];
      Sort();
      AppendThenSort(before, episode, EpisodeNumber);
      InsertKeepsAscending(before, episode, EpisodeNumber);
      InsertPermutes(before, episode, EpisodeNumber);
      r := Pass;
    }

    /** `episode(number)`: the episode with that number, or a raise. */
    method EpisodeByNumber(n: int) returns (r: Result<Episode>)
      requires Valid()
      ensures r.Ok? ==> r.value in episodes && r.value.number == n
      ensures r.Err? <==> !HasKey(episodes, n, EpisodeNumber)
      ensures r.Err? ==> r.error == EpisodeMissing(n)
    {
      for i := 0 to |episodes|
        invariant forall k :: 0 <= k < i ==> episodes[k].number != n
      {
        if episodes[i].number == n {
          return Ok(episodes[i]);
        }
      }
      return Err(EpisodeMissing(n));
    }

    /** The `episodes` property: a new list holding the same episodes in the
        same order, so that changing it leaves the season alone. */
    method Episodes() returns (a: array<Episode>)
      ensures fresh(a) && a[..] == episodes
    {
      a := new Episode[|episodes|](i requires 0 <= i < |episodes| reads this => episodes[i]);
    }

    /** `__iter__`: the episodes, in ascending number order. */
    function Iterate(): (r: seq<Episode>)
      requires Valid()
      reads this
      ensures Ascending(r, EpisodeNumber)
      ensures r == episodes
    {
      episodes
    }

    /** `__len__`: the count of episodes, which is the count of distinct
        episode numbers. */
    function Len(): (r: nat)
      requires Valid()
      reads this
      ensures r == |KeySet(episodes, EpisodeNumber)|
    {
      AscendingCountsKeys(episodes, EpisodeNumber);
      |episodes|
    }

    /** `__lt__`: seasons compare by number. */
    predicate Less(other: Season) {
      number < other.number
    }
  }

  /** Sorting seasons by number puts them in `__lt__` order. */
  lemma AscendingIsLessOrder(ss: seq<Season>)
    ensures Ascending(ss, SeasonNumber) <==> forall i, j :: 0 <= i < j < |ss| ==> ss[i].Less(ss[j])
  {
  }

  /** What `TvShow.__contains__` accepts: anything with a `number`
      attribute (a season or an episode), or a bare number. */
  datatype Item = SeasonItem(season: Season) | EpisodeItem(episode: Episode) | Bare(n: int)

  /** The number `__contains__` compares with. */
  function ItemNumber(item: Item): int {
    match item
    case SeasonItem(s) => s.number
    case EpisodeItem(e) => e.number
    case Bare(n) => n
  }

  /** A show: its seasons, strictly ascending by number, each valid. */
  class TvShow {
    var name: string
    /** The `_seasons` list. */
    var seasons: seq<Season>

    ghost predicate Valid()
      reads this, seasons
    {
      && Ascending(seasons, SeasonNumber)
      && forall s :: s in seasons ==> s.Valid()
    }

    constructor (name: string)
      ensures this.name == name && seasons == [] && Valid()
    {
      this.name := name;
      seasons := [];
    }

    /** `__contains__`: some season has the item's number. */
    method Contains(item: Item) returns (b: bool)
      ensures b <==> HasKey(seasons, ItemNumber(item), SeasonNumber)
    {
      var cmp := ItemNumber(item);
      for i := 0 to |seasons|
        invariant forall k :: 0 <= k < i ==> seasons[k].number != cmp
      {
        if seasons[i].number == cmp {
          return true;
        }
      }
      return false;
    }

    /** `_sort`: Python's stable `list.sort` by season number. */
    method Sort()
      modifies this`seasons
      ensures seasons == SortByKey(old(seasons), SeasonNumber)
    {
      seasons := StableSort(seasons, SeasonNumber);
    }

    /** `_add_season`: raises on a number already present; otherwise appends
        and re-sorts. */
    method AddSeason(season: Season) returns (r: Outcome)
      requires Valid() && season.Valid()
      modifies this`seasons
      ensures Valid()
      ensures r == if HasKey(old(seasons), season.number, SeasonNumber) then Fail(SeasonExists) else Pass
      ensures r.Fail? ==> seasons == old(seasons)
      ensures r.Pass? ==> seasons == InsertByKey(old(seasons), season, SeasonNumber)
    {
      var present := Contains(SeasonItem(season));
      if present {
        return Fail(SeasonExists);
      }
      ghost var before := seasons;
      seasons := seasons + [season];
      Sort();
      AppendThenSort(before, season, SeasonNumber);
      InsertKeepsAscending(before, season, SeasonNumber);
      InsertMembers(before, season, SeasonNumber);
      r := Pass;
    }

    /** `add_episode`: adds to the season with that number when there is
        one (propagating its raise on a duplicate), otherwise creates that
        season holding just the episode. The other seasons are untouched.
        The ghost result `target` names the season the episode went to, for
        the contract; the source returns nothing. */
    method AddEpisode(episode: Episode, seasonNumber: int) returns (r: Outcome, ghost target: Season)
      requires Valid()
      modifies this`seasons, seasons
      ensures Valid()
      ensures target in seasons && target.number == seasonNumber
      ensures forall s :: s in old(seasons) && s != target ==> s.episodes == old(s.episodes)
      ensures HasKey(old(seasons), seasonNumber, SeasonNumber) ==>
        && seasons == old(seasons)
        && r == (if HasKey(old(target.episodes), episode.number, EpisodeNumber) then Fail(EpisodeExists) else Pass)
        && target.episodes == (if r.Pass? then InsertByKey(old(target.episodes), episode, EpisodeNumber)
                               else old(target.episodes))
      ensures !HasKey(old(seasons), seasonNumber, SeasonNumber) ==>
        && r == Pass && fresh(target) && target.episodes == [episode]
        && seasons == InsertByKey(old(seasons), target, SeasonNumber)
    {
      for i := 0 to |seasons|
        invariant forall k :: 0 <= k < i ==> seasons[k].number != seasonNumber
      {
        if seasons[i].number == seasonNumber {
          var season := seasons[i];
          r := season.Add(episode);
          target := season;
          return;
        }
      }
      var season := new Season(seasonNumber);
      var added := season.Add(episode);
      assert season.episodes == [episode];
      r := AddSeason(season);
      target := season;
      InsertMembers(old(seasons), season, SeasonNumber);
    }

    /** The `seasons` property: a new list holding the same seasons in the
        same order. */
    method Seasons() returns (a: array<Season>)
      ensures fresh(a) && a[..] == seasons
    {
      a := new Season[|seasons|](i requires 0 <= i < |seasons| reads this => seasons[i]);
    }

    /** `__len__`: the count of seasons, which is the count of distinct
        season numbers. */
    function Len(): (r: nat)
      requires Valid()
      reads this, seasons
      ensures r == |KeySet(seasons, SeasonNumber)|
    {
      AscendingCountsKeys(seasons, SeasonNumber);
      |seasons|
    }
  }

  /** What a caller can conclude from the contracts alone: episodes added
      as 3, 1, 2 come back as 1, 2, 3. */
  method SeasonOrderScenario() {
    var season := new Season(1);
    var e3 := new Episode("Three", 3, 0);
    var e1 := new Episode("One", 1, 0);
    var e2 := new Episode("Two", 2, 0);
    var r := season.Add(e3);
    OrderOfThree(e1, e2, e3);
    r := season.Add(e1);
    r := season.Add(e2);
    assert season.episodes == [e1, e2, e3];
  }

  /** The insertions SeasonOrderScenario performs, on values. */
  lemma OrderOfThree(e1: Episode, e2: Episode, e3: Episode)
    requires e1.number == 1 && e2.number == 2 && e3.number == 3
    ensures InsertByKey([], e3, EpisodeNumber) == [e3] && !HasKey([e3], 1, EpisodeNumber)
    ensures InsertByKey([e3], e1, EpisodeNumber) == [e1, e3] && !HasKey([e1, e3], 2, EpisodeNumber)
    ensures InsertByKey([e1, e3], e2, EpisodeNumber) == [e1, e2, e3]
  {
    assert [e1, e3][..1] == [e1];
    assert [e3][..0] == [];
    assert [e1][..0] == [];
  }

  /** A second episode 1 is refused and the count stays 1; the snapshot can
      be overwritten without touching the season; a missing number is
      reported. */
  method SeasonSnapshotScenario() {
    var season := new Season(1);
    var e1 := new Episode("One", 1, 0);
    var e2 := new Episode("Two", 2, 0);
    var r := season.Add(e1);
    assert season.episodes == [e1];
    var again := new Episode("Another one", 1, 0);
    assert EpisodeNumber(season.episodes[0]) == again.number;
    r := season.Add(again);
    assert r == Fail(EpisodeExists) && season.episodes == [e1];
    var snapshot := season.Episodes();
    snapshot[0] := e2;
    assert season.episodes == [e1];
    assert EpisodeNumber(e1) == 1;
    assert forall i :: 0 <= i < 1 ==> [e1][i] == e1;
    var missing := season.EpisodeByNumber(99);
    assert missing == Err(EpisodeMissing(99));
  }

  /** Seasons created as 2 then 1 come back as 1, 2, and the episode added
      to season 1 is found there with its title. */
  method ShowScenario() {
    var show := new TvShow("Show");
    var pilot := new Episode("Pilot", 1, 0);
    var later := new Episode("Later", 1, 0);
    var r, target := show.AddEpisode(later, 2);
    assert |show.seasons| == 1;
    var second := show.seasons[0];
    assert SeasonNumber(second) == 2;
    assert !HasKey([second], 1, SeasonNumber) by {
      assert forall i :: 0 <= i < 1 ==> [second][i] == second;
    }
    assert show.seasons == [second];
    r, target := show.AddEpisode(pilot, 1);
    ghost var first := target;
    assert r == Pass && show.seasons == InsertByKey([second], first, SeasonNumber);
    assert InsertByKey([second], first, SeasonNumber) == InsertByKey([], first, SeasonNumber) + [second];
    assert InsertByKey([], first, SeasonNumber) == [first];
    assert show.seasons == [first, second];
    assert EpisodeNumber(first.episodes[0]) == 1;
    var found := show.seasons[0].EpisodeByNumber(1);
    assert found.Ok? && found.value == pilot && found.value.title == "Pilot";
    assert show.name == "Show";
  }

  /** The duration is not set, then set, then cleared again. */
  method DurationScenario() {
    var e := new Episode("Pilot", 1, 0);
    assert e.Duration() == Err(DurationNotSet);
    e.SetDuration(120);
    assert e.Duration() == Ok(120);
    e.ClearDuration();
    assert e.Duration() == Err(DurationNotSet);
  }
}
