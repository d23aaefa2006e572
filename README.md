# Media catalog, filename parser and stack toy, in Dafny

This project models the core of a set of Python training exercises.

1. **The hierarchical media catalog**
   (`training/projects/mediamanager/mediamodel.py`). A `TvShow` owns
   `Season`s and a `Season` owns `Episode`s. Both lists refuse a second
   element with a number already present ("Season exists", "Episode
   exists"). After every addition they are re-sorted by number with
   Python's stable `list.sort`.
2. **The flat media catalog** (`draft/media/base_mediamodel.py`).
   - `Media`, `Episode` and `Movie` are read-only values that refuse a blank
     title (and, for a movie, a whitespace-only director).
   - They store a falsy duration or season as `None`.
   - A flat `TvShow` keeps its episodes in insertion order, unique by
     (number, season).
3. **The filename parser** (`training/poo/mediamanager/media_file_loader.py`).
   `get_series_value_from_file` works in three steps:
   - `os.path.splitext` splits off the extension;
   - the leftmost `-sNNeNN-` marker is found in the stem;
   - show, season, episode, title and extension are returned, with `_` read
     as a space.
4. **The stack toy** (`training/projects/stacks/stack_functions.py`):
   - module functions `create`/`add`/`get` over one global list;
   - a `Stack` class;
   - a `person` class whose default `Stack()` argument is built once and
     shared.

Layout:

| file | module | contents |
|---|---|---|
| `outcomes.dfy` | `Outcomes` | the errors the source raises, `Option`, `Result`, and `Outcome` for the methods that return `None` or raise |
| `keyed_seq.dfy` | `KeyedSeq` | sorted and strictly ascending sequences by an integer key; `SortByKey`, the stable sort as a function; `StableSort`, the loop that computes it; the lemmas about appending and then sorting |
| `media_model.dfy` | `MediaModel` | the classes `Episode`, `Season`, `TvShow` of the hierarchical catalog |
| `base_media_model.dfy` | `BaseMediaModel` | the flat catalog's values and its `TvShow` class |
| `media_file_loader.dfy` | `MediaFileLoader` | `splitext`, the marker search, the parser, and the round trip from a filename built out of the fields |
| `stack_functions.dfy` | `StackFunctions` | the global list as a `StackModule` object, `Stack`, `Person`, and the `person` class object with its default stack |

How the Python maps to Dafny:

- Python objects whose attributes change become Dafny classes.
- Lists become `seq` fields. The methods reassign these fields.
- A raise becomes an `Err`/`Fail` result that leaves the state as it was.
- The hierarchical `TvShow` and `Season` keep the invariant `Valid()`: numbers
  strictly ascending, so no duplicates and sorted order. Every adding method
  preserves it.
- An addition is specified by `InsertByKey`, the one step of a stable
  insertion sort. The lemmas of `KeyedSeq` show what that means:
  - appending to a sorted list and sorting again gives exactly
    `InsertByKey` (`AppendThenSort`);
  - the insertion is a permutation that adds the one element;
  - the new element lands after every smaller-or-equal key and before
    every larger key.

The flat `TvShow` stores any name, blank ones included
(`draft/media/base_mediamodel.py:67-74`); `BaseMediaModel.TvShow.constructor`
accepts every name.

## Model

| member | source | states |
|---|---|---|
| `KeyedSeq.AscendingCountsKeys` | training/projects/mediamanager/mediamodel.py:53-54 | when numbers strictly ascend, the length of the list is the number of distinct numbers in it |
| `KeyedSeq.InsertByKey` | training/projects/mediamanager/mediamodel.py:22-24 | inserting one element by key makes the list one longer (its placement is stated by `InsertPosition`) |
| `KeyedSeq.SortByKey` | training/projects/mediamanager/mediamodel.py:43-51 | `list.sort(key=...)` as an insertion sort that puts each element after every smaller-or-equal key; keeps the length (sortedness, permutation and stability are the lemmas below) |
| `KeyedSeq.InsertPermutes` | training/projects/mediamanager/mediamodel.py:87-92 | after an insertion the multiset of elements is the old one plus exactly the inserted element |
| `KeyedSeq.InsertMembers` | training/projects/mediamanager/mediamodel.py:14-26 | an element is in the list after insertion iff it was there before or is the inserted one |
| `KeyedSeq.SortPermutes` | training/projects/mediamanager/mediamodel.py:116-117 | sorting is a permutation: the multiset of elements is unchanged |
| `KeyedSeq.InsertPosition` | training/projects/mediamanager/mediamodel.py:116-117 | in a sorted list the element goes in at the one place p where keys before are at most its key and keys from p on are larger; the rest of the list is kept, in order |
| `KeyedSeq.InsertKeepsSorted` | training/projects/mediamanager/mediamodel.py:116-117 | inserting into a sorted list leaves it sorted |
| `KeyedSeq.InsertKeepsAscending` | training/projects/mediamanager/mediamodel.py:87-92 | inserting an element with a new key into a strictly ascending list leaves it strictly ascending |
| `KeyedSeq.InsertHasKey` | training/projects/mediamanager/mediamodel.py:56-73 | after an insertion a key is present iff it was present before or is the inserted element's key (both directions) |
| `KeyedSeq.SortByKeyIsSorted` | training/projects/mediamanager/mediamodel.py:43-51 | the stable sort's result is sorted by key |
| `KeyedSeq.InsertIsStable` | training/projects/mediamanager/mediamodel.py:116-117 | for every key, the elements with that key after an insertion are the old ones in their order, followed by the inserted element if it has that key |
| `KeyedSeq.SortIsStable` | training/projects/mediamanager/mediamodel.py:43-51 | the sort is stable: for every key, the elements with that key come out in the order they went in |
| `KeyedSeq.SortedIsFixpoint` | training/projects/mediamanager/mediamodel.py:116-117 | sorting an already sorted list changes nothing |
| `KeyedSeq.AppendThenSort` | training/projects/mediamanager/mediamodel.py:88-90 | appending to a sorted list and then sorting gives the same list as inserting the element at its place |
| `KeyedSeq.InsertionPoint` | training/projects/mediamanager/mediamodel.py:117 | the loop that scans from the right past larger keys finds the index where `InsertByKey` puts the element |
| `KeyedSeq.StableSort` | training/projects/mediamanager/mediamodel.py:51 | the sorting loop computes exactly `SortByKey` of its input |
| `MediaModel.Episode.constructor` | training/projects/mediamanager/mediamodel.py:160-163 | the episode holds the given title, number and stored duration |
| `MediaModel.Episode.Duration` | training/projects/mediamanager/mediamodel.py:165-171 | the getter fails with "Duration not set" exactly when the stored duration is 0, otherwise returns it |
| `MediaModel.Episode.SetDuration` | training/projects/mediamanager/mediamodel.py:173-175 | the setter stores the value; reading back gives it, or "not set" for 0; nothing but the duration changes |
| `MediaModel.Episode.ClearDuration` | training/projects/mediamanager/mediamodel.py:177-179 | the deleter resets to 0, after which the getter fails with "Duration not set" |
| `MediaModel.Season.constructor` | training/projects/mediamanager/mediamodel.py:83-85 | a new season has the given number and no episodes, and is valid |
| `MediaModel.Season.Contains` | training/projects/mediamanager/mediamodel.py:125-138 | `episode in season` is true iff some episode has the same number |
| `MediaModel.Season.Sort` | training/projects/mediamanager/mediamodel.py:116-117 | the episodes become the stable sort of the old list by number |
| `MediaModel.Season.Add` | training/projects/mediamanager/mediamodel.py:87-92 | fails with "Episode exists" iff the number is present, and then changes nothing; otherwise the episode is inserted at its place by number, the list grows by one, exactly that episode is added, and the list stays strictly ascending |
| `MediaModel.Season.EpisodeByNumber` | training/projects/mediamanager/mediamodel.py:94-106 | returns a listed episode with that number, and fails with "Episode n does not exist" iff no episode has the number |
| `MediaModel.Season.Episodes` | training/projects/mediamanager/mediamodel.py:108-114 | a new container holding the same episodes in the same order, distinct from the season's own list |
| `MediaModel.Season.Iterate` | training/projects/mediamanager/mediamodel.py:140-148 | iteration yields every episode, in strictly ascending number order |
| `MediaModel.Season.Len` | training/projects/mediamanager/mediamodel.py:122-123 | `len(season)` is the number of distinct episode numbers |
| `MediaModel.Season.Less` | training/projects/mediamanager/mediamodel.py:119-120 | `__lt__`: seasons compare by number (related to the list order by `AscendingIsLessOrder`) |
| `MediaModel.AscendingIsLessOrder` | training/projects/mediamanager/mediamodel.py:119-120 | a list of seasons is sorted by number iff every earlier season is `<` (`__lt__`) every later one |
| `MediaModel.TvShow.constructor` | training/projects/mediamanager/mediamodel.py:10-12 | a new show has the given name and no seasons, and is valid |
| `MediaModel.TvShow.Contains` | training/projects/mediamanager/mediamodel.py:56-73 | `item in show` compares the item's number (a season's, an episode's, or the bare value) and is true iff some season has it |
| `MediaModel.TvShow.Sort` | training/projects/mediamanager/mediamodel.py:43-51 | the seasons become the stable sort of the old list by number; the name is outside the frame and stays |
| `MediaModel.TvShow.AddSeason` | training/projects/mediamanager/mediamodel.py:14-26 | fails with "Season exists" iff the number is present, and then changes nothing (only `seasons` is in the frame); otherwise the season is inserted at its place by number and the show stays valid |
| `MediaModel.TvShow.AddEpisode` | training/projects/mediamanager/mediamodel.py:28-36 | with a season of that number: the season list is unchanged and that season's `add` decides (duplicate refused, or inserted in order); without one: a new season holding just the episode is inserted at its place; no other season changes, and the show's name stays (the frame is `seasons` and the seasons themselves) |
| `MediaModel.TvShow.Seasons` | training/projects/mediamanager/mediamodel.py:38-41 | a new container holding the same seasons in the same order |
| `MediaModel.TvShow.Len` | training/projects/mediamanager/mediamodel.py:53-54 | `len(show)` is the number of distinct season numbers |
| `MediaModel.OrderOfThree` | training/projects/mediamanager/mediamodel.py:87-92 | episodes 3, 1, 2 added one after the other end as 1, 2, 3, with no refusal on the way |
| `BaseMediaModel.BlankTitle` | draft/media/base_mediamodel.py:18 | `not title or title.isspace()` (its meaning is proved by `BlankTitleMeansNoVisibleChar`) |
| `BaseMediaModel.BlankTitleMeansNoVisibleChar` | draft/media/base_mediamodel.py:18-19 | `not title or title.isspace()` holds iff no character of the title is outside the whitespace set |
| `BaseMediaModel.Normalise` | draft/media/base_mediamodel.py:24 | `int(x) if x else None` gives None iff x is absent or 0, and otherwise keeps x |
| `BaseMediaModel.NewMedia` | draft/media/base_mediamodel.py:16-24 | fails with "Empty title" iff the title is empty or all whitespace; otherwise stores the title and the normalised duration |
| `BaseMediaModel.NewMediaIsWellFormed` | draft/media/base_mediamodel.py:16-24 | every media built has a visible character in its title and never stores a duration of 0 |
| `BaseMediaModel.HmDuration` | draft/media/base_mediamodel.py:35-39 | no value iff no duration is set (absent or 0); otherwise hours*60 + minutes is the duration with 0 <= minutes < 60 |
| `BaseMediaModel.HmDurationUnique` | draft/media/base_mediamodel.py:37 | the pair is the one floor division by 60 gives: any (h, m) with h*60 + m = d and 0 <= m < 60 is the result |
| `BaseMediaModel.NewEpisode` | draft/media/base_mediamodel.py:43-46 | the media checks apply (blank title refused); the episode stores the number and the normalised season and duration |
| `BaseMediaModel.SameEpisode` | draft/media/base_mediamodel.py:48-49 | `Episode.__eq__`: same number and same season (its properties are proved by `SameEpisodeIsKeyEquality`) |
| `BaseMediaModel.Listed` | draft/media/base_mediamodel.py:110 | `episode in self._episodes`: some listed episode is equal to it by `__eq__` |
| `BaseMediaModel.SameEpisodeIsKeyEquality` | draft/media/base_mediamodel.py:48-49 | episode equality is equality of (number, season), ignores title and duration, and is reflexive, symmetric and transitive |
| `BaseMediaModel.SeasonFilter` | draft/media/base_mediamodel.py:92-94 | the comprehension keeps exactly the episodes of the season, and no more than there were |
| `BaseMediaModel.FilterIsSubsequence` | draft/media/base_mediamodel.py:92-94 | the comprehension's result is the list taken at strictly increasing positions (insertion order, each episode once), and those positions include every episode of the season |
| `BaseMediaModel.FilterNumbersDistinct` | draft/media/base_mediamodel.py:92-94 | in a list unique by (number, season), the episodes of one season have distinct numbers |
| `BaseMediaModel.NewMovie` | draft/media/base_mediamodel.py:117-125 | a blank title is refused first; then a non-empty whitespace-only director is refused; otherwise title and normalised duration are stored, and an empty or absent director is stored as None |
| `BaseMediaModel.MovieDirectorIsVisible` | draft/media/base_mediamodel.py:120-125 | a stored director always has a visible character |
| `BaseMediaModel.TvShow.constructor` | draft/media/base_mediamodel.py:67-74 | a new flat show has the given name (any name) and no episodes |
| `BaseMediaModel.TvShow.GetEpisodes` | draft/media/base_mediamodel.py:81-96 | for an absent or 0 season number, all episodes in order; otherwise exactly the episodes of that season |
| `BaseMediaModel.TvShow.GetEpisodesInOrder` | draft/media/base_mediamodel.py:91-94 | for a truthy season number, `get_episodes` returns that season's episodes in the order they were added, each once, none missing |
| `BaseMediaModel.TvShow.AddEpisode` | draft/media/base_mediamodel.py:98-113 | fails with "Empty title" on a blank title, with "Episode exists" iff an equal (number, season) episode is listed, and then changes nothing; otherwise appends the new episode at the end, keeping the list unique |
| `MediaFileLoader.RFind` | training/poo/mediamanager/media_file_loader.py:24 | the index of the last occurrence of the character, or -1 when there is none |
| `MediaFileLoader.SplitExt` | training/poo/mediamanager/media_file_loader.py:24 | stem + extension is the path; the extension is empty or one dot followed by no dot and no '/' |
| `MediaFileLoader.SplitExtJoin` | training/poo/mediamanager/media_file_loader.py:24 | `splitext` of a stem joined to a well-formed extension gives back the two parts |
| `MediaFileLoader.Search` | training/poo/mediamanager/media_file_loader.py:26 | the regex search returns the leftmost position where `-sNNeNN-` matches, or nothing iff it matches nowhere |
| `MediaFileLoader.GetSeriesValueFromFile` | training/poo/mediamanager/media_file_loader.py:12-33 | no result iff the stem holds no marker; on a result, stem + extension is the filename, season and episode are two digits each, and show and title hold no '_' |
| `MediaFileLoader.Replace` | training/poo/mediamanager/media_file_loader.py:29-32 | `replace` of one character by another keeps the length, replaces every occurrence and leaves every other character as it is |
| `MediaFileLoader.UnderscoresToSpaces` | training/poo/mediamanager/media_file_loader.py:29 | `replace('_', ' ')` keeps the length, turns every '_' into a space, leaves the rest, and leaves no '_' |
| `MediaFileLoader.ParsedFields` | training/poo/mediamanager/media_file_loader.py:26-33 | on a result, the stem is the show part, the leftmost marker with the two numbers, and the title part; show and title are those parts with '_' read as a space |
| `MediaFileLoader.UnderscoreRoundTrip` | training/poo/mediamanager/media_file_loader.py:29-32 | reading '_' as a space undoes spelling spaces as '_' on text without '_' |
| `MediaFileLoader.SplitFileName` | training/poo/mediamanager/media_file_loader.py:24 | `splitext` of a filename built from readable fields splits off exactly the extension |
| `MediaFileLoader.StemFields` | training/poo/mediamanager/media_file_loader.py:26-32 | in such a stem the leftmost marker comes right after the show, and the slices give back show, season, episode and title |
| `MediaFileLoader.FileNameRoundTrip` | training/poo/mediamanager/media_file_loader.py:12-33 | parsing `<show>-sNNeNN-<title><ext>` built from readable fields gives those fields back |
| `MediaFileLoader.SiliconValleyExample` | training/poo/mediamanager/media_file_loader.py:9 | the module's sample filename parses to "Silicon Valley", "01", "03", "Articles Of Incorporation", ".avi" |
| `StackFunctions.Pushed` | training/projects/stacks/stack_functions.py:17-18 | `append` makes the list one longer with the element last and the old list before it |
| `StackFunctions.Popped` | training/projects/stacks/stack_functions.py:21-22 | `pop` fails iff the list is empty; otherwise it gives the last element and the list one shorter, which together rebuild the list |
| `StackFunctions.LastInFirstOut` | training/projects/stacks/stack_functions.py:29-33 | popping right after pushing x gives x and the list as it was |
| `StackFunctions.PushBackWhatPopped` | training/projects/stacks/stack_functions.py:17-22 | pushing back what was popped restores a non-empty list |
| `StackFunctions.PushedAll` | training/projects/stacks/stack_functions.py:14 | `extend` lengthens the list by the number of elements and keeps the old list in front |
| `StackFunctions.PushedAllAppends` | training/projects/stacks/stack_functions.py:14 | `extend` appends the elements in their order |
| `StackFunctions.PopAll` | training/projects/stacks/stack_functions.py:21-22 | n pops fail iff the list has fewer than n elements; otherwise they give n elements and leave the first len - n |
| `StackFunctions.PopsUndoPushes` | training/projects/stacks/stack_functions.py:17-22 | popping as often as elements were pushed gives them back last first and restores the list |
| `StackFunctions.StackModule.Create` | training/projects/stacks/stack_functions.py:7-14 | `create(*elements)` leaves the global list holding exactly the elements, in order |
| `StackFunctions.StackModule.Add` | training/projects/stacks/stack_functions.py:17-18 | `add` pushes onto the end of the global list |
| `StackFunctions.StackModule.Get` | training/projects/stacks/stack_functions.py:21-22 | `get` pops the last element of the global list; on an empty list it fails and the list is unchanged |
| `StackFunctions.Stack.constructor` | training/projects/stacks/stack_functions.py:26-27 | `Stack(*elements)` holds exactly the elements, in order |
| `StackFunctions.Stack.Add` | training/projects/stacks/stack_functions.py:29-30 | pushes onto the end of the stack's own list |
| `StackFunctions.Stack.Get` | training/projects/stacks/stack_functions.py:32-33 | pops the last element; on an empty stack it fails and the stack is unchanged |
| `StackFunctions.LastInFirstOutScenario` | training/projects/stacks/stack_functions.py:29-33 | on a Stack, `add(x)` then `get()` returns x and restores the contents |
| `StackFunctions.PersonClass.constructor` | training/projects/stacks/stack_functions.py:37 | the class statement builds one empty default Stack |
| `StackFunctions.PersonClass.New` | training/projects/stacks/stack_functions.py:36-39 | a person stores its name and the given stack, or else the one default stack of the class |
| `StackFunctions.SharedDefaultScenario` | training/projects/stacks/stack_functions.py:37-39 | two persons built without a stack share one: what the first pushes, the second pops |
| `StackFunctions.PersonClass.NewWithOwnStack` | training/projects/stacks/stack_functions.py:37 | corrected `person`: without a stack argument each person gets a new empty stack |
| `StackFunctions.OwnStackScenario` | training/projects/stacks/stack_functions.py:37-39 | with a stack per person, what one person pushes the other cannot pop |

## Findings

| source | as written | input that shows it | evidently intended | confidence | as-written member | corrected member |
|---|---|---|---|---|---|---|
| training/projects/stacks/stack_functions.py:37 | the default `stack=Stack()` is evaluated once, when the class is defined, so every `person` built without a stack shares one Stack object | `person("alice")` and `person("bob")`: alice's stack pushes 7, bob's stack pops 7 | each person built without a stack gets a new empty one (the `stack=None` idiom) | not executed; medium: the exercise may show this pitfall on purpose | `StackFunctions.PersonClass.New` (shown by `StackFunctions.SharedDefaultScenario`) | `StackFunctions.PersonClass.NewWithOwnStack` (shown by `StackFunctions.OwnStackScenario`) |

## Left out

- `int(...)` coercions (`Season.number`, `Episode.number`, durations, `Episode.season` of the flat model) are not modelled. Numbers are Dafny integers from the start, so the `ValueError` of a non-numeric string does not occur.
- `MediaModel.TvShow.AddEpisode`: takes the season number as an integer. The source compares `season.number == season_number` without `int()`. A caller passing the number as text therefore never matches an existing season and gets "Season exists" from `_add_season`; the model does not capture this.
- `MediaModel.TvShow.AddEpisode`: its ghost out-parameter `target` names the season the episode went to, for the contract only. It has no counterpart in the source, which returns `None` or raises.
- `MediaModel.Episode` and `MediaModel.Season`: the number is a constant in both. The source allows reassigning `episode.number` and `season.number` (`training/projects/mediamanager/mediamodel.py:84`, `:161`), which can break the order of the season or the show that already holds it; the model does not capture this. The title can be reassigned in the model as in the source.
- `base_mediamodel.py`'s `AttributeError` paths (a non-string title or director) are not modelled: titles and directors are strings here.
- `__str__` of every class is not modelled (formatting only).
- `Season.__iter__`: a generator in the source. It is modelled as the sequence it yields, so laziness and interleaving with updates are not captured.
- `MediaModel.Season.Episodes` and `MediaModel.TvShow.Seasons` return a fresh array for the Python list copy.
- `MediaFileLoader.SplitExt`: models the POSIX `os.path.splitext` only. The Windows rules (`\` and drive letters) are not modelled.
- `open_file` in `media_file_loader.py` reads a file (I/O). It is not part of this model, and neither is the module's `__main__` printing.
- The CLI, Tk, web and getopt files are not part of this model. They are callers of the catalog.
- `StackFunctions.PersonClass.New`: `None` for `stack` means the argument was left out. An explicit `person(name, None)` in the source stores `None` as the stack; the model has no person without a Stack, so it does not capture that call (no caller in the source makes it).
- The stack toy's global list is modelled as the one `StackModule` object that its methods change. Python's module-level state has no other Dafny form.
