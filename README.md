# Song detail, playlist cover and country picker — a Dafny model

This project models the three pieces of logic in a music and podcast player app that can be stated apart from their UI.

- **Song-detail view-model** (`SongDetailViewModel`). `screenState` starts at `Loading`. `fetch(songIds)` looks up every id in the music repository. It publishes `Idle` with the songs in id order when every lookup succeeds, and `Error(error_no_data)` when any lookup fails. `onNewPlay` sends one `NewPlay` event to the music controller. `onShufflePlay` first turns shuffle mode on, then sends one `NewPlay` from index 0. The model is a class with the `screenState` field and a trace of the calls made to the repository and the controller, in program order. The repository's `getSong` is a finite map from id to song.
- **Playlist cover** (`MultiArtwork` and `PlaylistHolder`). The card keeps the first song of each distinct album, in order, and takes its artwork. Up to four of these fill a 2×2 grid. An empty playlist shows the `Unknown` artwork instead. These are pure functions. Kotlin's `distinctBy` is modelled as the library runs it: one pass that keeps a set of albums already seen. It is proved equal to an independent definition ("song `i` is kept iff no earlier song has its album").
- **Country picker** (`SelectCountry` in the discover-more screen). A loop over the ISO country codes fills a code→name table and a name→code table. When two codes share a name, the later code wins in the name→code table. The names are shown sorted. A row is highlighted, and a tap selects a country, through the name→code table. The initial scroll index is the current code's position in the *sorted codes*, not the position of its row among the sorted names. The model reproduces this, and `ScrollIndexFollowsCodeOrder` gives a case where the two positions differ. The podcast-tap guard of the same screen (`id?.attributes?.imId?.let`) is modelled too.

Kotlin's `sorted()` on strings is modelled by an insertion sort over `String.compareTo` order (module `StringOrder`). It is proved to return the one sorted permutation of its input. So the result does not depend on the order in which the hash map hands out its values. That order is modelled as an arbitrary enumeration of the keys (`KeysInIterationOrder`).

`fetch` does not reset `screenState` to `Loading`; only the constructor sets it (SongDetailViewModel.kt:25), so `Fetch` goes from whatever state it finds to `Idle` or `Error`.

Files: `wrappers.dfy` (option type, `elementAtOrNull`), `music.dfy` (song, artwork, playlist values), `song_detail.dfy`, `playlist_holder.dfy`, `string_order.dfy`, `discover_more.dfy`.

## Model

| member | source | states |
|---|---|---|
| SongDetail.SongDetailViewModel.constructor | feature/song/src/main/java/caios/android/kanade/feature/song/detail/SongDetailViewModel.kt:20-25 | before any fetch the screen state is `Loading` and no collaborator call has been made |
| SongDetail.SongDetailViewModel.Fetch | feature/song/src/main/java/caios/android/kanade/feature/song/detail/SongDetailViewModel.kt:27-37 | the new state is the all-or-nothing outcome of looking up every id; the trace grows by one `getSong` per id, in order, and by nothing else |
| SongDetail.SongDetailViewModel.OnNewPlay | feature/song/src/main/java/caios/android/kanade/feature/song/detail/SongDetailViewModel.kt:39-47 | appends exactly one `NewPlay(index, songs, playWhenReady = true)`; the screen state cannot change |
| SongDetail.SongDetailViewModel.OnShufflePlay | feature/song/src/main/java/caios/android/kanade/feature/song/detail/SongDetailViewModel.kt:49-60 | appends `setShuffleMode(ON)` and then `NewPlay(0, songs, true)`, and nothing else; the screen state cannot change |
| SongDetail.GetSongFrom | feature/song/src/main/java/caios/android/kanade/feature/song/detail/SongDetailViewModel.kt:29 | `getSong(id)` is non-null exactly when the repository holds the id, and is then the repository's song |
| SongDetail.LookupAll | feature/song/src/main/java/caios/android/kanade/feature/song/detail/SongDetailViewModel.kt:29 | one lookup per id, in id order; entry i is present iff id i is in the repository, and is then its song |
| SongDetail.ContainsNone | feature/song/src/main/java/caios/android/kanade/feature/song/detail/SongDetailViewModel.kt:31 | `songs.contains(null)` holds iff some lookup is absent |
| SongDetail.FilterNotNull | feature/song/src/main/java/caios/android/kanade/feature/song/detail/SongDetailViewModel.kt:31-32 | keeps only present songs, never more than the input; with an absent entry the result is strictly shorter; with none it keeps all of them, each at its own position |
| SongDetail.FetchOutcome | feature/song/src/main/java/caios/android/kanade/feature/song/detail/SongDetailViewModel.kt:31-35 | never `Loading`; `Idle` iff no lookup is absent, its songs then being the lookups' values position by position; otherwise exactly `Error(error_no_data)` |
| SongDetail.FetchIsTerminal | feature/song/src/main/java/caios/android/kanade/feature/song/detail/SongDetailViewModel.kt:29-35 | a fetch never publishes `Loading`; it is `Idle` iff every id resolves and `Error` iff some id does not |
| SongDetail.FetchAllResolved | feature/song/src/main/java/caios/android/kanade/feature/song/detail/SongDetailViewModel.kt:29-32 | when every id resolves, `Idle` holds one song per id, element i being the song for id i |
| SongDetail.FetchMissingIsError | feature/song/src/main/java/caios/android/kanade/feature/song/detail/SongDetailViewModel.kt:31-35 | a single unresolved id gives `Error(error_no_data)`, never a partial `Idle` |
| SongDetail.FetchEmptyIsIdle | feature/song/src/main/java/caios/android/kanade/feature/song/detail/SongDetailViewModel.kt:29-32 | fetching no ids gives `Idle` with an empty song list |
| SongDetail.IdleSongsComeFromLibrary | feature/song/src/main/java/caios/android/kanade/feature/song/detail/SongDetailViewModel.kt:29-32 | every song of an `Idle` payload is the repository's song for one of the requested ids |
| PlaylistHolder.DistinctFromSnoc | core/ui/src/main/java/caios/android/kanade/core/ui/music/PlaylistHolder.kt:123 | appending a song to the input appends it to the de-duplicated list exactly when its album is new |
| PlaylistHolder.DistinctFrom | core/ui/src/main/java/caios/android/kanade/core/ui/music/PlaylistHolder.kt:123 | the one-pass `distinctBy` loop keeps no more songs than it is given, each from the input and with an album not yet seen |
| PlaylistHolder.DistinctByAlbum | core/ui/src/main/java/caios/android/kanade/core/ui/music/PlaylistHolder.kt:123 | `distinctBy { album }` equals the reference list of the first song of each album, in original order |
| PlaylistHolder.DistinctFromIsFirstOfEach | core/ui/src/main/java/caios/android/kanade/core/ui/music/PlaylistHolder.kt:123 | the one-pass loop started with no album seen equals the first-of-each-album reference list |
| PlaylistHolder.DistinctFromNoDuplicates | core/ui/src/main/java/caios/android/kanade/core/ui/music/PlaylistHolder.kt:123 | no two kept songs share an album |
| PlaylistHolder.DistinctFromAlbums | core/ui/src/main/java/caios/android/kanade/core/ui/music/PlaylistHolder.kt:123 | the kept songs cover every album of the input that was not already seen |
| PlaylistHolder.DistinctByAlbumProperties | core/ui/src/main/java/caios/android/kanade/core/ui/music/PlaylistHolder.kt:123 | kept songs come from the playlist, have pairwise different albums and cover all its albums; the list is empty only for an empty playlist |
| PlaylistHolder.CoverArtworks | core/ui/src/main/java/caios/android/kanade/core/ui/music/PlaylistHolder.kt:123 | one artwork per distinct-album song, element i being that song's artwork, never more than the songs; empty iff the song list is empty |
| Wrappers.ElementAtOrNone | core/ui/src/main/java/caios/android/kanade/core/ui/music/PlaylistHolder.kt:124-127 | `elementAtOrNull(i)` is non-null exactly for an index inside the list, and is then that element |
| PlaylistHolder.MultiArtwork | core/ui/src/main/java/caios/android/kanade/core/ui/music/PlaylistHolder.kt:119-136 | the `Unknown` placeholder is shown exactly when the song list is empty |
| PlaylistHolder.Shown | core/ui/src/main/java/caios/android/kanade/core/ui/music/PlaylistHolder.kt:129-216 | a cover draws between one and four artworks, the first being the placeholder's or slot 1's |
| PlaylistHolder.GridSlotsArePrefix | core/ui/src/main/java/caios/android/kanade/core/ui/music/PlaylistHolder.kt:123-216 | slot k holds artwork k and is filled iff there are more than k artworks; filled slots form a prefix; the drawn artworks are the first min(4, n) |
| PlaylistHolder.ShownArtworks | core/ui/src/main/java/caios/android/kanade/core/ui/music/PlaylistHolder.kt:123-136 | between one and four artworks are drawn: `Unknown` alone for no songs, else the artworks of the first distinct-album songs in order |
| PlaylistHolder.PlaylistSongs | core/ui/src/main/java/caios/android/kanade/core/ui/music/PlaylistHolder.kt:63 | `items.map { it.song }`: one song per item, song i being item i's song |
| PlaylistHolder.PlaylistCard | core/ui/src/main/java/caios/android/kanade/core/ui/music/PlaylistHolder.kt:61-113 | the cover is `MultiArtwork` of the items' songs in order; the count label equals both the item count and the number of songs the cover is given; the name is the playlist's; the placeholder appears exactly for an empty playlist |
| StringOrder.LessEq | feature/discover/src/main/java/com/podcast/discover/DiscoverMoreScreen.kt:173 | `compareTo(b) <= 0`: a proper prefix of a name comes before it |
| StringOrder.LessEqTotal | feature/discover/src/main/java/com/podcast/discover/DiscoverMoreScreen.kt:173 | any two names are ordered one way or the other |
| StringOrder.LessEqAntisymmetric | feature/discover/src/main/java/com/podcast/discover/DiscoverMoreScreen.kt:173 | two names ordered both ways are equal |
| StringOrder.LessEqTransitive | feature/discover/src/main/java/com/podcast/discover/DiscoverMoreScreen.kt:173 | the string order is transitive |
| StringOrder.Insert | feature/discover/src/main/java/com/podcast/discover/DiscoverMoreScreen.kt:173 | inserting into a sorted list gives a sorted list with exactly one more occurrence of the new element |
| StringOrder.Sort | feature/discover/src/main/java/com/podcast/discover/DiscoverMoreScreen.kt:173 | `sorted()` returns an ascending permutation of its input, duplicates kept |
| StringOrder.SortedPermutationUnique | feature/discover/src/main/java/com/podcast/discover/DiscoverMoreScreen.kt:173 | two sorted lists with the same elements are the same list |
| StringOrder.SortIgnoresInputOrder | feature/discover/src/main/java/com/podcast/discover/DiscoverMoreScreen.kt:173 | rearranging the input (a hash map's iteration order) does not change the sorted list |
| StringOrder.IndexOf | feature/discover/src/main/java/com/podcast/discover/DiscoverMoreScreen.kt:242 | -1 exactly when absent, otherwise the first position holding the element |
| DiscoverMore.CodeNames | feature/discover/src/main/java/com/podcast/discover/DiscoverMoreScreen.kt:166-169 | every key of the code→name table is a listed code, mapped to its display name |
| DiscoverMore.NameCodes | feature/discover/src/main/java/com/podcast/discover/DiscoverMoreScreen.kt:166-170 | every key of the name→code table is mapped to a listed code that bears that name |
| DiscoverMore.BuildCountryTables | feature/discover/src/main/java/com/podcast/discover/DiscoverMoreScreen.kt:163-171 | the loop leaves both tables equal to their definitions over the whole code list |
| DiscoverMore.CodeNamesMapsEveryCode | feature/discover/src/main/java/com/podcast/discover/DiscoverMoreScreen.kt:166-169 | the code→name table has exactly the listed codes as keys, each mapped to its display name |
| DiscoverMore.NameCodesIsLastCode | feature/discover/src/main/java/com/podcast/discover/DiscoverMoreScreen.kt:166-170 | the name→code table has exactly the display names as keys, each mapped to the last code bearing it |
| DiscoverMore.LastWithNameUnique | feature/discover/src/main/java/com/podcast/discover/DiscoverMoreScreen.kt:170 | one code at most is the last of a given name |
| DiscoverMore.CodeNameRoundTrip | feature/discover/src/main/java/com/podcast/discover/DiscoverMoreScreen.kt:169-170 | code → name → code → name gives back the same name for every listed code |
| DiscoverMore.KeysInIterationOrder | feature/discover/src/main/java/com/podcast/discover/DiscoverMoreScreen.kt:173 | lists every key of the table once, in an unspecified order |
| DiscoverMore.ValuesAlong | feature/discover/src/main/java/com/podcast/discover/DiscoverMoreScreen.kt:173 | the table's values read off along a key enumeration: one per key, in that order, each a value of the table |
| DiscoverMore.IsHighlighted | feature/discover/src/main/java/com/podcast/discover/DiscoverMoreScreen.kt:207 | a row is highlighted only when its name is a key of the name→code table and the current code is one of its values |
| DiscoverMore.Rows | feature/discover/src/main/java/com/podcast/discover/DiscoverMoreScreen.kt:206-209 | plumbing for `SelectCountry`: one row per sorted name, in order, each highlighted as `IsHighlighted` says |
| DiscoverMore.HighlightedRow | feature/discover/src/main/java/com/podcast/discover/DiscoverMoreScreen.kt:207-209 | a row is highlighted iff the current code is the last listed code with that row's name |
| DiscoverMore.CountryClicked | feature/discover/src/main/java/com/podcast/discover/DiscoverMoreScreen.kt:216-222 | a tap selects at most one code, selects one exactly when the name is a key of the name→code table, and that code is `countryNameCodes[name]` |
| DiscoverMore.ClickSelectsNamedCountry | feature/discover/src/main/java/com/podcast/discover/DiscoverMoreScreen.kt:217-221 | tapping the row of a listed country's name selects exactly one code: the last listed code bearing that name |
| DiscoverMore.ValuesMapBack | feature/discover/src/main/java/com/podcast/discover/DiscoverMoreScreen.kt:173-221 | every shown name maps through the name→code table to a code whose name is that row's name |
| DiscoverMore.SortedKeysEnumerate | feature/discover/src/main/java/com/podcast/discover/DiscoverMoreScreen.kt:242 | the sorted codes list every code once |
| DiscoverMore.SelectCountry | feature/discover/src/main/java/com/podcast/discover/DiscoverMoreScreen.kt:157-245 | `IsCountrySheet` holds: rows are the table's values, sorted, duplicates kept; highlighting goes through the name→code table; every row maps back to its name; the scroll index is -1 iff the current code is unlisted, else its position in the sorted codes |
| DiscoverMore.ScrollIndexFollowsCodeOrder | feature/discover/src/main/java/com/podcast/discover/DiscoverMoreScreen.kt:240-244 | every sheet the picker can produce for codes DE (Germany) and FR (France) with DE current scrolls to index 0, while row 0 is France and the highlighted Germany row is row 1: the index counts codes, not names |
| DiscoverMore.PodcastClicked | feature/discover/src/main/java/com/podcast/discover/DiscoverMoreScreen.kt:142-148 | `onClickPodcast` is called once, with `imId`, exactly when `id`, `attributes` and `imId` are all non-null; otherwise it is not called |

## Left out

- Compose layout and styling: Scaffold, ConstraintLayout links, padding, colours, icons, previews and the top app bar are rendering only. The cover is modelled as the list of artworks it draws, slot by slot.
- Navigation files and DI: `ArtistDetailNavigation.kt`, `AlbumDetailNavigation.kt` and `CommonModule.kt` hold route strings, argument parsing and provider setup, with no logic of this core.
- Coroutines: each `viewModelScope.launch` block runs as one atomic step. The race between overlapping `fetch` calls, where the last one to finish wins, is not modelled. No suspension, cancellation or timeout is modelled either.
- Repository and controller: their implementations are not part of this model. `getSong` is a finite map from id to song. `setShuffleMode` and `playerEvent` are recorded in the trace only. The repository's persisted shuffle mode is not modelled as state.
- core/model is not part of this model: a song keeps only its album and artwork, a playlist only its name and its items' songs, and the podcast entry only the `id?.attributes?.imId` path. Artworks other than `Unknown` are an opaque `Reference`.
- Integer widths: song ids (`Long`) and the play index (`Int`) are unbounded integers. They are passed through without arithmetic, so width does not matter.
- Locale: `Locale.getISOCountries()` is the `codes` input. `displayCountry` is a function parameter, and its dependence on the device's default locale is not modelled.
- String order: characters are compared as Dafny `char` (Unicode scalar values). Java compares UTF-16 code units instead, and the two orders differ only for characters outside the Basic Multilingual Plane. Kotlin's sort algorithm (TimSort) is replaced by an insertion sort. Both return the same list because the sorted permutation is unique (`SortedPermutationUnique`).
- `animateScrollToItem`, its `scrollOffset = 50000` and the bottom-sheet dialog are UI side effects. Only the index passed to the scroll is modelled.
- What `selectCountry` does after a tap is not modelled: it saves the code via the view-model and dismisses the sheet. Only which code it is called with is modelled.
- DiscoverMore.SelectCountry: states that the shown names are the table's values in one key enumeration, sorted. It does not state that this multiset is the same for every enumeration, though `SortIgnoresInputOrder` shows the sorted list does not depend on the input's arrangement.
