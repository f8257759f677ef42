/**
 * The song-detail screen: a view-model that resolves a list of song ids into
 * a screen state (all or nothing), and forwards play / shuffle-play requests
 * to the music controller.
 *
 * The repository's `getSong` is a finite map from id to song (an id outside
 * the map resolves to null). The observable side effects on the two
 * collaborators (repository reads and writes, controller events) are kept,
 * in program order, in one trace.
 */
module SongDetail {
  import opened Wrappers
  import opened Music

  /** String resources the screen can show. */
  datatype StringRes = ErrorNoData

  /** The screen's load status. */
  datatype ScreenState<T> = Loading | Idle(data: T) | Error(message: StringRes)

  datatype SongDetailUiState = SongDetailUiState(songs: seq<Song>)

  datatype ShuffleMode = On | Off

  /** The one player event this screen issues. */
  datatype PlayerEvent = NewPlay(index: int, queue: seq<Song>, playWhenReady: bool)

  /** An interaction with a collaborator, as recorded in the trace. */
  datatype Action =
    | GetSong(id: SongId)                 // MusicRepository.getSong
    | SetShuffleMode(mode: ShuffleMode)   // MusicRepository.setShuffleMode
    | Dispatch(event: PlayerEvent)        // MusicController.playerEvent

  /** `MusicRepository.getSong(id)`. */
  function GetSongFrom(library: map<SongId, Song>, id: SongId): (song: Option<Song>)
    ensures song.Some? <==> id in library
    ensures song.Some? ==> song.value == library[id]
  {
    if id in library then Some(library[id]) else None
  }

  /** `songIds.map { musicRepository.getSong(it) }`: one lookup per id, in order. */
  function LookupAll(library: map<SongId, Song>, songIds: seq<SongId>): (lookups: seq<Option<Song>>)
    ensures |lookups| == |songIds|
    ensures forall i :: 0 <= i < |songIds| ==>
      (lookups[i].Some? <==> songIds[i] in library) &&
      (lookups[i].Some? ==> lookups[i].value == library[songIds[i]])
  {
    seq(|songIds|, i requires 0 <= i < |songIds| => GetSongFrom(library, songIds[i]))
  }

  /** The lookups `fetch` issues, one per id, in order. */
  function LookupTrace(songIds: seq<SongId>): seq<Action>
  {
    seq(|songIds|, i requires 0 <= i < |songIds| => GetSong(songIds[i]))
  }

  /** `songs.contains(null)`. */
  predicate ContainsNone(lookups: seq<Option<Song>>): (found: bool)
    ensures found <==> None in lookups
  {
    exists i :: 0 <= i < |lookups| && lookups[i].None?
  }

  /**
   * `filterNotNull()`: the present songs, in order. When nothing is absent it
   * keeps every entry, at its own position; when something is absent the
   * result is shorter. `fetch` calls it only when nothing is absent, so the
   * positions of the kept songs are stated for that case alone.
   */
  function FilterNotNull(lookups: seq<Option<Song>>): (songs: seq<Song>)
    ensures |songs| <= |lookups|
    ensures forall s :: s in songs ==> Some(s) in lookups
    ensures !ContainsNone(lookups) ==>
      |songs| == |lookups| && forall i :: 0 <= i < |lookups| ==> lookups[i] == Some(songs[i])
    ensures ContainsNone(lookups) ==> |songs| < |lookups|
  {
    if lookups == [] then []
    else
      var rest := FilterNotNull(lookups[1..]);
      assert ContainsNone(lookups) && lookups[0].Some? ==> ContainsNone(lookups[1..]) by {
        if ContainsNone(lookups) && lookups[0].Some? {
          var i :| 0 <= i < |lookups| && lookups[i].None?;
          assert lookups[1..][i - 1].None?;
        }
      }
      assert !ContainsNone(lookups) ==> !ContainsNone(lookups[1..]) by {
        if ContainsNone(lookups[1..]) {
          var i :| 0 <= i < |lookups[1..]| && lookups[1..][i].None?;
          assert lookups[i + 1].None?;
        }
      }
      match lookups[0]
      case None => rest
      case Some(s) => [s] + rest
  }

  /** The state `fetch` publishes once every lookup has returned. */
  function FetchOutcome(lookups: seq<Option<Song>>): (state: ScreenState<SongDetailUiState>)
    ensures state != Loading
    ensures state.Idle? <==> !ContainsNone(lookups)
    ensures state.Idle? ==>
      |state.data.songs| == |lookups| && forall i :: 0 <= i < |lookups| ==> lookups[i] == Some(state.data.songs[i])
    ensures state.Error? ==> state == Error(ErrorNoData)
  {
    if !ContainsNone(lookups) then Idle(SongDetailUiState(FilterNotNull(lookups)))
    else Error(ErrorNoData)
  }

  /** `fetch` never publishes `Loading`: it lands on `Idle` or `Error`. */
  lemma FetchIsTerminal(library: map<SongId, Song>, songIds: seq<SongId>)
    ensures FetchOutcome(LookupAll(library, songIds)) != Loading
    ensures FetchOutcome(LookupAll(library, songIds)).Idle? <==>
      forall i :: 0 <= i < |songIds| ==> songIds[i] in library
    ensures FetchOutcome(LookupAll(library, songIds)).Error? <==>
      exists i :: 0 <= i < |songIds| && songIds[i] !in library
  {
    var lookups := LookupAll(library, songIds);
    if ContainsNone(lookups) {
      var i :| 0 <= i < |lookups| && lookups[i].None?;
      assert songIds[i] !in library;
    } else {
      forall i | 0 <= i < |songIds| ensures songIds[i] in library {
        assert lookups[i].Some?;
      }
    }
  }

  /**
   * When every id resolves, `fetch` publishes `Idle` whose songs are the
   * resolved ones, one per id and in the order of the ids.
   */
  lemma FetchAllResolved(library: map<SongId, Song>, songIds: seq<SongId>)
    requires forall i :: 0 <= i < |songIds| ==> songIds[i] in library
    ensures FetchOutcome(LookupAll(library, songIds)).Idle?
    ensures var songs := FetchOutcome(LookupAll(library, songIds)).data.songs;
      |songs| == |songIds| && forall i :: 0 <= i < |songIds| ==> songs[i] == library[songIds[i]]
  {
    var lookups := LookupAll(library, songIds);
    assert !ContainsNone(lookups) by {
      forall i | 0 <= i < |lookups| ensures lookups[i].Some? {
        assert songIds[i] in library;
      }
    }
    var songs := FilterNotNull(lookups);
    forall i | 0 <= i < |songIds| ensures songs[i] == library[songIds[i]] {
      assert lookups[i] == Some(songs[i]);
    }
  }

  /** One id that does not resolve is enough for `Error(error_no_data)`: no partial `Idle`. */
  lemma FetchMissingIsError(library: map<SongId, Song>, songIds: seq<SongId>, k: nat)
    requires k < |songIds| && songIds[k] !in library
    ensures FetchOutcome(LookupAll(library, songIds)) == Error(ErrorNoData)
  {
    assert LookupAll(library, songIds)[k].None?;
  }

  /** `fetch([])` publishes `Idle` with no songs: an empty list contains no null. */
  lemma FetchEmptyIsIdle(library: map<SongId, Song>)
    ensures FetchOutcome(LookupAll(library, [])) == Idle(SongDetailUiState([]))
  {
    assert LookupAll(library, []) == [];
  }

  /** Every song of an `Idle` payload is the library's song for one of the requested ids. */
  lemma IdleSongsComeFromLibrary(library: map<SongId, Song>, songIds: seq<SongId>, s: Song)
    requires FetchOutcome(LookupAll(library, songIds)).Idle?
    requires s in FetchOutcome(LookupAll(library, songIds)).data.songs
    ensures exists i :: 0 <= i < |songIds| && songIds[i] in library && library[songIds[i]] == s
  {
    var lookups := LookupAll(library, songIds);
    assert Some(s) in lookups;
    var i :| 0 <= i < |lookups| && lookups[i] == Some(s);
    assert songIds[i] in library && library[songIds[i]] == s;
  }

  class SongDetailViewModel {
    /** What `MusicRepository.getSong` resolves. */
    const library: map<SongId, Song>
    /** `screenState`, observed by the screen. */
    var screenState: ScreenState<SongDetailUiState>
    /** The collaborator calls made so far, oldest first. */
    var trace: seq<Action>

    /** The screen starts out `Loading`, before any fetch. */
    constructor (library: map<SongId, Song>)
      ensures this.library == library
      ensures screenState == Loading && trace == []
    {
      this.library := library;
      screenState := Loading;
      trace := [];
    }

    /**
     * Looks every id up and publishes `Idle` with the songs in input order if
     * all of them resolved, `Error(error_no_data)` otherwise. The coroutine
     * runs as one atomic step, and the state is not reset to `Loading` first.
     */
    method Fetch(songIds: seq<SongId>)
      modifies this`screenState, this`trace
      ensures screenState == FetchOutcome(LookupAll(library, songIds))
      ensures trace == old(trace) + LookupTrace(songIds)
    {
      var songs := LookupAll(library, songIds);
      trace := trace + LookupTrace(songIds);
      screenState := FetchOutcome(songs);
    }

    /** Dispatches exactly one `NewPlay` for `songs` from `index`; the screen state is untouched. */
    method OnNewPlay(songs: seq<Song>, index: int)
      modifies this`trace
      ensures trace == old(trace) + [Dispatch(NewPlay(index, songs, true))]
    {
      trace := trace + [Dispatch(NewPlay(index, songs, true))];
    }

    /**
     * Turns shuffle on, then dispatches one `NewPlay` for `songs` from the
     * first one; nothing else is recorded and the screen state is untouched.
     */
    method OnShufflePlay(songs: seq<Song>)
      modifies this`trace
      ensures trace == old(trace) + [SetShuffleMode(On), Dispatch(NewPlay(0, songs, true))]
    {
      trace := trace + [SetShuffleMode(On)];
      trace := trace + [Dispatch(NewPlay(0, songs, true))];
    }
  }
}
