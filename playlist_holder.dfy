/**
 * The cover of a playlist card: up to four artworks in a 2x2 grid, taken
 * from the first song of each distinct album, or the `Unknown` artwork when
 * the playlist has no songs; and the song list and count the card is given.
 */
module PlaylistHolder {
  import opened Wrappers
  import opened Music

  /** The albums of a list of songs. */
  function AlbumsOf(songs: seq<Song>): set<string>
  {
    set i | 0 <= i < |songs| :: songs[i].album
  }

  /**
   * Kotlin's `distinctBy { it.album }`, as the library runs it: walk the list
   * once, keep a song when its album has not been seen yet.
   */
  function DistinctFrom(songs: seq<Song>, seen: set<string>): (kept: seq<Song>)
    ensures |kept| <= |songs|
    ensures forall s :: s in kept ==> s in songs && s.album !in seen
  {
    if songs == [] then []
    else if songs[0].album in seen then DistinctFrom(songs[1..], seen)
    else [songs[0]] + DistinctFrom(songs[1..], seen + {songs[0].album})
  }

  /** `songs.distinctBy { it.album }`: the first song of each album, in list order. */
  function DistinctByAlbum(songs: seq<Song>): (kept: seq<Song>)
    ensures kept == FirstOfEachAlbum(songs)
  {
    DistinctFromIsFirstOfEach(songs);
    DistinctFrom(songs, {})
  }

  /** Reference definition: song `i` is the first of its album in the list. */
  predicate IsFirstOfAlbum(songs: seq<Song>, i: nat)
    requires i < |songs|
  {
    forall j :: 0 <= j < i ==> songs[j].album != songs[i].album
  }

  /** Reference definition: the first song of each album, in list order. */
  function FirstOfEachAlbum(songs: seq<Song>): seq<Song>
  {
    if songs == [] then []
    else
      var n := |songs| - 1;
      FirstOfEachAlbum(songs[..n]) + (if IsFirstOfAlbum(songs, n) then [songs[n]] else [])
  }

  /** The albums of `[h] + t` are `h`'s album and those of `t`. */
  lemma AlbumsOfCons(h: Song, t: seq<Song>)
    ensures AlbumsOf([h] + t) == {h.album} + AlbumsOf(t)
  {
    var songs := [h] + t;
    assert songs[0].album == h.album;
    forall a | a in AlbumsOf(songs) ensures a in {h.album} + AlbumsOf(t) {
      var i :| 0 <= i < |songs| && songs[i].album == a;
      if i > 0 { assert t[i - 1].album == a; }
    }
    forall a | a in AlbumsOf(t) ensures a in AlbumsOf(songs) {
      var i :| 0 <= i < |t| && t[i].album == a;
      assert songs[i + 1].album == a;
    }
  }

  /** Appending one song to the input appends it to the output exactly when its album is new. */
  lemma {:induction false} DistinctFromSnoc(songs: seq<Song>, x: Song, seen: set<string>)
    ensures DistinctFrom(songs + [x], seen) ==
      DistinctFrom(songs, seen) + (if x.album in seen || x.album in AlbumsOf(songs) then [] else [x])
  {
    if songs == [] {
      assert [x][1..] == [];
    } else {
      var h, t := songs[0], songs[1..];
      assert (songs + [x])[0] == h;
      assert (songs + [x])[1..] == t + [x];
      assert songs == [h] + t;
      AlbumsOfCons(h, t);
      var tail := if x.album in seen || x.album in AlbumsOf(songs) then [] else [x];
      if h.album in seen {
        assert DistinctFrom(songs + [x], seen) == DistinctFrom(t + [x], seen);
        assert DistinctFrom(songs, seen) == DistinctFrom(t, seen);
        DistinctFromSnoc(t, x, seen);
      } else {
        var seen' := seen + {h.album};
        assert DistinctFrom(songs + [x], seen) == [h] + DistinctFrom(t + [x], seen');
        assert DistinctFrom(songs, seen) == [h] + DistinctFrom(t, seen');
        DistinctFromSnoc(t, x, seen');
        assert DistinctFrom(t + [x], seen') == DistinctFrom(t, seen') + tail;
      }
    }
  }

  /**
   * `distinctBy { it.album }` keeps exactly the first song of each album, in
   * the original order.
   */
  lemma {:induction false} DistinctFromIsFirstOfEach(songs: seq<Song>)
    ensures DistinctFrom(songs, {}) == FirstOfEachAlbum(songs)
  {
    if songs != [] {
      var n := |songs| - 1;
      var p, x := songs[..n], songs[n];
      assert songs == p + [x];
      DistinctFromIsFirstOfEach(p);
      DistinctFromSnoc(p, x, {});
      assert IsFirstOfAlbum(songs, n) <==> x.album !in AlbumsOf(p) by {
        if x.album in AlbumsOf(p) {
          var j :| 0 <= j < |p| && p[j].album == x.album;
          assert songs[j].album == x.album;
        }
      }
    }
  }

  /** No two songs of the list share an album. */
  predicate AlbumsPairwiseDistinct(songs: seq<Song>)
  {
    forall k, l :: 0 <= k < l < |songs| ==> songs[k].album != songs[l].album
  }

  lemma ConsPairwiseDistinct(h: Song, rest: seq<Song>)
    requires AlbumsPairwiseDistinct(rest)
    requires forall s :: s in rest ==> s.album != h.album
    ensures AlbumsPairwiseDistinct([h] + rest)
  {
    var r := [h] + rest;
    forall k, l | 0 <= k < l < |r| ensures r[k].album != r[l].album {
      assert r[l] == rest[l - 1];
      if k == 0 {
        assert rest[l - 1] in rest;
      } else {
        assert r[k] == rest[k - 1];
      }
    }
  }

  /** The kept songs have pairwise different albums. */
  lemma {:induction false} DistinctFromNoDuplicates(songs: seq<Song>, seen: set<string>)
    ensures AlbumsPairwiseDistinct(DistinctFrom(songs, seen))
  {
    if songs != [] {
      var h, t := songs[0], songs[1..];
      if h.album in seen {
        DistinctFromNoDuplicates(t, seen);
      } else {
        var seen' := seen + {h.album};
        DistinctFromNoDuplicates(t, seen');
        ConsPairwiseDistinct(h, DistinctFrom(t, seen'));
      }
    }
  }

  /** Every album of the input outside `seen` is represented among the kept songs. */
  lemma {:induction false} DistinctFromAlbums(songs: seq<Song>, seen: set<string>)
    ensures AlbumsOf(DistinctFrom(songs, seen)) == AlbumsOf(songs) - seen
  {
    if songs != [] {
      var h, t := songs[0], songs[1..];
      assert songs == [h] + t;
      AlbumsOfCons(h, t);
      if h.album in seen {
        DistinctFromAlbums(t, seen);
      } else {
        var seen' := seen + {h.album};
        DistinctFromAlbums(t, seen');
        AlbumsOfCons(h, DistinctFrom(t, seen'));
      }
    }
  }

  /**
   * No two selected songs share an album, every album of the playlist is
   * represented, and every selected song comes from the playlist.
   */
  lemma DistinctByAlbumProperties(songs: seq<Song>)
    ensures var r := DistinctByAlbum(songs);
      && (forall k :: 0 <= k < |r| ==> r[k] in songs)
      && AlbumsPairwiseDistinct(r)
      && AlbumsOf(r) == AlbumsOf(songs)
      && |r| <= |songs|
      && (r == [] <==> songs == [])
  {
    DistinctFromNoDuplicates(songs, {});
    DistinctFromAlbums(songs, {});
    var r := DistinctByAlbum(songs);
    if songs != [] {
      assert songs[0].album in AlbumsOf(songs);
    }
  }

  /** `songs.distinctBy { it.album }.map { it.artwork }`. */
  function CoverArtworks(songs: seq<Song>): (artworks: seq<Artwork>)
    ensures |artworks| == |DistinctByAlbum(songs)| <= |songs|
    ensures forall i :: 0 <= i < |artworks| ==> artworks[i] == DistinctByAlbum(songs)[i].artwork
    ensures artworks == [] <==> songs == []
  {
    DistinctByAlbumProperties(songs);
    var kept := DistinctByAlbum(songs);
    seq(|kept|, i requires 0 <= i < |kept| => kept[i].artwork)
  }

  /** What the card's cover shows: the placeholder alone, or a 2x2 grid whose first slot is filled. */
  datatype Cover =
    | Placeholder(artwork: Artwork)
    | Grid(a1: Artwork, a2: Option<Artwork>, a3: Option<Artwork>, a4: Option<Artwork>)

  /** `MultiArtwork`: a1..a4 are elements 0..3 of the artwork list; no a1 means the `Unknown` placeholder. */
  function MultiArtwork(songs: seq<Song>): (cover: Cover)
    ensures cover.Placeholder? <==> songs == []
    ensures cover.Placeholder? ==> cover.artwork == Unknown
  {
    var artworks := CoverArtworks(songs);
    var a1 := ElementAtOrNone(artworks, 0);
    var a2 := ElementAtOrNone(artworks, 1);
    var a3 := ElementAtOrNone(artworks, 2);
    var a4 := ElementAtOrNone(artworks, 3);
    DistinctByAlbumProperties(songs);
    if a1.None? then Placeholder(Unknown)
    else Grid(a1.value, a2, a3, a4)
  }

  /** The artworks a cover draws, slot by slot. */
  function Shown(cover: Cover): (shown: seq<Artwork>)
    ensures 1 <= |shown| <= 4
    ensures shown[0] == if cover.Placeholder? then cover.artwork else cover.a1
  {
    match cover
    case Placeholder(a) => [a]
    case Grid(a1, a2, a3, a4) =>
      [a1] + (if a2.Some? then [a2.value] else [])
           + (if a3.Some? then [a3.value] else [])
           + (if a4.Some? then [a4.value] else [])
  }

  function Min(a: int, b: int): int { if a <= b then a else b }

  /**
   * The grid's slots are the first four cover artworks: slot k is filled
   * exactly when there are more than k of them, so filled slots form a
   * prefix and at most four artworks are drawn.
   */
  lemma GridSlotsArePrefix(songs: seq<Song>)
    requires songs != []
    ensures var artworks := CoverArtworks(songs);
      var cover := MultiArtwork(songs);
      && cover.Grid?
      && cover.a1 == artworks[0]
      && (cover.a2.Some? <==> |artworks| > 1) && (cover.a2.Some? ==> cover.a2.value == artworks[1])
      && (cover.a3.Some? <==> |artworks| > 2) && (cover.a3.Some? ==> cover.a3.value == artworks[2])
      && (cover.a4.Some? <==> |artworks| > 3) && (cover.a4.Some? ==> cover.a4.value == artworks[3])
      && (cover.a3.Some? ==> cover.a2.Some?) && (cover.a4.Some? ==> cover.a3.Some?)
      && Shown(cover) == artworks[..Min(4, |artworks|)]
  {
    DistinctByAlbumProperties(songs);
    var artworks := CoverArtworks(songs);
    var n := Min(4, |artworks|);
    var cover := MultiArtwork(songs);
    assert |Shown(cover)| == n;
    forall k | 0 <= k < n ensures Shown(cover)[k] == artworks[k] { }
  }

  /**
   * What is drawn: the `Unknown` artwork alone for an empty list; otherwise
   * at most four artworks, each from a different album, in list order.
   */
  lemma ShownArtworks(songs: seq<Song>)
    ensures var shown := Shown(MultiArtwork(songs));
      && 1 <= |shown| <= 4
      && (songs == [] ==> shown == [Unknown])
      && (songs != [] ==>
            var kept := DistinctByAlbum(songs);
            |shown| <= |kept| &&
            (forall k :: 0 <= k < |shown| ==> shown[k] == kept[k].artwork) &&
            (forall k, l :: 0 <= k < l < |shown| ==> kept[k].album != kept[l].album))
  {
    DistinctByAlbumProperties(songs);
    if songs != [] {
      GridSlotsArePrefix(songs);
    }
  }

  /** What the playlist card is given: the cover it draws and the number in its count label. */
  datatype Card = Card(name: string, cover: Cover, songCount: nat)

  /** The songs handed to `MultiArtwork`: `playlist.items.map { it.song }`. */
  function PlaylistSongs(playlist: Playlist): (songs: seq<Song>)
    ensures |songs| == |playlist.items|
    ensures forall i :: 0 <= i < |songs| ==> songs[i] == playlist.items[i].song
  {
    seq(|playlist.items|, i requires 0 <= i < |playlist.items| => playlist.items[i].song)
  }

  /**
   * `PlaylistHolder`: the cover is drawn from the items' songs and the count
   * label counts the items, so the label counts exactly the songs the cover
   * was given, and the placeholder appears exactly for an empty playlist.
   */
  function PlaylistCard(playlist: Playlist): (card: Card)
    ensures card.songCount == |PlaylistSongs(playlist)| == |playlist.items|
    ensures card.cover.Placeholder? <==> playlist.items == []
    ensures card.name == playlist.name
    ensures card.cover == MultiArtwork(PlaylistSongs(playlist))
  {
    Card(playlist.name, MultiArtwork(PlaylistSongs(playlist)), |playlist.items|)
  }
}
