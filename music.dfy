/**
 * The music value types the core reads. Only the fields the modelled code
 * touches are kept: a song's album (the key of the cover de-duplication)
 * and its artwork, a playlist's name and its items' songs.
 */
module Music {

  /** Songs are identified by a Kotlin `Long`; no arithmetic is done on ids. */
  type SongId = int

  /** A song's cover. `Unknown` is the placeholder drawn when there is none. */
  datatype Artwork = Unknown | Reference(uri: string)

  datatype Song = Song(album: string, artwork: Artwork)

  datatype PlaylistItem = PlaylistItem(song: Song)

  datatype Playlist = Playlist(name: string, items: seq<PlaylistItem>)
}
