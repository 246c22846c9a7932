/** The `Track` record of lf_scrobbler/lastfm_radio_scrobble.py. */
module Tracks {

  /** A named tuple of artist and title; equality is field by field. */
  datatype Track = Track(artist: string, title: string)

  /** The error raised when `artist, title = value.split(' - ')` does not
      receive exactly two parts; `got` is the number of parts it received. */
  datatype UnpackError = UnpackError(got: nat)
}
