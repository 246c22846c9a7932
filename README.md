# Radio scrobbler core, modelled in Dafny

This project models the core of `lf_scrobbler/lastfm_radio_scrobble.py`, a
poller that reads an internet radio stream with in-band ICY (SHOUTcast)
metadata, extracts the currently playing track and reports each new track to
Last.fm and, when configured, adds it to a Spotify playlist.

Modules, one per part of the program:

- `Wrappers` and `Tracks` (`wrappers.dfy`, `tracks.dfy`): `Option`/`Result`,
  the `Track` named tuple, and the `ValueError` raised when the title does not
  split into exactly two parts.
- `Decoding` (`decoding.dfy`): `__decode_metadata`. Strict UTF-8 decoding is
  spelled out after the table of well-formed byte sequences in section 3.9 of
  the Unicode standard (table 3-7). That is how Python's strict `utf-8` codec
  behaves. Latin-1 is the fallback. An encoder is included only to state the
  round trip.
- `TitleSearch` (`title.dfy`): `re.search(r'StreamTitle=(?P<track>[^;]+)', …)`
  and `track_info.split(' - ')` with the two-name unpacking.
- `Annotations` (`annotations.dfy`): `clean_track`, i.e.
  `re.sub(r'\[.*?\]', '', title)`.
- `Extraction` (`extraction.dfy`): the chunk loop of `get_artist_track`, written
  as a method with a `while` loop and proved against the function `FirstTrack`.
- `Scrobbler` (`scrobbler.dfy`): class `RadioScrobbler`. Its field `trackOld`
  is `self.track_old`. A ghost log `calls` records every call made to the
  Last.fm and Spotify clients. The methods are `SearchSpotifyTrack`,
  `Scrobble`, `Step` (the comparison and report after a track was fetched),
  `PollOnce` (one pass of the `start_scrobbling` loop) and `StartScrobbling`
  (the loop over a finite sequence of polls). They are proved against the
  functions `DispatchCalls` and `RunPolls`. `RunPolls` turns each poll into a
  round, that is, the outcome of `get_artist_track` together with the clock
  reading and the search hits. It then runs the loop over the rounds
  (`RunRounds`). The lemmas
  relate those functions to a separately defined reference: keep each present
  track that differs from the one before it (`Dedup`).

What the code does, where it differs from a tidier description of the
protocol:

- The captured value keeps its framing quotes. `StreamTitle='A - B';` gives
  artist `'A` and title `B'`. The leading quote stays on the artist and the
  trailing one on the title.
- The byte at offset `metaint` is the ICY length byte. It is not interpreted.
  Everything from offset `metaint` to the end of the chunk is decoded as one
  text: the length byte, the metadata block and any audio after it. A stray
  byte, such as a length byte of 128 or more that cannot start a UTF-8
  sequence, sends the whole text to the Latin-1 fallback.
- `[^;]+` needs at least one character. So a `StreamTitle=` directly followed
  by `;` does not match, and the search moves on to a later key.
- A value without exactly one non-overlapping `" - "` is not given an
  "Unknown" artist. The unpacking raises `ValueError`, nothing in
  `start_scrobbling` catches it, and the loop ends. `RunPolls` stops with that
  error.
- Neither field is trimmed. `Song [Radio Edit]` cleans to `Song ` with its
  trailing space.
- An empty search URI is falsy in `if track_uri:`, so nothing is added to the
  playlist for it.

## Model

| member | source | states |
|---|---|---|
| `Decoding.DecodeFirst` | lf_scrobbler/lastfm_radio_scrobble.py:65 | one well-formed UTF-8 sequence is decoded per step, 1 to 4 bytes long and never beyond the input; a 1-byte step happens exactly for a byte below 0x80 (that the bytes read are the character's encoding is `DecodeFirstIsEncoding`) |
| `Decoding.DecodeFirstIsEncoding` | lf_scrobbler/lastfm_radio_scrobble.py:65 | the bytes a step accepts are exactly the UTF-8 encoding of the character it yields, so overlong forms, surrogates and code points above U+10FFFF are refused |
| `Decoding.Utf8Decode` | lf_scrobbler/lastfm_radio_scrobble.py:65 | `metadata.decode('utf-8')`: the whole block decoded step by step, failing if any step fails; characterised by `Utf8DecodeExactly` |
| `Decoding.Utf8DecodeEncodes` | lf_scrobbler/lastfm_radio_scrobble.py:65 | whatever the strict decoder accepts is the UTF-8 encoding of the text it returns |
| `Decoding.Utf8DecodeExactly` | lf_scrobbler/lastfm_radio_scrobble.py:65 | decoding gives the text s exactly when the bytes are the UTF-8 encoding of s, so it fails on every other byte string |
| `Decoding.Utf8RoundTrip` | lf_scrobbler/lastfm_radio_scrobble.py:65 | strict UTF-8 decoding inverts UTF-8 encoding for every text |
| `Decoding.Latin1Decode` | lf_scrobbler/lastfm_radio_scrobble.py:66-68 | the fallback never fails and gives exactly one character per byte, the character whose code is the byte value |
| `Decoding.Latin1RoundTrip` | lf_scrobbler/lastfm_radio_scrobble.py:68 | the fallback loses nothing: re-encoding its result gives the bytes back |
| `Decoding.DecodeMetadata` | lf_scrobbler/lastfm_radio_scrobble.py:64-70 | valid UTF-8 gives its UTF-8 decoding; otherwise the result has one character per byte, equal to the byte value |
| `Decoding.Utf8DecodeShorter` | lf_scrobbler/lastfm_radio_scrobble.py:65 | a successful UTF-8 decoding has no more characters than bytes |
| `Decoding.MetadataLength` | lf_scrobbler/lastfm_radio_scrobble.py:64-70 | the decoded metadata is never longer than the bytes, and exactly as long in the fallback |
| `Decoding.AsciiDecodesAlike` | lf_scrobbler/lastfm_radio_scrobble.py:64-68 | on 7-bit bytes UTF-8 succeeds and agrees with Latin-1 |
| `Decoding.StrayByteFallsBack` | lf_scrobbler/lastfm_radio_scrobble.py:64-68 | a byte that cannot lead a UTF-8 sequence, after 7-bit text, forces the Latin-1 decoding of the whole block |
| `Decoding.AsciiBytePrefix` | lf_scrobbler/lastfm_radio_scrobble.py:64-70 | a leading 7-bit byte becomes its own character in front of whatever the rest decodes to |
| `TitleSearch.ValueRun` | lf_scrobbler/lastfm_radio_scrobble.py:116 | the greedy `[^;]+` run is a prefix without `;` that stops only at a `;` or the end |
| `TitleSearch.FirstMatchFrom` | lf_scrobbler/lastfm_radio_scrobble.py:116 | the search returns the least position where the key is followed by a non-`;` character, or none if there is no such position |
| `TitleSearch.SearchStreamTitle` | lf_scrobbler/lastfm_radio_scrobble.py:116-119 | `re.search(...).group('track')`: the value run after the first matching key, or no match; characterised by `StreamTitleShape` |
| `TitleSearch.StreamTitleShape` | lf_scrobbler/lastfm_radio_scrobble.py:116-119 | no match iff the pattern matches nowhere; a match is non-empty, has no `;`, follows the first matching key and runs to the next `;` or the end |
| `TitleSearch.NoKeyNoTitle` | lf_scrobbler/lastfm_radio_scrobble.py:116-118 | text without the key gives no match |
| `TitleSearch.EmptyValueSkipped` | lf_scrobbler/lastfm_radio_scrobble.py:116 | a key directly followed by `;` is passed over and the later key's value is found |
| `TitleSearch.QuotesKept` | lf_scrobbler/lastfm_radio_scrobble.py:116-119 | for `StreamTitle='v';…` the captured value is `'v'`, quotes included |
| `TitleSearch.FindFrom` | lf_scrobbler/lastfm_radio_scrobble.py:120 | finds the first occurrence of the separator at or after a position, or reports that there is none |
| `TitleSearch.Split` | lf_scrobbler/lastfm_radio_scrobble.py:120 | `str.split` gives at least one part, joining the parts with the separator gives the input back, no part contains the separator, there is one part iff the separator does not occur, and otherwise the first cut is at the separator's first occurrence |
| `TitleSearch.ParseTrack` | lf_scrobbler/lastfm_radio_scrobble.py:120 | `artist, title = value.split(' - ')`: the two parts as a track, or the unpacking error with the number of parts; characterised by `ParseTrackExactly` |
| `TitleSearch.ParseTrackExactly` | lf_scrobbler/lastfm_radio_scrobble.py:120 | a track (a, t) comes out iff value = a + `" - "` + t, the separator does not occur before the end of a, and t has no separator |
| `TitleSearch.NoSeparatorFails` | lf_scrobbler/lastfm_radio_scrobble.py:120 | without a separator the unpacking raises with one value |
| `TitleSearch.TwoSeparatorsFail` | lf_scrobbler/lastfm_radio_scrobble.py:120 | two non-overlapping separators make the unpacking raise |
| `TitleSearch.ParseTrackDashFree` | lf_scrobbler/lastfm_radio_scrobble.py:120 | artist and title without `-` come back unchanged from the split |
| `Annotations.FindClose` | lf_scrobbler/lastfm_radio_scrobble.py:91 | the lazy `.*?\]` ends at the first `]`, with no newline or `]` before it; if it does not end, every `]` comes after a newline |
| `Annotations.StripAnnotations` | lf_scrobbler/lastfm_radio_scrobble.py:91 | `re.sub(r'\[.*?\]', '', title)`: each `[` that is closed before a newline is deleted through its first `]`, every other character kept; characterised by `StrippedHasNoAnnotation`, `StrippedIsSubsequence` and `LeftmostMatchRemoved` |
| `Annotations.CleanTrack` | lf_scrobbler/lastfm_radio_scrobble.py:88-92 | the artist is unchanged; nothing the pattern matches is left in the title; the title's remaining characters are a subsequence of the original |
| `Annotations.StrippedIsSubsequence` | lf_scrobbler/lastfm_radio_scrobble.py:91 | the substitution only deletes characters and keeps the rest in order |
| `Annotations.StrippedHasNoAnnotation` | lf_scrobbler/lastfm_radio_scrobble.py:91 | after the substitution the pattern matches nowhere, newlines included |
| `Annotations.StripWithoutAnnotation` | lf_scrobbler/lastfm_radio_scrobble.py:91 | where the pattern matches nowhere the substitution is the identity |
| `Annotations.CleanTwice` | lf_scrobbler/lastfm_radio_scrobble.py:88-92 | `clean_track` is idempotent |
| `Annotations.CleanedHasNoBracketPair` | lf_scrobbler/lastfm_radio_scrobble.py:91 | on a title without newlines no `[` of the cleaned title is followed later by a `]` |
| `Annotations.LeftmostMatchRemoved` | lf_scrobbler/lastfm_radio_scrobble.py:91 | the leftmost shortest `[`…`]` (no newline inside) is deleted and the scan resumes after it; the text before it is kept, including any earlier `[` that a newline leaves unclosed |
| `Annotations.OpenStaysOpen` | lf_scrobbler/lastfm_radio_scrobble.py:91 | a `[` that a newline leaves unclosed stays unclosed whatever text follows |
| `Annotations.NoBracketUnchanged` | lf_scrobbler/lastfm_radio_scrobble.py:88-92 | a title without `[` is left unchanged |
| `Annotations.CleanNotLonger` | lf_scrobbler/lastfm_radio_scrobble.py:88-92 | the cleaned title is never longer |
| `Extraction.Drop` | lf_scrobbler/lastfm_radio_scrobble.py:115 | `chunk[metaint:]` is the chunk from offset `metaint`, empty if the chunk is not longer |
| `Extraction.TrackInChunk` | lf_scrobbler/lastfm_radio_scrobble.py:115-121 | one pass of the chunk loop: decode the tail after `metaint`, search the title, split it and clean the track; characterised by `TrackInChunkShape` |
| `Extraction.FirstIn` | lf_scrobbler/lastfm_radio_scrobble.py:113-124 | the loop over the chunks: the first chunk's outcome that is not "no title", or no track; characterised by `FirstInNone` and `FirstInIsFirstHit` |
| `Extraction.FirstTrack` | lf_scrobbler/lastfm_radio_scrobble.py:109-124 | `get_artist_track`: no track without an `icy-metaint` header, otherwise the loop over the chunks; characterised by `NoMetaintNoTrack` and `GetArtistTrack` |
| `Extraction.GetArtistTrack` | lf_scrobbler/lastfm_radio_scrobble.py:109-124 | the chunk loop with its early return computes `FirstTrack` |
| `Extraction.FirstOfNone` | lf_scrobbler/lastfm_radio_scrobble.py:113-122 | the first outcome that is not "no title" is "no title" exactly when every outcome is |
| `Extraction.FirstOfIsFirstHit` | lf_scrobbler/lastfm_radio_scrobble.py:113-122 | every outcome before the first hit is "no title", and the result is the outcome at the first hit, or "no title" if there is none |
| `Extraction.FirstInNone` | lf_scrobbler/lastfm_radio_scrobble.py:113-122 | the call gives no track and no error exactly when no chunk has a title |
| `Extraction.FirstInIsFirstHit` | lf_scrobbler/lastfm_radio_scrobble.py:113-122 | every chunk before the first one with a title has none, and that chunk's outcome (track or unpacking error) is the call's; with no such chunk the call gives no track |
| `Extraction.NoMetaintNoTrack` | lf_scrobbler/lastfm_radio_scrobble.py:109-124 | without an `icy-metaint` header the result is `None` |
| `Extraction.AudioIgnored` | lf_scrobbler/lastfm_radio_scrobble.py:113-115 | the `metaint` bytes before the offset never affect the outcome |
| `Extraction.ShortChunkNoTrack` | lf_scrobbler/lastfm_radio_scrobble.py:115-118 | a chunk of length at most `metaint` yields no title |
| `Extraction.TrackInChunkShape` | lf_scrobbler/lastfm_radio_scrobble.py:115-121 | a track is artist + `" - "` + raw title = the captured value, with its title cleaned; an error means the split did not give two parts |
| `Extraction.LengthByteDecoded` | lf_scrobbler/lastfm_radio_scrobble.py:113-115 | a 7-bit length byte is decoded as a character in front of the metadata text |
| `Extraction.LengthByteForcesLatin1` | lf_scrobbler/lastfm_radio_scrobble.py:113-115 | a length byte that cannot lead UTF-8 makes the whole text Latin-1 |
| `Extraction.QuotedTitleParsed` | lf_scrobbler/lastfm_radio_scrobble.py:116-120 | `'DJ [live] - Song [Edit]'` splits into `'DJ [live]` and `Song [Edit]'` |
| `Extraction.QuotedTitleCleaned` | lf_scrobbler/lastfm_radio_scrobble.py:88-92 | that track cleans to artist `'DJ [live]`, title `Song '` |
| `Scrobbler.SearchResult` | lf_scrobbler/lastfm_radio_scrobble.py:72-85 | the search gives a URI iff the client exists and there is a hit, and then it is the first hit |
| `Scrobbler.SearchQuery` | lf_scrobbler/lastfm_radio_scrobble.py:77 | the query `artist:<artist> track:<title>` sent to the Spotify search |
| `Scrobbler.DispatchCalls` | lf_scrobbler/lastfm_radio_scrobble.py:127-145 | the calls `scrobble` makes, in order; characterised by `DispatchShape` |
| `Scrobbler.DispatchShape` | lf_scrobbler/lastfm_radio_scrobble.py:127-145 | the first call is always the Last.fm scrobble of (artist, title, timestamp), and it is the only scrobble; a search happens iff client and config are present; a playlist add happens iff, in addition, the first hit is a non-empty URI; that add is the last call and is exactly `(playlist_id, [uri])` |
| `Scrobbler.IsChange` | lf_scrobbler/lastfm_radio_scrobble.py:151 | the condition `track and track != self.track_old`: a present track that differs from the last one reported |
| `Scrobbler.Next` | lf_scrobbler/lastfm_radio_scrobble.py:151-154 | after a present track `track_old` is that track; after `None` it is unchanged |
| `Scrobbler.ReportedIsDedup` | lf_scrobbler/lastfm_radio_scrobble.py:149-155 | the reported tracks are exactly the present observations that differ from the one before (the first compared with `track_old`) |
| `Scrobbler.RunReportedOnce` | lf_scrobbler/lastfm_radio_scrobble.py:149-155 | a run of equal observations is reported once, or not at all if it repeats `track_old`, and leaves `track_old` at that track |
| `Scrobbler.NoRepeatedReport` | lf_scrobbler/lastfm_radio_scrobble.py:149-155 | no track is reported twice in a row, and the first report differs from the initial `track_old` |
| `Scrobbler.LastIsLastReported` | lf_scrobbler/lastfm_radio_scrobble.py:149-155 | `track_old` is always the most recently reported track, or the initial one if none was reported |
| `Scrobbler.RoundsAt` | lf_scrobbler/lastfm_radio_scrobble.py:150 | round `i` holds what `get_artist_track` gives for poll `i`, with that poll's clock reading and hits |
| `Scrobbler.RunRounds` | lf_scrobbler/lastfm_radio_scrobble.py:147-155 | the polling loop over the rounds: the calls made, the final `track_old`, and the unpacking error that ends the loop, if any; characterised by `RunScrobblesReported`, `NoTitleNoCalls` and the `Resume` lemmas |
| `Scrobbler.RunPolls` | lf_scrobbler/lastfm_radio_scrobble.py:147-155 | the polling loop over the polls, each poll turned into its round by `get_artist_track`; `StartScrobbling` is proved to compute it |
| `Scrobbler.ResumeStart` | lf_scrobbler/lastfm_radio_scrobble.py:147-155 | before the first round, resuming is the whole run after the calls already made |
| `Scrobbler.ResumeStep` | lf_scrobbler/lastfm_radio_scrobble.py:149-155 | a round with an error ends the run there, with no further call; otherwise the run goes on with that round's calls added and `track_old` moved on |
| `Scrobbler.ResumeEnd` | lf_scrobbler/lastfm_radio_scrobble.py:149 | once every round is used up, the run ends with no error and nothing more is called |
| `Scrobbler.RunScrobblesReported` | lf_scrobbler/lastfm_radio_scrobble.py:147-155 | over the loop, Last.fm receives exactly the tracks the state machine reports, and `track_old` ends as its last state |
| `Scrobbler.NoTitleNoCalls` | lf_scrobbler/lastfm_radio_scrobble.py:149-155 | rounds in which no title is found make no call and leave `track_old` unchanged |
| `Scrobbler.NoMetaintNoCalls` | lf_scrobbler/lastfm_radio_scrobble.py:109-124 | if no response has an `icy-metaint` header, no call is made and `track_old` stays |
| `Scrobbler.RadioScrobbler.constructor` | lf_scrobbler/lastfm_radio_scrobble.py:25-48 | `track_old` starts as `None`, no calls are made yet, and the Spotify client exists exactly when Spotify is configured |
| `Scrobbler.RadioScrobbler.SearchSpotifyTrack` | lf_scrobbler/lastfm_radio_scrobble.py:72-85 | without a client, nothing is called and `None` is returned; otherwise one search with `artist:… track:…` is made and its first hit is returned |
| `Scrobbler.RadioScrobbler.Scrobble` | lf_scrobbler/lastfm_radio_scrobble.py:127-145 | appends exactly the calls of `DispatchCalls` to the log, in order |
| `Scrobbler.RadioScrobbler.Step` | lf_scrobbler/lastfm_radio_scrobble.py:150-154 | reports iff the observation is present and differs from `track_old`, then sets `track_old` to it; otherwise nothing is called and nothing changes |
| `Scrobbler.RadioScrobbler.PollOnce` | lf_scrobbler/lastfm_radio_scrobble.py:150-154 | an unpacking error is returned with nothing changed; otherwise the pass's calls are appended and `track_old` moves on, as the round for that poll says |
| `Scrobbler.RadioScrobbler.StartScrobbling` | lf_scrobbler/lastfm_radio_scrobble.py:147-155 | the loop's calls, final `track_old` and terminating error are those of `RunPolls` |

## Left out

- The HTTP request, its `Icy-MetaData` header and `iter_content` chunking are network I/O. Each poll gives the response as data: an optional `metaint` and the chunks in order.
- Parsing the `icy-metaint` header with `int()` is left out. So are a non-numeric value, which raises, and a negative value, which slices from the end. `metaint` is an optional natural number.
- The pylast and spotipy clients, their construction and OAuth are foreign libraries. Every call into them is recorded in the ghost log. A search's answer is the list of track URIs it returns. The `type='track'` and `limit=1` arguments are not recorded.
- Failures of the Last.fm or Spotify calls are not modelled. The source catches none of them, so any such exception would end the loop.
- `datetime.now()` is a parameter of each poll, `now`. `time.sleep(1)` is left out. The unbounded `while True` is modelled as a finite sequence of polls.
- Each poll's chunk sequence is finite. On a stream that never ends and never carries a title, the source's `get_artist_track` never returns. The model's `Ok(None)` after the last chunk stands for a stream that ended without a title.
- Logging (`self.__logger`) and `Track.__str__` are left out. They only format messages.
- `main` (argument parsing, YAML loading, `exit`), `lf_scrobbler/config_schema.py` and the rhythmbox plugin are process, configuration and GUI plumbing. They are not part of this model.
- Python strings may hold lone surrogates; Dafny's `char` cannot. Strict UTF-8 decoding and Latin-1 never produce a surrogate, so nothing is lost.
