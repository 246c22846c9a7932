/** Extracting a track from the chunks of an ICY stream, as
    `RadioScrobbler.get_artist_track` does once the response is open: for
    each chunk, drop the first `metaint` bytes, decode the rest, search it
    for the stream title, split it and clean it; the first chunk with a
    title decides. */
module Extraction {
  import opened Wrappers
  import opened Tracks
  import opened Decoding
  import opened TitleSearch
  import opened Annotations

  /** What one call of `get_artist_track` gives: a track, no track, or the
      unpacking error it raises. */
  type Fetched = Result<Option<Track>, UnpackError>

  /** Python's `chunk[metaint:]`: empty when the chunk is not longer. */
  function Drop(chunk: seq<Byte>, metaint: nat): (r: seq<Byte>)
    ensures |r| == if metaint <= |chunk| then |chunk| - metaint else 0
    ensures forall i :: 0 <= i < |r| ==> r[i] == chunk[metaint + i]
  {
    if metaint <= |chunk| then chunk[metaint..] else []
  }

  /** The loop body for one chunk. */
  function TrackInChunk(chunk: seq<Byte>, metaint: nat): Fetched
  {
    var metadata := DecodeMetadata(Drop(chunk, metaint));
    match SearchStreamTitle(metadata)
    case None => Ok(None)
    case Some(info) =>
      match ParseTrack(info)
      case Err(e) => Err(e)
      case Ok(t) => Ok(Some(CleanTrack(t)))
  }

  /** The outcome of every chunk, in order. */
  function Outcomes(chunks: seq<seq<Byte>>, metaint: nat): (outs: seq<Fetched>)
    ensures |outs| == |chunks|
    ensures forall i :: 0 <= i < |chunks| ==> outs[i] == TrackInChunk(chunks[i], metaint)
  {
    seq(|chunks|, i requires 0 <= i < |chunks| => TrackInChunk(chunks[i], metaint))
  }

  /** The first outcome that is not `Ok(None)`, `Ok(None)` if there is none. */
  function FirstOf(outs: seq<Fetched>): Fetched
    decreases |outs|
  {
    if outs == [] then Ok(None)
    else if outs[0] != Ok(None) then outs[0]
    else FirstOf(outs[1..])
  }

  /** The outcome of the first chunk that has a title, `Ok(None)` if none has. */
  function FirstIn(chunks: seq<seq<Byte>>, metaint: nat): Fetched
  {
    FirstOf(Outcomes(chunks, metaint))
  }

  /** The whole call; without an `icy-metaint` header no chunk is read. */
  function FirstTrack(metaint: Option<nat>, chunks: seq<seq<Byte>>): Fetched
  {
    match metaint
    case None => Ok(None)
    case Some(m) => FirstIn(chunks, m)
  }

  /** `get_artist_track` over the chunks the response delivers. */
  method GetArtistTrack(metaint: Option<nat>, chunks: seq<seq<Byte>>) returns (r: Fetched)
    ensures r == FirstTrack(metaint, chunks)
  {
    if metaint.None? {
      return Ok(None);
    }
    var m := metaint.value;
    ghost var outs := Outcomes(chunks, m);
    var i := 0;
    while i < |chunks|
      invariant 0 <= i <= |chunks|
      invariant FirstOf(outs[i..]) == FirstIn(chunks, m)
    {
      assert outs[i..][0] == outs[i] && outs[i..][1..] == outs[i + 1..];
      var metadata := DecodeMetadata(Drop(chunks[i], m));
      var found := SearchStreamTitle(metadata);
      if found.Some? {
        var parts := Split(found.value, Separator);
        if |parts| != 2 {
          return Err(UnpackError(|parts|));
        }
        return Ok(Some(CleanTrack(Track(parts[0], parts[1]))));
      }
      i := i + 1;
    }
    assert outs[i..] == [];
    return Ok(None);
  }

  // ---- properties --------------------------------------------------------

  /** The first outcome is `Ok(None)` exactly when every outcome is ... */
  lemma {:induction false} FirstOfNone(outs: seq<Fetched>)
    ensures FirstOf(outs) == Ok(None) <==> forall k :: 0 <= k < |outs| ==> outs[k] == Ok(None)
    decreases |outs|
  {
    if outs != [] {
      FirstOfNone(outs[1..]);
      assert forall k :: 0 < k < |outs| ==> outs[k] == outs[1..][k - 1];
    }
  }

  /** The index of the first outcome that is not `Ok(None)`, `|outs|` if none is. */
  function FirstHit(outs: seq<Fetched>): (k: nat)
    ensures k <= |outs|
    decreases |outs|
  {
    if outs == [] then 0
    else if outs[0] != Ok(None) then 0
    else 1 + FirstHit(outs[1..])
  }

  /** ... and otherwise it is the outcome at the first hit, every earlier one
      being `Ok(None)`. */
  lemma {:induction false} FirstOfIsFirstHit(outs: seq<Fetched>)
    ensures forall j :: 0 <= j < FirstHit(outs) ==> outs[j] == Ok(None)
    ensures FirstHit(outs) < |outs| ==> outs[FirstHit(outs)] != Ok(None) && FirstOf(outs) == outs[FirstHit(outs)]
    ensures FirstHit(outs) == |outs| ==> FirstOf(outs) == Ok(None)
    decreases |outs|
  {
    if outs != [] && outs[0] == Ok(None) {
      FirstOfIsFirstHit(outs[1..]);
      assert forall j :: 0 < j < |outs| ==> outs[j] == outs[1..][j - 1];
    }
  }

  /** The call gives `Ok(None)` exactly when no chunk has a title. */
  lemma FirstInNone(chunks: seq<seq<Byte>>, m: nat)
    ensures FirstIn(chunks, m) == Ok(None) <==>
              forall k :: 0 <= k < |chunks| ==> TrackInChunk(chunks[k], m) == Ok(None)
  {
    FirstOfNone(Outcomes(chunks, m));
  }

  /** Otherwise the first chunk that has a title decides: every chunk before
      it has none, and its outcome, a track or an unpacking error, is the
      call's. */
  lemma FirstInIsFirstHit(chunks: seq<seq<Byte>>, m: nat)
    ensures var k := FirstHit(Outcomes(chunks, m));
      && (forall j :: 0 <= j < k ==> TrackInChunk(chunks[j], m) == Ok(None))
      && (k < |chunks| ==> TrackInChunk(chunks[k], m) != Ok(None) && FirstIn(chunks, m) == TrackInChunk(chunks[k], m))
      && (k == |chunks| ==> FirstIn(chunks, m) == Ok(None))
  {
    FirstOfIsFirstHit(Outcomes(chunks, m));
  }

  /** Without an `icy-metaint` header there is never a track. */
  lemma NoMetaintNoTrack(chunks: seq<seq<Byte>>)
    ensures FirstTrack(None, chunks) == Ok(None)
  {
  }

  /** The `metaint` audio bytes in front never affect the outcome: the
      chunk is read as if it began at offset `metaint`. */
  lemma AudioIgnored(audio: seq<Byte>, rest: seq<Byte>)
    ensures TrackInChunk(audio + rest, |audio|) == TrackInChunk(rest, 0)
  {
  }

  /** A chunk no longer than `metaint` has nothing to decode and no title. */
  lemma ShortChunkNoTrack(chunk: seq<Byte>, m: nat)
    requires |chunk| <= m
    ensures TrackInChunk(chunk, m) == Ok(None)
  {
  }

  /** A track comes from the first title value of the chunk: that value is
      artist, separator, title before cleanup, with the separator first
      occurring after the artist and not in the title; the cleanup keeps the
      artist and strips the title. An error is the split giving a number of
      parts other than two. */
  lemma TrackInChunkShape(chunk: seq<Byte>, m: nat)
    ensures var metadata := DecodeMetadata(Drop(chunk, m));
      match TrackInChunk(chunk, m)
      case Ok(None) => SearchStreamTitle(metadata).None?
      case Ok(Some(t)) =>
        && SearchStreamTitle(metadata).Some?
        && exists title :: var v := SearchStreamTitle(metadata).value;
             && v == t.artist + Separator + title
             && (forall j: nat :: j < |t.artist| ==> !OccursAt(v, Separator, j))
             && Free(title, Separator)
             && t.title == StripAnnotations(title)
      case Err(e) =>
        && SearchStreamTitle(metadata).Some?
        && e.got == |Split(SearchStreamTitle(metadata).value, Separator)| && e.got != 2
  {
  }

  /** The length byte after the audio is not interpreted: a 7-bit one is
      decoded as a character in front of the text. */
  lemma LengthByteDecoded(audio: seq<Byte>, n: Byte, block: seq<Byte>)
    requires n < 0x80
    ensures DecodeMetadata(Drop(audio + [n] + block, |audio|)) == [n as char] + DecodeMetadata(block)
  {
    assert Drop(audio + [n] + block, |audio|) == [n] + block;
    AsciiBytePrefix(n, block);
  }

  /** A length byte of 128 or more that cannot lead a UTF-8 sequence sends
      the whole text to the Latin-1 fallback. */
  lemma LengthByteForcesLatin1(audio: seq<Byte>, n: Byte, block: seq<Byte>)
    requires NeverLeads(n)
    ensures DecodeMetadata(Drop(audio + [n] + block, |audio|)) == Latin1Decode([n] + block)
  {
    assert Drop(audio + [n] + block, |audio|) == [n] + block;
    StrayByteFallsBack([n] + block, 0);
  }

  /** A quoted title with bracketed tags: the framing quotes stay on the
      artist and on the title, and the artist keeps its tag ... */
  lemma QuotedTitleParsed()
    ensures ParseTrack("'DJ [live] - Song [Edit]'") == Ok(Track("'DJ [live]", "Song [Edit]'"))
  {
    var artist, title := "'DJ [live]", "Song [Edit]'";
    assert "'DJ [live] - Song [Edit]'" == artist + Separator + title;
    ParseTrackDashFree(artist, title);
  }

  /** ... while the cleanup removes the title's tag and does not trim the
      space in front of it. */
  lemma QuotedTitleCleaned()
    ensures CleanTrack(Track("'DJ [live]", "Song [Edit]'")) == Track("'DJ [live]", "Song '")
  {
    assert "Song [Edit]'" == "Song " + "[" + "Edit" + "]" + "'";
    LeftmostMatchRemoved("Song ", "Edit", "'");
    NoBracketUnchanged(Track("", "'"));
    assert "Song " + "'" == "Song '";
  }
}
