/** `RadioScrobbler`'s reporting side: the `track_old` state machine of
    `start_scrobbling` and the sink calls of `scrobble` and
    `search_spotify_track`. The Last.fm and Spotify clients are recorded as
    a log of the calls the scrobbler issues to them. */
module Scrobbler {
  import opened Wrappers
  import opened Tracks
  import opened Decoding
  import opened Extraction

  /** The part of the Spotify configuration the scrobbler reads. */
  datatype SpotifyConfig = SpotifyConfig(playlistId: string)

  /** A call into one of the external clients. */
  datatype SinkCall =
    | LastfmScrobble(artist: string, title: string, timestamp: int)
    | SpotifySearch(query: string)
    | PlaylistAddItems(playlistId: string, items: seq<string>)

  /** One pass of the polling loop, as the outside world answers it: the
      stream response (header and chunks), the clock reading taken by
      `scrobble`, and the track URIs the Spotify search returns. */
  datatype Poll = Poll(metaint: Option<nat>, chunks: seq<seq<Byte>>, now: int, hits: seq<string>)

  // ---- dispatch ------------------------------------------------------------

  /** `f'artist:{track.artist} track:{track.title}'` */
  function SearchQuery(t: Track): string
  {
    "artist:" + t.artist + " track:" + t.title
  }

  /** The calls `search_spotify_track` issues: none without a client. */
  function SearchCalls(authorised: bool, t: Track): seq<SinkCall>
  {
    if authorised then [SpotifySearch(SearchQuery(t))] else []
  }

  /** What `search_spotify_track` returns: the first hit, if any. */
  function SearchResult(authorised: bool, hits: seq<string>): (r: Option<string>)
    ensures r.Some? <==> authorised && hits != []
    ensures r.Some? ==> r.value == hits[0]
  {
    if authorised && hits != [] then Some(hits[0]) else None
  }

  /** The calls `scrobble` issues, in order. `authorised` says whether the
      Spotify client exists; an empty URI is falsy and is not added. */
  function DispatchCalls(t: Track, now: int, authorised: bool, spotify: Option<SpotifyConfig>, hits: seq<string>): seq<SinkCall>
  {
    [LastfmScrobble(t.artist, t.title, now)] +
    if authorised && spotify.Some? then
      var uri := SearchResult(authorised, hits);
      SearchCalls(authorised, t) +
      if uri.Some? && uri.value != "" then [PlaylistAddItems(spotify.value.playlistId, [uri.value])] else []
    else []
  }

  /** The tracks reported to Last.fm by a log of calls. */
  function Scrobbled(calls: seq<SinkCall>): seq<Track>
  {
    if calls == [] then []
    else (if calls[0].LastfmScrobble? then [Track(calls[0].artist, calls[0].title)] else []) + Scrobbled(calls[1..])
  }

  lemma {:induction false} ScrobbledAppend(a: seq<SinkCall>, b: seq<SinkCall>)
    ensures Scrobbled(a + b) == Scrobbled(a) + Scrobbled(b)
  {
    if a != [] {
      assert (a + b)[1..] == a[1..] + b;
      ScrobbledAppend(a[1..], b);
    } else {
      assert a + b == b;
    }
  }

  /** `scrobble` reports the track to Last.fm first, with the given
      timestamp, and exactly once; it searches Spotify only when both the
      client and its configuration are present; it adds to the configured
      playlist only after such a search returned a non-empty URI, and then
      exactly that first hit. */
  lemma DispatchShape(t: Track, now: int, authorised: bool, spotify: Option<SpotifyConfig>, hits: seq<string>)
    ensures var calls := DispatchCalls(t, now, authorised, spotify, hits);
      && calls[0] == LastfmScrobble(t.artist, t.title, now)
      && Scrobbled(calls) == [t]
      && ((exists c :: c in calls && c.SpotifySearch?) <==> authorised && spotify.Some?)
      && ((exists c :: c in calls && c.PlaylistAddItems?) <==>
            authorised && spotify.Some? && hits != [] && hits[0] != "")
      && (forall c :: c in calls && c.PlaylistAddItems? ==>
            c == PlaylistAddItems(spotify.value.playlistId, [hits[0]]) && calls[|calls| - 1] == c)
  {
    var calls := DispatchCalls(t, now, authorised, spotify, hits);
    var tail := calls[1..];
    assert calls == [calls[0]] + tail;
    ScrobbledAppend([calls[0]], tail);
    assert Scrobbled([calls[0]]) == [t];
    if authorised && spotify.Some? {
      var s := SearchCalls(authorised, t);
      var add := calls[2..];
      assert tail == s + add;
      ScrobbledAppend(s, add);
    }
  }

  // ---- the track_old state machine ------------------------------------------

  /** `track and track != self.track_old`: a present track that differs from
      the last reported one. */
  predicate IsChange(last: Option<Track>, observed: Option<Track>)
  {
    observed.Some? && observed != last
  }

  /** `track_old` after one observation. */
  function Next(last: Option<Track>, observed: Option<Track>): (r: Option<Track>)
    ensures observed.Some? ==> r == observed
    ensures observed.None? ==> r == last
  {
    if IsChange(last, observed) then observed else last
  }

  /** The calls one pass of the loop makes after observing `observed`. */
  function StepCalls(last: Option<Track>, observed: Option<Track>, now: int, authorised: bool,
                     spotify: Option<SpotifyConfig>, hits: seq<string>): seq<SinkCall>
  {
    if IsChange(last, observed) then DispatchCalls(observed.value, now, authorised, spotify, hits) else []
  }

  /** The tracks reported over a sequence of observations. */
  function Reported(last: Option<Track>, observed: seq<Option<Track>>): seq<Track>
    decreases |observed|
  {
    if observed == [] then []
    else (if IsChange(last, observed[0]) then [observed[0].value] else []) + Reported(Next(last, observed[0]), observed[1..])
  }

  /** `track_old` after a sequence of observations. */
  function LastAfter(last: Option<Track>, observed: seq<Option<Track>>): Option<Track>
    decreases |observed|
  {
    if observed == [] then last else LastAfter(Next(last, observed[0]), observed[1..])
  }

  /** The tracks present among the observations, in order. */
  function Present(observed: seq<Option<Track>>): seq<Track>
    decreases |observed|
  {
    if observed == [] then []
    else (if observed[0].Some? then [observed[0].value] else []) + Present(observed[1..])
  }

  /** An independent reference: each track kept that differs from the one
      before it (the first from `last`), defined from the right. */
  function Dedup(last: Option<Track>, ts: seq<Track>): seq<Track>
    decreases |ts|
  {
    if ts == [] then []
    else
      var init, t := ts[..|ts| - 1], ts[|ts| - 1];
      var prev := if init == [] then last else Some(init[|init| - 1]);
      Dedup(last, init) + (if prev == Some(t) then [] else [t])
  }

  lemma {:induction false} DedupCons(last: Option<Track>, t: Track, ts: seq<Track>)
    ensures Dedup(last, [t] + ts) == (if last == Some(t) then [] else [t]) + Dedup(Some(t), ts)
    decreases |ts|
  {
    if ts != [] {
      var init := ts[..|ts| - 1];
      assert ([t] + ts)[..|ts|] == [t] + init;
      DedupCons(last, t, init);
    } else {
      assert Dedup(last, []) == [];
    }
  }

  /** The state machine reports exactly the present observations that
      differ from the one before: absent observations change nothing and a
      repeat is never reported again. */
  lemma {:induction false} ReportedIsDedup(last: Option<Track>, observed: seq<Option<Track>>)
    ensures Reported(last, observed) == Dedup(last, Present(observed))
    decreases |observed|
  {
    if observed != [] {
      var o := observed[0];
      ReportedIsDedup(Next(last, o), observed[1..]);
      if o.Some? {
        assert Present(observed) == [o.value] + Present(observed[1..]);
        DedupCons(last, o.value, Present(observed[1..]));
      } else {
        assert Present(observed) == Present(observed[1..]);
      }
    }
  }

  /** A run of equal observations is reported once, on its first element,
      and not at all when that track was the last one reported. */
  lemma {:induction false} RunReportedOnce(last: Option<Track>, t: Track, n: nat)
    ensures Reported(last, seq(n, _ => Some(t))) == if n > 0 && last != Some(t) then [t] else []
    ensures LastAfter(last, seq(n, _ => Some(t))) == if n > 0 then Some(t) else last
    decreases n
  {
    if n > 0 {
      var obs := seq(n, _ => Some(t));
      assert obs[1..] == seq(n - 1, _ => Some(t));
      RunReportedOnce(Some(t), t, n - 1);
    }
  }

  /** No track is reported twice in a row, and the first report differs
      from the track reported before. */
  lemma {:induction false} NoRepeatedReport(last: Option<Track>, observed: seq<Option<Track>>)
    ensures var r := Reported(last, observed);
      && (r != [] ==> last != Some(r[0]))
      && forall i :: 0 < i < |r| ==> r[i] != r[i - 1]
    decreases |observed|
  {
    if observed != [] {
      var o := observed[0];
      var rest := Reported(Next(last, o), observed[1..]);
      NoRepeatedReport(Next(last, o), observed[1..]);
    }
  }

  /** `track_old` is always the most recently reported track, or the
      initial one if nothing was reported. */
  lemma {:induction false} LastIsLastReported(last: Option<Track>, observed: seq<Option<Track>>)
    ensures var r := Reported(last, observed);
      LastAfter(last, observed) == if r == [] then last else Some(r[|r| - 1])
    decreases |observed|
  {
    if observed != [] {
      LastIsLastReported(Next(last, observed[0]), observed[1..]);
    }
  }

  // ---- the polling loop -------------------------------------------------------

  /** What one pass of the loop works with: the outcome of
      `get_artist_track`, the clock reading and the Spotify search hits. */
  datatype Round = Round(fetched: Fetched, now: int, hits: seq<string>)

  /** The rounds a sequence of polls gives, one per poll. */
  function Rounds(polls: seq<Poll>): (rs: seq<Round>)
    ensures |rs| == |polls|
    decreases |polls|
  {
    if polls == [] then []
    else [Round(FirstTrack(polls[0].metaint, polls[0].chunks), polls[0].now, polls[0].hits)] + Rounds(polls[1..])
  }

  /** Round `i` is what `get_artist_track` gives for poll `i`. */
  lemma {:induction false} RoundsAt(polls: seq<Poll>, i: nat)
    requires i < |polls|
    ensures Rounds(polls)[i] == Round(FirstTrack(polls[i].metaint, polls[i].chunks), polls[i].now, polls[i].hits)
    decreases i
  {
    if i > 0 {
      RoundsAt(polls[1..], i - 1);
    }
  }

  /** What the loop has done after a sequence of rounds: the calls made, the
      final `track_old`, and the unpacking error that ended it, if any. */
  datatype RunResult = RunResult(calls: seq<SinkCall>, last: Option<Track>, error: Option<UnpackError>)

  /** The loop over the given rounds: an error from `get_artist_track` is
      not caught and ends the loop. */
  function RunRounds(last: Option<Track>, authorised: bool, spotify: Option<SpotifyConfig>, rounds: seq<Round>): RunResult
    decreases |rounds|
  {
    if rounds == [] then RunResult([], last, None)
    else
      var p := rounds[0];
      match p.fetched
      case Err(e) => RunResult([], last, Some(e))
      case Ok(observed) =>
        var rest := RunRounds(Next(last, observed), authorised, spotify, rounds[1..]);
        RunResult(StepCalls(last, observed, p.now, authorised, spotify, p.hits) + rest.calls, rest.last, rest.error)
  }

  /** `start_scrobbling` over the given polls. */
  function RunPolls(last: Option<Track>, authorised: bool, spotify: Option<SpotifyConfig>, polls: seq<Poll>): RunResult
  {
    RunRounds(last, authorised, spotify, Rounds(polls))
  }

  /** The result of a loop that has made `done` and goes on from `last`
      with the rounds from `i` on. */
  function ResumeAt(done: seq<SinkCall>, last: Option<Track>, authorised: bool, spotify: Option<SpotifyConfig>,
                    rounds: seq<Round>, i: nat): RunResult
    requires i <= |rounds|
  {
    var r := RunRounds(last, authorised, spotify, rounds[i..]);
    RunResult(done + r.calls, r.last, r.error)
  }

  /** Before the first round the whole run is still ahead. */
  lemma ResumeStart(done: seq<SinkCall>, last: Option<Track>, authorised: bool, spotify: Option<SpotifyConfig>, rounds: seq<Round>)
    ensures var r := RunRounds(last, authorised, spotify, rounds);
      ResumeAt(done, last, authorised, spotify, rounds, 0) == RunResult(done + r.calls, r.last, r.error)
  {
    assert rounds[0..] == rounds;
  }

  /** Round `i` either ends the loop with its error or adds its calls and
      moves `track_old` on. */
  lemma ResumeStep(done: seq<SinkCall>, last: Option<Track>, authorised: bool, spotify: Option<SpotifyConfig>,
                   rounds: seq<Round>, i: nat)
    requires i < |rounds|
    ensures var p := rounds[i];
      && (p.fetched.Err? ==> ResumeAt(done, last, authorised, spotify, rounds, i) == RunResult(done, last, Some(p.fetched.error)))
      && (p.fetched.Ok? ==>
            ResumeAt(done, last, authorised, spotify, rounds, i) ==
            ResumeAt(done + StepCalls(last, p.fetched.value, p.now, authorised, spotify, p.hits),
                     Next(last, p.fetched.value), authorised, spotify, rounds, i + 1))
  {
    var p := rounds[i];
    assert rounds[i..][0] == p && rounds[i..][1..] == rounds[i + 1..];
    if p.fetched.Ok? {
      var step := StepCalls(last, p.fetched.value, p.now, authorised, spotify, p.hits);
      var r := RunRounds(Next(last, p.fetched.value), authorised, spotify, rounds[i + 1..]);
      assert done + (step + r.calls) == (done + step) + r.calls;
    } else {
      assert done + [] == done;
    }
  }

  /** After the last round nothing is left to do. */
  lemma ResumeEnd(done: seq<SinkCall>, last: Option<Track>, authorised: bool, spotify: Option<SpotifyConfig>, rounds: seq<Round>)
    ensures ResumeAt(done, last, authorised, spotify, rounds, |rounds|) == RunResult(done, last, None)
  {
    assert rounds[|rounds|..] == [];
    assert done + [] == done;
  }

  /** The observations the loop makes before any error. */
  function Observations(rounds: seq<Round>): seq<Option<Track>>
    decreases |rounds|
  {
    if rounds == [] then []
    else match rounds[0].fetched
      case Err(_) => []
      case Ok(observed) => [observed] + Observations(rounds[1..])
  }

  /** Over the whole loop, Last.fm receives exactly the tracks the state
      machine reports, and `track_old` ends as the machine's last state. */
  lemma {:induction false} RunScrobblesReported(last: Option<Track>, authorised: bool, spotify: Option<SpotifyConfig>, rounds: seq<Round>)
    ensures Scrobbled(RunRounds(last, authorised, spotify, rounds).calls) == Reported(last, Observations(rounds))
    ensures RunRounds(last, authorised, spotify, rounds).last == LastAfter(last, Observations(rounds))
    decreases |rounds|
  {
    if rounds != [] {
      var p := rounds[0];
      match p.fetched
      case Err(e) =>
        assert Observations(rounds) == [];
      case Ok(observed) =>
        var next := Next(last, observed);
        var rest := RunRounds(next, authorised, spotify, rounds[1..]);
        RunScrobblesReported(next, authorised, spotify, rounds[1..]);
        var here := StepCalls(last, observed, p.now, authorised, spotify, p.hits);
        ScrobbledAppend(here, rest.calls);
        if IsChange(last, observed) {
          DispatchShape(observed.value, p.now, authorised, spotify, p.hits);
        }
        var obs := Observations(rounds);
        assert obs == [observed] + Observations(rounds[1..]);
        assert obs[0] == observed && obs[1..] == Observations(rounds[1..]);
    }
  }

  /** Rounds in which no title is found make no call and leave `track_old`. */
  lemma {:induction false} NoTitleNoCalls(last: Option<Track>, authorised: bool, spotify: Option<SpotifyConfig>, rounds: seq<Round>)
    requires forall i :: 0 <= i < |rounds| ==> rounds[i].fetched == Ok(None)
    ensures RunRounds(last, authorised, spotify, rounds) == RunResult([], last, None)
    decreases |rounds|
  {
    if rounds != [] {
      assert forall i :: 0 <= i < |rounds| - 1 ==> rounds[1..][i] == rounds[i + 1];
      NoTitleNoCalls(last, authorised, spotify, rounds[1..]);
    }
  }

  /** Without an `icy-metaint` header in any response the loop never reports
      and never changes `track_old`. */
  lemma NoMetaintNoCalls(last: Option<Track>, authorised: bool, spotify: Option<SpotifyConfig>, polls: seq<Poll>)
    requires forall i :: 0 <= i < |polls| ==> polls[i].metaint.None?
    ensures RunPolls(last, authorised, spotify, polls) == RunResult([], last, None)
  {
    forall i | 0 <= i < |polls|
      ensures Rounds(polls)[i].fetched == Ok(None)
    {
      RoundsAt(polls, i);
    }
    NoTitleNoCalls(last, authorised, spotify, Rounds(polls));
  }

  // ---- the object -------------------------------------------------------------

  class RadioScrobbler {
    /** `config.spotify` */
    const spotify: Option<SpotifyConfig>
    /** Whether the Spotify client `self.sp` exists. */
    const authorised: bool
    /** `self.track_old` */
    var trackOld: Option<Track>
    /** The calls issued to the Last.fm and Spotify clients so far. */
    ghost var calls: seq<SinkCall>

    constructor (spotify: Option<SpotifyConfig>)
      ensures authorised == spotify.Some?
      ensures this.spotify == spotify && trackOld == None && calls == []
    {
      this.spotify := spotify;
      authorised := spotify.Some?;
      trackOld := None;
      calls := [];
    }

    /** `search_spotify_track`; `hits` are the URIs the search returns. */
    method SearchSpotifyTrack(t: Track, hits: seq<string>) returns (uri: Option<string>)
      modifies this`calls
      ensures calls == old(calls) + SearchCalls(authorised, t)
      ensures uri == SearchResult(authorised, hits)
    {
      if !authorised {
        return None;
      }
      calls := calls + [SpotifySearch(SearchQuery(t))];
      if hits != [] {
        return Some(hits[0]);
      }
      return None;
    }

    /** `scrobble`, with `now` the clock reading. */
    method Scrobble(t: Track, now: int, hits: seq<string>)
      modifies this`calls
      ensures calls == old(calls) + DispatchCalls(t, now, authorised, spotify, hits)
    {
      calls := calls + [LastfmScrobble(t.artist, t.title, now)];
      if authorised && spotify.Some? {
        var uri := SearchSpotifyTrack(t, hits);
        if uri.Some? && uri.value != "" {
          calls := calls + [PlaylistAddItems(spotify.value.playlistId, [uri.value])];
        }
      }
    }

    /** One pass of the `start_scrobbling` loop after the track was fetched. */
    method Step(observed: Option<Track>, now: int, hits: seq<string>) returns (reported: bool)
      modifies this
      ensures reported == IsChange(old(trackOld), observed)
      ensures trackOld == Next(old(trackOld), observed)
      ensures calls == old(calls) + StepCalls(old(trackOld), observed, now, authorised, spotify, hits)
    {
      reported := observed.Some? && observed != trackOld;
      if reported {
        Scrobble(observed.value, now, hits);
        trackOld := observed;
      }
    }

    /** Pass `i` of the `start_scrobbling` loop: fetch the track, then update
        `track_old` and report it if it changed. */
    method PollOnce(polls: seq<Poll>, i: nat) returns (error: Option<UnpackError>)
      requires i < |polls|
      modifies this
      ensures var r := Rounds(polls)[i];
        && (r.fetched.Err? ==> error == Some(r.fetched.error) && trackOld == old(trackOld) && calls == old(calls))
        && (r.fetched.Ok? ==>
              && error == None
              && trackOld == Next(old(trackOld), r.fetched.value)
              && calls == old(calls) + StepCalls(old(trackOld), r.fetched.value, r.now, authorised, spotify, r.hits))
    {
      var p := polls[i];
      RoundsAt(polls, i);
      var fetched := GetArtistTrack(p.metaint, p.chunks);
      if fetched.Err? {
        return Some(fetched.error);
      }
      var _ := Step(fetched.value, p.now, p.hits);
      return None;
    }

    /** `start_scrobbling` over a finite sequence of polls; it returns the
        error that ends the loop, if one does. */
    method StartScrobbling(polls: seq<Poll>) returns (error: Option<UnpackError>)
      modifies this
      ensures calls == old(calls) + RunPolls(old(trackOld), authorised, spotify, polls).calls
      ensures trackOld == RunPolls(old(trackOld), authorised, spotify, polls).last
      ensures error == RunPolls(old(trackOld), authorised, spotify, polls).error
    {
      ghost var rounds := Rounds(polls);
      var i := 0;
      while i < |polls|
        invariant 0 <= i <= |polls|
        invariant ResumeAt(old(calls), old(trackOld), authorised, spotify, rounds, 0) ==
                  ResumeAt(calls, trackOld, authorised, spotify, rounds, i)
      {
        ResumeStep(calls, trackOld, authorised, spotify, rounds, i);
        error := PollOnce(polls, i);
        if error.Some? {
          ResumeStart(old(calls), old(trackOld), authorised, spotify, rounds);
          return;
        }
        i := i + 1;
      }
      ResumeEnd(calls, trackOld, authorised, spotify, rounds);
      ResumeStart(old(calls), old(trackOld), authorised, spotify, rounds);
      return None;
    }
  }
}
