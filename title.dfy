/** Locating the stream title in decoded metadata and splitting it into
    artist and title, as the body of `RadioScrobbler.get_artist_track` does
    with `re.search(r'StreamTitle=(?P<track>[^;]+)', metadata)` and
    `artist, title = track_info.split(' - ')`. */
module TitleSearch {
  import opened Wrappers
  import opened Tracks

  const Key: string := "StreamTitle="
  const Separator: string := " - "

  // ---- the regular-expression search -----------------------------------

  /** The pattern matches at `p`: the key starts there and is followed by at
      least one character that is not `;` (the `+` of `[^;]+`). */
  predicate MatchAt(s: string, p: nat)
  {
    KeyAt(s, p) && p + |Key| < |s| && s[p + |Key|] != ';'
  }

  /** The key occurs in `s` at `p`. */
  predicate KeyAt(s: string, p: nat)
  {
    p + |Key| <= |s| && s[p..p + |Key|] == Key
  }

  /** The greedy `[^;]+` run: the longest prefix of `s` without `;`. */
  function ValueRun(s: string): (v: string)
    ensures v <= s && ';' !in v
    ensures |v| == |s| || s[|v|] == ';'
  {
    if s == [] || s[0] == ';' then [] else [s[0]] + ValueRun(s[1..])
  }

  /** Where `re.search` finds its match: the least position at or after
      `p` at which the pattern matches. */
  function FirstMatchFrom(s: string, p: nat): (r: Option<nat>)
    decreases |s| - p
    ensures r.Some? ==> p <= r.value && MatchAt(s, r.value) &&
                        forall q: nat :: p <= q < r.value ==> !MatchAt(s, q)
    ensures r.None? ==> forall q: nat :: p <= q ==> !MatchAt(s, q)
  {
    if p + |Key| >= |s| then None
    else if MatchAt(s, p) then Some(p)
    else FirstMatchFrom(s, p + 1)
  }

  /** The `track` group of the first match, or `None` when nothing matches. */
  function SearchStreamTitle(s: string): Option<string>
  {
    match FirstMatchFrom(s, 0)
    case None => None
    case Some(q) => Some(ValueRun(s[q + |Key|..]))
  }

  /** The search finds nothing exactly when the pattern matches nowhere;
      otherwise the captured value is non-empty, has no `;`, stands right
      after the first matching key and runs up to the next `;` or the end. */
  lemma StreamTitleShape(s: string)
    ensures SearchStreamTitle(s).None? <==> forall q: nat :: !MatchAt(s, q)
    ensures SearchStreamTitle(s).Some? ==>
      var q, v := FirstMatchFrom(s, 0).value, SearchStreamTitle(s).value;
      var e := q + |Key| + |v|;
      && v != [] && ';' !in v
      && MatchAt(s, q) && (forall q': nat :: q' < q ==> !MatchAt(s, q'))
      && e <= |s| && s[q + |Key|..e] == v && (e == |s| || s[e] == ';')
  {
  }

  /** Text in which the key never occurs yields no match. */
  lemma NoKeyNoTitle(s: string)
    requires forall p: nat :: !KeyAt(s, p)
    ensures SearchStreamTitle(s) == None
  {
  }

  /** A key followed directly by `;` does not match: the search goes on to
      the next key. */
  lemma EmptyValueSkipped(v: string)
    requires v != [] && ';' !in v
    ensures SearchStreamTitle(Key + ";" + Key + v) == Some(v)
  {
    var s := Key + ";" + Key + v;
    var p := |Key| + 1;
    assert ';' !in Key;
    assert s[p..p + |Key|] == Key;
    assert s[p + |Key|..] == v;
    ValueOfSemicolonFree(v);
    assert MatchAt(s, p);
    assert s[|Key|] == ';';
    forall q: nat | q < p
      ensures !MatchAt(s, q)
    {
      if 0 < q {
        assert s[q..q + |Key|][|Key| - q] == ';';
      }
    }
    FirstMatchIsLeast(s, p);
  }

  /** A matching position with no match before it is the one the search finds. */
  lemma FirstMatchIsLeast(s: string, p: nat)
    requires MatchAt(s, p) && forall q: nat :: q < p ==> !MatchAt(s, q)
    ensures FirstMatchFrom(s, 0) == Some(p)
  {
  }

  lemma ValueOfSemicolonFree(v: string)
    requires ';' !in v
    ensures ValueRun(v) == v
  {
  }

  /** The framing quotes are part of the captured value. */
  lemma QuotesKept(v: string, rest: string)
    requires ';' !in v
    ensures SearchStreamTitle(Key + "'" + v + "';" + rest) == Some("'" + v + "'")
  {
    var s := Key + "'" + v + "';" + rest;
    assert s[..|Key|] == Key;
    assert MatchAt(s, 0);
    var w := "'" + v + "'";
    assert s[|Key|..] == w + (";" + rest);
    ValueRunPrefix(w, ";" + rest);
    assert w + ValueRun(";" + rest) == w;
  }

  lemma {:induction false} ValueRunPrefix(v: string, t: string)
    requires ';' !in v
    ensures ValueRun(v + t) == v + ValueRun(t)
  {
    if v != [] {
      assert (v + t)[0] == v[0] && v[0] != ';';
      assert (v + t)[1..] == v[1..] + t;
      assert ValueRun(v + t) == [v[0]] + ValueRun(v[1..] + t);
      ValueRunPrefix(v[1..], t);
      assert v == [v[0]] + v[1..];
      assert [v[0]] + (v[1..] + ValueRun(t)) == v + ValueRun(t);
    } else {
      assert v + t == t;
    }
  }

  // ---- str.split --------------------------------------------------------

  predicate OccursAt(s: string, sep: string, i: nat)
  {
    i + |sep| <= |s| && s[i..i + |sep|] == sep
  }

  ghost predicate Free(s: string, sep: string)
  {
    forall i: nat :: !OccursAt(s, sep, i)
  }

  /** The first occurrence of `sep` at or after `i`. */
  function FindFrom(s: string, sep: string, i: nat): (r: Option<nat>)
    decreases |s| - i
    ensures r.Some? ==> i <= r.value && OccursAt(s, sep, r.value) &&
                        forall j: nat :: i <= j < r.value ==> !OccursAt(s, sep, j)
    ensures r.None? ==> forall j: nat :: i <= j ==> !OccursAt(s, sep, j)
  {
    if i + |sep| > |s| then None
    else if s[i..i + |sep|] == sep then Some(i)
    else FindFrom(s, sep, i + 1)
  }

  /** The inverse of splitting: the parts joined by the separator. */
  function Join(parts: seq<string>, sep: string): string
    requires |parts| >= 1
  {
    if |parts| == 1 then parts[0] else parts[0] + sep + Join(parts[1..], sep)
  }

  /** Python's `s.split(sep)`: cut at non-overlapping occurrences, left to right. */
  function Split(s: string, sep: string): (parts: seq<string>)
    requires |sep| > 0
    decreases |s|
    ensures |parts| >= 1
    ensures Join(parts, sep) == s
    ensures forall k :: 0 <= k < |parts| ==> Free(parts[k], sep)
    ensures |parts| == 1 <==> FindFrom(s, sep, 0).None?
    ensures |parts| > 1 ==> FindFrom(s, sep, 0) == Some(|parts[0]|)
  {
    match FindFrom(s, sep, 0)
    case None => [s]
    case Some(i) =>
      var head, tail := s[..i], s[i + |sep|..];
      assert s == head + sep + tail by { assert s[i..i + |sep|] == sep; }
      FreeBeforeFirst(s, sep, i);
      [head] + Split(tail, sep)
  }

  lemma FreeBeforeFirst(s: string, sep: string, i: nat)
    requires i <= |s| && |sep| > 0
    requires forall j: nat :: j < i ==> !OccursAt(s, sep, j)
    ensures Free(s[..i], sep)
  {
    forall j: nat ensures !OccursAt(s[..i], sep, j) {
      if OccursAt(s[..i], sep, j) {
        assert s[..i][j..j + |sep|] == s[j..j + |sep|];
        assert OccursAt(s, sep, j);
      }
    }
  }

  /** `artist, title = value.split(' - ')`: two parts, or the unpacking error. */
  function ParseTrack(value: string): Result<Track, UnpackError>
  {
    var parts := Split(value, Separator);
    if |parts| == 2 then Ok(Track(parts[0], parts[1])) else Err(UnpackError(|parts|))
  }

  /** A track comes out exactly when the value is artist, separator, title
      with the separator's first occurrence right after the artist and none
      in the title. */
  lemma ParseTrackExactly(value: string, artist: string, title: string)
    ensures ParseTrack(value) == Ok(Track(artist, title)) <==>
      && value == artist + Separator + title
      && (forall j: nat :: j < |artist| ==> !OccursAt(value, Separator, j))
      && Free(title, Separator)
  {
    var parts := Split(value, Separator);
    if ParseTrack(value) == Ok(Track(artist, title)) {
      var i := FindFrom(value, Separator, 0);
      assert i.Some?;
      assert parts == [value[..i.value]] + Split(value[i.value + 3..], Separator);
    }
    if value == artist + Separator + title &&
       (forall j: nat :: j < |artist| ==> !OccursAt(value, Separator, j)) &&
       Free(title, Separator) {
      var n := |artist|;
      assert value[n..n + 3] == Separator;
      assert OccursAt(value, Separator, n);
      var f := FindFrom(value, Separator, 0);
      assert f.Some?;
      assert !(f.value < n);
      assert f.value == n;
      assert value[..n] == artist;
      assert value[n + 3..] == title;
      var g := FindFrom(title, Separator, 0);
      assert g.None?;
      assert Split(title, Separator) == [title];
      assert parts == [artist] + [title];
    }
  }

  /** No separator at all: a single part, and the unpacking fails. */
  lemma NoSeparatorFails(value: string)
    requires Free(value, Separator)
    ensures ParseTrack(value) == Err(UnpackError(1))
  {
  }

  /** Two non-overlapping separators: three or more parts, and it fails. */
  lemma TwoSeparatorsFail(a: string, b: string, c: string)
    ensures ParseTrack(a + Separator + b + Separator + c).Err?
  {
    var value := a + Separator + b + Separator + c;
    var r := ParseTrack(value);
    if r.Ok? {
      var x, y := r.value.artist, r.value.title;
      ParseTrackExactly(value, x, y);
      var p1, p2 := |a|, |a| + 3 + |b|;
      assert OccursAt(value, Separator, p1) by { assert value[p1..p1 + 3] == Separator; }
      assert OccursAt(value, Separator, p2) by { assert value[p2..p2 + 3] == Separator; }
      LaterOccurrenceInTitle(x, y, p2);
    }
  }

  /** In `x + " - " + y` whose first separator follows `x`, no occurrence
      starts after that one unless the title holds one. */
  lemma LaterOccurrenceInTitle(x: string, y: string, p: nat)
    requires forall j: nat :: j < |x| ==> !OccursAt(x + Separator + y, Separator, j)
    requires Free(y, Separator)
    requires OccursAt(x + Separator + y, Separator, p)
    ensures p <= |x| + 2
  {
    var v := x + Separator + y;
    var n := |x|;
    if p >= n + 3 {
      assert y[p - n - 3..p - n] == v[p..p + 3];
      assert OccursAt(y, Separator, p - n - 3);
    }
  }

  /** Artist and title without any `-` always come back from the split. */
  lemma ParseTrackDashFree(artist: string, title: string)
    requires '-' !in artist && '-' !in title
    ensures ParseTrack(artist + Separator + title) == Ok(Track(artist, title))
  {
    var v := artist + Separator + title;
    forall j: nat | j < |artist| ensures !OccursAt(v, Separator, j) {
      if j + 1 < |artist| {
        assert v[j + 1] == artist[j + 1];
      } else {
        assert v[j + 1] == Separator[0];
      }
      assert v[j + 1] != '-';
      assert j + 3 <= |v| ==> v[j..j + 3][1] == v[j + 1];
    }
    forall j: nat ensures !OccursAt(title, Separator, j) {
      assert j + 1 < |title| ==> title[j + 1] in title;
    }
    ParseTrackExactly(v, artist, title);
  }
}
