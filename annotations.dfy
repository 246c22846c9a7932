/** `RadioScrobbler.clean_track`: `re.sub(r'\[.*?\]', '', title)` removes
    every shortest `[`...`]` segment whose inside has no newline (`.` does
    not match a newline), scanning left to right; the artist is kept. */
module Annotations {
  import opened Wrappers
  import opened Tracks

  /** Where the lazy `.*?\]` that follows a `[` ends in `t`: the first `]`,
      provided no newline comes before it. */
  function FindClose(t: string): (r: Option<nat>)
    decreases |t|
    ensures r.Some? ==> r.value < |t| && t[r.value] == ']' &&
                        forall m :: 0 <= m < r.value ==> t[m] != ']' && t[m] != '\n'
    ensures r.None? ==> forall k :: 0 <= k < |t| && t[k] == ']' ==> exists m :: 0 <= m < k && t[m] == '\n'
  {
    if t == [] then None
    else if t[0] == ']' then Some(0)
    else if t[0] == '\n' then None
    else match FindClose(t[1..])
      case None =>
        assert forall k :: 1 <= k < |t| && t[k] == ']' ==> exists m :: 0 <= m < k && t[m] == '\n' by {
          forall k | 1 <= k < |t| && t[k] == ']' ensures exists m :: 0 <= m < k && t[m] == '\n' {
            assert t[1..][k - 1] == ']';
            var m :| 0 <= m < k - 1 && t[1..][m] == '\n';
            assert t[m + 1] == '\n';
          }
        }
        None
      case Some(k) => Some(k + 1)
  }

  /** The substitution: each match is deleted, every other character kept. */
  function StripAnnotations(s: string): string
    decreases |s|
  {
    if s == [] then []
    else if s[0] == '[' && FindClose(s[1..]).Some? then StripAnnotations(s[FindClose(s[1..]).value + 2..])
    else [s[0]] + StripAnnotations(s[1..])
  }

  /** `clean_track`: the artist unchanged, the annotations gone from the
      title, the title's remaining characters kept in order. */
  function CleanTrack(t: Track): (r: Track)
    ensures r.artist == t.artist
    ensures NoAnnotation(r.title)
    ensures IsSubsequence(r.title, t.title)
  {
    StrippedHasNoAnnotation(t.title);
    StrippedIsSubsequence(t.title);
    Track(t.artist, StripAnnotations(t.title))
  }

  // ---- what the substitution leaves --------------------------------------

  /** Nowhere in `s` does the pattern match. */
  ghost predicate NoAnnotation(s: string)
  {
    forall i :: 0 <= i < |s| && s[i] == '[' ==> FindClose(s[i + 1..]).None?
  }

  ghost predicate IsSubsequence(a: string, b: string)
    decreases |b|
  {
    a == [] || (b != [] && ((a[0] == b[0] && IsSubsequence(a[1..], b[1..])) || IsSubsequence(a, b[1..])))
  }

  lemma {:induction false} SubsequenceOfSuffix(a: string, b: string, k: nat)
    requires k <= |b| && IsSubsequence(a, b[k..])
    ensures IsSubsequence(a, b)
    decreases k
  {
    if k > 0 {
      assert b[1..][k - 1..] == b[k..];
      SubsequenceOfSuffix(a, b[1..], k - 1);
    }
  }

  lemma {:induction false} StrippedIsSubsequence(s: string)
    ensures IsSubsequence(StripAnnotations(s), s)
    decreases |s|
  {
    if s != [] {
      if s[0] == '[' && FindClose(s[1..]).Some? {
        var k := FindClose(s[1..]).value + 2;
        StrippedIsSubsequence(s[k..]);
        SubsequenceOfSuffix(StripAnnotations(s[k..]), s, k);
      } else {
        StrippedIsSubsequence(s[1..]);
      }
    }
  }

  lemma {:induction false} SubsequenceChars(a: string, b: string)
    requires IsSubsequence(a, b)
    ensures forall c :: c in a ==> c in b
    decreases |b|
  {
    if a != [] {
      if a[0] == b[0] && IsSubsequence(a[1..], b[1..]) {
        SubsequenceChars(a[1..], b[1..]);
        assert a == [a[0]] + a[1..];
      } else {
        SubsequenceChars(a, b[1..]);
      }
    }
  }

  /** A title in which no `]` escapes a newline keeps that property. */
  lemma {:induction false} StripKeepsUnclosed(t: string)
    requires FindClose(t).None?
    ensures FindClose(StripAnnotations(t)).None?
    decreases |t|
  {
    if t != [] && t[0] != '\n' {
      assert t[0] != ']';
      assert FindClose(t[1..]).None?;
      StripKeepsUnclosed(t[1..]);
      var r := StripAnnotations(t[1..]);
      assert StripAnnotations(t) == [t[0]] + r;
      assert ([t[0]] + r)[1..] == r;
    }
  }

  /** The substitution leaves nothing that the pattern would match. */
  lemma {:induction false} StrippedHasNoAnnotation(s: string)
    ensures NoAnnotation(StripAnnotations(s))
    decreases |s|
  {
    if s != [] {
      if s[0] == '[' && FindClose(s[1..]).Some? {
        StrippedHasNoAnnotation(s[FindClose(s[1..]).value + 2..]);
      } else {
        var r := StripAnnotations(s[1..]);
        var out := [s[0]] + r;
        StrippedHasNoAnnotation(s[1..]);
        if s[0] == '[' {
          StripKeepsUnclosed(s[1..]);
        }
        forall i | 0 <= i < |out| && out[i] == '[' ensures FindClose(out[i + 1..]).None? {
          if i > 0 {
            assert out[i] == r[i - 1];
            assert out[i + 1..] == r[i..];
          } else {
            assert out[1..] == r;
          }
        }
      }
    }
  }

  /** Where the pattern matches nowhere, the substitution changes nothing. */
  lemma {:induction false} StripWithoutAnnotation(t: string)
    requires NoAnnotation(t)
    ensures StripAnnotations(t) == t
    decreases |t|
  {
    if t != [] {
      assert t[0] == '[' ==> FindClose(t[1..]).None?;
      assert NoAnnotation(t[1..]) by {
        forall i | 0 <= i < |t[1..]| && t[1..][i] == '[' ensures FindClose(t[1..][i + 1..]).None? {
          assert t[1..][i + 1..] == t[i + 2..];
        }
      }
      StripWithoutAnnotation(t[1..]);
      assert [t[0]] + t[1..] == t;
    }
  }

  /** `clean_track` is idempotent. */
  lemma CleanTwice(t: Track)
    ensures CleanTrack(CleanTrack(t)) == CleanTrack(t)
  {
    StripWithoutAnnotation(CleanTrack(t).title);
  }

  /** On a title without newlines, no `[` of the cleaned title is followed
      anywhere later by a `]`. */
  lemma CleanedHasNoBracketPair(t: Track)
    requires '\n' !in t.title
    ensures var u := CleanTrack(t).title;
      forall i, j :: 0 <= i < j < |u| && u[i] == '[' ==> u[j] != ']'
  {
    var u := CleanTrack(t).title;
    SubsequenceChars(u, t.title);
    forall i, j | 0 <= i < j < |u| && u[i] == '[' ensures u[j] != ']' {
      var rest := u[i + 1..];
      assert FindClose(rest).None?;
      assert rest[j - i - 1] == u[j];
    }
  }

  /** The leftmost match is `[`, a newline-free and `]`-free inside, `]`:
      it is removed and the scan resumes right after it. Every `[` before it
      is one that a newline leaves unclosed, and is kept. */
  lemma {:induction false} LeftmostMatchRemoved(p: string, m: string, q: string)
    requires OnlyUnclosed(p)
    requires ']' !in m && '\n' !in m
    ensures StripAnnotations(p + "[" + m + "]" + q) == p + StripAnnotations(q)
    decreases |p|
  {
    var s := p + "[" + m + "]" + q;
    if p == [] {
      assert s == "[" + (m + "]" + q);
      assert s[1..] == m + "]" + q;
      ClosesAfter(m, q);
      assert s[|m| + 2..] == q;
    } else {
      var rest := p[1..] + "[" + m + "]" + q;
      assert s == [p[0]] + rest;
      if p[0] == '[' {
        OpenStaysOpen(p[1..], "[" + m + "]" + q);
        assert p[1..] + ("[" + m + "]" + q) == rest;
      }
      FirstKept(p[0], rest);
      OnlyUnclosedTail(p);
      LeftmostMatchRemoved(p[1..], m, q);
      assert [p[0]] + (p[1..] + StripAnnotations(q)) == p + StripAnnotations(q);
    }
  }

  /** A first character that opens no annotation is kept. */
  lemma FirstKept(c: char, rest: string)
    requires c != '[' || FindClose(rest).None?
    ensures StripAnnotations([c] + rest) == [c] + StripAnnotations(rest)
  {
    assert ([c] + rest)[1..] == rest;
  }

  /** Every `[` in `p` is one that a newline leaves unclosed. */
  predicate OnlyUnclosed(p: string)
  {
    forall i :: 0 <= i < |p| && p[i] == '[' ==> FindClose(p[i + 1..]).None? && '\n' in p[i + 1..]
  }

  lemma OnlyUnclosedTail(p: string)
    requires p != [] && OnlyUnclosed(p)
    ensures OnlyUnclosed(p[1..])
  {
    forall i | 0 <= i < |p[1..]| && p[1..][i] == '['
      ensures FindClose(p[1..][i + 1..]).None? && '\n' in p[1..][i + 1..]
    {
      assert p[1..][i + 1..] == p[i + 2..];
    }
  }

  /** A `[` that a newline leaves unclosed stays unclosed whatever follows. */
  lemma {:induction false} OpenStaysOpen(a: string, b: string)
    requires FindClose(a).None? && '\n' in a
    ensures FindClose(a + b).None?
    decreases |a|
  {
    if a[0] != '\n' {
      assert (a + b)[1..] == a[1..] + b;
      OpenStaysOpen(a[1..], b);
    }
  }

  lemma {:induction false} ClosesAfter(m: string, q: string)
    requires ']' !in m && '\n' !in m
    ensures FindClose(m + "]" + q) == Some(|m|)
    decreases |m|
  {
    if m != [] {
      assert (m + "]" + q)[1..] == m[1..] + "]" + q;
      ClosesAfter(m[1..], q);
    }
  }

  /** A title without `[` is left as it is. */
  lemma NoBracketUnchanged(t: Track)
    requires '[' !in t.title
    ensures CleanTrack(t) == t
  {
    StripWithoutAnnotation(t.title);
  }

  /** The cleaned title is never longer than the original. */
  lemma CleanNotLonger(t: Track)
    ensures |CleanTrack(t).title| <= |t.title|
  {
    SubsequenceNotLonger(CleanTrack(t).title, t.title);
  }

  lemma {:induction false} SubsequenceNotLonger(a: string, b: string)
    requires IsSubsequence(a, b)
    ensures |a| <= |b|
    decreases |b|
  {
    if a != [] {
      if a[0] == b[0] && IsSubsequence(a[1..], b[1..]) {
        SubsequenceNotLonger(a[1..], b[1..]);
      } else {
        SubsequenceNotLonger(a, b[1..]);
      }
    }
  }
}
