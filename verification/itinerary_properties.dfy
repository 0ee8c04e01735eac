/**
 * What the itinerary search returns, characterised without reference to how it searches:
 * exactly the maximal chains of fitting screenings of distinct remaining titles. The window,
 * spacing, title, format and "no result is a prefix of another" guarantees follow from it.
 */
module ItineraryProperties {
  import opened CivilTime
  import opened Schedule

  function Titles(ext: seq<Screening>): (r: seq<string>)
    ensures |r| == |ext| && forall i :: 0 <= i < |ext| ==> r[i] == ext[i].title
  {
    seq(|ext|, i requires 0 <= i < |ext| => ext[i].title)
  }

  /** `ext` is a sequence of allowed, in-window screenings of distinct titles from `remaining`,
      each spaced correctly after the one before it (the first after the last show of `path`);
      the show at index `i` of `ext` sits at 1-based position `|path| + i + 1`. */
  ghost predicate Chain(path: seq<Screening>, remaining: seq<string>, ext: seq<Screening>,
                        screenings: seq<Screening>, p: Params, day: int)
  {
    && (forall i :: 0 <= i < |ext| ==>
          && ext[i] in screenings && ext[i].title in remaining
          && FormatAllowed(ext[i], p.formats) && InWindow(ext[i], p, day))
    && (forall i, j :: 0 <= i < j < |ext| ==> ext[i].title != ext[j].title)
    && (path != [] && ext != [] ==> Spaced(path[|path| - 1], ext[0], |path|, p))
    && (forall i :: 0 < i < |ext| ==> Spaced(ext[i - 1], ext[i], |path| + i, p))
  }

  /** No allowed screening of a title of `remaining` not yet used by `ext` fits after `r`. */
  ghost predicate Stuck(r: seq<Screening>, remaining: seq<string>, ext: seq<Screening>,
                        screenings: seq<Screening>, p: Params, day: int)
  {
    forall s ::
      (s in screenings && s.title in remaining && s.title !in Titles(ext) && FormatAllowed(s, p.formats))
        ==> !Fits(r, s, p, day)
  }

  /** `r` is `path` followed by a non-empty chain that cannot be extended. */
  ghost predicate MaximalExtension(path: seq<Screening>, remaining: seq<string>,
                                   screenings: seq<Screening>, p: Params, day: int,
                                   r: seq<Screening>)
  {
    && |r| > |path| && r[..|path|] == path
    && Chain(path, remaining, r[|path|..], screenings, p, day)
    && Stuck(r, remaining, r[|path|..], screenings, p, day)
  }

  // ----- where a result comes from -----

  lemma {:induction false} ForShowsOrigin(path: seq<Screening>, remaining: seq<string>, title: string,
                                          cands: seq<Screening>, screenings: seq<Screening>,
                                          p: Params, day: int, n: nat, r: seq<Screening>)
    requires title in remaining && n <= |cands|
    requires r in ForShows(path, remaining, title, cands, screenings, p, day, n)
    ensures exists j :: 0 <= j < n && r in Step(path, remaining, title, cands[j], screenings, p, day)
  {
    if r !in Step(path, remaining, title, cands[n - 1], screenings, p, day) {
      ForShowsOrigin(path, remaining, title, cands, screenings, p, day, n - 1, r);
    }
  }

  lemma {:induction false} ForTitlesOrigin(path: seq<Screening>, remaining: seq<string>,
                                           screenings: seq<Screening>, p: Params, day: int,
                                           n: nat, r: seq<Screening>)
    requires n <= |remaining|
    requires r in ForTitles(path, remaining, screenings, p, day, n)
    ensures exists k, s :: 0 <= k < n && s in Candidates(screenings, remaining[k], p.formats)
              && r in Step(path, remaining, remaining[k], s, screenings, p, day)
  {
    var title := remaining[n - 1];
    var cands := Candidates(screenings, title, p.formats);
    if r in ForShows(path, remaining, title, cands, screenings, p, day, |cands|) {
      ForShowsOrigin(path, remaining, title, cands, screenings, p, day, |cands|, r);
      var j :| 0 <= j < |cands| && r in Step(path, remaining, title, cands[j], screenings, p, day);
      assert cands[j] in cands;
    } else {
      ForTitlesOrigin(path, remaining, screenings, p, day, n - 1, r);
    }
  }

  lemma {:induction false} ForShowsContains(path: seq<Screening>, remaining: seq<string>, title: string,
                                            cands: seq<Screening>, screenings: seq<Screening>,
                                            p: Params, day: int, n: nat, j: nat, r: seq<Screening>)
    requires title in remaining && j < n <= |cands|
    requires r in Step(path, remaining, title, cands[j], screenings, p, day)
    ensures r in ForShows(path, remaining, title, cands, screenings, p, day, n)
  {
    if j < n - 1 {
      ForShowsContains(path, remaining, title, cands, screenings, p, day, n - 1, j, r);
    }
  }

  lemma {:induction false} ForTitlesContains(path: seq<Screening>, remaining: seq<string>,
                                             screenings: seq<Screening>, p: Params, day: int,
                                             n: nat, k: nat, s: Screening, r: seq<Screening>)
    requires k < n <= |remaining|
    requires s in Candidates(screenings, remaining[k], p.formats)
    requires r in Step(path, remaining, remaining[k], s, screenings, p, day)
    ensures r in ForTitles(path, remaining, screenings, p, day, n)
  {
    if k < n - 1 {
      ForTitlesContains(path, remaining, screenings, p, day, n - 1, k, s, r);
    } else {
      var cands := Candidates(screenings, remaining[k], p.formats);
      var j :| 0 <= j < |cands| && cands[j] == s;
      ForShowsContains(path, remaining, remaining[k], cands, screenings, p, day, |cands|, j, r);
    }
  }

  /** The search finds something after `path` as soon as one allowed screening of a remaining
      title fits there. */
  lemma ExtendNonEmpty(path: seq<Screening>, remaining: seq<string>, screenings: seq<Screening>,
                       p: Params, day: int, s: Screening)
    requires s in screenings && s.title in remaining && FormatAllowed(s, p.formats)
    requires Fits(path, s, p, day)
    ensures Extend(path, remaining, screenings, p, day) != []
  {
    var k :| 0 <= k < |remaining| && remaining[k] == s.title;
    var step := Step(path, remaining, s.title, s, screenings, p, day);
    assert step != [];
    ForTitlesContains(path, remaining, screenings, p, day, |remaining|, k, s, step[0]);
  }

  lemma {:induction false} ForShowsEmpty(path: seq<Screening>, remaining: seq<string>, title: string,
                                         cands: seq<Screening>, screenings: seq<Screening>,
                                         p: Params, day: int, n: nat)
    requires title in remaining && n <= |cands|
    requires forall j :: 0 <= j < n ==> !Fits(path, cands[j], p, day)
    ensures ForShows(path, remaining, title, cands, screenings, p, day, n) == []
  {
    if n > 0 {
      ForShowsEmpty(path, remaining, title, cands, screenings, p, day, n - 1);
    }
  }

  lemma {:induction false} ForTitlesEmpty(path: seq<Screening>, remaining: seq<string>,
                                          screenings: seq<Screening>, p: Params, day: int, n: nat)
    requires n <= |remaining|
    requires forall s :: s in screenings && s.title in remaining && FormatAllowed(s, p.formats)
                ==> !Fits(path, s, p, day)
    ensures ForTitles(path, remaining, screenings, p, day, n) == []
  {
    if n > 0 {
      var title := remaining[n - 1];
      var cands := Candidates(screenings, title, p.formats);
      forall j | 0 <= j < |cands| ensures !Fits(path, cands[j], p, day) {
        assert cands[j] in cands;
      }
      ForShowsEmpty(path, remaining, title, cands, screenings, p, day, |cands|);
      ForTitlesEmpty(path, remaining, screenings, p, day, n - 1);
    }
  }

  /** The search finds nothing after `path` when no allowed screening of a remaining title fits
      there (the converse of ExtendNonEmpty). */
  lemma ExtendEmpty(path: seq<Screening>, remaining: seq<string>, screenings: seq<Screening>,
                    p: Params, day: int)
    requires forall s :: s in screenings && s.title in remaining && FormatAllowed(s, p.formats)
                ==> !Fits(path, s, p, day)
    ensures Extend(path, remaining, screenings, p, day) == []
  {
    ForTitlesEmpty(path, remaining, screenings, p, day, |remaining|);
  }

  // ----- moving the first screening of a chain into the path -----

  lemma ChainPrepend(path: seq<Screening>, remaining: seq<string>, screenings: seq<Screening>,
                     p: Params, day: int, s: Screening, ext': seq<Screening>)
    requires s in screenings && s.title in remaining && FormatAllowed(s, p.formats)
    requires Fits(path, s, p, day)
    requires Chain(path + [s], Without(remaining, s.title), ext', screenings, p, day)
    ensures Chain(path, remaining, [s] + ext', screenings, p, day)
  {
    var ext := [s] + ext';
    assert (path + [s])[|path|] == s;
    forall i | 0 < i < |ext| ensures Spaced(ext[i - 1], ext[i], |path| + i, p) {
      assert ext[i] == ext'[i - 1];
      if i > 1 { assert ext[i - 1] == ext'[i - 2]; }
    }
    forall i, j | 0 <= i < j < |ext| ensures ext[i].title != ext[j].title {
      assert ext[j] == ext'[j - 1];
      if i > 0 { assert ext[i] == ext'[i - 1]; }
    }
  }

  lemma StuckPrepend(r: seq<Screening>, remaining: seq<string>, screenings: seq<Screening>,
                     p: Params, day: int, s: Screening, ext': seq<Screening>)
    requires Stuck(r, Without(remaining, s.title), ext', screenings, p, day)
    ensures Stuck(r, remaining, [s] + ext', screenings, p, day)
  {
    var ext := [s] + ext';
    forall t | t in screenings && t.title in remaining && t.title !in Titles(ext)
                 && FormatAllowed(t, p.formats)
      ensures !Fits(r, t, p, day)
    {
      assert t.title != s.title by { assert Titles(ext)[0] == s.title; }
      assert t.title !in Titles(ext') by {
        forall i | 0 <= i < |ext'| ensures Titles(ext')[i] != t.title {
          assert Titles(ext)[i + 1] == ext'[i].title;
        }
      }
    }
  }

  lemma ChainDrop(path: seq<Screening>, remaining: seq<string>, screenings: seq<Screening>,
                  p: Params, day: int, s: Screening, ext': seq<Screening>)
    requires Chain(path, remaining, [s] + ext', screenings, p, day)
    ensures Chain(path + [s], Without(remaining, s.title), ext', screenings, p, day)
  {
    var ext := [s] + ext';
    assert forall i :: 0 <= i < |ext'| ==> ext'[i] == ext[i + 1];
    ChainDropMembers(remaining, screenings, p, day, s, ext');
    ChainDropSpaced(path, p, s, ext');
  }

  lemma ChainDropMembers(remaining: seq<string>, screenings: seq<Screening>, p: Params, day: int,
                         s: Screening, ext': seq<Screening>)
    requires forall i :: 0 <= i < |[s] + ext'| ==>
               && ([s] + ext')[i] in screenings && ([s] + ext')[i].title in remaining
               && FormatAllowed(([s] + ext')[i], p.formats) && InWindow(([s] + ext')[i], p, day)
    requires forall i, j :: 0 <= i < j < |[s] + ext'| ==> ([s] + ext')[i].title != ([s] + ext')[j].title
    ensures forall i :: 0 <= i < |ext'| ==>
               && ext'[i] in screenings && ext'[i].title in Without(remaining, s.title)
               && FormatAllowed(ext'[i], p.formats) && InWindow(ext'[i], p, day)
    ensures forall i, j :: 0 <= i < j < |ext'| ==> ext'[i].title != ext'[j].title
  {
    var ext := [s] + ext';
    forall i | 0 <= i < |ext'|
      ensures ext'[i] in screenings && ext'[i].title in Without(remaining, s.title)
      ensures FormatAllowed(ext'[i], p.formats) && InWindow(ext'[i], p, day)
    {
      assert ext'[i] == ext[i + 1];
      assert ext[0].title != ext[i + 1].title;
    }
    forall i, j | 0 <= i < j < |ext'| ensures ext'[i].title != ext'[j].title {
      assert ext'[i] == ext[i + 1] && ext'[j] == ext[j + 1];
    }
  }

  lemma ChainDropSpaced(path: seq<Screening>, p: Params, s: Screening, ext': seq<Screening>)
    requires path != [] ==> Spaced(path[|path| - 1], s, |path|, p)
    requires forall i :: 0 < i < |[s] + ext'| ==> Spaced(([s] + ext')[i - 1], ([s] + ext')[i], |path| + i, p)
    ensures ext' != [] ==> Spaced((path + [s])[|path + [s]| - 1], ext'[0], |path + [s]|, p)
    ensures forall i :: 0 < i < |ext'| ==> Spaced(ext'[i - 1], ext'[i], |path + [s]| + i, p)
  {
    var ext := [s] + ext';
    assert (path + [s])[|path|] == s;
    forall i | 0 < i < |ext'| ensures Spaced(ext'[i - 1], ext'[i], |path| + 1 + i, p) {
      assert ext'[i] == ext[i + 1] && ext'[i - 1] == ext[i];
    }
    if ext' != [] {
      assert ext'[0] == ext[1] && ext[0] == s;
      assert Spaced(ext[0], ext[1], |path| + 1, p);
    }
  }

  lemma StuckDrop(r: seq<Screening>, remaining: seq<string>, screenings: seq<Screening>,
                  p: Params, day: int, s: Screening, ext': seq<Screening>)
    requires Stuck(r, remaining, [s] + ext', screenings, p, day)
    ensures Stuck(r, Without(remaining, s.title), ext', screenings, p, day)
  {
    var ext := [s] + ext';
    forall t | t in screenings && t.title in Without(remaining, s.title) && t.title !in Titles(ext')
                 && FormatAllowed(t, p.formats)
      ensures !Fits(r, t, p, day)
    {
      assert t.title !in Titles(ext) by {
        forall i | 0 <= i < |ext| ensures Titles(ext)[i] != t.title {
          if i > 0 { assert Titles(ext')[i - 1] == ext[i].title; }
        }
      }
    }
  }

  lemma ChainCons(path: seq<Screening>, remaining: seq<string>, screenings: seq<Screening>,
                  p: Params, day: int, s: Screening, r: seq<Screening>)
    requires s in screenings && s.title in remaining && FormatAllowed(s, p.formats)
    requires Fits(path, s, p, day)
    requires MaximalExtension(path + [s], Without(remaining, s.title), screenings, p, day, r)
    ensures MaximalExtension(path, remaining, screenings, p, day, r)
  {
    var ext' := r[|path| + 1..];
    assert r[..|path| + 1] == path + [s];
    assert r[..|path|] == (path + [s])[..|path|] == path;
    assert r[|path|..] == [s] + ext';
    ChainPrepend(path, remaining, screenings, p, day, s, ext');
    StuckPrepend(r, remaining, screenings, p, day, s, ext');
  }

  lemma ChainUncons(path: seq<Screening>, remaining: seq<string>, screenings: seq<Screening>,
                    p: Params, day: int, r: seq<Screening>)
    requires MaximalExtension(path, remaining, screenings, p, day, r)
    requires |r| > |path| + 1
    ensures MaximalExtension(path + [r[|path|]], Without(remaining, r[|path|].title),
                             screenings, p, day, r)
  {
    var s := r[|path|];
    var ext' := r[|path| + 1..];
    assert r[|path|..] == [s] + ext';
    assert r[..|path| + 1] == r[..|path|] + [s];
    ChainDrop(path, remaining, screenings, p, day, s, ext');
    StuckDrop(r, remaining, screenings, p, day, s, ext');
  }

  // ----- soundness and completeness -----

  /** Every path the search returns is a maximal extension of `path`. */
  lemma {:induction false} ExtendSound(path: seq<Screening>, remaining: seq<string>,
                                       screenings: seq<Screening>, p: Params, day: int,
                                       r: seq<Screening>)
    requires r in Extend(path, remaining, screenings, p, day)
    ensures MaximalExtension(path, remaining, screenings, p, day, r)
    decreases |remaining|
  {
    ForTitlesOrigin(path, remaining, screenings, p, day, |remaining|, r);
    var k, s :| 0 <= k < |remaining| && s in Candidates(screenings, remaining[k], p.formats)
                && r in Step(path, remaining, remaining[k], s, screenings, p, day);
    var title := remaining[k];
    var rem' := Without(remaining, title);
    var sub := Extend(path + [s], rem', screenings, p, day);
    assert Fits(path, s, p, day);
    if sub == [] {
      assert r == path + [s];
      var ext := r[|path|..];
      assert ext == [s] && r[..|path|] == path && path + ext[..0] == path;
      forall t | t in screenings && t.title in remaining && t.title !in Titles(ext)
                   && FormatAllowed(t, p.formats)
        ensures !Fits(r, t, p, day)
      {
        assert Titles(ext)[0] == title;
        if Fits(r, t, p, day) {
          ExtendNonEmpty(path + [s], rem', screenings, p, day, t);
        }
      }
    } else {
      ExtendSound(path + [s], rem', screenings, p, day, r);
      ChainCons(path, remaining, screenings, p, day, s, r);
    }
  }

  /** Every maximal extension of `path` is among the paths the search returns. */
  lemma {:induction false} ExtendComplete(path: seq<Screening>, remaining: seq<string>,
                                          screenings: seq<Screening>, p: Params, day: int,
                                          r: seq<Screening>)
    requires MaximalExtension(path, remaining, screenings, p, day, r)
    ensures r in Extend(path, remaining, screenings, p, day)
    decreases |remaining|
  {
    var s := r[|path|];
    var ext := r[|path|..];
    assert ext[0] == s && path + ext[..0] == path;
    var title := s.title;
    var k :| 0 <= k < |remaining| && remaining[k] == title;
    var rem' := Without(remaining, title);
    var sub := Extend(path + [s], rem', screenings, p, day);
    if |r| == |path| + 1 {
      assert r == path + [s];
      forall t | t in screenings && t.title in rem' && FormatAllowed(t, p.formats)
        ensures !Fits(path + [s], t, p, day)
      {
        assert Titles(ext) == [title];
      }
      ExtendEmpty(path + [s], rem', screenings, p, day);
    } else {
      ChainUncons(path, remaining, screenings, p, day, r);
      ExtendComplete(path + [s], rem', screenings, p, day, r);
    }
    ForTitlesContains(path, remaining, screenings, p, day, |remaining|, k, s, r);
  }

  /** The search returns exactly the maximal extensions of `path`. */
  lemma ExtendCharacterized(path: seq<Screening>, remaining: seq<string>,
                            screenings: seq<Screening>, p: Params, day: int, r: seq<Screening>)
    ensures (r in Extend(path, remaining, screenings, p, day))
        <==> MaximalExtension(path, remaining, screenings, p, day, r)
  {
    if r in Extend(path, remaining, screenings, p, day) {
      ExtendSound(path, remaining, screenings, p, day, r);
    }
    if MaximalExtension(path, remaining, screenings, p, day, r) {
      ExtendComplete(path, remaining, screenings, p, day, r);
    }
  }

  // ----- what every itinerary of a search satisfies -----

  /** Every show of every itinerary starts no earlier than the window start and ends no later
      than the window end. */
  lemma ResultsInWindow(titles: seq<string>, screenings: seq<Screening>, p: Params, day: int,
                        r: seq<Screening>)
    requires r in Extend([], titles, screenings, p, day)
    ensures forall i :: 0 <= i < |r| ==>
              Window(p, day).0 <= r[i].showtime && r[i].showtime + r[i].duration <= Window(p, day).1
  {
    ExtendSound([], titles, screenings, p, day, r);
    assert r[0..] == r;
  }

  /** Between the shows at 1-based positions `k` and `k + 1`, with the previous end moved five
      minutes earlier under the fudge factor: the next show starts at least the buffer (the long
      break after position `breakAfter`) after that end and at most `gapCap` after it, and at
      least 91 minutes after the previous start under the Unlimited rule. */
  lemma ResultsSpaced(titles: seq<string>, screenings: seq<Screening>, p: Params, day: int,
                      r: seq<Screening>, k: int)
    requires r in Extend([], titles, screenings, p, day)
    requires 1 <= k < |r|
    ensures var prevEnd := r[k - 1].showtime + r[k - 1].duration - (if p.fudge then 5 else 0);
            && r[k].showtime >= prevEnd + (if p.breakAfter == Some(k) then p.longBuffer else p.buffer)
            && r[k].showtime - prevEnd <= p.gapCap
            && (p.unlimited ==> r[k].showtime >= r[k - 1].showtime + 91)
  {
    ExtendSound([], titles, screenings, p, day, r);
    assert r[0..] == r;
    assert Spaced(r[k - 1], r[k], k, p);
  }

  /** Every itinerary is a non-empty list of catalogue screenings of allowed screen types, of
      titles from the request, with no title twice. */
  lemma ResultsUseRequestedTitlesOnce(titles: seq<string>, screenings: seq<Screening>, p: Params,
                                      day: int, r: seq<Screening>)
    requires r in Extend([], titles, screenings, p, day)
    ensures r != []
    ensures forall i :: 0 <= i < |r| ==> r[i] in screenings && r[i].title in titles
    ensures forall i :: 0 <= i < |r| ==> p.formats != [] ==> r[i].screenType in p.formats
    ensures forall i, j :: 0 <= i < j < |r| ==> r[i].title != r[j].title
  {
    ExtendSound([], titles, screenings, p, day, r);
    assert r[0..] == r;
  }

  /** With the fudge factor off and non-negative buffers, consecutive shows never overlap. */
  lemma ResultsDoNotOverlap(titles: seq<string>, screenings: seq<Screening>, p: Params, day: int,
                            r: seq<Screening>)
    requires r in Extend([], titles, screenings, p, day)
    requires !p.fudge && p.buffer >= 0 && p.longBuffer >= 0
    ensures forall k :: 1 <= k < |r| ==> r[k].showtime >= r[k - 1].showtime + r[k - 1].duration
  {
    forall k | 1 <= k < |r| ensures r[k].showtime >= r[k - 1].showtime + r[k - 1].duration {
      ResultsSpaced(titles, screenings, p, day, r, k);
    }
  }

  /** Every itinerary is maximal: no allowed screening of a requested title it does not use
      could be appended to it. */
  lemma ResultsAreMaximal(titles: seq<string>, screenings: seq<Screening>, p: Params, day: int,
                          r: seq<Screening>, s: Screening)
    requires r in Extend([], titles, screenings, p, day)
    requires s in screenings && s.title in titles && FormatAllowed(s, p.formats)
    requires forall i :: 0 <= i < |r| ==> r[i].title != s.title
    ensures !Fits(r, s, p, day)
  {
    ExtendSound([], titles, screenings, p, day, r);
    assert r[0..] == r;
    assert s.title !in Titles(r);
  }

  /** Inside a maximal extension, the show at index `m` past `path` is an allowed screening of
      a requested title not used before it, and it fits after everything before it. */
  lemma FollowerFits(path: seq<Screening>, remaining: seq<string>, screenings: seq<Screening>,
                     p: Params, day: int, r: seq<Screening>, m: int)
    requires MaximalExtension(path, remaining, screenings, p, day, r)
    requires |path| < m < |r|
    ensures r[m] in screenings && r[m].title in remaining && FormatAllowed(r[m], p.formats)
    ensures r[m].title !in Titles(r[|path|..m])
    ensures Fits(r[..m], r[m], p, day)
  {
    var ext := r[|path|..];
    var i := m - |path|;
    assert r[m] == ext[i] && r[m - 1] == ext[i - 1];
    assert Spaced(ext[i - 1], ext[i], m, p);
    forall j | 0 <= j < i ensures Titles(r[|path|..m])[j] != r[m].title {
      assert r[|path|..m][j] == ext[j];
    }
  }

  /** No itinerary returned after `path` is a strict prefix of another one. */
  lemma NoResultIsPrefixOfAnother(path: seq<Screening>, remaining: seq<string>,
                                  screenings: seq<Screening>, p: Params, day: int,
                                  r1: seq<Screening>, r2: seq<Screening>)
    requires r1 in Extend(path, remaining, screenings, p, day)
    requires r2 in Extend(path, remaining, screenings, p, day)
    ensures !(|r1| < |r2| && r2[..|r1|] == r1)
  {
    ExtendSound(path, remaining, screenings, p, day, r1);
    if |r1| < |r2| {
      ExtendSound(path, remaining, screenings, p, day, r2);
      // the show after the common part fits after r1, so r1 would not be stuck
      FollowerFits(path, remaining, screenings, p, day, r2, |r1|);
      assert r2[|path|..|r1|] == r2[..|r1|][|path|..];
    }
  }

  /** The search comes back empty exactly when no allowed screening of a requested title lies
      inside the window. */
  lemma NothingFoundIff(titles: seq<string>, screenings: seq<Screening>, p: Params, day: int)
    ensures Extend([], titles, screenings, p, day) == []
        <==> forall s :: s in screenings && s.title in titles && FormatAllowed(s, p.formats)
                 ==> !InWindow(s, p, day)
  {
    if exists s :: s in screenings && s.title in titles && FormatAllowed(s, p.formats) && InWindow(s, p, day) {
      var s :| s in screenings && s.title in titles && FormatAllowed(s, p.formats) && InWindow(s, p, day);
      ExtendNonEmpty([], titles, screenings, p, day, s);
    } else {
      ExtendEmpty([], titles, screenings, p, day);
    }
  }

  /** A requested title none of whose allowed screenings lies in the window is simply absent from
      every itinerary; it is not an error. */
  lemma UnplaceableTitleIsLeftOut(titles: seq<string>, screenings: seq<Screening>, p: Params,
                                  day: int, t: string, r: seq<Screening>)
    requires forall s :: s in screenings && s.title == t && FormatAllowed(s, p.formats)
                ==> !InWindow(s, p, day)
    requires r in Extend([], titles, screenings, p, day)
    ensures forall i :: 0 <= i < |r| ==> r[i].title != t
  {
    ExtendSound([], titles, screenings, p, day, r);
    assert r[0..] == r;
  }
}
