/**
 * The itinerary enumerator of the Smart Scheduler: a depth-first search that tries every
 * remaining title, in every order, and keeps the orderings that cannot be extended any further.
 *
 * Times are whole minutes since 0001-01-01T00:00 (see CivilTime); the selected date is a day
 * number and the window bounds are minutes of that day.
 */
module Schedule {
  import opened CivilTime

  /** One row of the flattened catalogue, as the catalogue reader hands it to the scheduler. */
  datatype Screening = Screening(
    title: string,
    duration: nat,
    showtime: nat,
    screenType: string,
    auditorium: string,
    masterCode: string)

  datatype Option<T> = None | Some(value: T)

  /** The scheduling parameters collected from the form. `start` and `end` are minutes of the
      day (the "Any Time" choice is 00:00 for the start and 23:59 for the end); `breakAfter` is
      the 1-based position after which the long break is due, if any; an empty `formats` list
      allows every screen type. */
  datatype Params = Params(
    start: int,
    end: int,
    buffer: int,
    gapCap: int,
    unlimited: bool,
    fudge: bool,
    breakAfter: Option<int>,
    longBuffer: int,
    formats: seq<string>)

  /** "Latest End" when the user picked "Any Time". */
  const AnyTimeEnd: int := 23 * 60 + 59
  /** Minutes a late window is stretched when it ends at the "Any Time" sentinel. */
  const LateGrace: int := 6 * 60
  /** Minutes taken off the previous show's end when the fudge factor is on. */
  const FudgeMinutes: int := 5
  /** The start-to-start spacing of the "Unlimited" rule. */
  const UnlimitedSpacing: int := 91

  function End(s: Screening): int {
    s.showtime + s.duration
  }

  /** The search window on day `day`: from the chosen start to the chosen end, rolled over to
      the next day when the end is not after the start, and stretched by six hours when the end
      is the "Any Time" sentinel. */
  function Window(p: Params, day: int): (w: (int, int))
    ensures w.0 == day * MinutesPerDay + p.start
    ensures 0 <= p.start < MinutesPerDay && 0 <= p.end < MinutesPerDay ==>
              w.0 < w.1 <= w.0 + MinutesPerDay + LateGrace
  {
    var ws := day * MinutesPerDay + p.start;
    var we := day * MinutesPerDay + p.end;
    if we <= ws then (ws, we + MinutesPerDay)
    else if p.end == AnyTimeEnd then (ws, we + LateGrace)
    else (ws, we)
  }

  predicate InWindow(s: Screening, p: Params, day: int) {
    var w := Window(p, day);
    w.0 <= s.showtime && End(s) <= w.1
  }

  /** The end of the previous show as the spacing rules see it. */
  function EffectiveEnd(prev: Screening, p: Params): int {
    End(prev) - (if p.fudge then FudgeMinutes else 0)
  }

  /** The buffer required after the show at 1-based position `k`. */
  function RequiredBuffer(k: int, p: Params): int {
    if p.breakAfter == Some(k) then p.longBuffer else p.buffer
  }

  /** The spacing rules between the show at 1-based position `k` and the next one. */
  predicate Spaced(prev: Screening, next: Screening, k: int, p: Params) {
    var prevEnd := EffectiveEnd(prev, p);
    && (p.unlimited ==> next.showtime >= prev.showtime + UnlimitedSpacing)
    && next.showtime >= prevEnd + RequiredBuffer(k, p)
    && next.showtime - prevEnd <= p.gapCap
  }

  /** Whether `s` may be appended to `path`: it lies in the window and, after a non-empty path,
      keeps the spacing rules with the path's last show. */
  predicate Fits(path: seq<Screening>, s: Screening, p: Params, day: int) {
    InWindow(s, p, day) && (path != [] ==> Spaced(path[|path| - 1], s, |path|, p))
  }

  predicate FormatAllowed(s: Screening, formats: seq<string>) {
    formats == [] || s.screenType in formats
  }

  /** The screenings of `title` whose screen type is allowed, in catalogue order. */
  function Candidates(screenings: seq<Screening>, title: string, formats: seq<string>): (r: seq<Screening>)
    ensures forall s :: s in r <==> s in screenings && s.title == title && FormatAllowed(s, formats)
    ensures |r| <= |screenings|
  {
    if screenings == [] then []
    else
      var rest := Candidates(screenings[1..], title, formats);
      var s := screenings[0];
      assert forall x :: x in screenings <==> x == s || x in screenings[1..];
      if s.title == title && FormatAllowed(s, formats) then [s] + rest else rest
  }

  /** The remaining titles once `title` has been placed (every copy of it is dropped). */
  function Without(titles: seq<string>, title: string): (r: seq<string>)
    ensures forall t :: t in r <==> t in titles && t != title
    ensures title in titles ==> |r| < |titles|
    ensures |r| <= |titles|
  {
    if titles == [] then []
    else
      var rest := Without(titles[1..], title);
      assert forall x :: x in titles <==> x == titles[0] || x in titles[1..];
      if titles[0] == title then rest else [titles[0]] + rest
  }

  // ----- the search, as functions -----

  /** All itineraries that extend `path` with the titles of `remaining`: the paths found by
      trying every title in list order and every candidate screening of it in catalogue order. */
  function Extend(path: seq<Screening>, remaining: seq<string>, screenings: seq<Screening>,
                  p: Params, day: int): seq<seq<Screening>>
    decreases |remaining|, 2, 0
  {
    ForTitles(path, remaining, screenings, p, day, |remaining|)
  }

  /** What the search collects from the first `n` titles of `remaining`. */
  function ForTitles(path: seq<Screening>, remaining: seq<string>, screenings: seq<Screening>,
                     p: Params, day: int, n: nat): seq<seq<Screening>>
    requires n <= |remaining|
    decreases |remaining|, 1, n
  {
    if n == 0 then []
    else
      var title := remaining[n - 1];
      var cands := Candidates(screenings, title, p.formats);
      ForTitles(path, remaining, screenings, p, day, n - 1)
        + ForShows(path, remaining, title, cands, screenings, p, day, |cands|)
  }

  /** What the search collects from the first `n` candidate screenings of `title`: a fitting
      candidate contributes the extended path itself when nothing more can follow it, and
      otherwise everything found after it. */
  function ForShows(path: seq<Screening>, remaining: seq<string>, title: string,
                    cands: seq<Screening>, screenings: seq<Screening>, p: Params, day: int,
                    n: nat): seq<seq<Screening>>
    requires title in remaining && n <= |cands|
    decreases |remaining|, 0, n
  {
    if n == 0 then []
    else
      var s := cands[n - 1];
      ForShows(path, remaining, title, cands, screenings, p, day, n - 1)
        + Step(path, remaining, title, s, screenings, p, day)
  }

  /** What one candidate `s` of `title` contributes after `path`. */
  function Step(path: seq<Screening>, remaining: seq<string>, title: string, s: Screening,
                screenings: seq<Screening>, p: Params, day: int): seq<seq<Screening>>
    requires title in remaining
    decreases |remaining|, 0, 0
  {
    if !Fits(path, s, p, day) then []
    else
      var sub := Extend(path + [s], Without(remaining, title), screenings, p, day);
      if sub == [] then [path + [s]] else sub
  }

  // ----- the search, as the program runs it -----

  /** `find_itineraries`: depth-first search over the remaining titles. */
  method FindItineraries(currentPath: seq<Screening>, remainingTitles: seq<string>,
                         screenings: seq<Screening>, p: Params, day: int)
    returns (validPaths: seq<seq<Screening>>)
    ensures validPaths == Extend(currentPath, remainingTitles, screenings, p, day)
    decreases |remainingTitles|, 1
  {
    validPaths := [];
    var windowStart := day * MinutesPerDay + p.start;
    var windowEnd := day * MinutesPerDay + p.end;
    if windowEnd <= windowStart {
      windowEnd := windowEnd + MinutesPerDay;
    } else if p.end == AnyTimeEnd {
      windowEnd := windowEnd + LateGrace;
    }

    var i := 0;
    while i < |remainingTitles|
      invariant i <= |remainingTitles|
      invariant validPaths == ForTitles(currentPath, remainingTitles, screenings, p, day, i)
    {
      var title := remainingTitles[i];
      var potentialShows := Candidates(screenings, title, p.formats);
      var found := SearchShows(currentPath, remainingTitles, title, potentialShows, screenings, p, day,
                               windowStart, windowEnd);
      validPaths := validPaths + found;
      i := i + 1;
    }
  }

  /** The inner loop of `find_itineraries`: every candidate screening of `title`, in order. */
  method SearchShows(currentPath: seq<Screening>, remainingTitles: seq<string>, title: string,
                     potentialShows: seq<Screening>, screenings: seq<Screening>, p: Params, day: int,
                     windowStart: int, windowEnd: int)
    returns (found: seq<seq<Screening>>)
    requires title in remainingTitles && (windowStart, windowEnd) == Window(p, day)
    ensures found == ForShows(currentPath, remainingTitles, title, potentialShows, screenings, p, day, |potentialShows|)
    decreases |remainingTitles|, 0
  {
    found := [];
    var j := 0;
    while j < |potentialShows|
      invariant j <= |potentialShows|
      invariant found == ForShows(currentPath, remainingTitles, title, potentialShows, screenings, p, day, j)
    {
      var s := potentialShows[j];
      j := j + 1;
      var showStart := s.showtime;
      var showEnd := showStart + s.duration;
      if showStart < windowStart || showEnd > windowEnd {
        continue;
      }
      if currentPath != [] {
        var prev := currentPath[|currentPath| - 1];
        var prevEnd := prev.showtime + prev.duration;
        if p.fudge {
          prevEnd := prevEnd - FudgeMinutes;
        }
        var reqBuffer := if p.breakAfter == Some(|currentPath|) then p.longBuffer else p.buffer;
        if p.unlimited {
          if showStart < prev.showtime + UnlimitedSpacing {
            continue;
          }
        }
        if showStart < prevEnd + reqBuffer {
          continue;
        }
        if showStart - prevEnd > p.gapCap {
          continue;
        }
      }
      var newRem := Without(remainingTitles, title);
      var sub := FindItineraries(currentPath + [s], newRem, screenings, p, day);
      if sub == [] {
        found := found + [currentPath + [s]];
      } else {
        found := found + sub;
      }
    }
  }
}
