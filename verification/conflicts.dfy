/**
 * The conflict report: for every requested title an itinerary leaves out, one line saying why —
 * no screening of an allowed format, the first clash of one of its screenings with a show of the
 * itinerary, or no fit at all.
 */
module Conflicts {
  import opened CivilTime
  import opened Schedule

  /** The three characters the report line starts with (the cross mark of the original page,
      as its source text spells it). */
  const Mark: string := "\U{201A}\U{00F9}\U{00E5}"
  const NoFormatMatch: string := "No screenings match your selected formats."
  const NoFit: string := "No screenings fit your window."

  /** `ms` and `ps` share some minute: the half-open intervals [start, end) intersect. */
  predicate Overlaps(ms: Screening, ps: Screening) {
    !(End(ms) <= ps.showtime || ms.showtime >= End(ps))
  }

  function OverlapMessage(ms: Screening, ps: Screening): string {
    "The " + Clock12(ms.showtime % MinutesPerDay) + " show overlaps with **" + ps.title + "**."
  }

  /** The first show of `path` that `ms` overlaps, if any. */
  function FirstOverlap(ms: Screening, path: seq<Screening>): Option<Screening> {
    if path == [] then None
    else if Overlaps(ms, path[0]) then Some(path[0])
    else FirstOverlap(ms, path[1..])
  }

  /** One reason per screening of `shows` that overlaps a show of `path`, in order. */
  function Reasons(shows: seq<Screening>, path: seq<Screening>): seq<string> {
    if shows == [] then []
    else
      var ms := shows[|shows| - 1];
      Reasons(shows[..|shows| - 1], path)
      + (match FirstOverlap(ms, path) case Some(ps) => [OverlapMessage(ms, ps)] case None => [])
  }

  /** The reason given for a missing title whose allowed screenings are `shows`. */
  function Reason(shows: seq<Screening>, path: seq<Screening>): string {
    if shows == [] then NoFormatMatch
    else
      var rs := Reasons(shows, path);
      if rs == [] then NoFit else rs[0]
  }

  function ConflictLine(title: string, reason: string): string {
    Mark + " **" + title + "**: " + reason
  }

  /** The report lines for `missing`, one per title in order. */
  function Report(path: seq<Screening>, missing: seq<string>, all: seq<Screening>, p: Params): seq<string> {
    seq(|missing|, i requires 0 <= i < |missing| =>
      ConflictLine(missing[i], Reason(Candidates(all, missing[i], p.formats), path)))
  }

  /** The innermost loop of lines 280-284: the first show of `path` that `ms` overlaps. */
  method ScanPath(ms: Screening, path: seq<Screening>) returns (found: Option<Screening>)
    ensures found == FirstOverlap(ms, path)
  {
    var k := 0;
    while k < |path|
      invariant k <= |path|
      invariant FirstOverlap(ms, path) == FirstOverlap(ms, path[k..])
    {
      var ps := path[k];
      if Overlaps(ms, ps) {
        return Some(ps);
      }
      assert path[k..][1..] == path[k + 1..];
      k := k + 1;
    }
    return None;
  }

  /** Lines 275-285: the reasons collected for one missing title. */
  method CollectReasons(mShows: seq<Screening>, path: seq<Screening>) returns (reasons: seq<string>)
    ensures mShows == [] ==> reasons == [NoFormatMatch]
    ensures mShows != [] ==> reasons == Reasons(mShows, path)
  {
    reasons := [];
    if mShows == [] {
      reasons := reasons + [NoFormatMatch];
    } else {
      var j := 0;
      while j < |mShows|
        invariant j <= |mShows|
        invariant reasons == Reasons(mShows[..j], path)
      {
        var ms := mShows[j];
        var found := ScanPath(ms, path);
        if found.Some? {
          reasons := reasons + [OverlapMessage(ms, found.value)];
        }
        assert mShows[..j + 1][..j] == mShows[..j];
        j := j + 1;
      }
      assert mShows[..j] == mShows;
    }
  }

  /** Lines 272-287. */
  method ConflictReport(path: seq<Screening>, missingTitles: seq<string>, allScreenings: seq<Screening>, p: Params)
    returns (conflicts: seq<string>)
    ensures conflicts == Report(path, missingTitles, allScreenings, p)
  {
    conflicts := [];
    var i := 0;
    while i < |missingTitles|
      invariant i <= |missingTitles| && |conflicts| == i
      invariant forall j :: 0 <= j < i ==>
                  conflicts[j] == ConflictLine(missingTitles[j], Reason(Candidates(allScreenings, missingTitles[j], p.formats), path))
    {
      var mTitle := missingTitles[i];
      var mShows := Candidates(allScreenings, mTitle, p.formats);
      var reasons := CollectReasons(mShows, path);
      var reason := if reasons != [] then reasons[0] else NoFit;
      assert reason == Reason(mShows, path);
      conflicts := conflicts + [ConflictLine(mTitle, reason)];
      i := i + 1;
    }
    ReportIs(path, missingTitles, allScreenings, p, conflicts);
  }

  lemma ReportIs(path: seq<Screening>, missing: seq<string>, all: seq<Screening>, p: Params, lines: seq<string>)
    requires |lines| == |missing|
    requires forall j :: 0 <= j < |missing| ==>
               lines[j] == ConflictLine(missing[j], Reason(Candidates(all, missing[j], p.formats), path))
    ensures lines == Report(path, missing, all, p)
  {
  }

  // ----- what the report says -----

  lemma {:induction false} FirstOverlapNone(ms: Screening, path: seq<Screening>)
    ensures FirstOverlap(ms, path) == None <==> forall q :: 0 <= q < |path| ==> !Overlaps(ms, path[q])
  {
    if path != [] {
      FirstOverlapNone(ms, path[1..]);
      assert forall q :: 1 <= q < |path| ==> path[q] == path[1..][q - 1];
    }
  }

  /** The show named is the first one of the path that overlaps. */
  lemma {:induction false} FirstOverlapAt(ms: Screening, path: seq<Screening>, q: int)
    requires 0 <= q < |path| && Overlaps(ms, path[q])
    requires forall q' :: 0 <= q' < q ==> !Overlaps(ms, path[q'])
    ensures FirstOverlap(ms, path) == Some(path[q])
  {
    if q > 0 {
      assert !Overlaps(ms, path[0]);
      forall q' | 0 <= q' < q - 1 ensures !Overlaps(ms, path[1..][q']) {
        assert path[1..][q'] == path[q' + 1];
      }
      FirstOverlapAt(ms, path[1..], q - 1);
    }
  }

  lemma {:induction false} ReasonsEmpty(shows: seq<Screening>, path: seq<Screening>)
    ensures Reasons(shows, path) == [] <==>
              forall i, q :: 0 <= i < |shows| && 0 <= q < |path| ==> !Overlaps(shows[i], path[q])
  {
    if shows != [] {
      var init := shows[..|shows| - 1];
      ReasonsEmpty(init, path);
      FirstOverlapNone(shows[|shows| - 1], path);
      assert forall i :: 0 <= i < |init| ==> init[i] == shows[i];
    }
  }

  /** The first reason is about the first screening that overlaps anything. */
  lemma {:induction false} ReasonsFirst(shows: seq<Screening>, path: seq<Screening>, i: int)
    requires 0 <= i < |shows| && FirstOverlap(shows[i], path).Some?
    requires forall i' :: 0 <= i' < i ==> FirstOverlap(shows[i'], path) == None
    ensures Reasons(shows, path) != []
    ensures Reasons(shows, path)[0] == OverlapMessage(shows[i], FirstOverlap(shows[i], path).value)
  {
    var init := shows[..|shows| - 1];
    if i < |shows| - 1 {
      assert init[i] == shows[i];
      assert forall i' :: 0 <= i' < i ==> init[i'] == shows[i'];
      ReasonsFirst(init, path, i);
    } else {
      forall i', q | 0 <= i' < |init| && 0 <= q < |path| ensures !Overlaps(init[i'], path[q]) {
        assert init[i'] == shows[i'];
        FirstOverlapNone(shows[i'], path);
      }
      ReasonsEmpty(init, path);
    }
  }

  lemma {:induction false} ReasonsAreOverlaps(shows: seq<Screening>, path: seq<Screening>)
    ensures forall r :: r in Reasons(shows, path) ==> |r| > 0 && r[0] == 'T'
  {
    if shows != [] {
      ReasonsAreOverlaps(shows[..|shows| - 1], path);
    }
  }

  /** A title gets the formats message exactly when none of its screenings has an allowed
      screen type. */
  lemma ReasonNoFormat(shows: seq<Screening>, path: seq<Screening>)
    ensures Reason(shows, path) == NoFormatMatch <==> shows == []
  {
    if shows != [] {
      var rs := Reasons(shows, path);
      assert |NoFit| != |NoFormatMatch|;
      if rs != [] {
        ReasonsAreOverlaps(shows, path);
        assert rs[0] in rs;
        assert NoFormatMatch[0] == 'N';
      }
    }
  }

  /** A title with allowed screenings gets the "no fit" message exactly when none of them
      overlaps any show of the itinerary. */
  lemma ReasonNoFit(shows: seq<Screening>, path: seq<Screening>)
    requires shows != []
    ensures Reason(shows, path) == NoFit <==>
              forall i, q :: 0 <= i < |shows| && 0 <= q < |path| ==> !Overlaps(shows[i], path[q])
  {
    ReasonsEmpty(shows, path);
    var rs := Reasons(shows, path);
    if rs != [] {
      ReasonsAreOverlaps(shows, path);
      assert rs[0] in rs;
      assert NoFit[0] == 'N';
    }
  }

  /** Otherwise the message names the first screening, in catalogue order, that overlaps a
      show of the itinerary, and the first show of the itinerary it overlaps. */
  lemma ReasonOverlap(shows: seq<Screening>, path: seq<Screening>, i: int, q: int)
    requires 0 <= i < |shows| && 0 <= q < |path| && Overlaps(shows[i], path[q])
    requires forall i', q' :: 0 <= i' < i && 0 <= q' < |path| ==> !Overlaps(shows[i'], path[q'])
    requires forall q' :: 0 <= q' < q ==> !Overlaps(shows[i], path[q'])
    ensures Reason(shows, path) == OverlapMessage(shows[i], path[q])
  {
    FirstOverlapAt(shows[i], path, q);
    forall i' | 0 <= i' < i ensures FirstOverlap(shows[i'], path) == None {
      FirstOverlapNone(shows[i'], path);
    }
    ReasonsFirst(shows, path, i);
  }

  /** Each report line names its title and can be split back into title and reason. */
  lemma ReportLines(path: seq<Screening>, missing: seq<string>, all: seq<Screening>, p: Params, i: int)
    requires 0 <= i < |missing|
    ensures |Report(path, missing, all, p)| == |missing|
    ensures var line := Report(path, missing, all, p)[i];
            var head := Mark + " **" + missing[i] + "**: ";
            && head <= line
            && line[|head|..] == Reason(Candidates(all, missing[i], p.formats), path)
  {
  }
}
