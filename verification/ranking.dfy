/**
 * Ranking and selection of the itineraries the search found: per-path metrics (preference
 * score, number of shows, idle minutes, identity), two stable orderings, and the choice of at
 * most three options to show.
 */
module Ranking {
  import opened Schedule

  /** The identity of a path: its (movie code, start) pairs in order. */
  type PathId = seq<(string, int)>

  /** One processed path with its metrics. */
  datatype Entry = Entry(path: seq<Screening>, priorityScore: nat, count: nat, gapTime: int, id: PathId)

  function Pow10(k: nat): (r: nat)
    ensures r >= 1
  {
    if k == 0 then 1 else 10 * Pow10(k - 1)
  }

  /** The weight of `t` in the preference list: 10^(n-1-i) for its position `i` among the `n`
      targets (the last position, should it occur twice), 0 for a title not in the list. */
  function Weight(targets: seq<string>, t: string): nat {
    if targets == [] then 0
    else if t in targets[1..] then Weight(targets[1..], t)
    else if targets[0] == t then Pow10(|targets| - 1)
    else 0
  }

  /** The sum of the weights of the titles of `path`. */
  function PriorityScore(targets: seq<string>, path: seq<Screening>): nat {
    if path == [] then 0 else Weight(targets, path[0].title) + PriorityScore(targets, path[1..])
  }

  /** Idle minutes: the sum, over consecutive shows, of the next start minus the previous end. */
  function GapTime(path: seq<Screening>): int {
    if |path| < 2 then 0 else (path[1].showtime - End(path[0])) + GapTime(path[1..])
  }

  function PathIdOf(path: seq<Screening>): (id: PathId)
    ensures |id| == |path|
    ensures forall i :: 0 <= i < |path| ==> id[i] == (path[i].masterCode, path[i].showtime)
  {
    seq(|path|, i requires 0 <= i < |path| => (path[i].masterCode, path[i].showtime))
  }

  /** Two paths have the same identity exactly when they have the same length and agree, show
      by show, on movie code and start; title, screen type and auditorium play no part. */
  lemma PathIdsEqual(a: seq<Screening>, b: seq<Screening>)
    ensures PathIdOf(a) == PathIdOf(b) <==>
              |a| == |b| && forall i :: 0 <= i < |a| ==> a[i].masterCode == b[i].masterCode && a[i].showtime == b[i].showtime
  {
    if PathIdOf(a) == PathIdOf(b) {
      forall i | 0 <= i < |a| ensures a[i].masterCode == b[i].masterCode && a[i].showtime == b[i].showtime {
        assert PathIdOf(a)[i] == PathIdOf(b)[i];
      }
    }
  }

  function Evaluate(targets: seq<string>, path: seq<Screening>): Entry {
    Entry(path, PriorityScore(targets, path), |path|, GapTime(path), PathIdOf(path))
  }

  /** The loop over the found paths that computes their metrics. */
  method ProcessPaths(paths: seq<seq<Screening>>, targets: seq<string>) returns (processed: seq<Entry>)
    ensures |processed| == |paths|
    ensures forall i :: 0 <= i < |paths| ==> processed[i] == Evaluate(targets, paths[i])
  {
    processed := [];
    var i := 0;
    while i < |paths|
      invariant i <= |paths| && |processed| == i
      invariant forall j :: 0 <= j < i ==> processed[j] == Evaluate(targets, paths[j])
    {
      var p := paths[i];
      var priorityScore := PriorityScore(targets, p);
      var gapTime := GapTime(p);
      processed := processed + [Entry(p, priorityScore, |p|, gapTime, PathIdOf(p))];
      i := i + 1;
    }
  }

  // ----- orderings -----

  datatype Order = ByPriority | ByCount

  /** The sort keys: (-priority_score, gap_time) and (-count, gap_time). */
  function Key(o: Order, e: Entry): (int, int) {
    match o
    case ByPriority => (0 - e.priorityScore, e.gapTime)
    case ByCount => (0 - e.count, e.gapTime)
  }

  /** Python's tuple comparison `x <= y` on two-element keys. */
  predicate KeyLe(x: (int, int), y: (int, int)) {
    x.0 < y.0 || (x.0 == y.0 && x.1 <= y.1)
  }

  predicate SortedBy(o: Order, s: seq<Entry>) {
    forall i, j :: 0 <= i < j < |s| ==> KeyLe(Key(o, s[i]), Key(o, s[j]))
  }

  /** The entries of `s` whose key is `k`, in order. */
  function WithKey(o: Order, s: seq<Entry>, k: (int, int)): seq<Entry> {
    if s == [] then []
    else WithKey(o, s[..|s| - 1], k) + (if Key(o, s[|s| - 1]) == k then [s[|s| - 1]] else [])
  }

  lemma {:induction false} WithKeyAppend(o: Order, a: seq<Entry>, b: seq<Entry>, k: (int, int))
    ensures WithKey(o, a + b, k) == WithKey(o, a, k) + WithKey(o, b, k)
  {
    if b != [] {
      WithKeyAppend(o, a, b[..|b| - 1], k);
      assert (a + b)[..|a + b| - 1] == a + b[..|b| - 1];
    } else {
      assert a + b == a;
    }
  }

  /** Places `e` into sorted `s` after every entry whose key is not greater than its own. */
  function Insert(o: Order, e: Entry, s: seq<Entry>): (r: seq<Entry>)
    requires SortedBy(o, s)
    ensures SortedBy(o, r)
    ensures multiset(r) == multiset(s) + multiset{e}
  {
    if s == [] then [e]
    else if KeyLe(Key(o, e), Key(o, s[0])) && Key(o, e) != Key(o, s[0]) then
      assert forall j :: 0 <= j < |s| ==> KeyLe(Key(o, e), Key(o, s[j]));
      [e] + s
    else
      var tail := Insert(o, e, s[1..]);
      InsertTailSorted(o, e, s, tail);
      [s[0]] + tail
  }

  /** Keeping `s[0]` in front of the insertion into the rest of `s` keeps the order. */
  lemma InsertTailSorted(o: Order, e: Entry, s: seq<Entry>, tail: seq<Entry>)
    requires SortedBy(o, s) && s != [] && KeyLe(Key(o, s[0]), Key(o, e))
    requires SortedBy(o, tail) && multiset(tail) == multiset(s[1..]) + multiset{e}
    ensures SortedBy(o, [s[0]] + tail)
    ensures multiset([s[0]] + tail) == multiset(s) + multiset{e}
  {
    assert s == [s[0]] + s[1..];
    forall j | 0 <= j < |tail| ensures KeyLe(Key(o, s[0]), Key(o, tail[j])) {
      assert tail[j] in multiset(tail);
      if tail[j] != e {
        assert tail[j] in multiset(s[1..]);
        var m :| 0 <= m < |s[1..]| && s[1..][m] == tail[j];
        assert s[m + 1] == tail[j];
      }
    }
    var r := [s[0]] + tail;
    assert forall j :: 0 < j < |r| ==> r[j] == tail[j - 1];
  }

  /** Python's stable `sorted(s, key=...)`. */
  function SortBy(o: Order, s: seq<Entry>): (r: seq<Entry>)
    ensures SortedBy(o, r)
    ensures multiset(r) == multiset(s)
  {
    if s == [] then []
    else
      assert s == s[..|s| - 1] + [s[|s| - 1]];
      Insert(o, s[|s| - 1], SortBy(o, s[..|s| - 1]))
  }

  lemma {:induction false} WithKeyNone(o: Order, s: seq<Entry>, k: (int, int))
    requires forall j :: 0 <= j < |s| ==> Key(o, s[j]) != k
    ensures WithKey(o, s, k) == []
  {
    if s != [] {
      WithKeyNone(o, s[..|s| - 1], k);
    }
  }

  lemma WithKeySingle(o: Order, e: Entry, k: (int, int))
    ensures WithKey(o, [e], k) == if Key(o, e) == k then [e] else []
  {
    assert [e][..0] == [];
  }

  lemma {:induction false} InsertStable(o: Order, e: Entry, s: seq<Entry>, k: (int, int))
    requires SortedBy(o, s)
    ensures WithKey(o, Insert(o, e, s), k) == WithKey(o, s, k) + (if Key(o, e) == k then [e] else [])
  {
    if s == [] {
      WithKeySingle(o, e, k);
      assert WithKey(o, s, k) == [];
    } else if KeyLe(Key(o, e), Key(o, s[0])) && Key(o, e) != Key(o, s[0]) {
      InsertStableFront(o, e, s, k);
    } else {
      SortedTail(o, s);
      InsertStable(o, e, s[1..], k);
      InsertStableSkip(o, e, s, k);
    }
  }

  lemma InsertStableSkip(o: Order, e: Entry, s: seq<Entry>, k: (int, int))
    requires SortedBy(o, s) && s != [] && SortedBy(o, s[1..])
    requires !(KeyLe(Key(o, e), Key(o, s[0])) && Key(o, e) != Key(o, s[0]))
    requires WithKey(o, Insert(o, e, s[1..]), k) == WithKey(o, s[1..], k) + (if Key(o, e) == k then [e] else [])
    ensures WithKey(o, Insert(o, e, s), k) == WithKey(o, s, k) + (if Key(o, e) == k then [e] else [])
  {
    var rest := s[1..];
    var t := Insert(o, e, rest);
    assert Insert(o, e, s) == [s[0]] + t;
    PrependKeepsKey(o, s[0], t, rest, k, if Key(o, e) == k then [e] else []);
    assert [s[0]] + rest == s;
  }

  lemma SortedTail(o: Order, s: seq<Entry>)
    requires SortedBy(o, s) && s != []
    ensures SortedBy(o, s[1..])
  {
    forall i, j | 0 <= i < j < |s| - 1 ensures KeyLe(Key(o, s[1..][i]), Key(o, s[1..][j])) {
      assert s[1..][i] == s[i + 1] && s[1..][j] == s[j + 1];
    }
  }

  lemma InsertStableFront(o: Order, e: Entry, s: seq<Entry>, k: (int, int))
    requires SortedBy(o, s) && s != []
    requires KeyLe(Key(o, e), Key(o, s[0])) && Key(o, e) != Key(o, s[0])
    ensures WithKey(o, Insert(o, e, s), k) == WithKey(o, s, k) + (if Key(o, e) == k then [e] else [])
  {
    assert Insert(o, e, s) == [e] + s;
    WithKeySingle(o, e, k);
    WithKeyAppend(o, [e], s, k);
    if Key(o, e) == k {
      forall j | 0 <= j < |s| ensures Key(o, s[j]) != k {
        assert KeyLe(Key(o, s[0]), Key(o, s[j]));
      }
      WithKeyNone(o, s, k);
    }
  }

  /** Putting the same entry in front of two lists keeps how their entries with key `k` relate. */
  lemma PrependKeepsKey(o: Order, x: Entry, t: seq<Entry>, u: seq<Entry>, k: (int, int), extra: seq<Entry>)
    requires WithKey(o, t, k) == WithKey(o, u, k) + extra
    ensures WithKey(o, [x] + t, k) == WithKey(o, [x] + u, k) + extra
  {
    WithKeyAppend(o, [x], t, k);
    WithKeyAppend(o, [x], u, k);
  }

  /** The sort is stable: the entries sharing a key keep their original relative order. */
  lemma {:induction false} SortStable(o: Order, s: seq<Entry>, k: (int, int))
    ensures WithKey(o, SortBy(o, s), k) == WithKey(o, s, k)
  {
    if s != [] {
      SortStable(o, s[..|s| - 1], k);
      InsertStable(o, s[|s| - 1], SortBy(o, s[..|s| - 1]), k);
    }
  }

  // ----- preference weights -----

  predicate Distinct(s: seq<string>) {
    forall i, j :: 0 <= i < j < |s| ==> s[i] != s[j]
  }

  /** The titles of a path, as a set. */
  function TitleSet(path: seq<Screening>): set<string> {
    set s | s in path :: s.title
  }

  lemma {:induction false} WeightAbsent(targets: seq<string>, t: string)
    requires t !in targets
    ensures Weight(targets, t) == 0
  {
    if targets != [] {
      WeightAbsent(targets[1..], t);
    }
  }

  /** With distinct targets, the title at index `i` weighs 10^(n-1-i). */
  lemma {:induction false} WeightAt(targets: seq<string>, i: int)
    requires Distinct(targets) && 0 <= i < |targets|
    ensures Weight(targets, targets[i]) == Pow10(|targets| - 1 - i)
  {
    if i > 0 {
      WeightAt(targets[1..], i - 1);
      assert targets[1..][i - 1] == targets[i];
    } else {
      assert targets[0] !in targets[1..];
    }
  }

  /** The preference score of a set of titles: the sum of 10^(n-1-i) over the targets it holds. */
  function ScoreOf(targets: seq<string>, titles: set<string>): nat {
    if targets == [] then 0
    else (if targets[0] in titles then Pow10(|targets| - 1) else 0) + ScoreOf(targets[1..], titles)
  }

  lemma {:induction false} ScoreOfNone(targets: seq<string>)
    ensures ScoreOf(targets, {}) == 0
  {
    if targets != [] {
      ScoreOfNone(targets[1..]);
    }
  }

  /** All the weights together stay below the next power of ten, so the weights of the titles
      after index `i` add up to less than the weight of the title at `i`. */
  lemma {:induction false} ScoreOfBound(targets: seq<string>, titles: set<string>)
    ensures ScoreOf(targets, titles) < Pow10(|targets|)
  {
    if targets != [] {
      ScoreOfBound(targets[1..], titles);
    }
  }

  lemma {:induction false} ScoreOfAdd(targets: seq<string>, titles: set<string>, x: string)
    requires Distinct(targets) && x !in titles
    ensures ScoreOf(targets, titles + {x}) == ScoreOf(targets, titles) + Weight(targets, x)
  {
    if targets != [] {
      ScoreOfAdd(targets[1..], titles, x);
      if targets[0] == x {
        assert x !in targets[1..];
        WeightAbsent(targets[1..], x);
      }
    }
  }

  /** For distinct targets and a path without repeated titles, the score of the path is the
      score of its set of titles. */
  lemma {:induction false} PriorityScoreOfTitles(targets: seq<string>, path: seq<Screening>)
    requires Distinct(targets)
    requires forall i, j :: 0 <= i < j < |path| ==> path[i].title != path[j].title
    ensures PriorityScore(targets, path) == ScoreOf(targets, TitleSet(path))
  {
    if path == [] {
      assert TitleSet(path) == {};
      ScoreOfNone(targets);
    } else {
      var rest := path[1..];
      PriorityScoreOfTitles(targets, rest);
      assert path[0].title !in TitleSet(rest) by {
        forall s | s in rest ensures s.title != path[0].title {
          var j :| 0 <= j < |rest| && rest[j] == s;
          assert path[j + 1] == s;
        }
      }
      assert TitleSet(path) == TitleSet(rest) + {path[0].title} by {
        assert path == [path[0]] + rest;
      }
      ScoreOfAdd(targets, TitleSet(rest), path[0].title);
    }
  }

  lemma {:induction false} ScoreOfDominance(targets: seq<string>, a: set<string>, b: set<string>, i: int)
    requires 0 <= i < |targets|
    requires targets[i] in a && targets[i] !in b
    requires forall j :: 0 <= j < i ==> (targets[j] in a <==> targets[j] in b)
    ensures ScoreOf(targets, a) > ScoreOf(targets, b)
  {
    if i == 0 {
      ScoreOfBound(targets[1..], b);
    } else {
      forall j | 0 <= j < i - 1 ensures targets[1..][j] in a <==> targets[1..][j] in b {
        assert targets[1..][j] == targets[j + 1];
      }
      ScoreOfDominance(targets[1..], a, b, i - 1);
    }
  }

  /** A path holding the preferred title at index `i` outscores any path that lacks it but agrees
      with it on every more preferred title. */
  lemma HigherPreferenceWins(targets: seq<string>, a: seq<Screening>, b: seq<Screening>, i: int)
    requires Distinct(targets) && 0 <= i < |targets|
    requires forall m, n :: 0 <= m < n < |a| ==> a[m].title != a[n].title
    requires forall m, n :: 0 <= m < n < |b| ==> b[m].title != b[n].title
    requires targets[i] in TitleSet(a) && targets[i] !in TitleSet(b)
    requires forall j :: 0 <= j < i ==> (targets[j] in TitleSet(a) <==> targets[j] in TitleSet(b))
    ensures PriorityScore(targets, a) > PriorityScore(targets, b)
  {
    PriorityScoreOfTitles(targets, a);
    PriorityScoreOfTitles(targets, b);
    ScoreOfDominance(targets, TitleSet(a), TitleSet(b), i);
  }

  // ----- idle time -----

  function TotalDuration(path: seq<Screening>): int {
    if path == [] then 0 else path[0].duration + TotalDuration(path[1..])
  }

  /** The idle minutes of a path are its span from first start to last start, less the running
      time of every show but the last. */
  lemma {:induction false} GapTimeTelescopes(path: seq<Screening>)
    requires |path| >= 1
    ensures GapTime(path) == path[|path| - 1].showtime - path[0].showtime - TotalDuration(path[..|path| - 1])
  {
    if |path| >= 2 {
      var rest := path[1..];
      GapTimeTelescopes(rest);
      assert path[..|path| - 1][1..] == rest[..|rest| - 1];
    } else {
      assert path[..0] == [];
    }
  }

  /** Paths whose consecutive shows do not overlap have no negative idle time. */
  lemma {:induction false} GapTimeNonNegative(path: seq<Screening>)
    requires forall k :: 1 <= k < |path| ==> path[k].showtime >= End(path[k - 1])
    ensures GapTime(path) >= 0
  {
    if |path| >= 2 {
      forall k | 1 <= k < |path| - 1 ensures path[1..][k].showtime >= End(path[1..][k - 1]) {
        assert path[1..][k] == path[k + 1];
      }
      GapTimeNonNegative(path[1..]);
    }
  }

  // ----- choosing the options -----

  const PriorityLabel: string := "Priority Match"
  const MarathonLabel: string := "Movie Marathon (Max Count)"

  function Ids(entries: seq<Entry>): set<PathId> {
    set e | e in entries :: e.id
  }

  /** The options lines 517-527 pick from the two orderings: the first two entries by priority,
      then the first entry by count if it has at least as many shows as the first by priority and
      is not already shown, otherwise the third entry by priority, if any. */
  function Selection(topPriority: seq<Entry>, topCount: seq<Entry>): seq<(Entry, string)>
    requires |topPriority| > 0 && |topCount| > 0
  {
    var k := if |topPriority| < 2 then |topPriority| else 2;
    var firsts := seq(k, i requires 0 <= i < k => (topPriority[i], PriorityLabel));
    if topCount[0].count >= topPriority[0].count && topCount[0].id !in Ids(topPriority[..k]) then
      firsts + [(topCount[0], MarathonLabel)]
    else if |topPriority| > 2 then
      firsts + [(topPriority[2], PriorityLabel)]
    else
      firsts
  }

  /** The selection loop of lines 517-527. */
  method SelectOptions(topPriority: seq<Entry>, topCount: seq<Entry>)
    returns (finalOptions: seq<(Entry, string)>)
    requires |topPriority| > 0 && |topCount| > 0
    ensures finalOptions == Selection(topPriority, topCount)
  {
    finalOptions := [];
    var seenIds: set<PathId> := {};
    var k := if |topPriority| < 2 then |topPriority| else 2;
    var i := 0;
    while i < k
      invariant i <= k && |finalOptions| == i
      invariant forall j :: 0 <= j < i ==> finalOptions[j] == (topPriority[j], PriorityLabel)
      invariant seenIds == Ids(topPriority[..i])
    {
      var entry := topPriority[i];
      finalOptions := finalOptions + [(entry, PriorityLabel)];
      seenIds := seenIds + {entry.id};
      assert topPriority[..i + 1] == topPriority[..i] + [entry];
      i := i + 1;
    }
    var maxPossibleCount := topCount[0].count;
    var p1Count := topPriority[0].count;
    if maxPossibleCount >= p1Count && topCount[0].id !in seenIds {
      finalOptions := finalOptions + [(topCount[0], MarathonLabel)];
    } else {
      if |topPriority| > 2 {
        finalOptions := finalOptions + [(topPriority[2], PriorityLabel)];
      }
    }
  }

  /** The options shown for a non-empty list of processed paths. */
  function Options(entries: seq<Entry>): seq<(Entry, string)>
    requires entries != []
  {
    SortFirstLeast(ByPriority, entries);
    SortFirstLeast(ByCount, entries);
    Selection(SortBy(ByPriority, entries), SortBy(ByCount, entries))
  }

  /** Sorting keeps exactly the entries it was given. */
  lemma SortMembers(o: Order, s: seq<Entry>)
    ensures forall e :: e in SortBy(o, s) <==> e in s
  {
    var r := SortBy(o, s);
    forall e ensures e in r <==> e in s {
      assert e in r <==> e in multiset(r);
      assert e in s <==> e in multiset(s);
    }
  }

  /** The first entry of a sorted list has the least key of all the entries. */
  lemma SortFirstLeast(o: Order, s: seq<Entry>)
    requires s != []
    ensures |SortBy(o, s)| == |s|
    ensures forall e :: e in s ==> KeyLe(Key(o, SortBy(o, s)[0]), Key(o, e))
  {
    var r := SortBy(o, s);
    assert |r| == |multiset(r)| == |multiset(s)| == |s|;
    SortMembers(o, s);
    forall e | e in s ensures KeyLe(Key(o, r[0]), Key(o, e)) {
      assert e in r;
      var m :| 0 <= m < |r| && r[m] == e;
      if m > 0 {
        assert KeyLe(Key(o, r[0]), Key(o, r[m]));
      }
    }
  }

  /** `r` is `s` put in order `o`: as long as `s`, sorted, with exactly the entries of `s`. */
  ghost predicate Ordering(o: Order, s: seq<Entry>, r: seq<Entry>) {
    && |r| == |s|
    && SortedBy(o, r)
    && (forall e :: e in r <==> e in s)
  }

  lemma SortOrdering(o: Order, s: seq<Entry>)
    ensures Ordering(o, s, SortBy(o, s))
  {
    var r := SortBy(o, s);
    assert |r| == |multiset(r)| == |multiset(s)| == |s|;
    SortMembers(o, s);
  }

  /** The options of `s` are the selection from its two orderings. */
  lemma OptionsAre(s: seq<Entry>)
    requires s != []
    ensures var tp, tc := SortBy(ByPriority, s), SortBy(ByCount, s);
            && Ordering(ByPriority, s, tp) && Ordering(ByCount, s, tc)
            && Options(s) == Selection(tp, tc)
  {
    SortOrdering(ByPriority, s);
    SortOrdering(ByCount, s);
  }

  /** The count test at line 524 always holds: the first entry by count has at least as many
      shows as the first entry by priority. */
  lemma MarathonCountTestHolds(s: seq<Entry>)
    requires s != []
    ensures SortBy(ByCount, s)[0].count >= SortBy(ByPriority, s)[0].count
  {
    OptionsAre(s);
    CountTestHolds(s, SortBy(ByPriority, s), SortBy(ByCount, s));
  }

  lemma CountTestHolds(s: seq<Entry>, tp: seq<Entry>, tc: seq<Entry>)
    requires s != [] && Ordering(ByPriority, s, tp) && Ordering(ByCount, s, tc)
    ensures tc[0].count >= tp[0].count
  {
    assert tp[0] in s;
    assert tp[0] in tc;
    var m :| 0 <= m < |tc| && tc[m] == tp[0];
    if m > 0 {
      assert KeyLe(Key(ByCount, tc[0]), Key(ByCount, tc[m]));
    }
  }

  /** One option per path, up to three. */
  lemma OptionsSize(s: seq<Entry>)
    requires s != []
    ensures |Options(s)| == if |s| < 3 then |s| else 3
  {
    OptionsAre(s);
    SelectionSize(s, SortBy(ByPriority, s), SortBy(ByCount, s));
  }

  lemma SelectionSize(s: seq<Entry>, tp: seq<Entry>, tc: seq<Entry>)
    requires s != [] && Ordering(ByPriority, s, tp) && Ordering(ByCount, s, tc)
    ensures |Selection(tp, tc)| == if |s| < 3 then |s| else 3
  {
    if |s| <= 2 {
      assert tc[0] in tp;
      var k := if |tp| < 2 then |tp| else 2;
      assert tp[..k] == tp;
      assert tc[0].id in Ids(tp[..k]);
    }
  }

  /** The shape of a selection: the first entries by priority, then at most one more. */
  lemma SelectionShape(tp: seq<Entry>, tc: seq<Entry>)
    requires |tp| > 0 && |tc| > 0
    ensures var k := if |tp| < 2 then |tp| else 2;
            var r := Selection(tp, tc);
            && k <= |r| <= k + 1
            && (forall i :: 0 <= i < k ==> r[i] == (tp[i], PriorityLabel))
            && (|r| == k + 1 ==> r[k] == (tc[0], MarathonLabel) || (k == 2 && r[k] == (tp[2], PriorityLabel)))
  {
  }

  /** Every option is one of the processed paths; only the third may be labelled as the
      marathon. */
  lemma OptionsFromEntries(s: seq<Entry>)
    requires s != []
    ensures forall i :: 0 <= i < |Options(s)| ==> Options(s)[i].0 in s
    ensures forall i :: 0 <= i < |Options(s)| && i != 2 ==> Options(s)[i].1 == PriorityLabel
    ensures forall i :: 0 <= i < |Options(s)| ==> Options(s)[i].1 in {PriorityLabel, MarathonLabel}
  {
    OptionsAre(s);
    SelectionFromEntries(s, SortBy(ByPriority, s), SortBy(ByCount, s));
  }

  lemma SelectionFromEntries(s: seq<Entry>, tp: seq<Entry>, tc: seq<Entry>)
    requires s != [] && Ordering(ByPriority, s, tp) && Ordering(ByCount, s, tc)
    ensures var r := Selection(tp, tc);
            && (forall i :: 0 <= i < |r| ==> r[i].0 in s)
            && (forall i :: 0 <= i < |r| && i != 2 ==> r[i].1 == PriorityLabel)
            && (forall i :: 0 <= i < |r| ==> r[i].1 in {PriorityLabel, MarathonLabel})
  {
    var r := Selection(tp, tc);
    SelectionShape(tp, tc);
    forall i | 0 <= i < |r| ensures r[i].0 in s {
      assert r[i].0 == tc[0] || r[i].0 in tp;
    }
  }

  /** The first option has the highest preference score, and the fewest idle minutes among
      those with that score. */
  lemma OptionsFirstIsBest(s: seq<Entry>)
    requires s != []
    ensures |Options(s)| > 0
    ensures forall e :: e in s ==> KeyLe(Key(ByPriority, Options(s)[0].0), Key(ByPriority, e))
  {
    OptionsAre(s);
    var tp := SortBy(ByPriority, s);
    SelectionShape(tp, SortBy(ByCount, s));
    FirstLeast(ByPriority, s, tp);
  }

  /** The first entry of an ordering has the least key of all the entries. */
  lemma FirstLeast(o: Order, s: seq<Entry>, r: seq<Entry>)
    requires s != [] && Ordering(o, s, r)
    ensures forall e :: e in s ==> KeyLe(Key(o, r[0]), Key(o, e))
  {
    forall e | e in s ensures KeyLe(Key(o, r[0]), Key(o, e)) {
      assert e in r;
      var m :| 0 <= m < |r| && r[m] == e;
      if m > 0 {
        assert KeyLe(Key(o, r[0]), Key(o, r[m]));
      }
    }
  }

  /** The options labelled by priority come in priority order, after everything before them. */
  lemma OptionsPriorityOrdered(s: seq<Entry>)
    requires s != []
    ensures forall i, m :: 0 <= i < m < |Options(s)| && Options(s)[m].1 == PriorityLabel ==>
              KeyLe(Key(ByPriority, Options(s)[i].0), Key(ByPriority, Options(s)[m].0))
  {
    OptionsAre(s);
    SelectionPriorityOrdered(s, SortBy(ByPriority, s), SortBy(ByCount, s));
  }

  lemma SelectionPriorityOrdered(s: seq<Entry>, tp: seq<Entry>, tc: seq<Entry>)
    requires s != [] && Ordering(ByPriority, s, tp) && Ordering(ByCount, s, tc)
    ensures var r := Selection(tp, tc);
            forall i, m :: 0 <= i < m < |r| && r[m].1 == PriorityLabel ==>
              KeyLe(Key(ByPriority, r[i].0), Key(ByPriority, r[m].0))
  {
    var r := Selection(tp, tc);
    SelectionShape(tp, tc);
    forall i, m | 0 <= i < m < |r| && r[m].1 == PriorityLabel
      ensures KeyLe(Key(ByPriority, r[i].0), Key(ByPriority, r[m].0))
    {
      assert |PriorityLabel| != |MarathonLabel|;
      assert r[m].0 == tp[m] && r[i].0 == tp[i];
    }
  }

  /** An option labelled as the marathon has the most shows of all paths, and the fewest idle
      minutes among those with that many. */
  lemma OptionsMarathonHasMost(s: seq<Entry>)
    requires s != []
    ensures forall i :: 0 <= i < |Options(s)| && Options(s)[i].1 == MarathonLabel ==>
              forall e :: e in s ==> KeyLe(Key(ByCount, Options(s)[i].0), Key(ByCount, e))
  {
    OptionsAre(s);
    var tp, tc := SortBy(ByPriority, s), SortBy(ByCount, s);
    FirstLeast(ByCount, s, tc);
    SelectionMarathon(tp, tc);
  }

  /** Only the first entry by count is ever labelled as the marathon. */
  lemma SelectionMarathon(tp: seq<Entry>, tc: seq<Entry>)
    requires |tp| > 0 && |tc| > 0
    ensures forall i :: 0 <= i < |Selection(tp, tc)| && Selection(tp, tc)[i].1 == MarathonLabel ==>
              Selection(tp, tc)[i].0 == tc[0]
  {
    var r := Selection(tp, tc);
    SelectionShape(tp, tc);
    forall i | 0 <= i < |r| && r[i].1 == MarathonLabel ensures r[i].0 == tc[0] {
      assert |PriorityLabel| != |MarathonLabel|;
    }
  }

  /** The marathon option is never a path already shown: its identity differs from that of
      every option before it. */
  lemma OptionsMarathonIsNew(s: seq<Entry>)
    requires s != []
    ensures forall i, j :: 0 <= j < i < |Options(s)| && Options(s)[i].1 == MarathonLabel ==>
              Options(s)[j].0.id != Options(s)[i].0.id
  {
    OptionsAre(s);
    SelectionMarathonIsNew(SortBy(ByPriority, s), SortBy(ByCount, s));
  }

  lemma SelectionMarathonIsNew(tp: seq<Entry>, tc: seq<Entry>)
    requires |tp| > 0 && |tc| > 0
    ensures var r := Selection(tp, tc);
            forall i, j :: 0 <= j < i < |r| && r[i].1 == MarathonLabel ==> r[j].0.id != r[i].0.id
  {
    var r := Selection(tp, tc);
    var k := if |tp| < 2 then |tp| else 2;
    SelectionShape(tp, tc);
    forall i, j | 0 <= j < i < |r| && r[i].1 == MarathonLabel ensures r[j].0.id != r[i].0.id {
      assert |PriorityLabel| != |MarathonLabel|;
      assert i == k && r[i].0 == tc[0];
      assert tc[0].id !in Ids(tp[..k]);
      assert r[j].0 == tp[..k][j];
    }
  }

  /** When the identity of a path determines its length, and some path has more shows than
      both priority picks, the third option is the marathon. */
  lemma OptionsMarathonWhenLonger(s: seq<Entry>, e: Entry)
    requires |s| >= 3 && e in s
    requires forall x :: x in s ==> |x.id| == x.count
    requires |Options(s)| == 3
    requires e.count > Options(s)[0].0.count && e.count > Options(s)[1].0.count
    ensures Options(s)[2].1 == MarathonLabel
  {
    OptionsAre(s);
    var tp, tc := SortBy(ByPriority, s), SortBy(ByCount, s);
    SelectionShape(tp, tc);
    FirstLeast(ByCount, s, tc);
    CountTestHolds(s, tp, tc);
    SelectionMarathonWhenLonger(s, tp, tc, e);
  }

  lemma SelectionMarathonWhenLonger(s: seq<Entry>, tp: seq<Entry>, tc: seq<Entry>, e: Entry)
    requires |s| >= 3 && e in s && Ordering(ByPriority, s, tp) && Ordering(ByCount, s, tc)
    requires forall x :: x in s ==> |x.id| == x.count
    requires tc[0].count >= tp[0].count
    requires KeyLe(Key(ByCount, tc[0]), Key(ByCount, e))
    requires e.count > tp[0].count && e.count > tp[1].count
    ensures |Selection(tp, tc)| == 3 && Selection(tp, tc)[2].1 == MarathonLabel
  {
    assert tc[0] in s && tp[0] in s && tp[1] in s;
    assert tc[0].id !in Ids(tp[..2]) by {
      forall x | x in tp[..2] ensures x.id != tc[0].id {
        assert x == tp[0] || x == tp[1];
      }
    }
  }

  /** The paths, evaluated. */
  function Evaluations(targets: seq<string>, paths: seq<seq<Screening>>): (r: seq<Entry>)
    ensures |r| == |paths|
    ensures forall x :: x in r ==> |x.id| == x.count
  {
    seq(|paths|, i requires 0 <= i < |paths| => Evaluate(targets, paths[i]))
  }

  /** Lines 501-527: no options when the search found nothing; otherwise evaluate the found
      paths, order them twice and pick the options. */
  method RankAndSelect(paths: seq<seq<Screening>>, targets: seq<string>)
    returns (finalOptions: seq<(Entry, string)>)
    ensures paths == [] ==> finalOptions == []
    ensures paths != [] ==> finalOptions == Options(Evaluations(targets, paths))
  {
    if |paths| == 0 {
      return [];
    }
    var processed := ProcessPaths(paths, targets);
    assert processed == Evaluations(targets, paths);
    var topPriority := SortBy(ByPriority, processed);
    var topCount := SortBy(ByCount, processed);
    SortFirstLeast(ByPriority, processed);
    SortFirstLeast(ByCount, processed);
    finalOptions := SelectOptions(topPriority, topCount);
  }
}
