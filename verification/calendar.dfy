/**
 * The calendar export: an itinerary rendered as an iCalendar text with one event per show.
 */
module Calendar {
  import opened CivilTime
  import opened Schedule
  import opened Text

  const Header: seq<string> :=
    ["BEGIN:VCALENDAR", "VERSION:2.0", "PRODID:-//Regal Pro//EN", "CALSCALE:GREGORIAN", "METHOD:PUBLISH"]
  const Footer: string := "END:VCALENDAR"

  /** Every show of the path ends before the last minute a stamp can render. */
  predicate Renderable(path: seq<Screening>) {
    forall k :: 0 <= k < |path| ==> End(path[k]) < MaxMinute
  }

  /** The six lines of the event for show `s`. */
  function EventLines(s: Screening, theaterName: string): seq<string>
    requires End(s) < MaxMinute
  {
    [ "BEGIN:VEVENT",
      "DTSTART:" + Stamp(s.showtime),
      "DTEND:" + Stamp(End(s)),
      "SUMMARY:" + s.title + " (" + s.screenType + ")",
      "LOCATION:" + theaterName + " - Audi " + s.auditorium,
      "END:VEVENT" ]
  }

  /** The blocks of lines one after the other. */
  function Concat(blocks: seq<seq<string>>): seq<string> {
    if blocks == [] then [] else Concat(blocks[..|blocks| - 1]) + blocks[|blocks| - 1]
  }

  /** The event of each show, in itinerary order. */
  function Blocks(path: seq<Screening>, theaterName: string): (r: seq<seq<string>>)
    requires Renderable(path)
    ensures |r| == |path|
  {
    seq(|path|, k requires 0 <= k < |path| && End(path[k]) < MaxMinute => EventLines(path[k], theaterName))
  }

  function Events(path: seq<Screening>, theaterName: string): (r: seq<string>)
    requires Renderable(path)
    ensures |r| == 6 * |path|
  {
    var blocks := Blocks(path, theaterName);
    ConcatLength(blocks);
    Concat(blocks)
  }

  function IcsLines(path: seq<Screening>, theaterName: string): seq<string>
    requires Renderable(path)
  {
    Header + Events(path, theaterName) + [Footer]
  }

  /** The lines of one event, lines 237-239: a `BEGIN:VEVENT`/`END:VEVENT` pair around stamps
      that read back as the show's start and end. */
  method EventFor(s: Screening, theaterName: string) returns (event: seq<string>)
    requires End(s) < MaxMinute
    ensures event == EventLines(s, theaterName)
    ensures |event| == 6 && event[0] == "BEGIN:VEVENT" && event[5] == "END:VEVENT"
    ensures |event[1]| == 23 && event[1][..8] == "DTSTART:" && ParseStamp(event[1][8..]) == s.showtime
    ensures |event[2]| == 21 && event[2][..6] == "DTEND:" && ParseStamp(event[2][6..]) == End(s)
  {
    EventStamps(s, theaterName);
    var startT := Stamp(s.showtime);
    var endT := Stamp(s.showtime + s.duration);
    event := ["BEGIN:VEVENT", "DTSTART:" + startT, "DTEND:" + endT,
              "SUMMARY:" + s.title + " (" + s.screenType + ")",
              "LOCATION:" + theaterName + " - Audi " + s.auditorium, "END:VEVENT"];
  }

  /** The loop of lines 236-239. */
  method EventBlock(path: seq<Screening>, theaterName: string) returns (lines: seq<string>)
    requires Renderable(path)
    ensures lines == Events(path, theaterName)
  {
    lines := [];
    var i := 0;
    while i < |path|
      invariant i <= |path|
      invariant lines == Events(path[..i], theaterName)
    {
      var event := EventFor(path[i], theaterName);
      EventsStep(path, theaterName, i);
      lines := lines + event;
      i := i + 1;
    }
    assert path[..i] == path;
  }

  /** Lines 234-241. */
  method GenerateIcs(path: seq<Screening>, theaterName: string) returns (ics: string)
    requires Renderable(path)
    ensures ics == Join(IcsLines(path, theaterName), "\n")
  {
    var icsLines := Header;
    var events := EventBlock(path, theaterName);
    icsLines := icsLines + events;
    icsLines := icsLines + [Footer];
    ics := Join(icsLines, "\n");
  }

  // ----- what the text holds -----

  /** Six lines per block make six lines per block in the concatenation. */
  lemma {:induction false} ConcatLength(blocks: seq<seq<string>>)
    requires forall k :: 0 <= k < |blocks| ==> |blocks[k]| == 6
    ensures |Concat(blocks)| == 6 * |blocks|
  {
    if blocks != [] {
      ConcatLength(blocks[..|blocks| - 1]);
    }
  }

  lemma ConcatSnoc(blocks: seq<seq<string>>, b: seq<string>)
    ensures Concat(blocks + [b]) == Concat(blocks) + b
  {
    assert (blocks + [b])[..|blocks|] == blocks;
  }

  /** Block `i` sits at lines 6i .. 6i+5 of the concatenation. */
  lemma {:induction false} ConcatAt(blocks: seq<seq<string>>, i: int)
    requires forall k :: 0 <= k < |blocks| ==> |blocks[k]| == 6
    requires 0 <= i < |blocks|
    ensures |Concat(blocks)| == 6 * |blocks|
    ensures Concat(blocks)[6 * i .. 6 * i + 6] == blocks[i]
  {
    var init := blocks[..|blocks| - 1];
    var front := Concat(init);
    ConcatLength(init);
    if i < |init| {
      ConcatAt(init, i);
      assert (front + blocks[|init|])[6 * i .. 6 * i + 6] == front[6 * i .. 6 * i + 6];
    } else {
      assert (front + blocks[i])[6 * i .. 6 * i + 6] == blocks[i];
    }
  }

  lemma EventsStep(path: seq<Screening>, theaterName: string, i: int)
    requires Renderable(path) && 0 <= i < |path|
    ensures Renderable(path[..i]) && Renderable(path[..i + 1])
    ensures Events(path[..i + 1], theaterName) == Events(path[..i], theaterName) + EventLines(path[i], theaterName)
  {
    var all := Blocks(path, theaterName);
    BlocksPrefix(path, theaterName, i);
    BlocksPrefix(path, theaterName, i + 1);
    assert all[..i + 1] == all[..i] + [all[i]];
    ConcatSnoc(all[..i], all[i]);
  }

  lemma BlocksPrefix(path: seq<Screening>, theaterName: string, n: int)
    requires Renderable(path) && 0 <= n <= |path|
    ensures Renderable(path[..n]) && Blocks(path[..n], theaterName) == Blocks(path, theaterName)[..n]
  {
  }

  /** The event of show `i` sits at lines 6i .. 6i+5 of the events. */
  lemma EventsAt(path: seq<Screening>, theaterName: string, i: int)
    requires Renderable(path) && 0 <= i < |path|
    ensures Events(path, theaterName)[6 * i .. 6 * i + 6] == EventLines(path[i], theaterName)
  {
    ConcatAt(Blocks(path, theaterName), i);
  }

  /** The calendar has five header lines, six lines per show and a closing line. */
  lemma IcsShape(path: seq<Screening>, theaterName: string)
    requires Renderable(path)
    ensures |IcsLines(path, theaterName)| == 6 + 6 * |path|
    ensures IcsLines(path, theaterName)[..5] == Header
    ensures IcsLines(path, theaterName)[5 + 6 * |path|] == Footer
  {
    var ev := Events(path, theaterName);
    assert (Header + ev + [Footer])[..5] == Header;
  }

  /** The event of show `i` sits at lines 5 + 6i .. 10 + 6i. */
  lemma IcsLayout(path: seq<Screening>, theaterName: string, i: int)
    requires Renderable(path) && 0 <= i < |path|
    ensures |IcsLines(path, theaterName)| == 6 + 6 * |path|
    ensures IcsLines(path, theaterName)[5 + 6 * i .. 11 + 6 * i] == EventLines(path[i], theaterName)
  {
    var ev := Events(path, theaterName);
    EventsAt(path, theaterName, i);
    Framed(Header, ev, [Footer], 6 * i, 6 * i + 6);
  }

  lemma Framed(head: seq<string>, middle: seq<string>, tail: seq<string>, lo: int, hi: int)
    requires 0 <= lo <= hi <= |middle|
    ensures (head + middle + tail)[|head| + lo .. |head| + hi] == middle[lo..hi]
    ensures (head + middle + tail)[..|head|] == head
  {
  }

  /** The start and end stamps of each event read back as the show's start and end. */
  lemma StampsReadBack(path: seq<Screening>, theaterName: string, i: int)
    requires Renderable(path) && 0 <= i < |path|
    ensures var lines := IcsLines(path, theaterName);
            var start, end := lines[6 + 6 * i], lines[7 + 6 * i];
            && |start| == 23 && start[..8] == "DTSTART:" && ParseStamp(start[8..]) == path[i].showtime
            && |end| == 21 && end[..6] == "DTEND:" && ParseStamp(end[6..]) == End(path[i])
  {
    IcsLayout(path, theaterName, i);
    EventStamps(path[i], theaterName);
    var lines := IcsLines(path, theaterName);
    var ev := EventLines(path[i], theaterName);
    assert lines[6 + 6 * i] == ev[1] && lines[7 + 6 * i] == ev[2];
  }

  /** The start and end stamps of one event read back as the show's start and end. */
  lemma EventStamps(s: Screening, theaterName: string)
    requires End(s) < MaxMinute
    ensures var ev := EventLines(s, theaterName);
            && |ev| == 6 && ev[0] == "BEGIN:VEVENT" && ev[5] == "END:VEVENT"
            && |ev[1]| == 23 && ev[1][..8] == "DTSTART:" && ParseStamp(ev[1][8..]) == s.showtime
            && |ev[2]| == 21 && ev[2][..6] == "DTEND:" && ParseStamp(ev[2][6..]) == End(s)
  {
    StampReadsBack(s.showtime);
    StampReadsBack(End(s));
    var ev := EventLines(s, theaterName);
    assert ev[1][8..] == Stamp(s.showtime);
    assert ev[2][6..] == Stamp(End(s));
  }

  /** No field of a show holds a line break. */
  predicate SingleLine(path: seq<Screening>, theaterName: string) {
    && '\n' !in theaterName
    && forall k :: 0 <= k < |path| ==>
         '\n' !in path[k].title && '\n' !in path[k].screenType && '\n' !in path[k].auditorium
  }

  /** None of the lines holds a line break. */
  predicate NoBreaks(lines: seq<string>) {
    forall j :: 0 <= j < |lines| ==> '\n' !in lines[j]
  }

  lemma NoBreaksAppend(a: seq<string>, b: seq<string>)
    requires NoBreaks(a) && NoBreaks(b)
    ensures NoBreaks(a + b)
  {
    forall j | 0 <= j < |a + b| ensures '\n' !in (a + b)[j] {
      if j >= |a| {
        assert (a + b)[j] == b[j - |a|];
      }
    }
  }

  lemma FrameNoBreaks()
    ensures NoBreaks(Header) && NoBreaks([Footer])
  {
  }

  lemma StampSingleLine(t: int)
    requires 0 <= t < MaxMinute
    ensures '\n' !in Stamp(t)
  {
    var s := Stamp(t);
    forall k | 0 <= k < |s| ensures s[k] != '\n' {
      if k < 8 {
        assert s[k] == s[..8][k];
      } else if k > 8 {
        assert s[k] == s[9..][k - 9];
      }
    }
  }

  /** An event has no line break when the fields of its show have none. */
  lemma EventNoBreaks(s: Screening, theaterName: string)
    requires End(s) < MaxMinute
    requires '\n' !in theaterName && '\n' !in s.title && '\n' !in s.screenType && '\n' !in s.auditorium
    ensures NoBreaks(EventLines(s, theaterName))
  {
    var e := EventLines(s, theaterName);
    var start, end := Stamp(s.showtime), Stamp(End(s));
    StampSingleLine(s.showtime);
    StampSingleLine(End(s));
    assert e[1] == "DTSTART:" + start && e[2] == "DTEND:" + end;
    assert e[3] == "SUMMARY:" + s.title + " (" + s.screenType + ")";
    assert e[4] == "LOCATION:" + theaterName + " - Audi " + s.auditorium;
  }

  /** A concatenation of blocks without line breaks has none. */
  lemma {:induction false} ConcatNoBreaks(blocks: seq<seq<string>>)
    requires forall k :: 0 <= k < |blocks| ==> NoBreaks(blocks[k])
    ensures NoBreaks(Concat(blocks))
  {
    if blocks != [] {
      var init := blocks[..|blocks| - 1];
      ConcatNoBreaks(init);
      NoBreaksAppend(Concat(init), blocks[|blocks| - 1]);
    }
  }

  lemma EventsNoBreaks(path: seq<Screening>, theaterName: string)
    requires Renderable(path) && SingleLine(path, theaterName)
    ensures NoBreaks(Events(path, theaterName))
  {
    var blocks := Blocks(path, theaterName);
    forall k | 0 <= k < |blocks| ensures NoBreaks(blocks[k]) {
      EventNoBreaks(path[k], theaterName);
    }
    ConcatNoBreaks(blocks);
  }

  /** When no field holds a line break, splitting the calendar text at line breaks gives back
      exactly its lines. */
  lemma IcsSplitsIntoLines(path: seq<Screening>, theaterName: string)
    requires Renderable(path) && SingleLine(path, theaterName)
    ensures Split(Join(IcsLines(path, theaterName), "\n"), '\n') == IcsLines(path, theaterName)
  {
    var ev := Events(path, theaterName);
    EventsNoBreaks(path, theaterName);
    FrameNoBreaks();
    NoBreaksAppend(Header, ev);
    NoBreaksAppend(Header + ev, [Footer]);
    SplitJoin(IcsLines(path, theaterName), '\n');
  }
}
