# Regal Pro scheduling core in Dafny

This project models the scheduling engine of the Regal Pro "Smart Scheduler" (`regal_pro.py`)
and proves what it promises. Given the flattened list of screenings for a day, the user's
ordered list of wanted movies, and the scheduling parameters, the engine does the following:

- **Enumerates itineraries.** `find_itineraries` is a depth-first search. It tries every
  remaining title in every order. It keeps a screening only if it has an allowed screen type,
  lies in the day's time window, and keeps the spacing rules with the show before it: the
  buffer or the long break, the fudge factor, the 91-minute "Unlimited" rule and the maximum
  gap. The search emits an itinerary only when nothing more can be appended to it.
- **Ranks and selects.** Each itinerary gets a preference score, with weights 10^(n-1-i) by
  position in the wanted list. It also gets a show count, idle minutes and an identity. The
  itineraries are sorted stably by (-score, idle) and by (-count, idle). At most three options
  are picked: two "Priority Match" entries, then a "Movie Marathon (Max Count)" entry or a
  third priority entry.
- **Explains what is missing.** `get_conflict_report` gives one line for every wanted title
  the chosen itinerary leaves out. The line names no allowed screening, or the first overlap
  with a show of the itinerary, or no fit.
- **Exports to a calendar.** `generate_ics` builds an iCalendar text: five header lines, a
  six-line VEVENT per show with floating local date-times `YYYYMMDDTHHMMSS` (section 3.3.5 of
  RFC 5545), and `END:VCALENDAR`. Lines are joined with a bare line feed, as the program does.
- **Small helpers.** `get_time_options` lists the 288 `HH:MM` times at five-minute steps.
  `get_attr_diff_html` notes the attributes of a screening that are not common to all of them.

## Layout

- `civil_time.dfy` (`CivilTime`): the proleptic Gregorian calendar of Python's `datetime`.
  It covers day numbers, `strftime` renderings of `%Y%m%dT%H%M%S`, `%H:%M` and `%I:%M %p`,
  and their read-back.
- `text.dfy` (`Text`): `str.split`, `str.join`, `str.strip` and the code-point order that
  `sorted` uses on strings.
- `schedule.dfy` (`Schedule`): screenings, parameters, the window and spacing rules, the search
  as functions (`Extend`, `ForTitles`, `ForShows`, `Step`), and the search as the program runs
  it (`FindItineraries`, `SearchShows`).
- `itinerary_properties.dfy` (`ItineraryProperties`): what the search returns. It is exactly
  the maximal chains of fitting screenings, with the consequences for window, spacing, titles,
  formats and prefixes.
- `ranking.dfy` (`Ranking`): the metrics, stable sorting and option selection.
- `conflicts.dfy` (`Conflicts`): the conflict report.
- `calendar.dfy` (`Calendar`): the iCalendar text.
- `display.dfy` (`Display`): time options and the attribute-difference note.

Times are whole minutes since 0001-01-01T00:00. The selected date is a day number, and the
window bounds are minutes of that day. A path's identity is its sequence of
(movie code, start minute) pairs.

## Model

| member | source | states |
|---|---|---|
| Schedule.FindItineraries | regal_pro.py:243-270 | the recursive search with its two nested loops returns exactly the itineraries of the search specification `Extend`, in the same order |
| Schedule.SearchShows | regal_pro.py:253-269 | the inner loop's checks (window, fudge, long break after position `break_after`, 91-minute rule, buffer, gap cap) and recursive call collect exactly what `ForShows` specifies for the title's candidates |
| Schedule.Window | regal_pro.py:245-248 | the window starts at the chosen start of the selected day; for start and end within a day, it ends after its start and at most one day plus six hours later |
| Schedule.Candidates | regal_pro.py:251-252 | the candidates of a title are exactly the screenings of that title whose screen type is allowed (an empty format list allows all) |
| Schedule.Without | regal_pro.py:266 | the remaining titles are exactly the old ones other than the placed title, and the list gets shorter when the title was in it |
| ItineraryProperties.ExtendCharacterized | regal_pro.py:250-270 | a path is returned if and only if it is the current path followed by a non-empty chain of allowed, in-window, correctly spaced screenings of distinct remaining titles to which no allowed screening of an unused title can be appended |
| ItineraryProperties.ExtendSound | regal_pro.py:266-269 | every returned path is such a maximal extension of the current path |
| ItineraryProperties.ExtendComplete | regal_pro.py:250-270 | every maximal extension of the current path is returned |
| ItineraryProperties.FollowerFits | regal_pro.py:253-266 | each show after the current path is an allowed screening of a remaining title not used before it, and fits after the shows before it |
| ItineraryProperties.ResultsInWindow | regal_pro.py:245-256 | every screening of every result starts no earlier than the window start and ends no later than the window end |
| ItineraryProperties.ResultsSpaced | regal_pro.py:257-265 | for adjacent shows at positions k and k+1, the next start is at least the (fudged) previous end plus the long break if k is `break_after`, otherwise plus the buffer; it is at most `gap_cap` after that end; and with the Unlimited rule it is at least 91 minutes after the previous start |
| ItineraryProperties.ResultsUseRequestedTitlesOnce | regal_pro.py:250-266 | every result is non-empty, uses only catalogue screenings of requested titles, uses each title at most once, and uses only allowed screen types when a format list is given |
| ItineraryProperties.ResultsDoNotOverlap | regal_pro.py:257-265 | with the fudge off and non-negative buffers, each show starts no earlier than the previous one ends |
| ItineraryProperties.ResultsAreMaximal | regal_pro.py:266-268 | no allowed screening of a requested title not in a result fits after that result |
| ItineraryProperties.NoResultIsPrefixOfAnother | regal_pro.py:266-270 | no returned path is a strict prefix of another returned path |
| ItineraryProperties.NothingFoundIff | regal_pro.py:250-270 | the search finds nothing if and only if no allowed screening of a requested title lies in the window |
| ItineraryProperties.UnplaceableTitleIsLeftOut | regal_pro.py:250-270 | a title none of whose allowed screenings lies in the window appears in no result, and the search does not fail because of it |
| ItineraryProperties.ExtendNonEmpty | regal_pro.py:253-269 | if some allowed screening of a remaining title fits after the current path, the search returns something |
| ItineraryProperties.ExtendEmpty | regal_pro.py:253-270 | if no allowed screening of a remaining title fits after the current path, the search returns nothing, which makes the caller emit the path itself |
| Ranking.ProcessPaths | regal_pro.py:505-512 | one processed entry per path, in order, holding the path, its preference score, its show count, its idle minutes and its identity |
| Ranking.PathIdsEqual | regal_pro.py:511 | two paths have the same identity exactly when they have the same length and agree show by show on movie code and start; title, screen type and auditorium play no part (this is what the `seen_ids` test at lines 521-524 compares) |
| Ranking.WeightAt | regal_pro.py:503 | with distinct wanted titles, the title at preference index i weighs 10^(n-1-i) |
| Ranking.WeightAbsent | regal_pro.py:507 | a title that is not wanted weighs nothing |
| Ranking.PriorityScoreOfTitles | regal_pro.py:506-507 | for a path of distinct titles, the preference score is the sum of the weights of the set of its titles |
| Ranking.ScoreOfBound | regal_pro.py:503 | the weights of any set of the n wanted titles sum to less than 10^n |
| Ranking.HigherPreferenceWins | regal_pro.py:503-507 | a path holding a more preferred title outscores one that lacks it but agrees on every more preferred title |
| Ranking.GapTimeTelescopes | regal_pro.py:508 | the idle minutes equal the span from first start to last start less the running time of every show but the last |
| Ranking.GapTimeNonNegative | regal_pro.py:508 | when no show starts before the previous one ends, the idle minutes are not negative |
| Ranking.SortBy | regal_pro.py:514-515 | `sorted` by a key returns a permutation of its input, ordered by the key |
| Ranking.SortStable | regal_pro.py:514-515 | `sorted` is stable: the entries that share a key keep their input order |
| Ranking.SortFirstLeast | regal_pro.py:514-515 | the first entry of a sorted list has the least key of all entries |
| Ranking.SelectOptions | regal_pro.py:517-527 | the selection loop with its `seen_ids` set yields the options of `Selection` |
| Ranking.SelectionShape | regal_pro.py:517-527 | the options open with the first one or two entries by priority, labelled "Priority Match"; any further option is the first entry by count labelled as the marathon, or the third entry by priority |
| Ranking.OptionsSize | regal_pro.py:517-527 | for n processed paths there are min(n, 3) options |
| Ranking.OptionsFromEntries | regal_pro.py:519-527 | every option is one of the processed paths; only the third can be labelled other than "Priority Match", and every label is one of the two |
| Ranking.OptionsFirstIsBest | regal_pro.py:514-520 | the first option has the highest preference score, with the fewest idle minutes among those with that score |
| Ranking.OptionsPriorityOrdered | regal_pro.py:514-527 | every option labelled "Priority Match" ranks, by (-score, idle), no higher than each option before it |
| Ranking.OptionsMarathonHasMost | regal_pro.py:515-525 | an option labelled as the marathon has the most shows of all paths, and the fewest idle minutes among those with that many |
| Ranking.OptionsMarathonIsNew | regal_pro.py:518-525 | the marathon option's identity differs from the identity of every option shown before it |
| Ranking.MarathonCountTestHolds | regal_pro.py:522-524 | the count test `max_possible_count >= p1_count` always holds |
| Ranking.OptionsMarathonWhenLonger | regal_pro.py:522-525 | when some path has more shows than both priority picks (and identities determine lengths), the third option is the marathon |
| Ranking.Evaluations | regal_pro.py:505-512 | one entry per path, and every entry's identity has one pair per show |
| Ranking.RankAndSelect | regal_pro.py:501-527 | no options for no paths; otherwise the metrics, both orderings and the selection together give `Options` of the evaluated paths |
| Conflicts.ConflictReport | regal_pro.py:272-287 | one line per missing title, in order, giving the title and the reason the report specifies for its allowed screenings |
| Conflicts.CollectReasons | regal_pro.py:275-285 | the formats message when no screening is allowed; otherwise one overlap message per allowed screening that overlaps the itinerary, in catalogue order |
| Conflicts.ScanPath | regal_pro.py:281-285 | the scan with its `break` stops at the first show of the itinerary that the screening overlaps |
| Conflicts.FirstOverlapNone | regal_pro.py:281-285 | the scan finds nothing if and only if the screening overlaps no show of the itinerary |
| Conflicts.ReasonsEmpty | regal_pro.py:280-285 | no overlap message is collected if and only if no allowed screening overlaps any show of the itinerary |
| Conflicts.ReasonNoFormat | regal_pro.py:275-278 | the reason is "No screenings match your selected formats." if and only if the title has no screening of an allowed format |
| Conflicts.ReasonNoFit | regal_pro.py:279-286 | for a title with allowed screenings, the reason is "No screenings fit your window." if and only if none of them overlaps a show of the itinerary (touching ends do not count) |
| Conflicts.ReasonOverlap | regal_pro.py:280-286 | otherwise the reason names, at its 12-hour start time, the first allowed screening in catalogue order that overlaps, and the first show of the itinerary it overlaps |
| Conflicts.ReportLines | regal_pro.py:286-287 | the report has one line per missing title, and each line is the marked, emboldened title followed by its reason |
| Calendar.GenerateIcs | regal_pro.py:234-241 | the text is the calendar lines joined by line feeds |
| Calendar.EventBlock | regal_pro.py:236-239 | the loop that extends the line list appends each show's event, in itinerary order |
| Calendar.EventFor | regal_pro.py:237-239 | one show's event is six lines from `BEGIN:VEVENT` to `END:VEVENT`, whose `DTSTART:` and `DTEND:` stamps read back as the show's start and its start plus duration |
| Calendar.EventStamps | regal_pro.py:237-239 | the same facts about the event lines of any show that ends before year 10000 |
| Calendar.IcsShape | regal_pro.py:235-240 | for any itinerary, including an empty one, the calendar has 6 + 6·(number of shows) lines: the five header lines first and `END:VCALENDAR` last |
| Calendar.IcsLayout | regal_pro.py:236-239 | the event of show i sits at lines 5+6i to 10+6i, in itinerary order |
| Calendar.StampsReadBack | regal_pro.py:237-239 | each event's `DTSTART:` and `DTEND:` lines hold 15-character stamps that read back as the show's start and as its start plus duration |
| Calendar.IcsSplitsIntoLines | regal_pro.py:241 | when no field contains a line break, splitting the text at line feeds gives back exactly the calendar lines |
| Display.TimeOptions | regal_pro.py:227-232 | 288 five-character options, the i-th being `%H:%M` of minute 5i, and it reads back as 5i |
| Display.TimeOptionsOrdered | regal_pro.py:227-232 | the options are strictly increasing as strings, so they are distinct and sorted |
| Display.Tokens | regal_pro.py:221 | the kept fields are non-empty and begin and end with a non-space |
| Display.TokensMembers | regal_pro.py:221 | a string is a kept field if and only if it is non-empty and is some comma field stripped of white space |
| Display.Outside | regal_pro.py:222 | an attribute is kept if and only if it is not a common attribute |
| Display.DiffItems | regal_pro.py:221-224 | the listed attributes are strictly increasing and are exactly the screening's attributes that are not common |
| Display.AttrDiffHtml | regal_pro.py:220-225 | the note is empty exactly when every attribute of the screening is common; otherwise it is the grey `<small>` wrapper around a list that reads back as exactly the screening's attributes less the common ones |
| Display.AttrDiffReadsBack | regal_pro.py:221-224 | reading the joined list of the note back as attributes gives exactly the screening's attributes less the common ones |
| CivilTime.StampReadsBack | regal_pro.py:237-238 | `%Y%m%dT%H%M%S` of a representable minute consists of digits around the `T` and reads back as that minute |
| CivilTime.FromDayNumberCorrect | regal_pro.py:237-238 | the calendar date found for a day number converts back to that day number |
| CivilTime.DaysBeforeYearClosed | regal_pro.py:237-238 | the days before a year follow the Gregorian closed form 365p + p/4 - p/100 + p/400 |
| CivilTime.Clock24ReadsBack | regal_pro.py:231 | `%H:%M` of a minute of the day reads back as that minute |
| CivilTime.Clock12ReadsBack | regal_pro.py:284 | `%I:%M %p` of a minute of the day has an hour from 01 to 12 and reads back as that minute |
| Text.JoinSplit | regal_pro.py:221 | joining the fields of a split with the separator restores the text |
| Text.SplitJoin | regal_pro.py:241 | splitting a join of separator-free fields gives back the fields |
| Text.Strip | regal_pro.py:221 | the stripped string is a slice that begins and ends with a non-space, and everything cut away is white space |
| Text.SortedDistinct | regal_pro.py:224 | `sorted` of a set is strictly increasing and holds exactly the set's elements |
| Text.SortedUnique | regal_pro.py:224 | two strictly increasing lists with the same elements are equal, so the sorted list of a set is unique |

## Left out

- The network (`fetch_data`, the proxy check), the theater file, geographic distance, and the
  Streamlit page with its caching and explorer filters are not part of this model.
  `flatten_data` is not part of this model either: its output records are the model's input.
- The program has no drive-time or multi-theater logic in the search. It scores paths by
  preference weights only and offers at most three options.
- The selection follows the code's `seen_ids` test, which guards only the marathon entry. The
  third "Priority Match" entry is added without that test. Nothing is claimed about it beyond
  what `SelectionShape` states.
- Times are whole minutes, and seconds are not modelled. `Duration` is a natural number of
  minutes. The date-time arithmetic of `datetime` is the integer arithmetic of minutes.
- Ranking.PathIdOf: the identity uses the start minute, not the float `timestamp()` of the
  naive local start time, which depends on the host's time zone. The two agree except around a
  daylight-saving change in that zone. There, two different local start times (such as 02:30
  and 03:30 on a spring-forward day) give the same instant. The program may then take two
  different paths for the same one and skip the marathon option, and the model does not.
- Ranking.GapTimeTelescopes: idle minutes are integers. The program computes
  `total_seconds()/60` as a float, which has the same value for whole-minute times.
- CivilTime.Stamp: the year is always rendered as four zero-padded digits. Some platforms'
  `strftime` leave years before 1000 unpadded.
- Calendar.GenerateIcs requires every show to end before year 10000, where Python's `datetime`
  overflows. The program raises an error there, which the model does not reproduce.
- CivilTime.Clock12: `%p` is rendered as "AM"/"PM" as in the C locale; other locales are not
  modelled.
- Text.Strip: white space is the set of code points Python's `str.isspace` accepts.
  Encodings and normalisation are not modelled.
- ItineraryProperties.ResultsDoNotOverlap assumes the fudge factor is off and the buffers are
  non-negative. With the fudge on, consecutive shows may overlap by up to five minutes.
- Ranking.HigherPreferenceWins assumes distinct wanted titles. With a repeated title, the
  program's weight dictionary keeps the weight of its last position, which `Ranking.Weight`
  models.
- The presentation of the options after line 527 is not part of this model.
