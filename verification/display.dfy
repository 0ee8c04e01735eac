/**
 * Two helpers of the form and of the result cards: the list of selectable times of day, and
 * the note listing the attributes of a screening that are not shared by every screening of its
 * movie.
 */
module Display {
  import opened CivilTime
  import opened Text

  /** The form offers a time every five minutes of the day. */
  const SlotMinutes: nat := 5
  const SlotCount: nat := 288

  // ----- time options -----

  /** Lines 227-232: "%H:%M" of 00:00, 00:05, ..., 23:55. */
  method TimeOptions() returns (times: seq<string>)
    ensures |times| == SlotCount
    ensures forall i :: 0 <= i < |times| ==> times[i] == Clock24(SlotMinutes * i)
    ensures forall i :: 0 <= i < |times| ==> |times[i]| == 5 && ParseClock24(times[i]) == SlotMinutes * i
  {
    times := [];
    var start := 0;
    var n := 0;
    while n < SlotCount
      invariant n <= SlotCount && start == SlotMinutes * n && |times| == n
      invariant forall i :: 0 <= i < n ==> times[i] == Clock24(SlotMinutes * i)
      invariant forall i :: 0 <= i < n ==> |times[i]| == 5 && ParseClock24(times[i]) == SlotMinutes * i
    {
      Clock24ReadsBack(start);
      times := times + [Clock24(start)];
      start := start + SlotMinutes;
      n := n + 1;
    }
  }

  lemma {:induction false} LessSamePrefix(p: string, u: string, v: string)
    ensures Less(p + u, p + v) <==> Less(u, v)
  {
    if p != [] {
      assert (p + u)[0] == p[0] == (p + v)[0];
      assert (p + u)[1..] == p[1..] + u && (p + v)[1..] == p[1..] + v;
      LessSamePrefix(p[1..], u, v);
    } else {
      assert p + u == u && p + v == v;
    }
  }

  /** Zero-padded numbers compare as strings the way they compare as numbers. */
  lemma Pad2Less(a: int, b: int, u: string, v: string)
    requires 0 <= a < b < 100
    ensures Less(Pad2(a) + u, Pad2(b) + v)
  {
    var x, y := Pad2(a) + u, Pad2(b) + v;
    assert x[0] == DigitChar(a / 10) && y[0] == DigitChar(b / 10);
    if a / 10 == b / 10 {
      assert x[1..][0] == DigitChar(a % 10) && y[1..][0] == DigitChar(b % 10);
    }
  }

  /** The options are in increasing order as strings, which is their order in time. */
  lemma Clock24Ordered(m1: int, m2: int)
    requires 0 <= m1 < m2 < MinutesPerDay
    ensures Less(Clock24(m1), Clock24(m2))
  {
    if m1 / 60 < m2 / 60 {
      Pad2Less(m1 / 60, m2 / 60, ":" + Pad2(m1 % 60), ":" + Pad2(m2 % 60));
      assert Clock24(m1) == Pad2(m1 / 60) + (":" + Pad2(m1 % 60));
      assert Clock24(m2) == Pad2(m2 / 60) + (":" + Pad2(m2 % 60));
    } else {
      var p := Pad2(m1 / 60) + ":";
      Pad2Less(m1 % 60, m2 % 60, [], []);
      assert Pad2(m1 % 60) + [] == Pad2(m1 % 60) && Pad2(m2 % 60) + [] == Pad2(m2 % 60);
      LessSamePrefix(p, Pad2(m1 % 60), Pad2(m2 % 60));
      assert Clock24(m1) == p + Pad2(m1 % 60) && Clock24(m2) == p + Pad2(m2 % 60);
    }
  }

  /** Every time option is a distinct multiple of five minutes, in increasing order. */
  lemma TimeOptionsOrdered(times: seq<string>, i: int, j: int)
    requires |times| == SlotCount
    requires forall k :: 0 <= k < |times| ==> times[k] == Clock24(SlotMinutes * k)
    requires 0 <= i < j < SlotCount
    ensures Less(times[i], times[j]) && times[i] != times[j]
  {
    Clock24Ordered(SlotMinutes * i, SlotMinutes * j);
    LessIrreflexive(times[i]);
  }

  // ----- attribute notes -----

  /** The stripped, non-empty items of a list of fields (the comprehension of line 221). */
  function Tokens(parts: seq<string>): (r: seq<string>)
    ensures forall t :: t in r ==> Stripped(t)
  {
    if parts == [] then []
    else
      var t := Strip(parts[0]);
      (if t != [] then [t] else []) + Tokens(parts[1..])
  }

  /** A non-empty text with no white space at either end. */
  predicate Stripped(t: string) {
    t != [] && !IsSpace(t[0]) && !IsSpace(t[|t| - 1])
  }

  /** One step of the comprehension. */
  lemma TokensCons(x: string, xs: seq<string>)
    ensures Tokens([x] + xs) == (if Strip(x) != [] then [Strip(x)] else []) + Tokens(xs)
  {
    assert ([x] + xs)[1..] == xs;
  }

  /** An attribute is a stripped field that is not empty. */
  lemma {:induction false} TokensMembers(parts: seq<string>, t: string)
    ensures t in Tokens(parts) <==> t != [] && exists k :: 0 <= k < |parts| && Strip(parts[k]) == t
  {
    if parts != [] {
      var rest := parts[1..];
      TokensCons(parts[0], rest);
      assert parts == [parts[0]] + rest;
      TokensMembers(rest, t);
      if t != [] && exists k :: 0 <= k < |parts| && Strip(parts[k]) == t {
        var k :| 0 <= k < |parts| && Strip(parts[k]) == t;
        if k > 0 {
          assert rest[k - 1] == parts[k];
        }
      }
      if t in Tokens(rest) {
        var k :| 0 <= k < |rest| && Strip(rest[k]) == t;
        assert parts[k + 1] == rest[k];
      }
    }
  }

  /** Fields without a comma give attributes without a comma. */
  lemma {:induction false} TokensNoComma(parts: seq<string>)
    requires forall k :: 0 <= k < |parts| ==> ',' !in parts[k]
    ensures forall t :: t in Tokens(parts) ==> ',' !in t
  {
    if parts != [] {
      var t := Strip(parts[0]);
      assert forall c :: c in t ==> c in parts[0];
      TokensNoComma(parts[1..]);
    }
  }

  /** The set of attributes of a comma-separated attribute string. */
  function AttrSet(attrs: string): set<string> {
    Elements(Tokens(Split(attrs, ',')))
  }

  /** The items of `s` that are not in `common`. */
  function Outside(s: seq<string>, common: set<string>): (r: seq<string>)
    ensures forall t :: t in r <==> t in s && t !in common
  {
    if s == [] then []
    else
      assert forall t :: t in s <==> t == s[0] || t in s[1..];
      (if s[0] !in common then [s[0]] else []) + Outside(s[1..], common)
  }

  /** The attributes of `attrs` missing from `common`, sorted, each once. */
  function DiffItems(attrs: string, common: set<string>): (r: seq<string>)
    ensures StrictlySorted(r)
    ensures Elements(r) == AttrSet(attrs) - common
  {
    SortedDistinct(Outside(Tokens(Split(attrs, ',')), common))
  }

  const NoteOpen: string := " <small style=\"color:grey\">("
  const NoteClose: string := ")</small>"

  /** Lines 220-225: there is no note exactly when every attribute of the screening is common;
      otherwise the note wraps a list that reads back as the uncommon attributes. */
  function AttrDiffHtml(screeningAttrs: string, commonAttrs: set<string>): (r: string)
    ensures r == "" <==> AttrSet(screeningAttrs) <= commonAttrs
    ensures r != "" ==>
              && |NoteOpen| + |NoteClose| <= |r|
              && r[..|NoteOpen|] == NoteOpen && r[|r| - |NoteClose|..] == NoteClose
              && AttrSet(r[|NoteOpen|..|r| - |NoteClose|]) == AttrSet(screeningAttrs) - commonAttrs
  {
    var diff := DiffItems(screeningAttrs, commonAttrs);
    ElementsEmpty(diff);
    if diff == [] then ""
    else
      var items := Join(diff, ", ");
      AttrDiffReadsBack(screeningAttrs, commonAttrs);
      assert diff[0] in Elements(diff);
      var note := NoteOpen + items + NoteClose;
      assert note[..|NoteOpen|] == NoteOpen;
      assert note[|NoteOpen|..|note| - |NoteClose|] == items;
      assert note[|note| - |NoteClose|..] == NoteClose;
      note
  }

  /** Each item with a blank in front. */
  function Blanked(items: seq<string>): (r: seq<string>)
    ensures |r| == |items|
  {
    if items == [] then [] else [" " + items[0]] + Blanked(items[1..])
  }

  lemma {:induction false} JoinBlanked(items: seq<string>)
    requires items != []
    ensures " " + Join(items, ", ") == Join(Blanked(items), ",")
  {
    if |items| > 1 {
      JoinBlanked(items[1..]);
      var b := Blanked(items);
      assert b[1..] == Blanked(items[1..]);
      assert " " + Join(items, ", ") == (" " + items[0]) + "," + (" " + Join(items[1..], ", "));
    }
  }

  /** `", ".join(items)` is `",".join` of the items with a blank before every one but the first. */
  lemma JoinCommaBlank(items: seq<string>)
    requires items != []
    ensures Join(items, ", ") == Join([items[0]] + Blanked(items[1..]), ",")
  {
    var r := [items[0]] + Blanked(items[1..]);
    if |items| > 1 {
      var head, tail := items[0], Join(items[1..], ", ");
      assert Join(items, ", ") == head + ", " + tail;
      var bt := Join(Blanked(items[1..]), ",");
      assert Join(r, ",") == head + "," + bt by {
        assert r[0] == head && r[1..] == Blanked(items[1..]);
      }
      assert bt == " " + tail by {
        JoinBlanked(items[1..]);
      }
      CommaBlank(head, tail);
    } else {
      assert r == [items[0]];
    }
  }

  lemma CommaBlank(head: string, tail: string)
    ensures head + ", " + tail == head + "," + (" " + tail)
  {
    assert ", " == "," + " ";
  }

  /** A stripped, non-empty item keeps its value when read back after a blank. */
  lemma StripAfterBlank(t: string)
    requires Stripped(t)
    ensures Strip(" " + t) == t
  {
    var s := " " + t;
    assert LeadingSpaces(s) == 1 by {
      assert s[1..] == t;
    }
    var r := Strip(s);
    assert !IsSpace(s[|s| - 1]);
    assert 1 + |r| == |s|;
    assert r == s[1..];
  }

  lemma {:induction false} TokensBlanked(items: seq<string>)
    requires forall k :: 0 <= k < |items| ==> Stripped(items[k])
    ensures Tokens(Blanked(items)) == items
  {
    if items != [] {
      var rest := items[1..];
      StripAfterBlank(items[0]);
      TokensCons(" " + items[0], Blanked(rest));
      TokensBlanked(rest);
      assert items == [items[0]] + rest;
    }
  }

  /** The note lists exactly the uncommon attributes: read back as an attribute string, the
      list inside the parentheses gives the attributes of the screening that are not common. */
  lemma AttrDiffReadsBack(screeningAttrs: string, commonAttrs: set<string>)
    ensures AttrSet(Join(DiffItems(screeningAttrs, commonAttrs), ", ")) == AttrSet(screeningAttrs) - commonAttrs
  {
    var diff := DiffItems(screeningAttrs, commonAttrs);
    if diff == [] {
      NoItemsReadBack();
    } else {
      var parts := Split(screeningAttrs, ',');
      TokensNoComma(parts);
      forall k | 0 <= k < |diff| ensures diff[k] in Tokens(parts) {
        assert diff[k] in Elements(diff);
      }
      ItemsReadBack(diff);
    }
  }

  /** An empty list reads back as no attribute. */
  lemma NoItemsReadBack()
    ensures AttrSet(Join([], ", ")) == {}
  {
    assert Join([], ", ") == [];
    assert Split([], ',') == [[]];
    assert Tokens([[]]) == [] by {
      assert Strip([]) == [];
    }
  }

  /** A list of attributes without commas, joined with ", ", splits back into the same list. */
  lemma ItemsReadBack(items: seq<string>)
    requires items != []
    requires forall k :: 0 <= k < |items| ==> Stripped(items[k]) && ',' !in items[k]
    ensures Tokens(Split(Join(items, ", "), ',')) == items
  {
    SplitCommaBlank(items);
    TokensCommaBlank(items);
  }

  /** Splitting `", ".join(items)` at the commas gives the items, blanks kept. */
  lemma SplitCommaBlank(items: seq<string>)
    requires items != []
    requires forall k :: 0 <= k < |items| ==> ',' !in items[k]
    ensures Split(Join(items, ", "), ',') == [items[0]] + Blanked(items[1..])
  {
    var rest := items[1..];
    var sp := [items[0]] + Blanked(rest);
    JoinCommaBlank(items);
    forall k | 0 <= k < |sp| ensures ',' !in sp[k] {
      if k > 0 {
        BlankedAt(rest, k - 1);
        assert rest[k - 1] == items[k];
      }
    }
    SplitJoin(sp, ',');
  }

  /** Stripping the blanked items gives the items back. */
  lemma TokensCommaBlank(items: seq<string>)
    requires items != []
    requires forall k :: 0 <= k < |items| ==> Stripped(items[k])
    ensures Tokens([items[0]] + Blanked(items[1..])) == items
  {
    var rest := items[1..];
    StripStripped(items[0]);
    TokensCons(items[0], Blanked(rest));
    forall k | 0 <= k < |rest| ensures Stripped(rest[k]) {
      assert rest[k] == items[k + 1];
    }
    TokensBlanked(rest);
    assert items == [items[0]] + rest;
  }

  lemma {:induction false} BlankedAt(items: seq<string>, k: int)
    requires 0 <= k < |items|
    ensures Blanked(items)[k] == " " + items[k]
  {
    if k > 0 {
      BlankedAt(items[1..], k - 1);
    }
  }
}
