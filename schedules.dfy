/**
 * Weekly schedules. The attendance spreadsheet writes a schedule as
 * comma-separated day abbreviations, each followed by a session marker
 * (`"M (am,pm), W (am,pm)"`); the engine works on the list of weekday names
 * that `convert_days` makes of it, and the simulation asks
 * `is_scheduled_to_attend` whether a date's weekday is among them.
 */
module Schedules {
  import opened Wrappers
  import opened Strings
  import Calendar

  /** The five days a schedule can name. */
  datatype Weekday = Monday | Tuesday | Wednesday | Thursday | Friday

  function FullName(w: Weekday): string {
    match w
    case Monday => "Monday"
    case Tuesday => "Tuesday"
    case Wednesday => "Wednesday"
    case Thursday => "Thursday"
    case Friday => "Friday"
  }

  /** The abbreviation the spreadsheet uses for a day. */
  function Abbreviation(w: Weekday): string {
    match w
    case Monday => "M"
    case Tuesday => "T"
    case Wednesday => "W"
    case Thursday => "Th"
    case Friday => "F"
  }

  /** The session marker that follows each abbreviation in the spreadsheet. */
  const Session: string := " (am,pm)"

  function FullNames(ws: seq<Weekday>): (names: seq<string>)
    ensures |names| == |ws|
    ensures forall i :: 0 <= i < |ws| ==> names[i] == FullName(ws[i])
  {
    if ws == [] then [] else [FullName(ws[0])] + FullNames(ws[1..])
  }

  /** `day_mapping` of `convert_days`: exactly the inverse of `Abbreviation`. */
  function LookupAbbreviation(abbr: string): (r: Option<Weekday>)
    ensures r.Some? ==> Abbreviation(r.value) == abbr
    ensures r.None? ==> forall w: Weekday :: Abbreviation(w) != abbr
  {
    if abbr == "M" then Some(Monday)
    else if abbr == "T" then Some(Tuesday)
    else if abbr == "W" then Some(Wednesday)
    else if abbr == "Th" then Some(Thursday)
    else if abbr == "F" then Some(Friday)
    else None
  }

  /** The weekdays named by the entries, in order: the text before an entry's first space, when it is a known abbreviation. */
  function ScheduleDays(entries: seq<string>): seq<Weekday> {
    if entries == [] then []
    else
      match LookupAbbreviation(Split(entries[0], " ")[0])
      case Some(w) => [w] + ScheduleDays(entries[1..])
      case None => ScheduleDays(entries[1..])
  }

  /** `convert_days`: the full names of the scheduled days, joined by commas. */
  function ConvertDays(schedule: string): string {
    Join(",", FullNames(ScheduleDays(Split(schedule, ", "))))
  }

  /** The spreadsheet's text for a list of days. */
  function Render(ws: seq<Weekday>): string {
    Join(", ", Entries(ws))
  }

  function Entries(ws: seq<Weekday>): (entries: seq<string>)
    ensures |entries| == |ws|
    ensures forall i :: 0 <= i < |ws| ==> entries[i] == Abbreviation(ws[i]) + Session
  {
    if ws == [] then [] else [Abbreviation(ws[0]) + Session] + Entries(ws[1..])
  }

  lemma EntryClean(w: Weekday)
    ensures SplitsCleanly(Abbreviation(w) + Session, ", ")
  {
    var a := Abbreviation(w);
    var p := a + Session;
    var s := p + ", ";
    forall i | 0 <= i < |p|
      ensures !OccursAt(s, ", ", i)
    {
      if i < |a| {
        assert s[i] == a[i] != ',';
        MismatchAt(s, ", ", i, 0);
      } else if i == |a| + 4 {
        assert s[i + 1] == Session[5] == 'p';
        MismatchAt(s, ", ", i, 1);
      } else {
        assert s[i] == Session[i - |a|] != ',';
        MismatchAt(s, ", ", i, 0);
      }
    }
  }

  lemma {:induction false} EntryFirstWord(w: Weekday)
    ensures Split(Abbreviation(w) + Session, " ")[0] == Abbreviation(w)
  {
    var a := Abbreviation(w);
    CleanWithoutFirstChar(a, " ");
    assert a + Session == a + " " + "(am,pm)";
    FindAfterClean(a, " ", "(am,pm)");
    assert (a + Session)[..|a|] == a;
  }

  lemma LookupOfAbbreviation(w: Weekday)
    ensures LookupAbbreviation(Abbreviation(w)) == Some(w)
  {
    match w
    case Monday =>
    case Tuesday =>
    case Wednesday =>
    case Thursday =>
    case Friday =>
  }

  /** The spreadsheet's entry for a day is read back as that day. */
  lemma ScheduleDaysCons(w: Weekday, more: seq<string>)
    ensures ScheduleDays([Abbreviation(w) + Session] + more) == [w] + ScheduleDays(more)
  {
    var entries := [Abbreviation(w) + Session] + more;
    EntryFirstWord(w);
    LookupOfAbbreviation(w);
    assert entries[1..] == more;
  }

  lemma {:induction false} ScheduleDaysOfEntries(ws: seq<Weekday>)
    ensures ScheduleDays(Entries(ws)) == ws
  {
    if ws != [] {
      assert Entries(ws) == [Abbreviation(ws[0]) + Session] + Entries(ws[1..]);
      ScheduleDaysCons(ws[0], Entries(ws[1..]));
      ScheduleDaysOfEntries(ws[1..]);
      assert ws == [ws[0]] + ws[1..];
    }
  }

  /** `convert_days` turns the spreadsheet's text for a list of days into their full names. */
  lemma {:induction false} ConvertDaysRoundTrip(ws: seq<Weekday>)
    ensures ConvertDays(Render(ws)) == Join(",", FullNames(ws))
  {
    if ws == [] {
      assert Render(ws) == "";
      assert Split("", ", ") == [""];
      assert Split("", " ") == [""];
      assert ScheduleDays([""]) == [];
    } else {
      forall k | 0 <= k < |Entries(ws)|
        ensures SplitsCleanly(Entries(ws)[k], ", ")
      {
        EntryClean(ws[k]);
      }
      SplitJoin(", ", Entries(ws));
      ScheduleDaysOfEntries(ws);
    }
  }

  /**
   * The list the roster stores (`convert_days` followed by `split(',')`): the
   * full day names, or the one empty string when no day was recognised.
   */
  lemma {:induction false} ScheduleListRoundTrip(ws: seq<Weekday>)
    ensures Split(ConvertDays(Render(ws)), ",") == if ws == [] then [""] else FullNames(ws)
  {
    ConvertDaysRoundTrip(ws);
    var joined := Join(",", FullNames(ws));
    assert ConvertDays(Render(ws)) == joined;
    if ws == [] {
      assert joined == "";
      assert Split("", ",") == [""];
    } else {
      forall k | 0 <= k < |FullNames(ws)|
        ensures SplitsCleanly(FullNames(ws)[k], ",")
      {
        NameWithoutComma(ws[k]);
        CleanWithoutFirstChar(FullName(ws[k]), ",");
      }
      SplitJoin(",", FullNames(ws));
    }
  }

  lemma NameWithoutComma(w: Weekday)
    ensures ',' !in FullName(w)
  {
    match w
    case Monday =>
    case Tuesday =>
    case Wednesday =>
    case Thursday =>
    case Friday =>
  }

  /** `day_mapping` of `is_scheduled_to_attend`, which also knows the weekend. */
  function LookupDayName(token: string): Option<string> {
    if token == "M" then Some("Monday")
    else if token == "T" then Some("Tuesday")
    else if token == "W" then Some("Wednesday")
    else if token == "Th" then Some("Thursday")
    else if token == "F" then Some("Friday")
    else if token == "S" then Some("Saturday")
    else if token == "Su" then Some("Sunday")
    else None
  }

  /** `day_mapping.get(day.strip(), day)`: an unknown token is kept as it was, unstripped. */
  function ResolveToken(token: string): string {
    LookupDayName(Strip(token)).GetOr(token)
  }

  function ResolveTokens(tokens: seq<string>): seq<string> {
    if tokens == [] then [] else [ResolveToken(tokens[0])] + ResolveTokens(tokens[1..])
  }

  /** `is_scheduled_to_attend`: a missing schedule attends no day. */
  function IsScheduledToAttend(schedule: Option<string>, date: int): bool {
    match schedule
    case None => false
    case Some(s) => Calendar.DayName(date) in ResolveTokens(Split(Replace(s, Session, ""), ","))
  }

  /** `[first + a0, other + a1, other + a2, ...]` over the abbreviations of `ws`. */
  function Led(ws: seq<Weekday>, first: string, other: string): (r: seq<string>)
    ensures |r| == |ws|
  {
    if ws == [] then [] else [first + Abbreviation(ws[0])] + Led(ws[1..], other, other)
  }

  lemma {:induction false} RenderCutAtSessions(ws: seq<Weekday>, c: string)
    requires ws != []
    ensures Join(Session, Led(ws, c, ", ") + [""]) == c + Join(", ", Entries(ws))
  {
    var a := Abbreviation(ws[0]);
    var tail := Led(ws[1..], ", ", ", ") + [""];
    assert Led(ws, c, ", ") + [""] == [c + a] + tail;
    JoinCons(Session, c + a, tail);
    assert Entries(ws) == [a + Session] + Entries(ws[1..]);
    if |ws| == 1 {
      assert tail == [""];
      ConcatRegroup(c, a, Session, "", "");
    } else {
      RenderCutAtSessions(ws[1..], ", ");
      JoinCons(", ", a + Session, Entries(ws[1..]));
      ConcatRegroup(c, a, Session, ", ", Join(", ", Entries(ws[1..])));
    }
  }

  lemma ConcatRegroup(c: string, a: string, s: string, sep: string, more: string)
    ensures (c + a) + s + (sep + more) == c + ((a + s) + sep + more)
  {
  }

  lemma {:induction false} JoinLedRegroup(ws: seq<Weekday>, c: string)
    requires ws != []
    ensures Join("", Led(ws, c, ", ") + [""]) == Join(",", Led(ws, c, " "))
  {
    var a := Abbreviation(ws[0]);
    var tail := Led(ws[1..], ", ", ", ") + [""];
    assert Led(ws, c, ", ") + [""] == [c + a] + tail;
    JoinCons("", c + a, tail);
    assert Led(ws, c, " ") == [c + a] + Led(ws[1..], " ", " ");
    if |ws| == 1 {
      assert tail == [""];
    } else {
      var more := Led(ws[1..], " ", " ");
      JoinLedRegroup(ws[1..], ", ");
      JoinCommaLead(ws[1..]);
      JoinCons(",", c + a, more);
      EmptyRegroup(c + a, Join(",", more));
    }
  }

  lemma EmptyRegroup(x: string, y: string)
    ensures x + "" + ("," + y) == x + "," + y
  {
  }

  /** Joining with "," a list led by ", " puts one extra comma in front. */
  lemma {:induction false} JoinCommaLead(ws: seq<Weekday>)
    requires ws != []
    ensures Join(",", Led(ws, ", ", " ")) == "," + Join(",", Led(ws, " ", " "))
  {
    var a := Abbreviation(ws[0]);
    var more := Led(ws[1..], " ", " ");
    assert Led(ws, ", ", " ") == [", " + a] + more;
    assert Led(ws, " ", " ") == [" " + a] + more;
    assert ", " + a == "," + (" " + a);
    if more != [] {
      JoinCons(",", ", " + a, more);
      JoinCons(",", " " + a, more);
    }
  }

  lemma {:induction false} PiecesClean(ws: seq<Weekday>, c: string)
    requires c == "" || c == ", "
    ensures forall k :: 0 <= k < |Led(ws, c, ", ")| ==> SplitsCleanly(Led(ws, c, ", ")[k], Session)
  {
    if ws != [] {
      PieceClean(c + Abbreviation(ws[0]));
      PiecesClean(ws[1..], ", ");
    }
  }

  /** A piece of text without `(` holds no session marker. */
  lemma {:induction false} PieceClean(p: string)
    requires '(' !in p
    ensures SplitsCleanly(p, Session)
  {
    forall i | 0 <= i < |p|
      ensures !OccursAt(p + Session, Session, i)
    {
      var s := p + Session;
      if i + 1 < |p| {
        assert s[i + 1] == p[i + 1] != '(';
      } else {
        assert s[i + 1] == ' ';
      }
      assert s[i + 1] != Session[1];
    }
  }

  lemma {:induction false} TokensClean(ws: seq<Weekday>, c: string)
    requires c == "" || c == " "
    ensures forall k :: 0 <= k < |Led(ws, c, " ")| ==> SplitsCleanly(Led(ws, c, " ")[k], ",")
  {
    if ws != [] {
      CleanWithoutFirstChar(c + Abbreviation(ws[0]), ",");
      TokensClean(ws[1..], " ");
    }
  }

  lemma {:induction false} ResolveLed(ws: seq<Weekday>, c: string)
    requires c == "" || c == " "
    ensures ResolveTokens(Led(ws, c, " ")) == FullNames(ws)
  {
    if ws != [] {
      var tokens := Led(ws, c, " ");
      assert tokens == [c + Abbreviation(ws[0])] + Led(ws[1..], " ", " ");
      ResolveAbbreviation(ws[0], c);
      ResolveLed(ws[1..], " ");
      assert tokens[1..] == Led(ws[1..], " ", " ");
    }
  }

  lemma ResolveAbbreviation(w: Weekday, c: string)
    requires c == "" || c == " "
    ensures ResolveToken(c + Abbreviation(w)) == FullName(w)
  {
    StripPadded(w, c);
    DayNameOfAbbreviation(w);
  }

  lemma DayNameOfAbbreviation(w: Weekday)
    ensures LookupDayName(Abbreviation(w)) == Some(FullName(w))
  {
    match w
    case Monday =>
    case Tuesday =>
    case Wednesday =>
    case Thursday =>
    case Friday =>
  }

  /** An abbreviation neither starts nor ends with white space. */
  lemma AbbreviationClean(w: Weekday)
    ensures var a := Abbreviation(w); |a| > 0 && !IsSpace(a[0]) && !IsSpace(a[|a| - 1])
  {
  }

  lemma StripPadded(w: Weekday, c: string)
    requires c == "" || c == " "
    ensures Strip(c + Abbreviation(w)) == Abbreviation(w)
  {
    var a := Abbreviation(w);
    AbbreviationClean(w);
    if c == " " {
      StripBlankClean(a);
    } else {
      assert c + a == a;
      StripClean(a);
    }
  }

  /**
   * `is_scheduled_to_attend` reads the spreadsheet's text for a list of days
   * back as exactly their full names (or one empty token for no day).
   */
  lemma {:induction false} AttendTokensRoundTrip(ws: seq<Weekday>)
    ensures ResolveTokens(Split(Replace(Render(ws), Session, ""), ",")) ==
            if ws == [] then [""] else FullNames(ws)
  {
    if ws == [] {
      assert Render(ws) == "";
      assert Split("", Session) == [""];
      assert Replace("", Session, "") == "";
      assert Split("", ",") == [""];
      assert Strip("") == "";
    } else {
      RenderCutAtSessions(ws, "");
      assert Render(ws) == Join(Session, Led(ws, "", ", ") + [""]);
      PiecesClean(ws, "");
      SplitJoin(Session, Led(ws, "", ", ") + [""]);
      JoinLedRegroup(ws, "");
      TokensClean(ws, "");
      SplitJoin(",", Led(ws, "", " "));
      ResolveLed(ws, "");
    }
  }

  /** A name is among the full names of a list of days exactly when one of the days has it. */
  lemma NamesListed(ws: seq<Weekday>, name: string)
    ensures name in FullNames(ws) <==> exists w :: w in ws && FullName(w) == name
  {
    if exists w :: w in ws && FullName(w) == name {
      var w :| w in ws && FullName(w) == name;
      var k :| 0 <= k < |ws| && ws[k] == w;
      assert FullNames(ws)[k] == name;
    }
    if name in FullNames(ws) {
      var k :| 0 <= k < |ws| && FullNames(ws)[k] == name;
      assert ws[k] in ws;
    }
  }

  /** On a schedule written by the spreadsheet, a date is attended exactly when its weekday is listed. */
  lemma {:induction false} AttendRoundTrip(ws: seq<Weekday>, date: int)
    ensures IsScheduledToAttend(Some(Render(ws)), date) <==>
            exists w :: w in ws && FullName(w) == Calendar.DayName(date)
  {
    var name := Calendar.DayName(date);
    AttendTokens(ws, date);
    NamesListed(ws, name);
    if ws == [] {
      assert |name| > 0;
    }
  }

  /** `is_scheduled_to_attend` on a written schedule looks the day's name up among the schedule's full names. */
  lemma AttendTokens(ws: seq<Weekday>, date: int)
    ensures IsScheduledToAttend(Some(Render(ws)), date) == (Calendar.DayName(date) in if ws == [] then [""] else FullNames(ws))
  {
    AttendTokensRoundTrip(ws);
  }
}
