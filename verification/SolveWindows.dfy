/** Cutting a date range into the windows one solve covers at a time
    (interop/core/use_cases/solve_network.py). */
module SolveWindows {
  import opened Calendar

  const SECONDS_PER_DAY := 86_400

  datatype WindowLength = Day | Week | Month | Year

  // Moments are whole seconds, so a day ends one second before the next one starts.
  datatype SolveWindow = SolveWindow(solveFrom: int, solveTo: int, keepTo: int)

  function StartOfDay(d: Date): int
    requires IsDate(d)
  {
    Ordinal(d) * SECONDS_PER_DAY
  }

  function EndOfDay(d: Date): int
    requires IsDate(d)
  {
    Ordinal(d) * SECONDS_PER_DAY + 23 * 3600 + 59 * 60 + 59
  }

  function LastDayOfMonth(d: Date): Date { d.(day := DaysInMonth(d.year, d.month)) }

  function LastDayOfWindow(d: Date, length: WindowLength): (r: Date)
    requires IsDate(d)
    ensures IsDate(r)
  {
    match length
    case Day => d
    case Week => AddDays(d, 6)
    case Month => LastDayOfMonth(d)
    case Year => Date(d.year, 12, 31)
  }

  lemma WindowLastsADay(d: Date, length: WindowLength)
    requires IsDate(d)
    ensures AtMost(d, LastDayOfWindow(d, length))
  {
    if length == Week {
      AddDaysAdds(d, 6);
      DatesOrderAsOrdinals(d, AddDays(d, 6));
    }
  }

  // ---- The days each window reports ----

  datatype Span = Span(first: Date, last: Date)

  predicate IsSpan(span: Span) { IsDate(span.first) && IsDate(span.last) && AtMost(span.first, span.last) }

  function WindowOf(span: Span, lookAheadDays: int): SolveWindow
    requires IsSpan(span)
  {
    SolveWindow(StartOfDay(span.first), EndOfDay(span.last) + lookAheadDays * SECONDS_PER_DAY, EndOfDay(span.last))
  }

  function DaysLeft(cursor: Date, end: Date): (r: nat)
    requires IsDate(cursor) && IsDate(end)
    ensures r > 0 <==> AtMost(cursor, end)
  {
    DatesOrderAsOrdinals(cursor, end);
    if AtMost(cursor, end) then Ordinal(end) - Ordinal(cursor) + 1 else 0
  }

  lemma CursorAdvances(cursor: Date, end: Date, length: WindowLength)
    requires IsDate(cursor) && IsDate(end) && AtMost(cursor, end)
    ensures var stop := Earlier(LastDayOfWindow(cursor, length), end);
            && IsSpan(Span(cursor, stop))
            && Ordinal(cursor) <= Ordinal(stop) <= Ordinal(end)
            && DaysLeft(NextDay(stop), end) == Ordinal(end) - Ordinal(stop) < DaysLeft(cursor, end)
  {
    var stop := Earlier(LastDayOfWindow(cursor, length), end);
    WindowLastsADay(cursor, length);
    DatesOrderAsOrdinals(cursor, stop);
    DatesOrderAsOrdinals(stop, end);
    NextDayIsOneLater(stop);
    DatesOrderAsOrdinals(NextDay(stop), end);
    DatesOrderAsOrdinals(LastDayOfWindow(cursor, length), end);
  }

  function Spans(cursor: Date, end: Date, length: WindowLength): (r: seq<Span>)
    requires IsDate(cursor) && IsDate(end)
    ensures forall i :: 0 <= i < |r| ==> IsSpan(r[i])
    decreases DaysLeft(cursor, end)
  {
    if !AtMost(cursor, end) then []
    else
      CursorAdvances(cursor, end, length);
      var stop := Earlier(LastDayOfWindow(cursor, length), end);
      [Span(cursor, stop)] + Spans(NextDay(stop), end, length)
  }

  function WindowsOf(spans: seq<Span>, lookAheadDays: int): (r: seq<SolveWindow>)
    requires forall i :: 0 <= i < |spans| ==> IsSpan(spans[i])
    ensures |r| == |spans|
    ensures forall i :: 0 <= i < |r| ==> r[i] == WindowOf(spans[i], lookAheadDays)
  {
    seq(|spans|, i requires 0 <= i < |spans| => WindowOf(spans[i], lookAheadDays))
  }

  method SolveWindowsOf(start: Date, end: Date, length: WindowLength, lookAheadDays: int)
    returns (windows: seq<SolveWindow>)
    requires IsDate(start) && IsDate(end)
    ensures windows == WindowsOf(Spans(start, end, length), lookAheadDays)
  {
    hide LastDayOfWindow, Ordinal, IsDate, AtMost, NextDay, DaysLeft, Earlier;
    windows := [];
    var cursor := start;
    ghost var cut: seq<Span> := [];
    while AtMost(cursor, end)
      invariant IsDate(cursor)
      invariant forall i :: 0 <= i < |cut| ==> IsSpan(cut[i])
      invariant Spans(start, end, length) == cut + Spans(cursor, end, length)
      invariant windows == WindowsOf(cut, lookAheadDays)
      decreases DaysLeft(cursor, end)
    {
      CursorAdvances(cursor, end, length);
      var stop := Earlier(LastDayOfWindow(cursor, length), end);
      var keepTo := EndOfDay(stop);
      windows := windows + [SolveWindow(StartOfDay(cursor), keepTo + lookAheadDays * SECONDS_PER_DAY, keepTo)];
      assert cut + ([Span(cursor, stop)] + Spans(NextDay(stop), end, length))
             == cut + [Span(cursor, stop)] + Spans(NextDay(stop), end, length);
      cut := cut + [Span(cursor, stop)];
      cursor := NextDay(stop);
    }
    assert cut + [] == cut;
  }

  // ---- The windows tile the range ----

  /** The spans run from `first` to `last` with no gap, each ending where its period does unless
      it is the last. */
  ghost predicate Tiles(spans: seq<Span>, first: Date, last: Date, length: WindowLength) {
    && |spans| > 0
    && (forall i :: 0 <= i < |spans| ==> IsSpan(spans[i]))
    && spans[0].first == first
    && spans[|spans| - 1].last == last
    && (forall i :: 0 <= i < |spans| - 1 ==>
          && spans[i + 1].first == NextDay(spans[i].last)
          && spans[i].last == LastDayOfWindow(spans[i].first, length))
    && AtMost(last, LastDayOfWindow(spans[|spans| - 1].first, length))
  }

  lemma {:induction false} SpansTile(start: Date, end: Date, length: WindowLength)
    requires IsDate(start) && IsDate(end)
    ensures if AtMost(start, end) then Tiles(Spans(start, end, length), start, end, length)
            else Spans(start, end, length) == []
    decreases DaysLeft(start, end)
  {
    hide Ordinal, LastDayOfWindow, IsDate;
    if AtMost(start, end) {
      CursorAdvances(start, end, length);
      var stop := Earlier(LastDayOfWindow(start, length), end);
      var rest := Spans(NextDay(stop), end, length);
      SpansTile(NextDay(stop), end, length);
      DatesOrderAsOrdinals(NextDay(stop), end);
      DatesOrderAsOrdinals(stop, LastDayOfWindow(start, length));
      TileOneMore(start, stop, rest, end, length);
    }
  }

  lemma TileOneMore(start: Date, stop: Date, rest: seq<Span>, end: Date, length: WindowLength)
    requires IsSpan(Span(start, stop)) && IsDate(end) && AtMost(stop, end)
    requires stop == Earlier(LastDayOfWindow(start, length), end)
    requires if AtMost(NextDay(stop), end) then Tiles(rest, NextDay(stop), end, length) else rest == []
    ensures Tiles([Span(start, stop)] + rest, start, end, length)
  {
    hide Ordinal, LastDayOfWindow, IsDate;
    var spans := [Span(start, stop)] + rest;
    NextDayIsOneLater(stop);
    DatesOrderAsOrdinals(NextDay(stop), end);
    DatesOrderAsOrdinals(stop, end);
    DatesOrderAsOrdinals(end, stop);
    DatesOrderAsOrdinals(end, LastDayOfWindow(start, length));
    DatesOrderAsOrdinals(LastDayOfWindow(start, length), end);
    if rest == [] {
      assert Ordinal(stop) == Ordinal(end);
      assert stop == end;
    } else {
      forall i | 0 <= i < |spans| - 1
        ensures spans[i + 1].first == NextDay(spans[i].last)
        ensures spans[i].last == LastDayOfWindow(spans[i].first, length)
      {
        if i > 0 {
          assert spans[i] == rest[i - 1] && spans[i + 1] == rest[i];
        }
      }
    }
  }

  lemma {:induction false} SpansAscend(spans: seq<Span>, first: Date, last: Date, length: WindowLength, i: int, j: int)
    requires Tiles(spans, first, last, length) && 0 <= i < j < |spans|
    ensures Ordinal(spans[i].last) < Ordinal(spans[j].first)
    decreases j
  {
    hide Ordinal, LastDayOfWindow, IsDate, AtMost;
    NextDayIsOneLater(spans[j - 1].last);
    if i < j - 1 {
      SpansAscend(spans, first, last, length, i, j - 1);
      DatesOrderAsOrdinals(spans[j - 1].first, spans[j - 1].last);
    }
  }

  lemma SpanOfDay(spans: seq<Span>, first: Date, last: Date, length: WindowLength, day: int) returns (i: int)
    requires IsDate(first) && IsDate(last) && Tiles(spans, first, last, length)
    requires Ordinal(first) <= day <= Ordinal(last)
    ensures 0 <= i < |spans| && Ordinal(spans[i].first) <= day <= Ordinal(spans[i].last)
  {
    hide Ordinal, LastDayOfWindow, IsDate, AtMost;
    i := 0;
    while Ordinal(spans[i].last) < day
      invariant 0 <= i < |spans| && Ordinal(spans[i].first) <= day
      decreases |spans| - i
    {
      NextDayIsOneLater(spans[i].last);
      i := i + 1;
    }
  }

  lemma SecondsOfADay(second: int) returns (day: int)
    ensures day * SECONDS_PER_DAY <= second <= day * SECONDS_PER_DAY + (SECONDS_PER_DAY - 1)
  {
    day := second / SECONDS_PER_DAY;
  }

  /** Every whole second from the first day's start to the last day's end is reported by exactly
      one window. */
  lemma EverySecondHasOneWindow(start: Date, end: Date, length: WindowLength, lookAheadDays: int, second: int)
    returns (i: int)
    requires IsDate(start) && IsDate(end) && AtMost(start, end)
    requires StartOfDay(start) <= second <= EndOfDay(end)
    ensures var windows := WindowsOf(Spans(start, end, length), lookAheadDays);
            && 0 <= i < |windows|
            && windows[i].solveFrom <= second <= windows[i].keepTo
            && forall j :: 0 <= j < |windows| && windows[j].solveFrom <= second <= windows[j].keepTo ==> j == i
  {
    hide Ordinal, LastDayOfWindow, IsDate, AtMost, Spans;
    SpansTile(start, end, length);
    var spans := Spans(start, end, length);
    var windows := WindowsOf(spans, lookAheadDays);
    var day := SecondsOfADay(second);
    i := SpanOfDay(spans, start, end, length, day);
    forall j | 0 <= j < |windows| && windows[j].solveFrom <= second <= windows[j].keepTo ensures j == i {
      if j < i {
        SpansAscend(spans, start, end, length, j, i);
      } else if i < j {
        SpansAscend(spans, start, end, length, i, j);
      }
    }
  }

  /** Windows follow each other without a gap, from the first day to the last, and each is solved
      the look-ahead past the end it reports to. */
  lemma WindowsAreContiguous(start: Date, end: Date, length: WindowLength, lookAheadDays: int)
    requires IsDate(start) && IsDate(end)
    ensures var windows := WindowsOf(Spans(start, end, length), lookAheadDays);
            && (|windows| == 0 <==> !AtMost(start, end))
            && (|windows| > 0 ==>
                  windows[0].solveFrom == StartOfDay(start) && windows[|windows| - 1].keepTo == EndOfDay(end))
            && (forall i :: 0 <= i < |windows| ==>
                  windows[i].solveFrom < windows[i].keepTo
                  && windows[i].solveTo == windows[i].keepTo + lookAheadDays * SECONDS_PER_DAY)
            && (forall i :: 0 <= i < |windows| - 1 ==> windows[i + 1].solveFrom == windows[i].keepTo + 1)
  {
    hide Ordinal, LastDayOfWindow, IsDate, AtMost, Spans;
    SpansTile(start, end, length);
    var spans := Spans(start, end, length);
    forall i | 0 <= i < |spans| ensures Ordinal(spans[i].first) <= Ordinal(spans[i].last) {
      DatesOrderAsOrdinals(spans[i].first, spans[i].last);
    }
    forall i | 0 <= i < |spans| - 1 ensures Ordinal(spans[i + 1].first) == Ordinal(spans[i].last) + 1 {
      NextDayIsOneLater(spans[i].last);
    }
  }

  /** Every window after the first starts its month, or its year. */
  lemma LaterWindowsStartTheirPeriod(start: Date, end: Date, length: WindowLength, i: int)
    requires IsDate(start) && IsDate(end) && 0 < i < |Spans(start, end, length)|
    ensures length == Month ==> Spans(start, end, length)[i].first.day == 1
    ensures length == Year ==> Spans(start, end, length)[i].first.month == 1 && Spans(start, end, length)[i].first.day == 1
  {
    hide Ordinal, Spans;
    SpansTile(start, end, length);
    var spans := Spans(start, end, length);
    assert spans[i].first == NextDay(spans[i - 1].last);
    assert spans[i - 1].last == LastDayOfWindow(spans[i - 1].first, length);
  }

  /** A day's window is that day, a week's is seven days but for the last one, and a month's or a
      year's never leaves its own. */
  lemma WindowsStayInTheirPeriod(start: Date, end: Date, length: WindowLength, i: int)
    requires IsDate(start) && IsDate(end) && 0 <= i < |Spans(start, end, length)|
    ensures var spans := Spans(start, end, length);
            var first, last := spans[i].first, spans[i].last;
            match length
            case Day => first == last
            case Week => 0 <= Ordinal(last) - Ordinal(first) <= 6 && (i < |spans| - 1 ==> Ordinal(last) - Ordinal(first) == 6)
            case Month => first.year == last.year && first.month == last.month
            case Year => first.year == last.year
  {
    hide Ordinal, Spans, AddDays, IsDate;
    SpansTile(start, end, length);
    var spans := Spans(start, end, length);
    var span := spans[i];
    DatesOrderAsOrdinals(span.first, span.last);
    AddDaysAdds(span.first, 6);
    DatesOrderAsOrdinals(span.last, LastDayOfWindow(span.first, length));
    DatesOrderAsOrdinals(span.last, span.first);
  }

  /** A window is solved from its first day's midnight, and reports to the second before the
      midnight after its last. */
  lemma WindowsInSeconds(span: Span, lookAheadDays: int)
    requires IsSpan(span)
    ensures var window := WindowOf(span, lookAheadDays);
            && window.solveFrom == 86_400 * Ordinal(span.first)
            && window.keepTo == 86_400 * Ordinal(NextDay(span.last)) - 1
            && window.solveTo == 86_400 * (Ordinal(NextDay(span.last)) + lookAheadDays) - 1
  {
    NextDayIsOneLater(span.last);
  }

  lemma {:induction false} CountsDays(start: Date, end: Date)
    requires IsDate(start) && IsDate(end)
    ensures |Spans(start, end, Day)| == DaysLeft(start, end)
    decreases DaysLeft(start, end)
  {
    hide Ordinal, IsDate, AtMost;
    if AtMost(start, end) {
      CursorAdvances(start, end, Day);
      CountsDays(NextDay(start), end);
    }
  }

  /** A week-long cut makes ceil(days / 7) windows. */
  lemma {:induction false} CountsWeeks(start: Date, end: Date)
    requires IsDate(start) && IsDate(end)
    ensures |Spans(start, end, Week)| == (DaysLeft(start, end) + 6) / 7
    decreases DaysLeft(start, end)
  {
    hide Ordinal, IsDate, AtMost, AddDays;
    if AtMost(start, end) {
      var stop := Earlier(AddDays(start, 6), end);
      CursorAdvances(start, end, Week);
      AddDaysAdds(start, 6);
      DatesOrderAsOrdinals(AddDays(start, 6), end);
      CountsWeeks(NextDay(stop), end);
    }
  }
}
