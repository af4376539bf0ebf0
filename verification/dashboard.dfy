/** The agent dashboard's small total helpers: `filter_messages`, `format_timestamp`,
    `get_priority_color` and `get_status_color`. */
module Dashboard {
  import opened Wrappers
  import opened Text
  import opened Records

  // ---------------------------------------------------------------- filter_messages

  /** One active filter of `filter_messages`. */
  datatype Criterion =
    | SearchFor(query: string)        // body or user id contains the query, ignoring case
    | PriorityIs(priority: string)
    | CategoryIs(category: string)
    | StatusIs(status: string)

  predicate Holds(c: Criterion, m: CustomerMessage)
  {
    match c
    case SearchFor(q) =>
      Contains(Lower(m.messageBody), Lower(q)) || Contains(Lower(DecimalString(m.userId)), Lower(q))
    case PriorityIs(p) => m.priority.Label() == p
    case CategoryIs(c) => m.category.Label() == c
    case StatusIs(s) => m.status.Label() == s
  }

  /** The rows satisfying `c`, in their original order (one boolean mask). */
  function Where(rows: seq<CustomerMessage>, c: Criterion): seq<CustomerMessage>
  {
    if rows == [] then []
    else Where(rows[..|rows| - 1], c) + (if Holds(c, rows[|rows| - 1]) then [rows[|rows| - 1]] else [])
  }

  predicate HoldsAll(cs: seq<Criterion>, m: CustomerMessage)
  {
    forall i :: 0 <= i < |cs| ==> Holds(cs[i], m)
  }

  /** The rows satisfying every criterion of `cs`, in their original order. */
  function WhereAll(rows: seq<CustomerMessage>, cs: seq<Criterion>): seq<CustomerMessage>
  {
    if rows == [] then []
    else WhereAll(rows[..|rows| - 1], cs) + (if HoldsAll(cs, rows[|rows| - 1]) then [rows[|rows| - 1]] else [])
  }

  /** `filter_messages`: the search mask, then each equality mask whose filter is not
      `"all"`, applied one after the other. */
  function FilterMessages(rows: seq<CustomerMessage>, searchQuery: string, priorityFilter: string,
                          categoryFilter: string, statusFilter: string): seq<CustomerMessage>
  {
    var searched := if searchQuery != "" then Where(rows, SearchFor(searchQuery)) else rows;
    var byPriority := if priorityFilter != "all" then Where(searched, PriorityIs(priorityFilter)) else searched;
    var byCategory := if categoryFilter != "all" then Where(byPriority, CategoryIs(categoryFilter)) else byPriority;
    if statusFilter != "all" then Where(byCategory, StatusIs(statusFilter)) else byCategory
  }

  /** The criteria `filter_messages` applies for its arguments. */
  function ActiveCriteria(searchQuery: string, priorityFilter: string,
                          categoryFilter: string, statusFilter: string): seq<Criterion>
  {
    (if searchQuery != "" then [SearchFor(searchQuery)] else [])
    + (if priorityFilter != "all" then [PriorityIs(priorityFilter)] else [])
    + (if categoryFilter != "all" then [CategoryIs(categoryFilter)] else [])
    + (if statusFilter != "all" then [StatusIs(statusFilter)] else [])
  }

  /** `sub` is `rows` with some rows dropped and the others kept in order: the last
      row is either kept as the last of `sub` or dropped. */
  predicate IsSubsequence(sub: seq<CustomerMessage>, rows: seq<CustomerMessage>)
  {
    if rows == [] then sub == []
    else
      || (sub != [] && sub[|sub| - 1] == rows[|rows| - 1] && IsSubsequence(sub[..|sub| - 1], rows[..|rows| - 1]))
      || IsSubsequence(sub, rows[..|rows| - 1])
  }

  /** Keeping the rows that satisfy every criterion gives an order-preserving
      sub-sequence of the input. */
  lemma {:induction false} WhereAllSubsequence(rows: seq<CustomerMessage>, cs: seq<Criterion>)
    ensures IsSubsequence(WhereAll(rows, cs), rows)
  {
    if rows != [] {
      var n := |rows| - 1;
      WhereAllSubsequence(rows[..n], cs);
      var r := WhereAll(rows, cs);
      if HoldsAll(cs, rows[n]) {
        assert r[..|r| - 1] == WhereAll(rows[..n], cs);
      } else {
        assert r == WhereAll(rows[..n], cs);
      }
    }
  }

  /** A row is kept exactly when it is in the input and satisfies every criterion. */
  lemma {:induction false} WhereAllMembers(rows: seq<CustomerMessage>, cs: seq<Criterion>)
    ensures forall m :: m in WhereAll(rows, cs) <==> m in rows && HoldsAll(cs, m)
  {
    if rows != [] {
      var n := |rows| - 1;
      WhereAllMembers(rows[..n], cs);
      assert rows == rows[..n] + [rows[n]];
    }
  }

  /** One more mask on top of the earlier ones is one more conjunct. */
  lemma {:induction false} WhereAfterWhereAll(rows: seq<CustomerMessage>, cs: seq<Criterion>, c: Criterion)
    ensures Where(WhereAll(rows, cs), c) == WhereAll(rows, cs + [c])
  {
    if rows != [] {
      var n := |rows| - 1;
      WhereAfterWhereAll(rows[..n], cs, c);
      var m := rows[n];
      assert HoldsAll(cs + [c], m) <==> HoldsAll(cs, m) && Holds(c, m) by {
        assert forall i :: 0 <= i < |cs| ==> (cs + [c])[i] == cs[i];
        assert (cs + [c])[|cs|] == c;
      }
      var prefix := WhereAll(rows[..n], cs);
      if HoldsAll(cs, m) {
        assert (prefix + [m])[..|prefix|] == prefix;
      } else {
        assert prefix + [] == prefix;
      }
    }
  }

  lemma {:induction false} WhereAllNone(rows: seq<CustomerMessage>)
    ensures WhereAll(rows, []) == rows
  {
    if rows != [] {
      WhereAllNone(rows[..|rows| - 1]);
    }
  }

  /** The successive masks of `filter_messages` are one mask with the conjunction of
      the active filters; so its result is an order-preserving sub-sequence of the
      input holding exactly the rows that pass every active filter. */
  lemma FilterMessagesSpec(rows: seq<CustomerMessage>, searchQuery: string, priorityFilter: string,
                           categoryFilter: string, statusFilter: string)
    ensures FilterMessages(rows, searchQuery, priorityFilter, categoryFilter, statusFilter)
            == WhereAll(rows, ActiveCriteria(searchQuery, priorityFilter, categoryFilter, statusFilter))
    ensures IsSubsequence(FilterMessages(rows, searchQuery, priorityFilter, categoryFilter, statusFilter), rows)
    ensures forall m :: m in FilterMessages(rows, searchQuery, priorityFilter, categoryFilter, statusFilter) <==>
              m in rows && HoldsAll(ActiveCriteria(searchQuery, priorityFilter, categoryFilter, statusFilter), m)
  {
    var c0: seq<Criterion> := [];
    var c1 := c0 + (if searchQuery != "" then [SearchFor(searchQuery)] else []);
    var c2 := c1 + (if priorityFilter != "all" then [PriorityIs(priorityFilter)] else []);
    var c3 := c2 + (if categoryFilter != "all" then [CategoryIs(categoryFilter)] else []);
    var c4 := c3 + (if statusFilter != "all" then [StatusIs(statusFilter)] else []);
    assert c4 == ActiveCriteria(searchQuery, priorityFilter, categoryFilter, statusFilter);
    WhereAllNone(rows);
    var r1 := WhereAll(rows, c1);
    if searchQuery != "" { WhereAfterWhereAll(rows, c0, SearchFor(searchQuery)); } else { assert c1 == c0; }
    var r2 := WhereAll(rows, c2);
    if priorityFilter != "all" { WhereAfterWhereAll(rows, c1, PriorityIs(priorityFilter)); } else { assert c2 == c1; }
    var r3 := WhereAll(rows, c3);
    if categoryFilter != "all" { WhereAfterWhereAll(rows, c2, CategoryIs(categoryFilter)); } else { assert c3 == c2; }
    if statusFilter != "all" { WhereAfterWhereAll(rows, c3, StatusIs(statusFilter)); } else { assert c4 == c3; }
    WhereAllSubsequence(rows, c4);
    WhereAllMembers(rows, c4);
  }

  /** With every filter at its default nothing is removed. */
  lemma FilterMessagesDefaults(rows: seq<CustomerMessage>)
    ensures FilterMessages(rows, "", "all", "all", "all") == rows
  {
  }

  /** A row passes one mask exactly when it is in the input and satisfies it. */
  lemma {:induction false} WhereMembers(rows: seq<CustomerMessage>, c: Criterion)
    ensures forall m :: m in Where(rows, c) <==> m in rows && Holds(c, m)
  {
    if rows != [] {
      var n := |rows| - 1;
      WhereMembers(rows[..n], c);
      assert rows == rows[..n] + [rows[n]];
    }
  }

  /** Every kept row is an input row and satisfies each active filter. */
  lemma FilterMessagesKeepsMatching(rows: seq<CustomerMessage>, searchQuery: string, priorityFilter: string,
                                    categoryFilter: string, statusFilter: string, m: CustomerMessage)
    requires m in FilterMessages(rows, searchQuery, priorityFilter, categoryFilter, statusFilter)
    ensures m in rows
    ensures searchQuery != "" ==> Holds(SearchFor(searchQuery), m)
    ensures priorityFilter != "all" ==> m.priority.Label() == priorityFilter
    ensures categoryFilter != "all" ==> m.category.Label() == categoryFilter
    ensures statusFilter != "all" ==> m.status.Label() == statusFilter
  {
    var searched := if searchQuery != "" then Where(rows, SearchFor(searchQuery)) else rows;
    var byPriority := if priorityFilter != "all" then Where(searched, PriorityIs(priorityFilter)) else searched;
    var byCategory := if categoryFilter != "all" then Where(byPriority, CategoryIs(categoryFilter)) else byPriority;
    WhereMembers(rows, SearchFor(searchQuery));
    WhereMembers(searched, PriorityIs(priorityFilter));
    WhereMembers(byPriority, CategoryIs(categoryFilter));
    WhereMembers(byCategory, StatusIs(statusFilter));
  }

  // ---------------------------------------------------------------- format_timestamp

  /** What `format_timestamp` shows. `Calendar` stands for the `strftime` date. */
  datatype TimeLabel =
    | NotAvailable
    | JustNow
    | MinutesAgo(minutes: int)
    | HoursAgo(hours: int)
    | Yesterday
    | DaysAgo(days: int)
    | Calendar

  const SecondsPerDay: int := 86400

  /** `format_timestamp`, given the whole seconds elapsed since the timestamp (rounded
      down; `None` for a missing timestamp). As in `timedelta`, the elapsed time splits
      into `days` (rounded down, negative for a future timestamp) and `seconds` in
      [0, 86400). */
  function FormatTimestamp(elapsed: Option<int>): TimeLabel
  {
    match elapsed
    case None => NotAvailable
    case Some(e) =>
      var days := e / SecondsPerDay;
      var seconds := e % SecondsPerDay;
      if days == 0 then
        if seconds < 60 then JustNow
        else if seconds < 3600 then MinutesAgo(seconds / 60)
        else HoursAgo(seconds / 3600)
      else if days == 1 then Yesterday
      else if days < 7 then DaysAgo(days)
      else Calendar
  }

  /** The buckets in terms of the elapsed time: under a minute is "just now", under an
      hour whole minutes (1-59), under a day whole hours (1-23), the next day
      "yesterday", up to a week whole days (2-6), and a week or more the calendar date.
      A timestamp in the future falls into the days bucket with a negative count. */
  lemma FormatTimestampBuckets(e: int)
    ensures FormatTimestamp(Some(e)) == JustNow <==> 0 <= e < 60
    ensures FormatTimestamp(Some(e)).MinutesAgo? <==> 60 <= e < 3600
    ensures FormatTimestamp(Some(e)).MinutesAgo? ==> 1 <= FormatTimestamp(Some(e)).minutes <= 59
    ensures FormatTimestamp(Some(e)).HoursAgo? <==> 3600 <= e < SecondsPerDay
    ensures FormatTimestamp(Some(e)).HoursAgo? ==> 1 <= FormatTimestamp(Some(e)).hours <= 23
    ensures FormatTimestamp(Some(e)) == Yesterday <==> SecondsPerDay <= e < 2 * SecondsPerDay
    ensures FormatTimestamp(Some(e)).DaysAgo? <==> e < 0 || 2 * SecondsPerDay <= e < 7 * SecondsPerDay
    ensures FormatTimestamp(Some(e)).DaysAgo? ==>
              var d := FormatTimestamp(Some(e)).days; d * SecondsPerDay <= e < (d + 1) * SecondsPerDay && d != 0 && d != 1 && d < 7
    ensures FormatTimestamp(Some(e)) == Calendar <==> e >= 7 * SecondsPerDay
  {
  }

  /** The text `format_timestamp` returns for a label; `calendar` stands for the
      `strftime("%b %d, %Y")` rendering of the timestamp. */
  function LabelText(tl: TimeLabel, calendar: string): string
  {
    match tl
    case NotAvailable => "N/A"
    case JustNow => "Just now"
    case MinutesAgo(m) => DecimalString(m) + "m ago"
    case HoursAgo(h) => DecimalString(h) + "h ago"
    case Yesterday => "Yesterday"
    case DaysAgo(d) => DecimalString(d) + "d ago"
    case Calendar => calendar
  }

  /** The counted texts read back: between a minute and a week ago (yesterday aside),
      the text is a decimal count followed by its unit suffix, and the count is the
      whole minutes, hours or days elapsed. */
  lemma LabelTextReadsBack(e: int, calendar: string)
    requires 60 <= e < 7 * SecondsPerDay && !(SecondsPerDay <= e < 2 * SecondsPerDay)
    ensures var t := LabelText(FormatTimestamp(Some(e)), calendar);
      && |t| > 5 && AllDigits(t[..|t| - 5])
      && t[|t| - 5..] == (if e < 3600 then "m ago" else if e < SecondsPerDay then "h ago" else "d ago")
      && DigitsValue(t[..|t| - 5]) == (if e < 3600 then e / 60 else if e < SecondsPerDay then e / 3600 else e / SecondsPerDay)
  {
    var n: nat := if e < 3600 then e / 60 else if e < SecondsPerDay then e / 3600 else e / SecondsPerDay;
    var suffix := if e < 3600 then "m ago" else if e < SecondsPerDay then "h ago" else "d ago";
    var t := LabelText(FormatTimestamp(Some(e)), calendar);
    assert t == NatString(n) + suffix;
    assert t[..|t| - 5] == NatString(n);
    NatStringRoundTrip(n);
  }

  // ---------------------------------------------------------------- colours

  const DefaultColor: string := "#757575"

  /** `get_priority_color`: looked up after lower-casing the label. */
  function PriorityColor(priority: string): string
  {
    var key := Lower(priority);
    if key == "high" then "#FF4B4B"
    else if key == "medium" then "#FFA500"
    else if key == "low" then "#4CAF50"
    else if key == "normal" then "#2196F3"
    else DefaultColor
  }

  /** `get_status_color`: looked up on the label exactly as given. */
  function StatusColor(status: string): string
  {
    if status == "pending" then "#FF9800"
    else if status == "in_progress" then "#2196F3"
    else if status == "resolved" then "#4CAF50"
    else DefaultColor
  }

  /** The priority colour ignores case: a label and its lower-cased form get the same
      colour, and every label outside the four known tiers gets the default. */
  lemma PriorityColorIgnoresCase(priority: string)
    ensures PriorityColor(priority) == PriorityColor(Lower(priority))
    ensures PriorityColor(priority) == DefaultColor <==> Lower(priority) !in {"high", "medium", "low", "normal"}
  {
    LowerIdempotent(priority);
  }

  /** Every priority either classifier stores has its own, non-default colour. */
  lemma PriorityColorsOfTiers(p: Priority, q: Priority)
    ensures PriorityColor(p.Label()) != DefaultColor
    ensures p != q ==> PriorityColor(p.Label()) != PriorityColor(q.Label())
  {
    var s := p.Label();
    assert Lower(s) == s by {
      assert IsLowered(s);
      forall i | 0 <= i < |s| ensures Lower(s)[i] == s[i] { }
    }
    var t := q.Label();
    assert Lower(t) == t by {
      assert IsLowered(t);
      forall i | 0 <= i < |t| ensures Lower(t)[i] == t[i] { }
    }
  }

  /** The status colour is case-sensitive: only the three exact labels have a colour. */
  lemma StatusColorExact(status: string)
    ensures StatusColor(status) != DefaultColor <==> status in {"pending", "in_progress", "resolved"}
    ensures StatusColor("Pending") == DefaultColor
  {
  }

  /** Every stored status has its own, non-default colour. */
  lemma StatusColorsOfStatuses(s: Status, t: Status)
    ensures StatusColor(s.Label()) != DefaultColor
    ensures s != t ==> StatusColor(s.Label()) != StatusColor(t.Label())
  {
  }
}
