/** The stored-files table: every archived file with the date-time and title
    read off its name, how many storers hold it, a case-insensitive search
    and a toggling sort by day. */
module StoredFiles {
  import opened Common
  import opened Seqs
  import opened Dates

  /** The local wall-clock reading `new Date()` gives (month 1-based). */
  datatype Clock = Clock(year: nat, month: nat, day: nat, hours: nat, minutes: nat, seconds: nat)

  /** What `formatFileName` derives from a file name. */
  datatype Naming = Naming(dateTime: string, title: string)

  datatype FileRow = FileRow(originalName: string, dateTime: string, title: string,
                             storerCount: nat, storers: seq<string>)

  datatype Table = Table(files: seq<FileRow>, filteredFiles: seq<FileRow>,
                         searchTerm: string, isAscending: bool)

  const Initial := Table([], [], "", true)

  // ---------------------------------------------------------------------
  // Reading a file name

  /** The name starts with fourteen ASCII digits (`/^(\d{14})/`). */
  predicate HasTimestamp(name: string) {
    |name| >= 14 && AllDigits(name[..14])
  }

  /** "YYYYMMDDhhmmss" rendered as "DD/MM/YYYY hh:mm:ss". */
  function RenderTimestamp(ts: string): (r: string)
    requires |ts| >= 14
    ensures |r| == 19
  {
    ts[6..8] + "/" + ts[4..6] + "/" + ts[0..4] + " " + ts[8..10] + ":" + ts[10..12] + ":" + ts[12..14]
  }

  /** A clock reading rendered the same way: two-digit fields padded with
      '0', the year as is. */
  function RenderClock(c: Clock): string {
    Pad2(c.day) + "/" + Pad2(c.month) + "/" + Decimal(c.year) + " "
    + Pad2(c.hours) + ":" + Pad2(c.minutes) + ":" + Pad2(c.seconds)
  }

  /** `name.slice(15)`: everything after the fifteenth character. */
  function AfterStamp(name: string): string {
    if |name| <= 15 then "" else name[15..]
  }

  /** `formatFileName`: a stamped name gives its stamp's date-time and, as
      title, the rest after the character following the stamp with the
      first ".html" removed; any other name keeps its full text as title
      and is dated with the current clock. */
  function FormatFileName(name: string, now: Clock): (r: Naming)
    ensures HasTimestamp(name) ==> |r.dateTime| == 19
    ensures HasTimestamp(name) && !Contains(AfterStamp(name), ".html") ==> r.title == AfterStamp(name)
    ensures HasTimestamp(name) && Contains(AfterStamp(name), ".html") ==>
      |r.title| == |AfterStamp(name)| - 5
    ensures !HasTimestamp(name) ==> r.title == name
  {
    if HasTimestamp(name) then Naming(RenderTimestamp(name[..14]), RemoveFirst(AfterStamp(name), ".html"))
    else Naming(RenderClock(now), name)
  }

  /** The stamp read back out of a rendered "DD/MM/YYYY hh:mm:ss". */
  function StampOf(dateTime: string): string
    requires |dateTime| >= 19
  {
    dateTime[6..10] + dateTime[3..5] + dateTime[0..2] + dateTime[11..13] + dateTime[14..16] + dateTime[17..19]
  }

  /** The rendered date-time of a stamped name loses nothing: its stamp is
      recovered from it exactly, and the characters between the fields are
      the separators "/", "/", " ", ":" and ":". */
  lemma StampRoundTrip(name: string, now: Clock)
    requires HasTimestamp(name)
    ensures StampOf(FormatFileName(name, now).dateTime) == name[..14]
    ensures var dt := FormatFileName(name, now).dateTime;
            dt[2] == '/' && dt[5] == '/' && dt[10] == ' ' && dt[13] == ':' && dt[16] == ':'
  {
    var ts := name[..14];
    RenderedDate(ts);
    RenderedTime(ts);
    assert ts == ts[0..4] + ts[4..6] + ts[6..8] + ts[8..10] + ts[10..12] + ts[12..14];
  }

  /** The title of a stamped name is the text after the stamp with one
      ".html" taken out: putting it back at the first place it occurred
      restores that text. */
  lemma TitleRoundTrip(name: string, now: Clock)
    requires HasTimestamp(name)
    ensures var title := FormatFileName(name, now).title;
            title == AfterStamp(name)
            || exists i :: (0 <= i <= |title| && title[..i] + ".html" + title[i..] == AfterStamp(name)
                            && forall j :: 0 <= j < i ==> !OccursAt(AfterStamp(name), ".html", j))
  {
    var rest := AfterStamp(name);
    var title := FormatFileName(name, now).title;
    if Contains(rest, ".html") {
      var i := IndexOf(rest, ".html").value;
      RemoveFirstAt(rest, ".html", i);
      assert title[..i] == rest[..i] && title[i..] == rest[i + 5..];
      assert rest == rest[..i] + rest[i..i + 5] + rest[i + 5..];
    }
  }

  /** The day a stamped name's row sorts by is the stamp's year, month and day. */
  lemma StampDate(name: string, now: Clock)
    requires HasTimestamp(name)
    ensures DateOf(FormatFileName(name, now).dateTime)
         == Some(Date(Value(name[0..4]), Value(name[4..6]), Value(name[6..8])))
  {
    var ts := name[..14];
    var dt := RenderTimestamp(ts);
    RenderedDate(ts);
    assert ts[6..8] == name[6..8] && ts[4..6] == name[4..6] && ts[0..4] == name[0..4];
    assert HasDatePart(dt) by {
      DigitsSlice(ts, 6, 8);
      DigitsSlice(ts, 4, 6);
      DigitsSlice(ts, 0, 4);
    }
  }

  /** Where the day, month and year of a stamp land in its rendering. */
  lemma RenderedDate(ts: string)
    requires |ts| >= 14
    ensures RenderTimestamp(ts)[0..2] == ts[6..8] && RenderTimestamp(ts)[3..5] == ts[4..6]
    ensures RenderTimestamp(ts)[6..10] == ts[0..4]
    ensures RenderTimestamp(ts)[2] == '/' && RenderTimestamp(ts)[5] == '/' && RenderTimestamp(ts)[10] == ' '
  {
  }

  /** Where the hours, minutes and seconds of a stamp land in its rendering. */
  lemma RenderedTime(ts: string)
    requires |ts| >= 14
    ensures RenderTimestamp(ts)[11..13] == ts[8..10] && RenderTimestamp(ts)[14..16] == ts[10..12]
    ensures RenderTimestamp(ts)[17..19] == ts[12..14]
    ensures RenderTimestamp(ts)[13] == ':' && RenderTimestamp(ts)[16] == ':'
  {
  }

  lemma DigitsSlice(s: string, i: nat, j: nat)
    requires AllDigits(s) && i <= j <= |s|
    ensures AllDigits(s[i..j])
  {
    assert forall k :: 0 <= k < j - i ==> s[i..j][k] == s[i + k];
  }

  lemma FourDigitYear(y: nat)
    requires 1000 <= y <= 9999
    ensures |Decimal(y)| == 4
  {
    assert |Decimal(y / 1000)| == 1;
    assert |Decimal(y / 100)| == 2;
    assert |Decimal(y / 10)| == 3;
  }

  /** An unstamped name's row sorts by the clock's day, for any clock in
      years 1000 to 9999. */
  lemma ClockDate(name: string, now: Clock)
    requires !HasTimestamp(name)
    requires 1000 <= now.year <= 9999 && now.month < 100 && now.day < 100
    ensures DateOf(FormatFileName(name, now).dateTime) == Some(Date(now.year, now.month, now.day))
  {
    var dt := RenderClock(now);
    FourDigitYear(now.year);
    ValueOfDecimal(now.year);
    var d, m, y := Pad2(now.day), Pad2(now.month), Decimal(now.year);
    assert dt == d + "/" + m + "/" + y + " " + (Pad2(now.hours) + ":" + Pad2(now.minutes) + ":" + Pad2(now.seconds));
    assert dt[0..2] == d && dt[3..5] == m && dt[6..10] == y;
    assert dt[2] == '/' && dt[5] == '/' && dt[10] == ' ';
  }

  /** An unstamped name's date-time is exactly nineteen characters for a
      clock in years 1000 to 9999: with `ClockDate` and `ClockTime` every
      character is fixed, and nothing sits between the date and the time. */
  lemma ClockLength(name: string, now: Clock)
    requires !HasTimestamp(name)
    requires 1000 <= now.year <= 9999 && now.month < 100 && now.day < 100
    requires now.hours < 100 && now.minutes < 100 && now.seconds < 100
    ensures |FormatFileName(name, now).dateTime| == 19
  {
    FourDigitYear(now.year);
  }

  /** An unstamped name's row shows the clock's time of day as the last
      eight characters "hh:mm:ss", whatever the year's width. */
  lemma ClockTime(name: string, now: Clock)
    requires !HasTimestamp(name)
    requires now.hours < 100 && now.minutes < 100 && now.seconds < 100
    ensures var dt := FormatFileName(name, now).dateTime;
            && |dt| >= 9 && dt[|dt| - 9] == ' '
            && Value(dt[|dt| - 8..|dt| - 6]) == now.hours && dt[|dt| - 6] == ':'
            && Value(dt[|dt| - 5..|dt| - 3]) == now.minutes && dt[|dt| - 3] == ':'
            && Value(dt[|dt| - 2..]) == now.seconds
  {
    var h, m, sec := Pad2(now.hours), Pad2(now.minutes), Pad2(now.seconds);
    var date := Pad2(now.day) + "/" + Pad2(now.month) + "/" + Decimal(now.year);
    assert RenderClock(now) == date + " " + (h + ":" + m + ":" + sec);
    TimeFields(date, h, m, sec);
  }

  /** Where the fields of a trailing " hh:mm:ss" sit. */
  lemma TimeFields(date: string, h: string, m: string, sec: string)
    requires |h| == 2 && |m| == 2 && |sec| == 2
    ensures var dt := date + " " + (h + ":" + m + ":" + sec);
            var n := |dt|;
            && n >= 9 && dt[n - 9] == ' '
            && dt[n - 8..n - 6] == h && dt[n - 6] == ':'
            && dt[n - 5..n - 3] == m && dt[n - 3] == ':'
            && dt[n - 2..] == sec
  {
    var time := h + ":" + m + ":" + sec;
    var dt := date + " " + time;
    assert dt[|dt| - 8..] == time;
  }

  /** "20230615142233reportA.html": the title starts at position 15, so the
      "r" at position 14 is skipped and the title is "eportA". */
  lemma ReportExample(now: Clock)
    ensures FormatFileName("20230615142233reportA.html", now) == Naming("15/06/2023 14:22:33", "eportA")
  {
    var name := "20230615142233reportA.html";
    assert HasTimestamp(name);
    assert AfterStamp(name) == "eportA.html";
    assert name[..14] == "20230615142233";
    ReportTitle();
    ReportDateTime();
  }

  lemma ReportTitle()
    ensures RemoveFirst("eportA.html", ".html") == "eportA"
  {
    var rest := "eportA.html";
    assert OccursAt(rest, ".html", 6);
    forall j | 0 <= j < 6 ensures !OccursAt(rest, ".html", j) {
      assert rest[j..j + 5][0] == rest[j] != '.';
    }
    RemoveFirstAt(rest, ".html", 6);
    assert rest[..6] + rest[11..] == "eportA";
  }

  lemma ReportDateTime()
    ensures RenderTimestamp("20230615142233") == "15/06/2023 14:22:33"
  {
    var ts := "2023" + "06" + "15" + "14" + "22" + "33";
    assert ts == "20230615142233";
    assert ts[6..8] == "15" && ts[4..6] == "06" && ts[0..4] == "2023";
    assert ts[8..10] == "14" && ts[10..12] == "22" && ts[12..14] == "33";
  }

  /** The stamp is not range-checked: fourteen nines read as the 99th day
      of the 99th month, at 99:99:99. */
  lemma UncheckedStampExample(now: Clock)
    ensures FormatFileName("99999999999999_a", now) == Naming("99/99/9999 99:99:99", "a")
  {
    var name := "99999999999999_a";
    assert HasTimestamp(name);
    assert AfterStamp(name) == "a";
    assert !Contains("a", ".html");
    assert name[..14] == "99999999999999";
    NinesDateTime();
  }

  lemma NinesDateTime()
    ensures RenderTimestamp("99999999999999") == "99/99/9999 99:99:99"
  {
  }

  /** A name made of the stamp alone has an empty title. */
  lemma BareStampExample(now: Clock)
    ensures FormatFileName("20240101000000", now).title == ""
  {
  }

  /** Only the first ".html" goes: "x.html.html" after the stamp leaves "x.html". */
  lemma DoubleExtensionExample(now: Clock)
    ensures FormatFileName("20240101000000_x.html.html", now).title == "x.html"
  {
    var name := "20240101000000_x.html.html";
    assert HasTimestamp(name);
    var rest := AfterStamp(name);
    assert rest == "x.html.html";
    assert OccursAt(rest, ".html", 1);
    assert !OccursAt(rest, ".html", 0) by {
      assert rest[0..5][0] == 'x';
    }
    RemoveFirstAt(rest, ".html", 1);
    assert rest[..1] + rest[6..] == "x.html";
  }

  // ---------------------------------------------------------------------
  // Opening the page

  /** One table row: the name, what `formatFileName` reads off it, and the
      storers the server reported. */
  function MakeRow(name: string, storers: seq<string>, now: Clock): (r: FileRow)
    ensures r.originalName == name && r.storers == storers && r.storerCount == |storers|
    ensures Naming(r.dateTime, r.title) == FormatFileName(name, now)
  {
    var n := FormatFileName(name, now);
    FileRow(name, n.dateTime, n.title, |storers|, storers)
  }

  /** `ngOnInit`, given the server's answer to `getStoredFiles` (absent
      means none), its answer to `getStorersOfFile` for the file at each
      position, and the clock reading taken while formatting that file.
      Every lookup must succeed (`Promise.all`); any rejection leaves the
      table empty. */
  function Init(raw: Fetch<Option<seq<string>>>, storersAt: nat -> Fetch<seq<string>>, clockAt: nat -> Clock): (t: Table)
    ensures t.searchTerm == "" && t.isAscending
    ensures t.filteredFiles == t.files
    ensures raw.Err? ==> t.files == []
    ensures raw == Ok(None) ==> t.files == []
    ensures raw.Ok? && raw.value.Some? && (exists i :: 0 <= i < |raw.value.value| && storersAt(i).Err?)
            ==> t.files == []
    ensures raw.Ok? && raw.value.Some? && (forall i :: 0 <= i < |raw.value.value| ==> storersAt(i).Ok?) ==>
      && |t.files| == |raw.value.value|
      && forall i :: 0 <= i < |t.files| ==>
           t.files[i] == MakeRow(raw.value.value[i], storersAt(i).value, clockAt(i))
  {
    match raw
    case Err => Initial
    case Ok(None) => Initial
    case Ok(Some(names)) =>
      if forall i :: 0 <= i < |names| ==> storersAt(i).Ok? then
        var rows := seq(|names|, i requires 0 <= i < |names| => MakeRow(names[i], storersAt(i).value, clockAt(i)));
        Table(rows, rows, "", true)
      else Initial
  }

  /** Row assembly keeps the raw list: row `i` is the `i`-th name, counted
      with that name's storers. */
  lemma InitKeepsNames(names: seq<string>, storersAt: nat -> Fetch<seq<string>>, clockAt: nat -> Clock)
    requires forall i :: 0 <= i < |names| ==> storersAt(i).Ok?
    ensures var t := Init(Ok(Some(names)), storersAt, clockAt);
            && seq(|t.files|, i requires 0 <= i < |t.files| => t.files[i].originalName) == names
            && forall i :: 0 <= i < |t.files| ==> t.files[i].storerCount == |storersAt(i).value|
  {
  }

  // ---------------------------------------------------------------------
  // Searching

  /** A row matches when its lower-cased title or date-time contains the
      lower-cased term. */
  predicate RowMatches(term: string, row: FileRow) {
    Contains(Lower(row.title), Lower(term)) || Contains(Lower(row.dateTime), Lower(term))
  }

  function MatchesTerm(term: string): FileRow -> bool {
    (row: FileRow) => RowMatches(term, row)
  }

  /** `applyFilters`: the files matching the search term, in fetch order;
      the term is not trimmed, and an empty term keeps every file. */
  function ApplyFilters(t: Table): (r: Table)
    ensures r.files == t.files && r.searchTerm == t.searchTerm && r.isAscending == t.isAscending
    ensures forall i :: 0 <= i < |r.filteredFiles| ==> RowMatches(t.searchTerm, r.filteredFiles[i])
    ensures t.searchTerm == "" ==> r.filteredFiles == t.files
  {
    if t.searchTerm == "" then
      assert forall i :: 0 <= i < |t.files| ==> MatchesTerm("")(t.files[i]) by {
        forall i | 0 <= i < |t.files| ensures RowMatches("", t.files[i]) {
          ContainsEmpty(Lower(t.files[i].title));
        }
      }
      KeepAll(t.files, MatchesTerm(""));
      t.(filteredFiles := Keep(t.files, MatchesTerm("")))
    else
      t.(filteredFiles := Keep(t.files, MatchesTerm(t.searchTerm)))
  }

  /** Exactly the matching files are listed, each as often as it is held,
      in the order they were fetched. */
  lemma ApplyFiltersExact(t: Table)
    ensures forall i :: 0 <= i < |ApplyFilters(t).filteredFiles| ==> ApplyFilters(t).filteredFiles[i] in t.files
    ensures forall i :: 0 <= i < |t.files| && RowMatches(t.searchTerm, t.files[i]) ==>
              t.files[i] in ApplyFilters(t).filteredFiles
    ensures forall row :: multiset(ApplyFilters(t).filteredFiles)[row]
              == if RowMatches(t.searchTerm, row) then multiset(t.files)[row] else 0
    ensures IsSublist(ApplyFilters(t).filteredFiles, t.files)
  {
    var p := MatchesTerm(t.searchTerm);
    KeepMembers(t.files, p);
    KeepIsSublist(t.files, p);
    forall row ensures multiset(Keep(t.files, p))[row] == if RowMatches(t.searchTerm, row) then multiset(t.files)[row] else 0 {
      KeepCount(t.files, p, row);
    }
  }

  /** The search ignores letter case in the term. */
  lemma SearchIgnoresCase(t: Table)
    ensures ApplyFilters(t.(searchTerm := Lower(t.searchTerm))).filteredFiles
         == ApplyFilters(t).filteredFiles
  {
    LowerIdempotent(t.searchTerm);
    var a, b := MatchesTerm(Lower(t.searchTerm)), MatchesTerm(t.searchTerm);
    assert forall row :: a(row) == b(row);
    if t.searchTerm != "" {
      assert |Lower(t.searchTerm)| == |t.searchTerm|;
      KeepSameFilter(t.files, a, b);
    }
  }

  /** The file list the page opens with is what the empty search shows. */
  lemma InitMatchesSearch(raw: Fetch<Option<seq<string>>>, storersAt: nat -> Fetch<seq<string>>, clockAt: nat -> Clock)
    ensures ApplyFilters(Init(raw, storersAt, clockAt)) == Init(raw, storersAt, clockAt)
  {
  }

  // ---------------------------------------------------------------------
  // Sorting by day

  /** The sort key of a row: `getTime()` of the day its date-time names. */
  function RowKey(row: FileRow): int {
    DateKey(row.dateTime)
  }

  predicate AllDated(rows: seq<FileRow>) {
    forall i :: 0 <= i < |rows| ==> Dated(rows[i].dateTime)
  }

  function RowDate(row: FileRow): Date
    requires Dated(row.dateTime)
  {
    DateOf(row.dateTime).value
  }

  /** Only the day counts: date-times that agree up to the space after the
      year get the same sort key, whatever their time of day. */
  lemma TimeOfDayIgnored(a: string, b: string)
    requires |a| > 10 && |b| > 10 && a[..11] == b[..11]
    ensures RowKey(FileRow("", a, "", 0, [])) == RowKey(FileRow("", b, "", 0, []))
  {
    assert a[0..2] == b[0..2] && a[3..5] == b[3..5] && a[6..10] == b[6..10];
    assert a[2] == b[2] && a[5] == b[5] && a[10] == b[10];
  }

  /** `sortByDate`: the shown files ordered by day in the current direction,
      rows of the same day keeping their order; the direction then flips
      for the next click. Every shown date must name a real day, otherwise
      the comparator returns NaN. */
  function SortByDate(t: Table): (r: Table)
    requires AllDated(t.filteredFiles)
    ensures r.files == t.files && r.searchTerm == t.searchTerm && r.isAscending == !t.isAscending
    ensures multiset(r.filteredFiles) == multiset(t.filteredFiles)
    ensures AllDated(r.filteredFiles)
    ensures forall i, j :: 0 <= i < j < |r.filteredFiles| ==>
              if t.isAscending then !Before(RowDate(r.filteredFiles[j]), RowDate(r.filteredFiles[i]))
              else !Before(RowDate(r.filteredFiles[i]), RowDate(r.filteredFiles[j]))
    ensures forall k :: WithKey(r.filteredFiles, RowKey, k) == WithKey(t.filteredFiles, RowKey, k)
  {
    var sorted := SortBy(t.filteredFiles, RowKey, t.isAscending);
    SortedDated(t.filteredFiles, sorted);
    forall k ensures WithKey(sorted, RowKey, k) == WithKey(t.filteredFiles, RowKey, k) {
      SortByStable(t.filteredFiles, RowKey, t.isAscending, k);
    }
    forall i, j | 0 <= i < j < |sorted|
      ensures if t.isAscending then !Before(RowDate(sorted[j]), RowDate(sorted[i]))
              else !Before(RowDate(sorted[i]), RowDate(sorted[j]))
    {
      assert !Precedes(RowKey, t.isAscending, sorted[j], sorted[i]);
      MillisOrder(RowDate(sorted[i]), RowDate(sorted[j]));
      MillisOrder(RowDate(sorted[j]), RowDate(sorted[i]));
    }
    t.(filteredFiles := sorted, isAscending := !t.isAscending)
  }

  /** A permutation of dated rows is dated. */
  lemma SortedDated(rows: seq<FileRow>, perm: seq<FileRow>)
    requires AllDated(rows) && multiset(perm) == multiset(rows)
    ensures AllDated(perm)
  {
    forall i | 0 <= i < |perm| ensures Dated(perm[i].dateTime) {
      assert perm[i] in multiset(rows);
      var j :| 0 <= j < |rows| && rows[j] == perm[i];
    }
  }

  /** The sort is the only one of its kind: any arrangement of the shown
      files in day order that keeps same-day rows in their shown order is
      the one `sortByDate` produces. */
  lemma SortByDateUnique(t: Table, other: seq<FileRow>)
    requires AllDated(t.filteredFiles)
    requires SortedBy(other, RowKey, t.isAscending)
    requires forall k :: WithKey(other, RowKey, k) == WithKey(t.filteredFiles, RowKey, k)
    ensures other == SortByDate(t).filteredFiles
  {
    var sorted := SortBy(t.filteredFiles, RowKey, t.isAscending);
    forall k ensures WithKey(other, RowKey, k) == WithKey(sorted, RowKey, k) {
      SortByStable(t.filteredFiles, RowKey, t.isAscending, k);
    }
    SortedUnique(other, sorted, RowKey, t.isAscending);
  }

  /** Searching after a sort lists the files in fetch order again: the
      filter starts from `files`, which sorting never touches. */
  lemma SearchForgetsSort(t: Table)
    requires AllDated(t.filteredFiles)
    ensures ApplyFilters(SortByDate(t)).filteredFiles == ApplyFilters(t).filteredFiles
  {
  }

  /** Clicking twice gives the shown files sorted in the second direction
      only: the first sort is forgotten except where rows share a day. */
  lemma SortByDateTwice(t: Table)
    requires AllDated(t.filteredFiles)
    ensures AllDated(SortByDate(t).filteredFiles)
    ensures SortByDate(SortByDate(t)).filteredFiles == SortBy(t.filteredFiles, RowKey, !t.isAscending)
    ensures SortByDate(SortByDate(t)).isAscending == t.isAscending
  {
    ResortForgetsEarlierSort(t.filteredFiles, RowKey, t.isAscending, !t.isAscending);
  }
}
