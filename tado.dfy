/**
 * The task store of the Tado to-do app (Tado/tado.py): seven day lists of tasks, the
 * day on display, and the cached temperature with the time it was fetched. Widgets,
 * the clock display, the weather fetch and the file itself are not modelled; the
 * saved file enters as a value, and the current time as a number of microseconds.
 */
module Tado {
  import opened Wrappers
  import opened Text

  /** The seven keys of `self.tasks`, in the order of `self.days`. */
  datatype Day = Monday | Tuesday | Wednesday | Thursday | Friday | Saturday | Sunday

  const Days: seq<Day> := [Monday, Tuesday, Wednesday, Thursday, Friday, Saturday, Sunday]

  /** The day's name as the app shows it and stores it. */
  function DayName(d: Day): string
  {
    match d
    case Monday => "MONDAY"
    case Tuesday => "TUESDAY"
    case Wednesday => "WEDNESDAY"
    case Thursday => "THURSDAY"
    case Friday => "FRIDAY"
    case Saturday => "SATURDAY"
    case Sunday => "SUNDAY"
  }

  lemma DaysListsEveryDayOnce()
    ensures forall d: Day :: d in Days
    ensures forall i, j :: 0 <= i < j < |Days| ==> Days[i] != Days[j]
  {
    forall d: Day ensures d in Days {
      match d
      case Monday => assert Days[0] == d;
      case Tuesday => assert Days[1] == d;
      case Wednesday => assert Days[2] == d;
      case Thursday => assert Days[3] == d;
      case Friday => assert Days[4] == d;
      case Saturday => assert Days[5] == d;
      case Sunday => assert Days[6] == d;
    }
  }

  /** The `{"text": ..., "completed": ...}` record. */
  datatype Task = Task(text: string, completed: bool)

  /** A map holding every day. */
  ghost predicate WeekKeys(m: map<Day, seq<Task>>)
  {
    forall d: Day :: d in m
  }

  /** The placeholder temperature when none is known. */
  const NotAvailable: string := "N/A\U{B0}F"

  /** Microseconds in a day and in an hour. */
  const MicrosPerDay: int := 86_400_000_000
  const MicrosPerHour: int := 3_600_000_000

  // ---------------------------------------------------------------------------
  // The saved file, as the loader sees it

  /** An item of a day's list in the file: an object, kept as it is, or another value, taken as a task's text. */
  datatype Entry = Record(task: Task) | Plain(text: string)

  /**
   * The value stored under a day. `Items` is anything the loop can iterate (a list; a
   * string, as its characters; an object, as its keys); `NotIterable` is a number, a
   * boolean or null, on which the loop raises.
   */
  datatype DayValue = Items(entries: seq<Entry>) | NotIterable

  /** `last_update`: missing or empty, not an ISO timestamp, or a time in microseconds. */
  datatype Stamp = NoStamp | BadStamp | At(micros: int)

  datatype SavedWeather = SavedWeather(temperature: Option<string>, lastUpdate: Stamp)

  /**
   * `Unreadable` stands for every file on which `load_tasks` raises before it changes
   * anything: invalid JSON, a top level that is not an object, a "tasks" entry that is
   * not an object. A missing "tasks" entry is `None`, read as an empty object; of a
   * "tasks" object only the values under the seven day names are ever read.
   */
  datatype SavedFile = NoFile | Unreadable | Saved(tasks: Option<map<Day, DayValue>>, weather: SavedWeather)

  // ---------------------------------------------------------------------------
  // Loading, as a specification

  /** `data.get("tasks", {}).get(day, [])` */
  function DayItems(days: map<Day, DayValue>, d: Day): DayValue
  {
    if d in days then days[d] else Items([])
  }

  function Normalize(e: Entry): Task
  {
    match e
    case Record(t) => t
    case Plain(s) => Task(s, false)
  }

  /** The list comprehension of the loading loop. */
  function NormalizeAll(v: DayValue): seq<Task>
  {
    match v
    case Items(es) => seq(|es|, i requires 0 <= i < |es| => Normalize(es[i]))
    case NotIterable => []
  }

  /** How many days, from the `i`-th on, the loop gets through before it meets a value it cannot iterate. */
  function LeadingIterable(days: map<Day, DayValue>, i: nat): (k: nat)
    requires i <= |Days|
    ensures i <= k <= |Days|
    decreases |Days| - i
  {
    if i == |Days| then i
    else if DayItems(days, Days[i]).NotIterable? then i
    else LeadingIterable(days, i + 1)
  }

  /** The week after the loop has rebuilt the first `k` days. */
  function LoadDays(prev: map<Day, seq<Task>>, days: map<Day, DayValue>, k: nat): map<Day, seq<Task>>
    requires k <= |Days|
  {
    if k == 0 then prev
    else LoadDays(prev, days, k - 1)[Days[k - 1] := NormalizeAll(DayItems(days, Days[k - 1]))]
  }

  /** The task lists `load_tasks` leaves behind. */
  function LoadedTasks(prev: map<Day, seq<Task>>, saved: SavedFile): map<Day, seq<Task>>
  {
    match saved
    case Saved(ts, _) =>
      var days := ts.GetOr(map[]);
      LoadDays(prev, days, LeadingIterable(days, 0))
    case _ => prev
  }

  /** `timedelta.seconds` of a difference of `e` microseconds: the seconds within the last day, never negative. */
  function TimedeltaSeconds(e: int): (s: nat)
    ensures s < 86400
  {
    (e % MicrosPerDay) / 1_000_000
  }

  /** The temperature and update time after `load_tasks`, given the ones before. */
  function LoadedWeather(temperature: string, last: Option<int>, saved: SavedFile, now: int): (string, Option<int>)
  {
    match saved
    case Saved(ts, w) =>
      if LeadingIterable(ts.GetOr(map[]), 0) == |Days| && w.lastUpdate.At?
         && TimedeltaSeconds(now - w.lastUpdate.micros) < 3600
      then (w.temperature.GetOr(NotAvailable), Some(w.lastUpdate.micros))
      else (temperature, last)
    case _ => (temperature, last)
  }

  /** `update_weather`'s test: no update yet, or `.seconds` of the age at least an hour. */
  function NeedsWeatherUpdate(last: Option<int>, now: int): bool
  {
    match last
    case None => true
    case Some(t) => TimedeltaSeconds(now - t) >= 3600
  }

  /** The data `save_tasks` writes: every task as a record, and the temperature stamped with the time of saving. */
  function SaveData(tasks: map<Day, seq<Task>>, temperature: string, now: int): SavedFile
  {
    Saved(Some(map d | d in tasks :: Items(Records(tasks[d]))), SavedWeather(Some(temperature), At(now)))
  }

  /** A day's list as `save_tasks` writes it: one record per task. */
  function Records(l: seq<Task>): seq<Entry>
  {
    seq(|l|, i requires 0 <= i < |l| => Record(l[i]))
  }

  // ---------------------------------------------------------------------------
  // Operations on one day's list

  /** `add_task` on the current day's list. */
  function Appended(l: seq<Task>, entryText: string): seq<Task>
  {
    var text := Strip(entryText);
    if text == [] then l else l + [Task(text, false)]
  }

  /** `toggle_task` on the current day's list. */
  function Toggled(l: seq<Task>, i: nat): seq<Task>
    requires i < |l|
  {
    l[i := Task(l[i].text, !l[i].completed)]
  }

  /** `save_edited_task` on the current day's list: a new stripped text, or removal when the new text is blank. */
  function Edited(l: seq<Task>, i: nat, newText: string): seq<Task>
    requires i < |l|
  {
    var text := Strip(newText);
    if text != [] then l[i := Task(text, l[i].completed)] else l[..i] + l[i + 1..]
  }

  /** Replacing one day's list keeps every day. */
  lemma WeekKeysUpdate(m: map<Day, seq<Task>>, d: Day, l: seq<Task>)
    requires WeekKeys(m)
    ensures WeekKeys(m[d := l])
  {
  }

  /** `{day: [] for day in self.days}` */
  function EmptyWeek(): (w: map<Day, seq<Task>>)
    ensures WeekKeys(w) && forall d :: d in w ==> w[d] == []
  {
    DaysListsEveryDayOnce();
    map d | d in Days :: []
  }

  /** What a handler did: finished, or raised IndexError before changing anything. */
  datatype Outcome = Done | IndexError

  /**
   * The loop of `load_tasks` over `self.days`: each day's list is rebuilt in turn from
   * the file, until a value that cannot be iterated raises. `loaded` counts the days
   * rebuilt; it is seven when nothing raised.
   */
  method ReadDays(prev: map<Day, seq<Task>>, days: map<Day, DayValue>) returns (week: map<Day, seq<Task>>, loaded: nat)
    requires WeekKeys(prev)
    ensures loaded == LeadingIterable(days, 0)
    ensures week == LoadDays(prev, days, loaded) && WeekKeys(week)
  {
    week := prev;
    loaded := 0;
    while loaded < |Days| && DayItems(days, Days[loaded]).Items?
      invariant loaded <= |Days|
      invariant forall j :: 0 <= j < loaded ==> DayItems(days, Days[j]).Items?
      invariant week == LoadDays(prev, days, loaded) && WeekKeys(week)
    {
      var d := Days[loaded];
      var list := NormalizeAll(DayItems(days, d));
      WeekKeysUpdate(week, d, list);
      week := week[d := list];
      loaded := loaded + 1;
    }
    if loaded < |Days| {
      LeadingIterableIs(days, 0, loaded);
    } else {
      AllIterableFrom(days, 0);
    }
  }

  // ---------------------------------------------------------------------------
  // The app

  class TodoApp {
    var tasks: map<Day, seq<Task>>
    var currentDay: Day
    var temperature: string
    var lastWeatherUpdate: Option<int>

    /** Every day has a list, the day on display included. */
    ghost predicate Valid()
      reads this
    {
      WeekKeys(tasks) && currentDay in tasks
    }

    /** `__init__`: seven empty days, loaded from the saved file, Monday on display. */
    constructor (saved: SavedFile, now: int)
      ensures Valid()
      ensures currentDay == Monday
      ensures tasks == LoadedTasks(EmptyWeek(), saved)
      ensures (temperature, lastWeatherUpdate) == LoadedWeather("Loading...", None, saved, now)
    {
      temperature := "Loading...";
      lastWeatherUpdate := None;
      tasks := EmptyWeek();
      currentDay := Monday;
      new;
      LoadTasks(saved, now);
    }

    /** The loading part of `load_tasks`: each day's list is rebuilt in turn, then the saved weather may be adopted. */
    method LoadTasks(saved: SavedFile, now: int)
      requires WeekKeys(tasks)
      modifies this
      ensures tasks == LoadedTasks(old(tasks), saved) && WeekKeys(tasks)
      ensures (temperature, lastWeatherUpdate) == LoadedWeather(old(temperature), old(lastWeatherUpdate), saved, now)
      ensures currentDay == old(currentDay)
    {
      if !saved.Saved? {
        return;
      }
      var week, loaded := ReadDays(tasks, saved.tasks.GetOr(map[]));
      tasks := week;
      if loaded < |Days| {
        return;
      }
      var w := saved.weather;
      if w.lastUpdate.At? && TimedeltaSeconds(now - w.lastUpdate.micros) < 3600 {
        temperature := w.temperature.GetOr(NotAvailable);
        lastWeatherUpdate := Some(w.lastUpdate.micros);
      }
    }

    /** `add_task` with the text typed into the entry field. */
    method AddTask(entryText: string)
      requires Valid()
      modifies this`tasks
      ensures Valid()
      ensures tasks == old(tasks)[currentDay := Appended(old(tasks)[currentDay], entryText)]
    {
      var l := tasks[currentDay];
      var text := Strip(entryText);
      if text != [] {
        assert Appended(l, entryText) == l + [Task(text, false)];
        WeekKeysUpdate(tasks, currentDay, l + [Task(text, false)]);
        tasks := tasks[currentDay := l + [Task(text, false)]];
      } else {
        assert Appended(l, entryText) == l;
        assert tasks == tasks[currentDay := l];
      }
    }

    /** `toggle_task`; an index past the end of the list raises before anything changes. */
    method ToggleTask(index: nat) returns (outcome: Outcome)
      requires Valid()
      modifies this`tasks
      ensures Valid()
      ensures outcome == IndexError <==> index >= |old(tasks)[currentDay]|
      ensures outcome == Done ==> tasks == old(tasks)[currentDay := Toggled(old(tasks)[currentDay], index)]
      ensures outcome == IndexError ==> tasks == old(tasks)
    {
      var l := tasks[currentDay];
      if index >= |l| {
        return IndexError;
      }
      WeekKeysUpdate(tasks, currentDay, Toggled(l, index));
      tasks := tasks[currentDay := l[index := Task(l[index].text, !l[index].completed)]];
      return Done;
    }

    /** `save_edited_task`; an index past the end of the list raises before anything changes. */
    method SaveEditedTask(index: nat, newText: string) returns (outcome: Outcome)
      requires Valid()
      modifies this`tasks
      ensures Valid()
      ensures outcome == IndexError <==> index >= |old(tasks)[currentDay]|
      ensures outcome == Done ==> tasks == old(tasks)[currentDay := Edited(old(tasks)[currentDay], index, newText)]
      ensures outcome == IndexError ==> tasks == old(tasks)
    {
      var l := tasks[currentDay];
      if index >= |l| {
        return IndexError;
      }
      var text := Strip(newText);
      WeekKeysUpdate(tasks, currentDay, Edited(l, index, newText));
      if text != [] {
        tasks := tasks[currentDay := l[index := Task(text, l[index].completed)]];
      } else {
        tasks := tasks[currentDay := l[..index] + l[index + 1..]];
      }
      return Done;
    }

    /** `switch_day`, called by the day blocks. */
    method SwitchDay(newDay: Day)
      requires Valid()
      modifies this`currentDay
      ensures Valid()
      ensures currentDay == newDay
    {
      if newDay != currentDay {
        currentDay := newDay;
      }
    }

    /** The staleness test of `update_weather`; the fetch it may start is not modelled. */
    method UpdateWeather(now: int) returns (needsUpdate: bool)
      ensures needsUpdate <==> lastWeatherUpdate.None? || NeedsWeatherUpdate(lastWeatherUpdate, now)
      ensures lastWeatherUpdate.Some? && 0 <= now - lastWeatherUpdate.value < MicrosPerHour ==> !needsUpdate
    {
      needsUpdate := true;
      if lastWeatherUpdate.Some? {
        needsUpdate := TimedeltaSeconds(now - lastWeatherUpdate.value) >= 3600;
      }
      if lastWeatherUpdate.Some? && 0 <= now - lastWeatherUpdate.value < MicrosPerHour {
        FreshWithinHour(lastWeatherUpdate.value, now);
      }
    }
  }

  // ---------------------------------------------------------------------------
  // Properties

  /**
   * After `k` days, a day among the first `k` holds its list from the file and every
   * other day keeps its earlier list.
   */
  lemma {:induction false} LoadDaysAt(prev: map<Day, seq<Task>>, days: map<Day, DayValue>, k: nat, d: Day)
    requires WeekKeys(prev) && k <= |Days|
    ensures d in LoadDays(prev, days, k)
    ensures LoadDays(prev, days, k)[d] == if d in Days[..k] then NormalizeAll(DayItems(days, d)) else prev[d]
  {
    if k > 0 {
      LoadDaysAt(prev, days, k - 1, d);
      assert Days[..k] == Days[..k - 1] + [Days[k - 1]];
    }
  }

  /** Once all seven days are rebuilt, each day's list comes from the file alone. */
  lemma LoadDaysAll(prev: map<Day, seq<Task>>, days: map<Day, DayValue>)
    requires WeekKeys(prev)
    ensures LoadDays(prev, days, |Days|) == map d | d in prev :: NormalizeAll(DayItems(days, d))
  {
    var w := LoadDays(prev, days, |Days|);
    var m := map d | d in prev :: NormalizeAll(DayItems(days, d));
    DaysListsEveryDayOnce();
    assert Days[..|Days|] == Days;
    forall d ensures d in w && w[d] == m[d] {
      LoadDaysAt(prev, days, |Days|, d);
    }
    assert w.Keys == m.Keys;
  }

  /** Loading a file whose days all hold lists rebuilds every day; a day missing from the file gets an empty list. */
  lemma LoadedTasksEveryDay(prev: map<Day, seq<Task>>, days: map<Day, DayValue>, weather: SavedWeather)
    requires WeekKeys(prev)
    requires forall d :: d in days ==> days[d].Items?
    ensures var t := LoadedTasks(prev, Saved(Some(days), weather));
      && WeekKeys(t)
      && (forall d :: d !in days ==> t[d] == [])
      && (forall d :: d in days ==> t[d] == NormalizeAll(days[d]))
  {
    AllIterable(days);
    LoadDaysAll(prev, days);
  }

  /** A day value the loop cannot iterate stops the loading there: earlier days are rebuilt, later ones and the weather keep their state. */
  lemma LoadStopsAtBadDay(prev: map<Day, seq<Task>>, days: map<Day, DayValue>, weather: SavedWeather,
                          k: nat, temperature: string, last: Option<int>, now: int)
    requires WeekKeys(prev) && k < |Days|
    requires forall j :: 0 <= j < k ==> DayItems(days, Days[j]).Items?
    requires DayItems(days, Days[k]).NotIterable?
    ensures var t := LoadedTasks(prev, Saved(Some(days), weather));
      && (forall j :: 0 <= j < |Days| ==> Days[j] in t)
      && (forall j :: 0 <= j < k ==> t[Days[j]] == NormalizeAll(DayItems(days, Days[j])))
      && (forall j :: k <= j < |Days| ==> t[Days[j]] == prev[Days[j]])
    ensures LoadedWeather(temperature, last, Saved(Some(days), weather), now) == (temperature, last)
  {
    LeadingIterableIs(days, 0, k);
    DaysListsEveryDayOnce();
    var t := LoadDays(prev, days, k);
    forall j | 0 <= j < |Days|
      ensures Days[j] in t
      ensures t[Days[j]] == if j < k then NormalizeAll(DayItems(days, Days[j])) else prev[Days[j]]
    {
      LoadDaysAt(prev, days, k, Days[j]);
      if j < k {
        assert Days[..k][j] == Days[j];
      } else {
        assert forall m :: 0 <= m < k ==> Days[..k][m] == Days[m] != Days[j];
      }
    }
  }

  lemma {:induction false} LeadingIterableIs(days: map<Day, DayValue>, i: nat, k: nat)
    requires i <= k < |Days|
    requires forall j :: i <= j < k ==> DayItems(days, Days[j]).Items?
    requires DayItems(days, Days[k]).NotIterable?
    ensures LeadingIterable(days, i) == k
    decreases k - i
  {
    if i < k {
      LeadingIterableIs(days, i + 1, k);
    }
  }

  /** A list written as records loads back as the same list. */
  lemma NormalizeRecords(l: seq<Task>)
    ensures NormalizeAll(Items(Records(l))) == l
  {
    var r := NormalizeAll(Items(Records(l)));
    assert |r| == |l|;
    forall i | 0 <= i < |l| ensures r[i] == l[i] {
    }
  }

  /** When no day from the `i`-th on holds a value it cannot iterate, the loop gets through all seven. */
  lemma {:induction false} AllIterableFrom(days: map<Day, DayValue>, i: nat)
    requires i <= |Days|
    requires forall j :: i <= j < |Days| ==> DayItems(days, Days[j]).Items?
    ensures LeadingIterable(days, i) == |Days|
    decreases |Days| - i
  {
    if i < |Days| {
      AllIterableFrom(days, i + 1);
    }
  }

  /** A file whose days all hold lists is read in full. */
  lemma AllIterable(days: map<Day, DayValue>)
    requires forall d :: d in days ==> days[d].Items?
    ensures LeadingIterable(days, 0) == |Days|
  {
    AllIterableFrom(days, 0);
  }

  /** The days `save_tasks` writes, read back day by day, are the lists that were saved. */
  lemma RecordsReadBack(tasks: map<Day, seq<Task>>, prev: map<Day, seq<Task>>)
    requires WeekKeys(tasks) && WeekKeys(prev)
    ensures var days := map d | d in tasks :: Items(Records(tasks[d]));
      (map d | d in prev :: NormalizeAll(DayItems(days, d))) == tasks
  {
    var days := map d | d in tasks :: Items(Records(tasks[d]));
    var t := map d | d in prev :: NormalizeAll(DayItems(days, d));
    forall d | d in t ensures t[d] == tasks[d] {
      assert DayItems(days, d) == Items(Records(tasks[d]));
      NormalizeRecords(tasks[d]);
    }
    assert t.Keys == tasks.Keys;
  }

  /** Saving and loading again gives back every day's list exactly. */
  lemma SaveLoadTasks(tasks: map<Day, seq<Task>>, prev: map<Day, seq<Task>>, temperature: string, now: int)
    requires WeekKeys(tasks) && WeekKeys(prev)
    ensures LoadedTasks(prev, SaveData(tasks, temperature, now)) == tasks
  {
    var days := map d | d in tasks :: Items(Records(tasks[d]));
    assert SaveData(tasks, temperature, now).tasks == Some(days);
    AllIterable(days);
    LoadDaysAll(prev, days);
    RecordsReadBack(tasks, prev);
  }

  /**
   * The saved temperature is adopted when the app starts again within the hour after
   * saving, and it then counts as fetched at the time of saving, however old the reading.
   */
  lemma SaveLoadWeather(tasks: map<Day, seq<Task>>, temperature: string, saveTime: int,
                        oldTemperature: string, last: Option<int>, now: int)
    requires WeekKeys(tasks)
    requires 0 <= now - saveTime < MicrosPerHour
    ensures LoadedWeather(oldTemperature, last, SaveData(tasks, temperature, saveTime), now) == (temperature, Some(saveTime))
  {
    var days := map d | d in tasks :: Items(Records(tasks[d]));
    assert SaveData(tasks, temperature, saveTime).tasks == Some(days);
    AllIterable(days);
    FreshWithinHour(saveTime, now);
  }

  /** A reading less than an hour old is fresh. */
  lemma FreshWithinHour(last: int, now: int)
    requires 0 <= now - last < MicrosPerHour
    ensures !NeedsWeatherUpdate(Some(last), now)
  {
    assert (now - last) % MicrosPerDay == now - last;
  }

  /** From one hour up to one day of age, a reading is stale. */
  lemma StaleAfterHour(last: int, now: int)
    requires MicrosPerHour <= now - last < MicrosPerDay
    ensures NeedsWeatherUpdate(Some(last), now)
  {
    assert (now - last) % MicrosPerDay == now - last;
  }

  /**
   * `.seconds` drops whole days, so the test repeats every day: a reading a day and ten
   * minutes old counts as fresh again, and a stamp slightly in the future counts as stale.
   */
  lemma StalenessRepeatsDaily(last: int, now: int)
    ensures NeedsWeatherUpdate(Some(last), now + MicrosPerDay) == NeedsWeatherUpdate(Some(last), now)
    ensures !NeedsWeatherUpdate(Some(last), last + MicrosPerDay + 600_000_000)
    ensures NeedsWeatherUpdate(Some(last), last - 1)
  {
    assert (now + MicrosPerDay - last) % MicrosPerDay == (now - last) % MicrosPerDay;
  }

  /** A blank entry adds nothing; any other adds one unfinished task holding the stripped text at the end. */
  lemma AppendedSpec(l: seq<Task>, entryText: string)
    ensures IsBlank(entryText) ==> Appended(l, entryText) == l
    ensures !IsBlank(entryText) ==> var r := Appended(l, entryText);
      && |r| == |l| + 1 && r[..|l|] == l
      && r[|l|] == Task(Strip(entryText), false) && r[|l|].text != []
      && !IsSpace(r[|l|].text[0]) && !IsSpace(r[|l|].text[|r[|l|].text| - 1])
  {
    StripEmptyIffBlank(entryText);
    StripIsTrimmedSlice(entryText);
  }

  /** Toggling flips the completion of exactly the chosen task, so toggling twice changes nothing. */
  lemma ToggledSpec(l: seq<Task>, i: nat)
    requires i < |l|
    ensures var r := Toggled(l, i);
      && |r| == |l| && r[i].text == l[i].text && r[i].completed == !l[i].completed
      && (forall j :: 0 <= j < |l| && j != i ==> r[j] == l[j])
      && Toggled(r, i) == l
  {
  }

  /**
   * Editing with a non-blank text replaces the task's text by the stripped text and keeps
   * its completion and every other task; a blank text removes the task, shifting the
   * later ones down by one place.
   */
  lemma EditedSpec(l: seq<Task>, i: nat, newText: string)
    requires i < |l|
    ensures var r := Edited(l, i, newText);
      !IsBlank(newText) ==>
        && |r| == |l| && r[i] == Task(Strip(newText), l[i].completed)
        && (forall j :: 0 <= j < |l| && j != i ==> r[j] == l[j])
    ensures var r := Edited(l, i, newText);
      IsBlank(newText) ==>
        && |r| == |l| - 1
        && (forall j :: 0 <= j < i ==> r[j] == l[j])
        && (forall j :: i <= j < |r| ==> r[j] == l[j + 1])
        && multiset(r) + multiset{l[i]} == multiset(l)
  {
    StripEmptyIffBlank(newText);
    if IsBlank(newText) {
      RemovedSpec(l, i);
    }
  }

  /** Removing the task at `i` shifts the later ones down and keeps the rest of the list's contents. */
  lemma RemovedSpec(l: seq<Task>, i: nat)
    requires i < |l|
    ensures var r := l[..i] + l[i + 1..];
      && |r| == |l| - 1
      && (forall j :: 0 <= j < i ==> r[j] == l[j])
      && (forall j :: i <= j < |r| ==> r[j] == l[j + 1])
      && multiset(r) + multiset{l[i]} == multiset(l)
  {
    assert l == l[..i] + [l[i]] + l[i + 1..];
  }
}
