/**
 * The "cyber pet" of the profile README: its mood follows the owner's push
 * activity. Days are integers (one per calendar day, in UTC) and "today" is
 * a parameter.
 */
module CyberPet {
  import opened Options
  import Text
  import Markers

  // ---------------------------------------------------------------------------
  // Push days (get_commit_activity)
  // ---------------------------------------------------------------------------

  /** One entry of the public events feed: its `type` and the day of `created_at`. */
  datatype Event = Event(kind: string, day: int)

  /** The days on which at least one PushEvent happened. */
  ghost function PushDaysOf(events: seq<Event>): set<int> {
    set e | e in events && e.kind == "PushEvent" :: e.day
  }

  /** The loop of `get_commit_activity` that collects `push_dates`. */
  method PushDays(events: seq<Event>) returns (days: set<int>)
    ensures days == PushDaysOf(events)
    ensures forall d :: d in days <==> exists e :: e in events && e.kind == "PushEvent" && e.day == d
  {
    days := {};
    var i := 0;
    while i < |events|
      invariant 0 <= i <= |events|
      invariant days == PushDaysOf(events[..i])
    {
      if events[i].kind == "PushEvent" {
        days := days + {events[i].day};
      }
      assert events[..i + 1] == events[..i] + [events[i]];
      i := i + 1;
    }
    assert events[..i] == events;
  }

  // ---------------------------------------------------------------------------
  // Streak (calculate_stats)
  // ---------------------------------------------------------------------------

  /**
   * `k` is the length of the run of consecutive active days that ends on
   * `today`: every day after `today - k` up to `today` is active and
   * `today - k` is not.
   */
  ghost predicate IsRunBack(days: set<int>, today: int, k: nat) {
    && (forall d :: today - k < d <= today ==> d in days)
    && today - k !in days
  }

  /** The length of the run of active days ending on `today`; at most the number of active days. */
  function Streak(days: set<int>, today: int): (k: nat)
    ensures IsRunBack(days, today, k)
    ensures k <= |days|
    decreases |days|
  {
    if today in days then
      var k := Streak(days - {today}, today - 1);
      RunBackExtend(days, today, k);
      1 + k
    else 0
  }

  /** A run ending yesterday among the other active days, plus an active today, is one longer. */
  lemma RunBackExtend(days: set<int>, today: int, k: nat)
    requires today in days
    requires IsRunBack(days - {today}, today - 1, k)
    ensures IsRunBack(days, today, k + 1)
  {
    forall d | today - (k + 1) < d <= today
      ensures d in days
    {
      if d < today {
        assert d in days - {today};
      }
    }
  }

  /** There is only one such run length. */
  lemma RunBackUnique(days: set<int>, today: int, k: nat, k': nat)
    requires IsRunBack(days, today, k) && IsRunBack(days, today, k')
    ensures k == k'
  {
  }

  /**
   * `calculate_stats(push_dates)` with today's date passed in: fed today
   * exactly when today is an active day; the streak is 0 when not fed and
   * otherwise the length of the run of active days ending today.
   */
  method CalculateStats(pushDays: set<int>, today: int) returns (fedToday: bool, streak: nat)
    ensures fedToday <==> today in pushDays
    ensures !fedToday ==> streak == 0
    ensures fedToday ==> streak >= 1
    ensures IsRunBack(pushDays, today, streak)
    ensures streak == Streak(pushDays, today)
  {
    fedToday := today in pushDays;
    streak := 0;
    if fedToday {
      var checkDate := today;
      ghost var counted: set<int> := {};
      while checkDate in pushDays
        invariant checkDate == today - streak
        invariant forall d :: checkDate < d <= today ==> d in pushDays
        invariant forall d :: d in counted <==> checkDate < d <= today
        decreases pushDays - counted
      {
        counted := counted + {checkDate};
        streak := streak + 1;
        checkDate := checkDate - 1;
      }
    } else {
      streak := 0;
    }
    RunBackUnique(pushDays, today, streak, Streak(pushDays, today));
  }

  // ---------------------------------------------------------------------------
  // Mood and XP (generate_content)
  // ---------------------------------------------------------------------------

  datatype Mood = Evolved | Happy | Hungry

  /** The mood branch of `generate_content`. */
  function SelectMood(fedToday: bool, streak: nat): (m: Mood)
    ensures m == Evolved <==> fedToday && streak >= 5
    ensures m == Happy <==> fedToday && streak < 5
    ensures m == Hungry <==> !fedToday
  {
    if streak >= 5 && fedToday then Evolved
    else if fedToday then Happy
    else Hungry
  }

  /** `min(streak * 100, 1000)`. */
  function Xp(streak: nat): (xp: nat)
    ensures xp <= 1000 && xp <= 100 * streak
    ensures xp == 1000 || xp == 100 * streak
    ensures streak >= 10 ==> xp == 1000
  {
    if streak * 100 <= 1000 then streak * 100 else 1000
  }

  /** More streak never means less XP. */
  lemma XpMonotone(s: nat, t: nat)
    requires s <= t
    ensures Xp(s) <= Xp(t)
  {
  }

  /**
   * The mood seen from the activity itself: hungry exactly when there was no
   * push today, evolved exactly when there were pushes on each of the last
   * five days (today included), happy otherwise.
   */
  lemma MoodFromActivity(days: set<int>, today: int)
    ensures var m := SelectMood(today in days, Streak(days, today));
            && (m == Hungry <==> today !in days)
            && (m == Evolved <==> forall d :: today - 5 < d <= today ==> d in days)
            && (m == Happy <==> today in days && exists d :: today - 5 < d < today && d !in days)
  {
    var k := Streak(days, today);
    if !forall d :: today - 5 < d <= today ==> d in days {
      var d :| today - 5 < d <= today && d !in days;
      assert k <= today - d;
    }
  }

  function MoodName(m: Mood): (name: string)
    ensures '<' !in name
  {
    match m
    case Evolved => "Evolved"
    case Happy => "Happy"
    case Hungry => "Hungry"
  }

  function MoodMessage(m: Mood): (message: string)
    ensures '<' !in message
  {
    match m
    case Evolved => "ON FIRE! 5+ Day Streak! 🟣"
    case Happy => "Yummy code! I'm full and happy! 🟢"
    case Hungry => "I'm starving... feed me commits! 🔴"
  }

  // ---------------------------------------------------------------------------
  // The README block (generate_content, update_readme)
  // ---------------------------------------------------------------------------

  const PetStart: string := "<!-- CYBER_PET_START -->"
  const PetEnd: string := "<!-- CYBER_PET_END -->"

  function MoodLines(m: Mood): (lines: string)
    ensures '<' !in lines
  {
    "\n**Mood**: " + MoodName(m) + "\n**Status**: " + MoodMessage(m)
  }

  function StreakLines(streak: nat): (lines: string)
    ensures '<' !in lines
  {
    "\n**Streak**: " + Text.NatToString(streak) + " days\n**XP**: " + Text.NatToString(Xp(streak)) + " / 1000\n"
  }

  /** What `generate_content` writes between the markers (without the ASCII art). */
  function PetBody(fedToday: bool, streak: nat): (body: string)
    ensures '<' !in body
  {
    var heading := "\n### 👾 Cyber Pet\n**Name**: Git-Zilla";
    assert '<' !in heading;
    heading + MoodLines(SelectMood(fedToday, streak)) + StreakLines(streak)
  }

  /**
   * `generate_content(fed_today, streak)`: a single well-formed block that
   * opens with the start marker and closes with the end marker.
   */
  function PetBlock(fedToday: bool, streak: nat): (c: string)
    ensures Text.StartsWith(c, PetStart)
    ensures |c| >= |PetEnd| && c[|c| - |PetEnd|..] == PetEnd
    ensures Markers.WellFormedBlock(c, PetStart, PetEnd)
  {
    var body := PetBody(fedToday, streak);
    Markers.MarkedBodyIsBlock(PetStart, body, PetEnd);
    PetStart + body + PetEnd
  }

  /**
   * `update_readme(content)`: None (the file is not rewritten) when the README
   * has no pet block, otherwise the README with every pet block replaced.
   */
  function UpdateReadme(data: string, content: string): (r: Option<string>)
    ensures r.None? <==> !Markers.HasBlock(data, PetStart, PetEnd)
    ensures r.Some? ==>
              var i := Markers.FirstBlock(data, PetStart, PetEnd).value.start;
              && i + |content| <= |r.value|
              && r.value[..i] == data[..i]
              && r.value[i..i + |content|] == content
  {
    if Markers.FirstBlock(data, PetStart, PetEnd).None? then None
    else Some(Markers.ReplaceBlocks(data, PetStart, PetEnd, content))
  }

  /**
   * Refreshing the README twice on the same day rewrites it to the same text
   * as refreshing it once.
   */
  lemma UpdateReadmeIdempotent(data: string, fedToday: bool, streak: nat)
    ensures var c := PetBlock(fedToday, streak);
            UpdateReadme(data, c).Some? ==> UpdateReadme(UpdateReadme(data, c).value, c) == UpdateReadme(data, c)
  {
    var c := PetBlock(fedToday, streak);
    if Markers.HasBlock(data, PetStart, PetEnd) {
      Markers.ReplaceKeepsBlock(data, PetStart, PetEnd, c);
      Markers.ReplaceIdempotent(data, PetStart, PetEnd, c);
    }
  }

  /**
   * `main()` with the events feed and today's date passed in: collect the push
   * days, compute the stats, render the block and update the README text.
   */
  method Refresh(events: seq<Event>, today: int, readme: string) returns (written: Option<string>)
    ensures var days := PushDaysOf(events);
            written == UpdateReadme(readme, PetBlock(today in days, Streak(days, today)))
  {
    var days := PushDays(events);
    var fedToday, streak := CalculateStats(days, today);
    var content := PetBlock(fedToday, streak);
    written := UpdateReadme(readme, content);
  }
}
