/**
 * The dashboard script `static/js/dashboard-enhancements.js`: rounded progress, "time ago"
 * text, the sidebar's active link, the refresh of bars and counters, and the counter animation.
 */
module Dashboard {
  import opened Wrappers
  import opened Text
  import Tags

  // ---------------------------------------------------------------------------------------
  // Progress and time

  /**
   * `formatProgress`: the percentage rounded to the nearest whole number, halves upwards
   * (`Math.round`); 0 for an empty total.
   */
  function FormatProgress(current: nat, total: nat): (r: nat)
    ensures total == 0 ==> r == 0
    ensures total > 0 ==> 2 * total * r <= 200 * current + total < 2 * total * (r + 1)
  {
    if total == 0 then 0 else (200 * current + total) / (2 * total)
  }

  /** The rounded figure is within half a point of the exact percentage the templates show. */
  lemma FormatProgressNearExact(current: nat, total: nat)
    requires total > 0
    ensures var p := Tags.ProgressPercentage(current, total);
      p - 0.5 < FormatProgress(current, total) as real <= p + 0.5
  {
    var r, t := FormatProgress(current, total), total as real;
    var p := Tags.ProgressPercentage(current, total);
    var x := r as real;
    var lo, mid, hi := 2 * total * r, 200 * current + total, 2 * total * (r + 1);
    assert lo as real <= mid as real < hi as real;
    CastProduct(2 * total, r);
    CastProduct(2 * total, r + 1);
    CastProduct(200, current);
    assert lo as real == 2.0 * t * x;
    assert hi as real == 2.0 * t * x + 2.0 * t;
    assert mid as real == 2.0 * (p * t) + t;
    DivideOut(lo as real, mid as real, hi as real, t, x, p);
  }

  lemma CastProduct(a: int, b: int)
    ensures (a * b) as real == (a as real) * (b as real)
  {
  }

  lemma DivideOut(lo: real, mid: real, hi: real, t: real, x: real, p: real)
    requires t > 0.0 && lo <= mid < hi
    requires lo == 2.0 * t * x && mid == 2.0 * (p * t) + t && hi == 2.0 * t * x + 2.0 * t
    ensures p - 0.5 < x <= p + 0.5
  {
    Regroup(t, x, p);
    SignOfFactor(t, 2.0 * x - 2.0 * p - 1.0);
    SignOfFactorStrict(t, 2.0 * p + 1.0 - 2.0 * x - 2.0);
  }

  lemma Regroup(t: real, x: real, p: real)
    ensures 2.0 * t * x - 2.0 * (p * t) - t == t * (2.0 * x - 2.0 * p - 1.0)
    ensures 2.0 * (p * t) + t - 2.0 * t * x - 2.0 * t == t * (2.0 * p + 1.0 - 2.0 * x - 2.0)
  {
  }

  lemma SignOfFactor(t: real, a: real)
    requires t > 0.0 && t * a <= 0.0
    ensures a <= 0.0
  {
  }

  lemma SignOfFactorStrict(t: real, a: real)
    requires t > 0.0 && t * a < 0.0
    ensures a < 0.0
  {
  }

  lemma CancelFactor(a: int, b: int, t: int)
    requires t > 0 && a * t <= b * t
    ensures a <= b
  {
  }

  lemma CancelStrict(a: int, b: int, t: int)
    requires t > 0 && a * t < b * t
    ensures a < b
  {
  }

  /** All of it shows 100; part of it never shows more. */
  lemma FormatProgressBounds(current: nat, total: nat)
    requires current <= total
    ensures FormatProgress(current, total) <= 100
    ensures total > 0 && current == total ==> FormatProgress(current, total) == 100
  {
    if total > 0 {
      var r := FormatProgress(current, total);
      assert 200 * current + total <= 201 * total;
      assert (2 * r) * total <= 201 * total;
      CancelFactor(2 * r, 201, total);
      if current == total {
        assert 201 * total < (2 * (r + 1)) * total;
        CancelStrict(201, 2 * (r + 1), total);
      }
    }
  }

  /** How long ago something happened, as `formatTimeAgo` classifies it. */
  datatype Ago = JustNow | MinutesAgo(n: nat) | HoursAgo(n: nat) | DaysAgo(n: nat) | NotANumber

  /**
   * `formatTimeAgo` before rendering: whole seconds elapsed (rounded down), then the largest
   * unit that fits; an unreadable date gives `NotANumber`.  Times are milliseconds.
   */
  function TimeAgo(nowMs: int, dateMs: Option<int>): (a: Ago)
    ensures dateMs.None? <==> a == NotANumber
    ensures dateMs.Some? ==> var d := (nowMs - dateMs.value) / 1000;
      && (d < 60 <==> a == JustNow)
      && (a.MinutesAgo? ==> 60 <= d < 3600 && 1 <= a.n < 60 && 60 * a.n <= d < 60 * (a.n + 1))
      && (a.HoursAgo? ==> 3600 <= d < 86400 && 1 <= a.n < 24 && 3600 * a.n <= d < 3600 * (a.n + 1))
      && (a.DaysAgo? ==> 86400 <= d && 1 <= a.n && 86400 * a.n <= d < 86400 * (a.n + 1))
  {
    if dateMs.None? then NotANumber
    else
      var d := (nowMs - dateMs.value) / 1000;
      if d < 60 then JustNow
      else if d < 3600 then MinutesAgo(d / 60)
      else if d < 86400 then HoursAgo(d / 3600)
      else DaysAgo(d / 86400)
  }

  /** The text shown; `NaN` reaches the day branch, as in the script. */
  function AgoText(a: Ago): string {
    match a
    case JustNow => "Just now"
    case MinutesAgo(n) => NatToString(n) + "m ago"
    case HoursAgo(n) => NatToString(n) + "h ago"
    case DaysAgo(n) => NatToString(n) + "d ago"
    case NotANumber => "NaNd ago"
  }

  function FormatTimeAgo(nowMs: int, dateMs: Option<int>): string {
    AgoText(TimeAgo(nowMs, dateMs))
  }

  /** Future dates and the last minute both read "Just now". */
  lemma FutureIsJustNow(nowMs: int, dateMs: int)
    requires dateMs >= nowMs - 59999
    ensures FormatTimeAgo(nowMs, Some(dateMs)) == "Just now"
  {
  }

  /** Counted texts, and only they, start with a digit. */
  lemma AgoTextLead(a: Ago)
    ensures AgoText(a) != [] && (IsDigit(AgoText(a)[0]) <==> a.MinutesAgo? || a.HoursAgo? || a.DaysAgo?)
  {
    if a.MinutesAgo? || a.HoursAgo? || a.DaysAgo? {
      var d := NatToString(a.n);
      assert AgoText(a) == d + AgoText(a)[|d|..];
      assert AgoText(a)[0] == d[0];
    }
  }

  /** Different classifications never produce the same text. */
  lemma AgoTextInjective(a: Ago, b: Ago)
    requires AgoText(a) == AgoText(b)
    ensures a == b
  {
    var ta, tb := AgoText(a), AgoText(b);
    AgoTextLead(a);
    AgoTextLead(b);
    if a.MinutesAgo? || a.HoursAgo? || a.DaysAgo? {
      var da, ra := NatToString(a.n), ta[|NatToString(a.n)|..];
      assert ta == da + ra;
      if b.MinutesAgo? || b.HoursAgo? || b.DaysAgo? {
        var db, rb := NatToString(b.n), tb[|NatToString(b.n)|..];
        assert tb == db + rb;
        DigitsPrefixUnique(da, ra, db, rb);
        NatToStringInjective(a.n, b.n);
      }
    }
  }

  // ---------------------------------------------------------------------------------------
  // Sidebar and statistics

  /** The four dashboard tabs and the link text that marks each. */
  function SidebarLabel(tab: string): (text: Option<string>)
    ensures text.Some? <==> tab in {"enrolled", "roadmaps", "certificates", "upgrade"}
  {
    var mappings := map["enrolled" := "My Courses", "roadmaps" := "Browse Courses",
                        "certificates" := "Certificates", "upgrade" := "Upgrade"];
    if tab in mappings then Some(mappings[tab]) else None
  }

  /** Which links the sidebar marks active for a tab: those whose text contains the tab's label. */
  function ActiveLinks(links: seq<string>, tab: string): (active: seq<bool>)
    ensures |active| == |links|
  {
    seq(|links|, i requires 0 <= i < |links| => SidebarLabel(tab).Some? && Contains(links[i], SidebarLabel(tab).value))
  }

  /**
   * `updateSidebarActive`: every link is first made inactive, then the links whose text
   * contains the tab's label are made active.
   */
  method UpdateSidebarActive(links: seq<string>, tab: string) returns (active: seq<bool>)
    ensures |active| == |links|
    ensures forall i :: 0 <= i < |links| ==>
      (active[i] <==> SidebarLabel(tab).Some? && Contains(links[i], SidebarLabel(tab).value))
    ensures active == ActiveLinks(links, tab)
  {
    active := [];
    var i := 0;
    while i < |links|
      invariant 0 <= i <= |links| && |active| == i
      invariant forall j :: 0 <= j < i ==> !active[j]
    {
      active := active + [false];
      i := i + 1;
    }
    var text := SidebarLabel(tab);
    if text.Some? {
      i := 0;
      while i < |links|
        invariant 0 <= i <= |links| && |active| == |links|
        invariant forall j :: 0 <= j < i ==> (active[j] <==> Contains(links[j], text.value))
        invariant forall j :: i <= j < |links| ==> !active[j]
      {
        if Contains(links[i], text.value) {
          active := active[i := true];
        }
        i := i + 1;
      }
    }
  }

  /** A tab name outside the four leaves every link inactive. */
  lemma UnknownTabNoActiveLink(links: seq<string>, tab: string)
    requires tab !in {"enrolled", "roadmaps", "certificates", "upgrade"}
    ensures forall i :: 0 <= i < |links| ==> !ActiveLinks(links, tab)[i]
  {
  }

  /**
   * One frame of `animateNumber`: the counter moves from `start` towards `target` in
   * proportion to the time elapsed over a second, rounded down, and the progress is capped at 1.
   */
  function AnimationFrame(start: int, target: int, elapsedMs: real): (shown: int)
    requires elapsedMs >= 0.0
    ensures elapsedMs >= 1000.0 ==> shown == target
    ensures (if start <= target then start else target) <= shown <= (if start <= target then target else start)
  {
    var progress := if elapsedMs / 1000.0 < 1.0 then elapsedMs / 1000.0 else 1.0;
    var d := (target - start) as real;
    var x := start as real + d * progress;
    ScaleUnit(d, progress);
    x.Floor
  }

  /** Scaling by a fraction in [0, 1] keeps the value between 0 and itself. */
  lemma ScaleUnit(d: real, p: real)
    requires 0.0 <= p <= 1.0
    ensures d >= 0.0 ==> 0.0 <= d * p <= d
    ensures d < 0.0 ==> d <= d * p <= 0.0
  {
    assert d - d * p == d * (1.0 - p);
    if d >= 0.0 {
      assert d * (1.0 - p) >= 0.0;
    } else {
      assert (-d) * p >= 0.0;
      assert (-d) * (1.0 - p) >= 0.0;
    }
  }

  /**
   * `updateDashboardStats`: each bar whose stat is in the data gets that width, each counter
   * whose stat is in the data heads for that value; the others keep what they show.
   */
  method UpdateDashboardStats(data: map<string, int>, barStats: seq<string>, widths: seq<string>,
                              counterStats: seq<string>, targets: seq<int>)
    returns (newWidths: seq<string>, newTargets: seq<int>)
    requires |barStats| == |widths| && |counterStats| == |targets|
    ensures |newWidths| == |widths| && |newTargets| == |targets|
    ensures forall i :: 0 <= i < |widths| ==>
      newWidths[i] == if barStats[i] in data then IntToString(data[barStats[i]]) + "%" else widths[i]
    ensures forall i :: 0 <= i < |targets| ==>
      newTargets[i] == if counterStats[i] in data then data[counterStats[i]] else targets[i]
  {
    newWidths := widths;
    var i := 0;
    while i < |barStats|
      invariant 0 <= i <= |barStats| && |newWidths| == |widths|
      invariant forall j :: 0 <= j < i ==>
        newWidths[j] == if barStats[j] in data then IntToString(data[barStats[j]]) + "%" else widths[j]
      invariant forall j :: i <= j < |widths| ==> newWidths[j] == widths[j]
    {
      if barStats[i] in data {
        newWidths := newWidths[i := IntToString(data[barStats[i]]) + "%"];
      }
      i := i + 1;
    }
    newTargets := targets;
    i := 0;
    while i < |counterStats|
      invariant 0 <= i <= |counterStats| && |newTargets| == |targets|
      invariant forall j :: 0 <= j < i ==>
        newTargets[j] == if counterStats[j] in data then data[counterStats[j]] else targets[j]
      invariant forall j :: i <= j < |targets| ==> newTargets[j] == targets[j]
    {
      if counterStats[i] in data {
        newTargets := newTargets[i := data[counterStats[i]]];
      }
      i := i + 1;
    }
  }
}
