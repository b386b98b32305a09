/** The classes-per-day bar chart of the dashboard's report page: one bar per
    weekday, Monday to Friday, whose height grows by 20 pixels per class held
    on that day. */
module Reports {
  import opened Records
  import opened Calendar

  const PixelsPerClass: nat := 20

  /** One bar: the weekday, how many classes are held on it, the bar's height
      in pixels and the three-letter caption under it. */
  datatype Bar = Bar(day: string, count: nat, height: nat, caption: string)

  /** The classes held on day `d`, in their original order: `allClasses.filter(c => c.day === d)`. */
  function OnDay(classes: seq<ClassRow>, d: string): (r: seq<ClassRow>)
    ensures forall c :: c in r <==> c in classes && c.day == d
    ensures |r| <= |classes|
  {
    if classes == [] then []
    else if classes[0].day == d then [classes[0]] + OnDay(classes[1..], d)
    else OnDay(classes[1..], d)
  }

  /** `OnDay` keeps the order of the classes: appending a class appends it to
      the result when it is held on day `d`, and leaves the result alone otherwise. */
  lemma {:induction false} OnDayAppend(classes: seq<ClassRow>, c: ClassRow, d: string)
    ensures OnDay(classes + [c], d) == OnDay(classes, d) + (if c.day == d then [c] else [])
  {
    if classes != [] {
      assert (classes + [c])[1..] == classes[1..] + [c];
      OnDayAppend(classes[1..], c, d);
    }
  }

  /** The day of every class, in order. */
  function DaysOf(classes: seq<ClassRow>): seq<string> {
    seq(|classes|, k requires 0 <= k < |classes| => classes[k].day)
  }

  function BarFor(classes: seq<ClassRow>, d: string): Bar
    requires |d| >= 3
  {
    var n := |OnDay(classes, d)|;
    Bar(d, n, n * PixelsPerClass, d[..3])
  }

  /** The chart: one bar per weekday, in order. */
  function Report(classes: seq<ClassRow>): (r: seq<Bar>)
    ensures |r| == |Weekdays|
  {
    seq(|Weekdays|, i requires 0 <= i < |Weekdays| => BarFor(classes, Weekdays[i]))
  }

  /** The number of classes the chart's bars account for together. */
  function Charted(bars: seq<Bar>): nat {
    if bars == [] then 0 else bars[0].count + Charted(bars[1..])
  }

  /** The number of classes held on day `d` is the number of times `d` occurs
      among the days of all classes. */
  lemma {:induction false} OnDayCountsDay(classes: seq<ClassRow>, d: string)
    ensures |OnDay(classes, d)| == multiset(DaysOf(classes))[d]
  {
    if classes != [] {
      OnDayCountsDay(classes[1..], d);
      assert DaysOf(classes) == [classes[0].day] + DaysOf(classes[1..]);
    }
  }

  /** Bar `i` is for the `i`-th weekday, counts the classes held on that day,
      is 20 pixels high per class and is captioned with the day's first three letters. */
  lemma ReportBar(classes: seq<ClassRow>, i: nat)
    requires i < 5
    ensures Report(classes)[i].day == Weekdays[i]
    ensures Report(classes)[i].count == multiset(DaysOf(classes))[Weekdays[i]]
    ensures Report(classes)[i].height == 20 * Report(classes)[i].count
    ensures Report(classes)[i].caption == ["Mon", "Tue", "Wed", "Thu", "Fri"][i]
  {
    OnDayCountsDay(classes, Weekdays[i]);
  }

  lemma ChartedFive(bars: seq<Bar>)
    requires |bars| == 5
    ensures Charted(bars) == bars[0].count + bars[1].count + bars[2].count + bars[3].count + bars[4].count
  {
    assert Charted(bars[4..]) == bars[4].count;
    assert Charted(bars[3..]) == bars[3].count + Charted(bars[4..]);
    assert Charted(bars[2..]) == bars[2].count + Charted(bars[3..]);
    assert Charted(bars[1..]) == bars[1].count + Charted(bars[2..]);
  }

  /** The number of classes held on some weekday, day by day. */
  function WeekCount(classes: seq<ClassRow>): nat {
    |OnDay(classes, Weekdays[0])| + |OnDay(classes, Weekdays[1])| + |OnDay(classes, Weekdays[2])| +
    |OnDay(classes, Weekdays[3])| + |OnDay(classes, Weekdays[4])|
  }

  /** Classes are counted at most once over the week, and exactly once when
      every class is held on a weekday. */
  lemma {:induction false} WeekCountTotal(classes: seq<ClassRow>)
    ensures WeekCount(classes) <= |classes|
    ensures (forall k :: 0 <= k < |classes| ==> classes[k].day in Weekdays) ==> WeekCount(classes) == |classes|
  {
    if classes != [] {
      var rest := classes[1..];
      WeekCountTotal(rest);
      assert forall k :: 0 <= k < |rest| ==> rest[k] == classes[k + 1];
      assert WeekCount(classes) == WeekCount(rest) + (if classes[0].day in Weekdays then 1 else 0);
    }
  }

  /** The bars together account for at most every class, and for exactly every
      class when every class is held on a weekday. */
  lemma ReportTotal(classes: seq<ClassRow>)
    ensures Charted(Report(classes)) <= |classes|
    ensures (forall k :: 0 <= k < |classes| ==> classes[k].day in Weekdays) ==>
      Charted(Report(classes)) == |classes|
  {
    ChartedFive(Report(classes));
    WeekCountTotal(classes);
  }
}
