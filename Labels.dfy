/**
 * DateAxisItem.tickStrings: one label per tick value, drawn with a strftime
 * template that depends on the spacing alone, and '' for a value that
 * datetime.fromtimestamp rejects.
 */
module Labels {

  import opened Wrappers
  import opened Calendar
  import opened Tiers

  /** The strftime formats of tickStrings, coarsest first. */
  datatype Template =
    | Y       // "%Y"
    | YMon    // "%Y %b"
    | MonD    // "%b/%d"
    | MonDH   // "%b/%d-%Hh"
    | HM      // "%H:%M"
    | HMS     // "%H:%M:%S"
    | FracMs  // "[+%fms]"

  /** The template for a spacing: the first threshold, largest first, that the spacing reaches. */
  function TemplateFor(spacing: real): Template {
    if spacing >= 31622400.0 then Y
    else if spacing >= 2678400.0 then YMon
    else if spacing >= 86400.0 then MonD
    else if spacing >= 3600.0 then MonDH
    else if spacing >= 60.0 then HM
    else if spacing >= 1.0 then HMS
    else FracMs
  }

  /** The least spacing that selects a template: 366 days, 31 days, a day, an hour, a minute, a second. */
  function MinSpacing(tpl: Template): real
    requires tpl != FracMs
  {
    match tpl
    case Y => 31622400.0
    case YMon => 2678400.0
    case MonD => 86400.0
    case MonDH => 3600.0
    case HM => 60.0
    case HMS => 1.0
  }

  /** The template just above tpl in the table. */
  function CoarserTemplate(tpl: Template): Template
    requires tpl != Y
  {
    match tpl
    case YMon => Y
    case MonD => YMon
    case MonDH => MonD
    case HM => MonDH
    case HMS => HM
    case FracMs => HMS
  }

  /**
   * Exactly one template applies to each spacing: tpl is chosen iff the
   * spacing reaches tpl's threshold and stays below the one above it.
   */
  lemma TemplateForIff(spacing: real, tpl: Template)
    ensures TemplateFor(spacing) == tpl <==>
              && (tpl != FracMs ==> MinSpacing(tpl) <= spacing)
              && (tpl != Y ==> spacing < MinSpacing(CoarserTemplate(tpl)))
  {
  }

  /**
   * The spacing each tier of tickValues declares selects a fixed template:
   * the year for year ticks, year and month for month ticks, month and day
   * for days, down to hours, minutes and seconds for the finest tiers.
   */
  lemma TierTemplates(t: Tier)
    requires t != SubSecond
    ensures TemplateFor(Step(t) as real) ==
              match t
              case Year => Y
              case Month => YMon
              case Day => MonD
              case Hour => MonDH
              case TenMinute => HM
              case Minute => HM
              case TenSecond => HMS
              case Second => HMS
  {
  }

  /** The fields of dt that a template prints, in the order it prints them. */
  function Shown(tpl: Template, dt: DateTime): seq<int> {
    match tpl
    case Y => [dt.year]
    case YMon => [dt.year, dt.month]
    case MonD => [dt.month, dt.day]
    case MonDH => [dt.month, dt.day, dt.hour]
    case HM => [dt.hour, dt.minute]
    case HMS => [dt.hour, dt.minute, dt.second]
    case FracMs => [dt.microsecond]
  }

  /** A label: '' or a template filled with the fields it shows. */
  datatype Label = Blank | Text(template: Template, fields: seq<int>)

  /** The label of one value: '' where fromtimestamp raises ValueError. */
  function LabelOf(x: real, tpl: Template): (l: Label)
    ensures l.Blank? <==> !Representable(x)
    ensures l.Text? ==> l.template == tpl
  {
    match FromTimestamp(x)
    case None => Blank
    case Some(dt) => Text(tpl, Shown(tpl, dt))
  }

  /** A whole-second value within years 1..9999 is labelled with the fields of its own datetime. */
  lemma LabelOfWholeSecond(s: int, tpl: Template)
    requires InRange(s)
    ensures LabelOf(s as real, tpl) == Text(tpl, Shown(tpl, FromSeconds(s)))
  {
    RepresentableIff(s as real);
    assert (s as real).Floor == s;
    assert FromTimestamp(s as real).value == FromSeconds(s);
  }

  /** A year tick is labelled with its year alone. */
  lemma YearTickLabel(y: int)
    requires MinYear <= y <= MaxYear
    ensures LabelOf(NewYear(y) as real, TemplateFor(Step(Year) as real)) == Text(Y, [y])
  {
    EndsOfTime();
    if MinYear < y {
      NewYearIncreasing(MinYear, y);
    }
    NewYearIncreasing(y, MaxYear + 1);
    NewYearCivil(y);
    LabelOfWholeSecond(NewYear(y), Y);
  }

  /** A month tick is labelled with the year and the month of its month. */
  lemma MonthTickLabel(k: int, dt: DateTime)
    requires dt == MonthStart(k) && MinYear <= dt.year <= MaxYear
    ensures LabelOf(FirstOfMonth(k) as real, TemplateFor(Step(Month) as real)) == Text(YMon, [dt.year, dt.month])
  {
    var s := FirstOfMonth(k);
    FromSecondsToSeconds(dt);
    EndsOfTime();
    if MinYear < dt.year {
      NewYearIncreasing(MinYear, dt.year);
    }
    NewYearIncreasing(dt.year, MaxYear + 1);
    YearOfBounds(s);
    LabelOfWholeSecond(s, YMon);
  }

  /**
   * tickStrings (dashboardViewer.py): [] for no values; otherwise the
   * template of the spacing, and for each value in turn its label, or ''
   * when fromtimestamp raises ValueError. The scale is not used.
   */
  method TickStrings(values: seq<real>, scale: real, spacing: real) returns (ret: seq<Label>)
    ensures |ret| == |values|
    ensures forall i :: 0 <= i < |values| ==> ret[i] == LabelOf(values[i], TemplateFor(spacing))
  {
    ret := [];
    if |values| == 0 {
      return [];
    }
    var fmt := TemplateFor(spacing);
    for i := 0 to |values|
      invariant |ret| == i
      invariant forall j :: 0 <= j < i ==> ret[j] == LabelOf(values[j], fmt)
    {
      var t := FromTimestamp(values[i]);
      if t.Some? {
        ret := ret + [Text(fmt, Shown(fmt, t.value))];
      } else {
        ret := ret + [Blank];
      }
    }
  }
}
