/**
 * The client-side reporting aggregation (utils/chart-data.ts): activity cost,
 * per-project cost, profitability and hours, the week-of-year label and the
 * per-employee weekly workload table. Values are exact; the two-decimal rounding
 * applied for display is not part of this model.
 */
module ChartData {
  import opened Wrappers
  import opened Types
  import opened JsArray
  import opened JsText
  import opened Calendar

  datatype ChartDataPoint = ChartDataPoint(name: string, value: real)

  datatype ProfitabilityPoint = ProfitabilityPoint(
    name: string,
    presupuesto: real,
    costo: real,
    rentabilidad: real)

  // ---------------------------------------------------------------------------
  // calculateProjectCost

  /** The index of the first employee with the given id, as `Array.find` meets it. */
  function FindEmployeeIndex(employees: seq<Employee>, id: int): (r: Option<nat>)
    ensures r.Some? ==> r.value < |employees| && employees[r.value].id == id
    ensures r.Some? ==> forall j :: 0 <= j < r.value ==> employees[j].id != id
    ensures r.None? ==> forall j :: 0 <= j < |employees| ==> employees[j].id != id
    decreases |employees|
  {
    if employees == [] then None
    else if employees[0].id == id then Some(0)
    else
      match FindEmployeeIndex(employees[1..], id)
      case None => None
      case Some(k) => Some(k + 1)
  }

  /** `employees.find(e => e.id === id)`. */
  function FindEmployee(employees: seq<Employee>, id: int): Option<Employee> {
    match FindEmployeeIndex(employees, id)
    case None => None
    case Some(k) => Some(employees[k])
  }

  /** What one activity adds to the cost: nothing when no employee has its id. */
  function ActivityCost(a: Activity, employees: seq<Employee>): real {
    match FindEmployee(employees, a.empleado_id)
    case None => 0.0
    case Some(e) => (a.minutos as real / 60.0) * e.costo_por_hora
  }

  function CostOf(employees: seq<Employee>): Activity -> real {
    a => ActivityCost(a, employees)
  }

  /** `calculateProjectCost`: a left fold of the activity costs from 0. */
  function CalculateProjectCost(activities: seq<Activity>, employees: seq<Employee>): real {
    Reduce(0.0, activities, CostOf(employees))
  }

  /** No activities, or no employees to price them, cost nothing. */
  lemma CostVanishes(activities: seq<Activity>, employees: seq<Employee>)
    ensures CalculateProjectCost([], employees) == 0.0
    ensures CalculateProjectCost(activities, []) == 0.0
  {
    ReduceZero(activities, CostOf([]));
  }

  /**
   * A single activity costs its hours times the rate of the first employee with
   * its `empleado_id`, and nothing when there is no such employee.
   */
  lemma CostOfOneActivity(a: Activity, employees: seq<Employee>)
    ensures (forall j :: 0 <= j < |employees| ==> employees[j].id != a.empleado_id)
            ==> CalculateProjectCost([a], employees) == 0.0
    ensures forall i :: (0 <= i < |employees| && employees[i].id == a.empleado_id
                         && (forall j :: 0 <= j < i ==> employees[j].id != a.empleado_id))
                        ==> CalculateProjectCost([a], employees)
                            == (a.minutos as real / 60.0) * employees[i].costo_por_hora
  {
    ReduceCons(a, [], CostOf(employees));
    assert [a] + [] == [a];
    assert CalculateProjectCost([a], employees) == ActivityCost(a, employees);
  }

  /** The cost of a concatenation is the sum of the costs: cost is additive. */
  lemma CostAdditive(xs: seq<Activity>, ys: seq<Activity>, employees: seq<Employee>)
    ensures CalculateProjectCost(xs + ys, employees)
         == CalculateProjectCost(xs, employees) + CalculateProjectCost(ys, employees)
  {
    ReduceAppend(xs, ys, CostOf(employees));
  }

  /** An activity of an unknown employee leaves the cost unchanged wherever it sits. */
  lemma UnknownEmployeeAddsNothing(xs: seq<Activity>, a: Activity, ys: seq<Activity>, employees: seq<Employee>)
    requires forall j :: 0 <= j < |employees| ==> employees[j].id != a.empleado_id
    ensures CalculateProjectCost(xs + [a] + ys, employees)
         == CalculateProjectCost(xs + ys, employees)
  {
    CostAdditive(xs + [a], ys, employees);
    CostAdditive(xs, [a], employees);
    CostAdditive(xs, ys, employees);
    CostOfOneActivity(a, employees);
  }

  /** Non-negative minutes and rates give a non-negative cost. */
  lemma CostNonnegative(activities: seq<Activity>, employees: seq<Employee>)
    requires forall i :: 0 <= i < |activities| ==> activities[i].minutos >= 0
    requires forall j :: 0 <= j < |employees| ==> employees[j].costo_por_hora >= 0.0
    ensures CalculateProjectCost(activities, employees) >= 0.0
  {
    forall i | 0 <= i < |activities|
      ensures CostOf(employees)(activities[i]) >= 0.0
    {
      var a := activities[i];
      match FindEmployeeIndex(employees, a.empleado_id)
      case None =>
      case Some(k) =>
        assert (a.minutos as real / 60.0) >= 0.0;
        assert employees[k].costo_por_hora >= 0.0;
    }
    ReduceNonnegative(activities, CostOf(employees));
  }

  // ---------------------------------------------------------------------------
  // per-project charts

  /** `activities.filter(a => a.proyecto_id === projectId)`. */
  function ProjectActivities(activities: seq<Activity>, projectId: int): seq<Activity> {
    FilterKey(activities, ProjectIdOf, projectId)
  }

  function ProjectCost(p: Project, activities: seq<Activity>, employees: seq<Employee>): real {
    CalculateProjectCost(ProjectActivities(activities, p.id), employees)
  }

  /** Total minutes of a project's activities, in hours. */
  function ProjectHours(p: Project, activities: seq<Activity>): real {
    Reduce(0.0, ProjectActivities(activities, p.id), MinutesOf) / 60.0
  }

  /** `getProjectCostsData`: one point per project, in project order. */
  function GetProjectCostsData(projects: seq<Project>, activities: seq<Activity>, employees: seq<Employee>)
    : (r: seq<ChartDataPoint>)
    ensures |r| == |projects|
    ensures forall i :: 0 <= i < |projects| ==>
      r[i].name == projects[i].nombre && r[i].value == ProjectCost(projects[i], activities, employees)
  {
    Map(projects, (p: Project) => ChartDataPoint(p.nombre, ProjectCost(p, activities, employees)))
  }

  /** `getProjectProfitabilityData`: budget, cost and budget minus cost per project, unclamped. */
  function GetProjectProfitabilityData(projects: seq<Project>, activities: seq<Activity>, employees: seq<Employee>)
    : (r: seq<ProfitabilityPoint>)
    ensures |r| == |projects|
    ensures forall i :: 0 <= i < |projects| ==>
      && r[i].name == projects[i].nombre
      && r[i].presupuesto == projects[i].presupuesto
      && r[i].costo == ProjectCost(projects[i], activities, employees)
      && r[i].rentabilidad == r[i].presupuesto - r[i].costo
  {
    Map(projects, (p: Project) =>
      var cost := ProjectCost(p, activities, employees);
      ProfitabilityPoint(p.nombre, p.presupuesto, cost, p.presupuesto - cost))
  }

  /** `getProjectHoursData`: the sum of a project's minutes divided by 60, per project. */
  function GetProjectHoursData(projects: seq<Project>, activities: seq<Activity>): (r: seq<ChartDataPoint>)
    ensures |r| == |projects|
    ensures forall i :: 0 <= i < |projects| ==>
      r[i].name == projects[i].nombre && r[i].value == ProjectHours(projects[i], activities)
  {
    Map(projects, (p: Project) => ChartDataPoint(p.nombre, ProjectHours(p, activities)))
  }

  /**
   * A project no activity refers to costs 0, keeps its whole budget as
   * profitability and has 0 hours.
   */
  lemma ProjectWithoutActivities(projects: seq<Project>, activities: seq<Activity>, employees: seq<Employee>, i: int)
    requires 0 <= i < |projects|
    requires forall k :: 0 <= k < |activities| ==> activities[k].proyecto_id != projects[i].id
    ensures GetProjectCostsData(projects, activities, employees)[i].value == 0.0
    ensures GetProjectProfitabilityData(projects, activities, employees)[i].costo == 0.0
    ensures GetProjectProfitabilityData(projects, activities, employees)[i].rentabilidad
         == projects[i].presupuesto
    ensures GetProjectHoursData(projects, activities)[i].value == 0.0
  {
    FilterKeyNone(activities, ProjectIdOf, projects[i].id);
  }

  /** The cost bar and the profitability cost of a project are the same number. */
  lemma CostChartsAgree(projects: seq<Project>, activities: seq<Activity>, employees: seq<Employee>, i: int)
    requires 0 <= i < |projects|
    ensures GetProjectProfitabilityData(projects, activities, employees)[i].costo
         == GetProjectCostsData(projects, activities, employees)[i].value
  {
  }

  function ValueOf(p: ChartDataPoint): real {
    p.value
  }

  /** The sum of the values a chart shows. */
  function SumValues(points: seq<ChartDataPoint>): real {
    Reduce(0.0, points, ValueOf)
  }

  /** Every activity refers to exactly one of the listed projects. */
  predicate ProjectsCoverActivities(projects: seq<Project>, activities: seq<Activity>) {
    && Distinct(Map(projects, IdOfProject))
    && forall k :: 0 <= k < |activities| ==> activities[k].proyecto_id in Map(projects, IdOfProject)
  }

  lemma {:induction false} CostsDataIsGroupTotals(projects: seq<Project>, activities: seq<Activity>, employees: seq<Employee>)
    ensures SumValues(GetProjectCostsData(projects, activities, employees))
         == GroupTotals(Map(projects, IdOfProject), activities, ProjectIdOf, CostOf(employees))
    decreases |projects|
  {
    if projects != [] {
      var r := GetProjectCostsData(projects, activities, employees);
      assert r == [r[0]] + GetProjectCostsData(projects[1..], activities, employees);
      ReduceCons(r[0], GetProjectCostsData(projects[1..], activities, employees), ValueOf);
      assert Map(projects, IdOfProject)[1..] == Map(projects[1..], IdOfProject);
      CostsDataIsGroupTotals(projects[1..], activities, employees);
    }
  }

  /**
   * When every activity belongs to exactly one listed project, the project cost
   * bars add up to the cost of all activities.
   */
  lemma CostsDataTotal(projects: seq<Project>, activities: seq<Activity>, employees: seq<Employee>)
    requires ProjectsCoverActivities(projects, activities)
    ensures SumValues(GetProjectCostsData(projects, activities, employees))
         == CalculateProjectCost(activities, employees)
  {
    CostsDataIsGroupTotals(projects, activities, employees);
    GroupTotalsPartition(Map(projects, IdOfProject), activities, ProjectIdOf, CostOf(employees));
  }

  lemma {:induction false} HoursDataIsGroupTotals(projects: seq<Project>, activities: seq<Activity>)
    ensures SumValues(GetProjectHoursData(projects, activities))
         == GroupTotals(Map(projects, IdOfProject), activities, ProjectIdOf, MinutesOf) / 60.0
    decreases |projects|
  {
    if projects != [] {
      var r := GetProjectHoursData(projects, activities);
      assert r == [r[0]] + GetProjectHoursData(projects[1..], activities);
      ReduceCons(r[0], GetProjectHoursData(projects[1..], activities), ValueOf);
      assert Map(projects, IdOfProject)[1..] == Map(projects[1..], IdOfProject);
      HoursDataIsGroupTotals(projects[1..], activities);
    }
  }

  /**
   * Likewise the project hours add up to all minutes over 60, so the shares the
   * hours chart shows add up to the whole.
   */
  lemma HoursDataTotal(projects: seq<Project>, activities: seq<Activity>)
    requires ProjectsCoverActivities(projects, activities)
    ensures SumValues(GetProjectHoursData(projects, activities))
         == Reduce(0.0, activities, MinutesOf) / 60.0
  {
    HoursDataIsGroupTotals(projects, activities);
    GroupTotalsPartition(Map(projects, IdOfProject), activities, ProjectIdOf, MinutesOf);
  }

  // ---------------------------------------------------------------------------
  // getWeekNumber

  /** `d.getDay() || 7`: Monday 1, ..., Sunday 7. */
  function IsoWeekday(n: int): (w: int)
    ensures 1 <= w <= 7
  {
    var d := JsWeekday(n);
    if d == 0 then 7 else d
  }

  /** `d.setDate(d.getDate() + 4 - (d.getDay() || 7))`: the Thursday of the Monday-to-Sunday week. */
  function ThursdayOf(n: int): (t: int)
    ensures JsWeekday(t) == 4
    ensures n - 3 <= t <= n + 3
  {
    n + 4 - IsoWeekday(n)
  }

  /** `Math.ceil(x)`: the least integer not below `x`. */
  function Ceil(x: real): (c: int)
    ensures (c - 1) as real < x <= c as real
  {
    if x.Floor as real == x then x.Floor else x.Floor + 1
  }

  /**
   * `Math.ceil((k + 1) / 7)` for the whole number `k` of days since 1 January:
   * days 0 to 6 are week 1, days 7 to 13 week 2, and so on.
   */
  function WeekOfYearDay(k: int): (w: int)
    ensures w == k / 7 + 1
  {
    var q := k / 7;
    assert (q as real) < (k as real + 1.0) / 7.0 <= (q + 1) as real;
    Ceil((k as real + 1.0) / 7.0)
  }

  /**
   * The week number of day `n`: its week's Thursday, counted in weeks from
   * 1 January of the Thursday's year.
   */
  function WeekNumberOfDay(n: int): (w: int)
    ensures 1 <= w <= 53
  {
    WeekNumberOfThursday(ThursdayOf(n))
  }

  /** The number of the week whose Thursday is day `t`. */
  function WeekNumberOfThursday(t: int): (w: int)
    ensures 1 <= w <= 53
  {
    var y := YearOfDay(t);
    YearLength(y);
    WeekOfYearDay(t - JanFirst(y))
  }

  /** The label `Semana n`. */
  function WeekLabel(w: int): string {
    "Semana " + IntToString(w)
  }

  /** `getWeekNumber(date)`. */
  function GetWeekNumber(date: Date): (r: string)
    ensures exists w :: 1 <= w <= 53 && r == WeekLabel(w)
  {
    WeekLabel(WeekNumberOfDay(DayNumber(date)))
  }

  /** `MakeFullYear` of the Date constructor: a year from 0 to 99 is read as 1900 plus it. */
  function ConstructorYear(y: int): (r: int)
    ensures 0 <= y <= 99 ==> r == 1900 + y
    ensures !(0 <= y <= 99) ==> r == y
  {
    if 0 <= y <= 99 then 1900 + y else y
  }

  /**
   * The week number exactly as written: `yearStart` is `new Date(year, 0, 1)`,
   * which goes through `ConstructorYear`.
   */
  function WeekNumberAsWritten(n: int): int {
    var t := ThursdayOf(n);
    WeekOfYearDay(t - JanFirst(ConstructorYear(YearOfDay(t))))
  }

  /** Outside the years 0 to 99 the code as written computes the week number of the model. */
  lemma AsWrittenAgrees(n: int)
    ensures !(0 <= YearOfDay(ThursdayOf(n)) <= 99) ==> WeekNumberAsWritten(n) == WeekNumberOfDay(n)
  {
  }

  /**
   * In the years 0 to 99 the code as written counts from 1 January of 1900 plus
   * the year, so its week number is below 1.
   */
  lemma AsWrittenEarlyYears(n: int)
    ensures 0 <= YearOfDay(ThursdayOf(n)) <= 99 ==> WeekNumberAsWritten(n) < 1
  {
    var t := ThursdayOf(n);
    var y := YearOfDay(t);
    if 0 <= y <= 99 {
      assert JanFirst(y + 1) + 365 <= JanFirst(1900 + y) by {
        var p, q := y, 1899 + y;
        assert q / 4 >= p / 4 && q / 100 - p / 100 <= 19 && q / 400 >= p / 400;
      }
    }
  }

  /** The week number is the number of whole weeks from 1 January to the Thursday, plus one. */
  lemma WeekNumberInDays(n: int)
    ensures WeekNumberOfDay(n) == (ThursdayOf(n) - JanFirst(YearOfDay(ThursdayOf(n)))) / 7 + 1
  {
  }

  /**
   * All seven days from a Monday share the Thursday, hence the week number and the
   * label; the year of that week is not part of the label.
   */
  lemma SameWeekSameLabel(d: Date, k: int)
    requires IsoWeekday(DayNumber(d)) == 1
    requires 0 <= k < 7
    ensures ThursdayOf(DayNumber(Date(d.year, d.month, d.day + k))) == ThursdayOf(DayNumber(d))
    ensures GetWeekNumber(Date(d.year, d.month, d.day + k)) == GetWeekNumber(d)
  {
    var n := DayNumber(d);
    DayNumberAddDays(d, k);
    ThursdayWithinWeek(n, k);
  }

  lemma ThursdayWithinWeek(n: int, k: int)
    requires IsoWeekday(n) == 1 && 0 <= k < 7
    ensures ThursdayOf(n + k) == n + 3
  {
    assert (n + 1) % 7 == 1;
    if k < 6 {
      assert (n + k + 1) % 7 == 1 + k;
    } else {
      assert (n + k + 1) % 7 == 0;
    }
  }

  /**
   * With `t` the Thursday of day `n`'s week: when the Thursday a week later falls
   * in the same year, the next week has the next number.
   */
  lemma NextWeekNextNumber(n: int, t: int)
    requires t == ThursdayOf(n)
    requires YearOfDay(t + 7) == YearOfDay(t)
    ensures WeekNumberOfDay(n + 7) == WeekNumberOfDay(n) + 1
  {
    ThursdayNextWeek(n);
    WeekNumberInDays(n);
    WeekNumberInDays(n + 7);
    WeeksShift(t - JanFirst(YearOfDay(t)));
  }

  lemma ThursdayNextWeek(n: int)
    ensures ThursdayOf(n + 7) == ThursdayOf(n) + 7
  {
    assert (n + 7 + 1) % 7 == (n + 1) % 7;
  }

  lemma WeeksShift(k: int)
    ensures (k + 7) / 7 == k / 7 + 1
  {
  }

  /** The Monday of the Monday-to-Sunday week of day `n`. */
  function MondayOf(n: int): int {
    n - (IsoWeekday(n) - 1)
  }

  /**
   * The week number agrees with the ISO 8601 rule: week 1 of a year is the week
   * that holds 4 January, and weeks are counted Monday to Monday from there.
   */
  lemma WeekNumberIsIso8601(n: int, t: int, y: int)
    requires t == ThursdayOf(n) && y == YearOfDay(t)
    ensures WeekNumberOfDay(n) == (MondayOf(n) - MondayOf(JanFirst(y) + 3)) / 7 + 1
  {
    WeekNumberInDays(n);
    FourthOfJanuaryWeek(t, JanFirst(y), ThursdayOf(JanFirst(y) + 3));
  }

  lemma FourthOfJanuaryWeek(t: int, j: int, t4: int)
    requires JsWeekday(t) == 4 && t4 == ThursdayOf(j + 3) && j <= t
    ensures (t - j) / 7 == (t - 3 - MondayOf(j + 3)) / 7
  {
    assert MondayOf(j + 3) == t4 - 3;
    assert j <= t4 <= j + 6;
    assert (t - t4) % 7 == 0;
    assert t >= t4;
    var m := (t - t4) / 7;
    assert t - j == 7 * m + (t4 - j);
  }

  /** The label carries its number: `parseInt(label.split(' ')[1])` reads it back. */
  lemma WeekKeyOfLabel(w: int)
    requires w >= 0
    ensures WeekKey(WeekLabel(w)) == w
  {
    var ds := NatToDecimal(w);
    var word := "Semana";
    assert Lacks(word, ' ');
    assert Lacks(ds, ' ') by {
      forall i | 0 <= i < |ds| ensures ds[i] != ' ' {
        assert IsDecimalDigit(ds[i]);
      }
    }
    assert WeekLabel(w) == word + [' '] + ds;
    SplitAt(word, ds, ' ');
    SplitWithout(ds, ' ');
    var parts := Split(WeekLabel(w), ' ');
    assert parts == [word, ds];
    ParseIntOfIntToString(w);
    assert ParseInt(ds) == Some(w);
  }

  /**
   * The week number from the Thursday `t` of day `n`'s week and the year `y`
   * that contains it.
   */
  lemma WeekNumberFromYear(n: int, t: int, y: int)
    requires t == ThursdayOf(n)
    requires JanFirst(y) <= t < JanFirst(y + 1)
    ensures WeekNumberOfDay(n) == (t - JanFirst(y)) / 7 + 1
  {
    YearOfDayUnique(t, y);
    WeekNumberInDays(n);
  }

  // ---------------------------------------------------------------------------
  // getEmployeeWorkloadData

  function WeekOf(a: Activity): string {
    GetWeekNumber(a.fecha)
  }

  /** The sort key `parseInt(label.split(' ')[1])`; a NaN key (which no label produces) reads as 0. */
  function WeekKey(s: string): int {
    var parts := Split(s, ' ');
    var field := if |parts| > 1 then parts[1] else "undefined";
    match ParseInt(field)
    case Some(n) => n
    case None => 0
  }

  /** `[...new Set(activities.map(a => getWeekNumber(a.fecha)))].sort(by week number)`. */
  function UniqueWeeks(activities: seq<Activity>): seq<string> {
    SortByKey(Dedup(Map(activities, WeekOf)), WeekKey)
  }

  /** Hours of the given activities that fall in `week`. */
  function WeekHours(activities: seq<Activity>, week: string): real {
    Reduce(0.0, FilterKey(activities, WeekOf, week), HoursOf)
  }

  function WeekHoursOf(activities: seq<Activity>): string -> real {
    w => WeekHours(activities, w)
  }

  /** `weeks.reduce((acc, week) => ({...acc, [week]: hours(week)}), acc)`. */
  function WeeklyHours(acc: map<string, real>, weeks: seq<string>, hours: string -> real)
    : (m: map<string, real>)
    ensures m.Keys == acc.Keys + (set w | w in weeks)
    ensures forall w :: w in weeks ==> m[w] == hours(w)
    ensures forall w :: w in acc && w !in weeks ==> m[w] == acc[w]
    decreases |weeks|
  {
    if weeks == [] then acc
    else
      assert (set w | w in weeks) == {weeks[0]} + (set w | w in weeks[1..]) by {
        assert weeks == [weeks[0]] + weeks[1..];
      }
      WeeklyHours(acc[weeks[0] := hours(weeks[0])], weeks[1..], hours)
  }

  datatype EmployeeWorkload = EmployeeWorkload(name: string, hours: map<string, real>, total: real)

  datatype WorkloadData = WorkloadData(data: seq<EmployeeWorkload>, weeks: seq<string>)

  /** `activities.filter(a => a.empleado_id === employeeId)`. */
  function EmployeeActivities(activities: seq<Activity>, employeeId: int): seq<Activity> {
    FilterKey(activities, EmployeeIdOf, employeeId)
  }

  /**
   * One employee's row: a value for every listed week, 0 when the employee has
   * nothing that week, and the total of all that employee's hours.
   */
  function WorkloadOf(e: Employee, activities: seq<Activity>, weeks: seq<string>): (row: EmployeeWorkload)
    ensures row.name == e.nombre
    ensures row.hours.Keys == set w | w in weeks
    ensures forall w :: w in weeks ==> row.hours[w] == WeekHours(EmployeeActivities(activities, e.id), w)
    ensures row.total == Reduce(0.0, EmployeeActivities(activities, e.id), HoursOf)
  {
    var own := EmployeeActivities(activities, e.id);
    EmployeeWorkload(e.nombre, WeeklyHours(map[], weeks, WeekHoursOf(own)), Reduce(0.0, own, HoursOf))
  }

  function WorkloadRows(employees: seq<Employee>, activities: seq<Activity>, weeks: seq<string>)
    : (r: seq<EmployeeWorkload>)
    ensures |r| == |employees|
    ensures forall i :: 0 <= i < |employees| ==> r[i] == WorkloadOf(employees[i], activities, weeks)
  {
    Map(employees, (e: Employee) => WorkloadOf(e, activities, weeks))
  }

  /** `getEmployeeWorkloadData`. */
  function GetEmployeeWorkloadData(employees: seq<Employee>, activities: seq<Activity>): (r: WorkloadData)
    ensures r.weeks == UniqueWeeks(activities)
    ensures |r.data| == |employees|
    ensures forall i :: 0 <= i < |employees| ==> r.data[i] == WorkloadOf(employees[i], activities, r.weeks)
  {
    var weeks := UniqueWeeks(activities);
    WorkloadData(WorkloadRows(employees, activities, weeks), weeks)
  }

  /** A label the code produces: `Semana n` with `n` from 1 to 53, which its sort key reads back. */
  predicate IsWeekLabel(l: string) {
    1 <= WeekKey(l) <= 53 && l == WeekLabel(WeekKey(l))
  }

  lemma ActivityLabel(a: Activity)
    ensures IsWeekLabel(WeekOf(a))
  {
    WeekKeyOfLabel(WeekNumberOfDay(DayNumber(a.fecha)));
  }

  /** Sorting distinct labels by week number orders them strictly. */
  lemma SortedLabels(d: seq<string>)
    requires Distinct(d)
    requires forall i :: 0 <= i < |d| ==> IsWeekLabel(d[i])
    ensures Distinct(SortByKey(d, WeekKey))
    ensures StrictlySortedByKey(SortByKey(d, WeekKey), WeekKey)
    ensures forall l :: l in SortByKey(d, WeekKey) <==> l in d
  {
    var r := SortByKey(d, WeekKey);
    SortByKeySorted(d, WeekKey);
    assert forall l :: l in r <==> l in multiset(d);
    forall i | 0 <= i < |r|
      ensures IsWeekLabel(r[i])
    {
      assert r[i] in multiset(d);
      var k :| 0 <= k < |d| && d[k] == r[i];
    }
    forall i, j | 0 <= i < j < |r|
      ensures WeekKey(r[i]) < WeekKey(r[j])
    {
      LabelsDifferInKey(r[i], r[j]);
    }
  }

  lemma LabelsDifferInKey(a: string, b: string)
    requires IsWeekLabel(a) && IsWeekLabel(b) && a != b
    ensures WeekKey(a) != WeekKey(b)
  {
  }

  lemma ActivityLabels(activities: seq<Activity>)
    ensures forall i :: 0 <= i < |Map(activities, WeekOf)| ==> IsWeekLabel(Map(activities, WeekOf)[i])
  {
    var labels := Map(activities, WeekOf);
    forall i | 0 <= i < |labels|
      ensures IsWeekLabel(labels[i])
    {
      ActivityLabel(activities[i]);
    }
  }

  lemma DedupLabels(labels: seq<string>)
    requires forall i :: 0 <= i < |labels| ==> IsWeekLabel(labels[i])
    ensures forall i :: 0 <= i < |Dedup(labels)| ==> IsWeekLabel(Dedup(labels)[i])
  {
    var d := Dedup(labels);
    forall i | 0 <= i < |d|
      ensures IsWeekLabel(d[i])
    {
      assert d[i] in labels;
    }
  }

  lemma MapMembers(activities: seq<Activity>, l: string)
    ensures l in Map(activities, WeekOf) <==> exists k :: 0 <= k < |activities| && WeekOf(activities[k]) == l
  {
    var labels := Map(activities, WeekOf);
    if l in labels {
      var k :| 0 <= k < |labels| && labels[k] == l;
      assert WeekOf(activities[k]) == l;
    }
  }

  /**
   * The week list has no duplicates, is strictly ascending by week number, holds
   * only labels of weeks 1 to 53, and is exactly the set of labels of the activities.
   */
  lemma UniqueWeeksProperties(activities: seq<Activity>)
    ensures Distinct(UniqueWeeks(activities))
    ensures StrictlySortedByKey(UniqueWeeks(activities), WeekKey)
    ensures forall i :: 0 <= i < |UniqueWeeks(activities)| ==> IsWeekLabel(UniqueWeeks(activities)[i])
    ensures forall l :: l in UniqueWeeks(activities) <==> exists k :: 0 <= k < |activities| && WeekOf(activities[k]) == l
  {
    var labels := Map(activities, WeekOf);
    ActivityLabels(activities);
    DedupLabels(labels);
    var d := Dedup(labels);
    SortedLabels(d);
    var r := SortByKey(d, WeekKey);
    forall i | 0 <= i < |r|
      ensures IsWeekLabel(r[i])
    {
      assert r[i] in d;
    }
    forall l
      ensures l in r <==> exists k :: 0 <= k < |activities| && WeekOf(activities[k]) == l
    {
      MapMembers(activities, l);
    }
  }

  /**
   * The week list depends only on which labels occur: reordering or repeating the
   * activities does not change it.
   */
  lemma UniqueWeeksOrderIndependent(xs: seq<Activity>, ys: seq<Activity>)
    requires forall l :: l in Map(xs, WeekOf) <==> l in Map(ys, WeekOf)
    ensures UniqueWeeks(xs) == UniqueWeeks(ys)
  {
    UniqueWeeksProperties(xs);
    UniqueWeeksProperties(ys);
    forall l
      ensures l in UniqueWeeks(xs) <==> l in UniqueWeeks(ys)
    {
      UniqueWeeksMembers(xs, l);
      UniqueWeeksMembers(ys, l);
    }
    StrictlySortedUnique(UniqueWeeks(xs), UniqueWeeks(ys), WeekKey);
  }

  lemma UniqueWeeksMembers(activities: seq<Activity>, l: string)
    ensures l in UniqueWeeks(activities) <==> l in Map(activities, WeekOf)
  {
    var d := Dedup(Map(activities, WeekOf));
    assert l in SortByKey(d, WeekKey) <==> l in multiset(d);
  }

  /** An employee with nothing in a listed week still gets that week, with 0 hours. */
  lemma IdleWeekIsZero(employees: seq<Employee>, activities: seq<Activity>, i: int, w: string)
    requires 0 <= i < |employees|
    requires w in UniqueWeeks(activities)
    requires forall k :: 0 <= k < |activities| && activities[k].empleado_id == employees[i].id
                      ==> WeekOf(activities[k]) != w
    ensures w in GetEmployeeWorkloadData(employees, activities).data[i].hours
    ensures GetEmployeeWorkloadData(employees, activities).data[i].hours[w] == 0.0
  {
    var own := EmployeeActivities(activities, employees[i].id);
    forall k | 0 <= k < |own|
      ensures WeekOf(own[k]) != w
    {
      assert own[k] in own;
      FilterKeyMembers(activities, EmployeeIdOf, employees[i].id, own[k]);
    }
    FilterKeyNone(own, WeekOf, w);
  }

  function HoursIn(m: map<string, real>): string -> real {
    w => if w in m then m[w] else 0.0
  }

  lemma {:induction false} WeekValuesAreGroupTotals(hours: map<string, real>, weeks: seq<string>, all: seq<string>, own: seq<Activity>)
    requires forall w :: w in all ==> w in hours && hours[w] == WeekHours(own, w)
    requires forall w :: w in weeks ==> w in all
    ensures Reduce(0.0, weeks, HoursIn(hours)) == GroupTotals(weeks, own, WeekOf, HoursOf)
    decreases |weeks|
  {
    if weeks != [] {
      assert weeks == [weeks[0]] + weeks[1..];
      ReduceCons(weeks[0], weeks[1..], HoursIn(hours));
      WeekValuesAreGroupTotals(hours, weeks[1..], all, own);
    }
  }

  /** An employee's total is the sum of that employee's weekly values. */
  lemma TotalIsSumOfWeeks(employees: seq<Employee>, activities: seq<Activity>, i: int)
    requires 0 <= i < |employees|
    ensures var r := GetEmployeeWorkloadData(employees, activities);
      r.data[i].total == Reduce(0.0, r.weeks, HoursIn(r.data[i].hours))
  {
    var r := GetEmployeeWorkloadData(employees, activities);
    var own := EmployeeActivities(activities, employees[i].id);
    UniqueWeeksProperties(activities);
    WeekValuesAreGroupTotals(r.data[i].hours, r.weeks, r.weeks, own);
    forall k | 0 <= k < |own|
      ensures WeekOf(own[k]) in r.weeks
    {
      assert own[k] in own;
      FilterKeyMembers(activities, EmployeeIdOf, employees[i].id, own[k]);
      var j :| 0 <= j < |activities| && activities[j] == own[k];
      assert WeekOf(activities[j]) == WeekOf(own[k]);
    }
    GroupTotalsPartition(r.weeks, own, WeekOf, HoursOf);
  }
}
