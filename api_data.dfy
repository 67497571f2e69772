/**
 * The values `useAppDataSWR` (hooks/useApiData.ts) derives from the three
 * fetched lists: the merged loading flag and error, and the per-project and
 * per-employee statistics. The fetches themselves are inputs.
 */
module ApiData {
  import opened Wrappers
  import opened Types
  import opened JsArray
  import opened ChartData

  /** What one SWR hook hands back: the data once it has arrived, the loading flag, an error. */
  datatype Fetched<T, E> = Fetched(data: Option<seq<T>>, isLoading: bool, error: Option<E>)

  /** A project spread with its total hours and number of activities. */
  datatype ProjectStat = ProjectStat(project: Project, totalHours: real, activityCount: nat)

  /** An employee spread with their total hours and number of distinct projects. */
  datatype EmployeeStat = EmployeeStat(employee: Employee, totalHours: real, projectCount: nat)

  datatype AppData<E> = AppData(
    employees: seq<Employee>,
    projects: seq<Project>,
    activities: seq<Activity>,
    isLoading: bool,
    error: Option<E>,
    projectStats: seq<ProjectStat>,
    employeeStats: seq<EmployeeStat>)

  /** `data ?? []`. */
  function OrEmpty<T>(data: Option<seq<T>>): seq<T> {
    if data.Some? then data.value else []
  }

  /** `a || b` on errors: an error object is truthy, an absent error is not. */
  function OrError<E>(a: Option<E>, b: Option<E>): Option<E> {
    if a.Some? then a else b
  }

  /** `employeesError || projectsError || activitiesError`. */
  function CombinedError<E>(employeesError: Option<E>, projectsError: Option<E>, activitiesError: Option<E>)
    : (r: Option<E>)
    ensures r.None? <==> employeesError.None? && projectsError.None? && activitiesError.None?
    ensures employeesError.Some? ==> r == employeesError
    ensures employeesError.None? && projectsError.Some? ==> r == projectsError
    ensures employeesError.None? && projectsError.None? ==> r == activitiesError
  {
    OrError(OrError(employeesError, projectsError), activitiesError)
  }

  /** `||` groups either way round, so only the order of the three errors matters. */
  lemma OrErrorAssociative<E>(a: Option<E>, b: Option<E>, c: Option<E>)
    ensures OrError(OrError(a, b), c) == OrError(a, OrError(b, c))
  {
  }

  /** `activities.filter(a => a.empleado_id === employee.id)` followed by `.map(a => a.proyecto_id)`. */
  function ProjectIdsOf(activities: seq<Activity>, employeeId: int): seq<int> {
    Map(EmployeeActivities(activities, employeeId), ProjectIdOf)
  }

  /** `projectStats`: one entry per project, in order. */
  function ProjectStats(projects: seq<Project>, activities: seq<Activity>): (r: seq<ProjectStat>)
    ensures |r| == |projects|
    ensures forall i :: 0 <= i < |projects| ==>
      && r[i].project == projects[i]
      && r[i].totalHours == Reduce(0.0, ProjectActivities(activities, projects[i].id), HoursOf)
      && r[i].activityCount == |ProjectActivities(activities, projects[i].id)|
  {
    Map(projects, (p: Project) =>
      var own := ProjectActivities(activities, p.id);
      ProjectStat(p, Reduce(0.0, own, HoursOf), |own|))
  }

  /** `employeeStats`: one entry per employee, in order. */
  function EmployeeStats(employees: seq<Employee>, activities: seq<Activity>): (r: seq<EmployeeStat>)
    ensures |r| == |employees|
    ensures forall i :: 0 <= i < |employees| ==>
      && r[i].employee == employees[i]
      && r[i].totalHours == Reduce(0.0, EmployeeActivities(activities, employees[i].id), HoursOf)
      && r[i].projectCount == |ElementSet(ProjectIdsOf(activities, employees[i].id))|
  {
    Map(employees, (e: Employee) =>
      EmployeeStat(e, Reduce(0.0, EmployeeActivities(activities, e.id), HoursOf),
                   |ElementSet(ProjectIdsOf(activities, e.id))|))
  }

  /** The value of `useAppDataSWR()`, apart from `refreshData`. */
  function UseAppData<E>(employees: Fetched<Employee, E>, projects: Fetched<Project, E>, activities: Fetched<Activity, E>)
    : (r: AppData<E>)
    ensures employees.data.None? ==> r.employees == []
    ensures projects.data.None? ==> r.projects == []
    ensures activities.data.None? ==> r.activities == []
    ensures employees.data.Some? ==> r.employees == employees.data.value
    ensures projects.data.Some? ==> r.projects == projects.data.value
    ensures activities.data.Some? ==> r.activities == activities.data.value
    ensures r.isLoading <==> employees.isLoading || projects.isLoading || activities.isLoading
    ensures r.error == CombinedError(employees.error, projects.error, activities.error)
    ensures r.projectStats == ProjectStats(r.projects, r.activities)
    ensures r.employeeStats == EmployeeStats(r.employees, r.activities)
  {
    var es, ps, acts := OrEmpty(employees.data), OrEmpty(projects.data), OrEmpty(activities.data);
    AppData(es, ps, acts,
            employees.isLoading || projects.isLoading || activities.isLoading,
            CombinedError(employees.error, projects.error, activities.error),
            ProjectStats(ps, acts), EmployeeStats(es, acts))
  }

  /** Before any list has arrived there are no statistics. */
  lemma NothingArrivedNoStats<E>(employees: Fetched<Employee, E>, projects: Fetched<Project, E>, activities: Fetched<Activity, E>)
    requires projects.data.None? && employees.data.None?
    ensures UseAppData(employees, projects, activities).projectStats == []
    ensures UseAppData(employees, projects, activities).employeeStats == []
  {
  }

  /**
   * Both statistics of a project come from the same filter: it has no
   * activities exactly when no activity names it, and then 0 hours.
   */
  lemma ActivityCountZero(projects: seq<Project>, activities: seq<Activity>, i: int)
    requires 0 <= i < |projects|
    ensures ProjectStats(projects, activities)[i].activityCount == 0
        <==> forall k :: 0 <= k < |activities| ==> activities[k].proyecto_id != projects[i].id
    ensures ProjectStats(projects, activities)[i].activityCount == 0
        ==> ProjectStats(projects, activities)[i].totalHours == 0.0
  {
    var id := projects[i].id;
    var own := ProjectActivities(activities, id);
    if own == [] {
      forall k | 0 <= k < |activities|
        ensures activities[k].proyecto_id != id
      {
        FilterKeyMembers(activities, ProjectIdOf, id, activities[k]);
      }
    } else {
      assert own[0] in own;
      FilterKeyMembers(activities, ProjectIdOf, id, own[0]);
    }
  }

  /** The total hours of a project statistic are the bar of the hours chart for that project. */
  lemma ProjectStatMatchesHoursChart(projects: seq<Project>, activities: seq<Activity>, i: int)
    requires 0 <= i < |projects|
    ensures ProjectStats(projects, activities)[i].totalHours
         == GetProjectHoursData(projects, activities)[i].value
  {
    var own := ProjectActivities(activities, projects[i].id);
    ReduceScale(own, HoursOf, MinutesOf, 1.0 / 60.0);
  }

  /** The projects an employee counts are exactly the projects of the employee's activities. */
  lemma ProjectCountIsDistinctProjects(activities: seq<Activity>, employeeId: int, p: int)
    ensures p in ElementSet(ProjectIdsOf(activities, employeeId))
        <==> exists k :: 0 <= k < |activities| && activities[k].empleado_id == employeeId
                      && activities[k].proyecto_id == p
  {
    var own := EmployeeActivities(activities, employeeId);
    var ids := ProjectIdsOf(activities, employeeId);
    if p in ElementSet(ids) {
      var j :| 0 <= j < |ids| && ids[j] == p;
      assert own[j] in own;
      FilterKeyMembers(activities, EmployeeIdOf, employeeId, own[j]);
      var k :| 0 <= k < |activities| && activities[k] == own[j];
      assert activities[k].proyecto_id == p;
    }
    if exists k :: 0 <= k < |activities| && activities[k].empleado_id == employeeId
                && activities[k].proyecto_id == p {
      var k :| 0 <= k < |activities| && activities[k].empleado_id == employeeId
            && activities[k].proyecto_id == p;
      FilterKeyMembers(activities, EmployeeIdOf, employeeId, activities[k]);
      var j :| 0 <= j < |own| && own[j] == activities[k];
      assert ids[j] == p;
    }
  }

  /**
   * An employee works on at most as many projects as they have activities, and
   * on none exactly when no activity is theirs.
   */
  lemma ProjectCountBounds(employees: seq<Employee>, activities: seq<Activity>, i: int)
    requires 0 <= i < |employees|
    ensures EmployeeStats(employees, activities)[i].projectCount
         <= |EmployeeActivities(activities, employees[i].id)|
    ensures EmployeeStats(employees, activities)[i].projectCount == 0
        <==> forall k :: 0 <= k < |activities| ==> activities[k].empleado_id != employees[i].id
  {
    var id := employees[i].id;
    var own := EmployeeActivities(activities, id);
    SetSizeBounds(ProjectIdsOf(activities, id));
    if own == [] {
      forall k | 0 <= k < |activities|
        ensures activities[k].empleado_id != id
      {
        FilterKeyMembers(activities, EmployeeIdOf, id, activities[k]);
      }
    } else {
      assert own[0] in own;
      FilterKeyMembers(activities, EmployeeIdOf, id, own[0]);
    }
  }

  /** An employee's total hours are the total of their row in the workload table. */
  lemma EmployeeStatMatchesWorkload(employees: seq<Employee>, activities: seq<Activity>, i: int)
    requires 0 <= i < |employees|
    ensures EmployeeStats(employees, activities)[i].totalHours
         == GetEmployeeWorkloadData(employees, activities).data[i].total
  {
  }
}
