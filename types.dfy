/**
 * The three record types the dashboard fetches (types/index.ts).
 * Money and hourly rates are exact reals, minutes and identifiers integers,
 * calendar dates (year, month, day) in the proleptic Gregorian calendar.
 */
module Types {
  import opened Wrappers

  /** A calendar date as its three fields; the month runs 1..12 when the date is valid,
      and out-of-range months and days are carried over as ECMAScript's MakeDay does. */
  datatype Date = Date(year: int, month: int, day: int)

  datatype Employee = Employee(
    id: int,
    nombre: string,
    correo_electronico: string,
    equipo: string,
    costo_por_hora: real)

  datatype Project = Project(
    id: int,
    nombre: string,
    compania: string,
    presupuesto: real,
    fecha_inicio: Date,
    fecha_fin: Date)

  /** `empleado_nombre` and `proyecto_nombre` are optional joined names. */
  datatype Activity = Activity(
    id: int,
    descripcion: string,
    tipo: string,
    minutos: int,
    empleado_id: int,
    proyecto_id: int,
    fecha: Date,
    empleado_nombre: Option<string>,
    proyecto_nombre: Option<string>)

  // Accessors passed as callbacks to the array built-ins.

  function ProjectIdOf(a: Activity): int { a.proyecto_id }

  function EmployeeIdOf(a: Activity): int { a.empleado_id }

  function IdOfProject(p: Project): int { p.id }

  /** `activity.minutos` as a number. */
  function MinutesOf(a: Activity): real { a.minutos as real }

  /** `activity.minutos / 60`. */
  function HoursOf(a: Activity): real { a.minutos as real / 60.0 }
}
