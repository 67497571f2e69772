# Time-tracking dashboard: reporting core in Dafny

This project models the client-side computations of a time-tracking dashboard.
Employees record activities: minutes spent on a project on a date. The dashboard
derives several things from these records:

- the cost, profitability and hours charts per project;
- the weekly workload table per employee, with ISO-style week labels `Semana n`;
- the merged loading and error state of the three data fetches, with per-project
  and per-employee statistics;
- the texts of the computed cells of the activities table;
- the form validators shared by the dialogs.

Everything is pure, so it is modelled as datatypes, functions and lemmas. The
modules follow the program's structure:

| module | models |
|---|---|
| `Wrappers` | `Option` |
| `Types` | the entity records (`types/index.ts`) and their field accessors |
| `JsArray` | the array built-ins used: `map`, `filter`, `reduce`, `new Set`, numeric `sort` |
| `JsText` | `parseInt` (ECMA-262 section 19.2.5), `parseFloat` (section 19.2.4), integer-to-string, `split(' ')`, white space |
| `Calendar` | proleptic Gregorian day numbers and `getDay`/`getFullYear` |
| `ChartData` | `utils/chart-data.ts` |
| `WeekExamples` | concrete week labels |
| `ApiData` | `useAppDataSWR` in `hooks/useApiData.ts` |
| `ActivitiesColumns` | the minutes and name cells of `components/data-table/Activities-columns.tsx` |
| `FieldFactory` | `createField` and the validators of `hooks/form-validation/fieldFactory.ts` |

Amounts are exact reals. A date is a day number with day 0 = 1 January of year 1,
which is a Monday. The three fetches of the data hook are inputs: for each, any
data received, its loading flag and its error. Callbacks that the source writes
inline are named functions here (`ProjectIdOf`, `HoursOf`, `CostOf`, ...).

Every listed week is written into every employee row, with 0 hours when the
employee has none (`ChartData.IdleWeekIsZero`).

## Model

| member | source | states |
|---|---|---|
| JsArray.Map | utils/chart-data.ts:31-37 | `map` keeps the length and applies the callback at every index |
| JsArray.Reduce | utils/chart-data.ts:16-20 | `reduce((acc, x) => acc + f(x), acc)`, a left fold adding each weight; its properties are `ReduceAppend`, `ReduceFrom`, `ReduceCons`, `ReduceNonnegative`, `ReduceZero` and `ReduceScale` |
| JsArray.ReduceAppend | utils/chart-data.ts:16-20 | a sum fold from 0 distributes over concatenation |
| JsArray.ReduceFrom | utils/chart-data.ts:16-20 | the initial accumulator is only added on |
| JsArray.ReduceCons | utils/chart-data.ts:16-20 | a fold from 0 is the first weight plus the fold of the rest |
| JsArray.ReduceNonnegative | utils/chart-data.ts:16-20 | non-negative weights give a non-negative total |
| JsArray.ReduceZero | utils/chart-data.ts:16-20 | zero weights give zero |
| JsArray.ReduceScale | hooks/useApiData.ts:66-68 | scaling every weight by c scales the total by c (summing minutes/60 equals summing minutes, then dividing by 60) |
| JsArray.FilterKey | utils/chart-data.ts:34 | `filter` by key equality keeps only elements with that key and never grows |
| JsArray.FilterKeyAppend | utils/chart-data.ts:34 | filtering distributes over concatenation, so it keeps the order |
| JsArray.FilterKeyMembers | utils/chart-data.ts:34 | an element survives exactly when it is in the input and has the key |
| JsArray.FilterKeyNone | utils/chart-data.ts:34 | when no element has the key the result is empty |
| JsArray.OccurrencesOnce | utils/chart-data.ts:31-37 | a key listed once among distinct keys counts once |
| JsArray.OccurrencesAbsent | utils/chart-data.ts:31-37 | an unlisted key counts nothing |
| JsArray.GroupTotals | utils/chart-data.ts:31-37 | the sum of the per-key folds over a list of keys, the reference for the per-project bars; see `GroupTotalsCons`, `GroupTotalsPartition` and `GroupTotalsEmpty` |
| JsArray.GroupTotalsCons | utils/chart-data.ts:31-37 | the first element adds its weight once for every key equal to its own |
| JsArray.GroupTotalsPartition | utils/chart-data.ts:31-37 | with distinct keys covering every element, the group totals add up to the whole fold |
| JsArray.GroupTotalsEmpty | utils/chart-data.ts:31-37 | no elements, no totals |
| JsArray.SetSizeBounds | hooks/useApiData.ts:77-79 | `new Set(xs).size` is at most the length, and 0 exactly for the empty list |
| JsArray.Dedup | utils/chart-data.ts:98 | `[...new Set(xs)]` is duplicate-free with exactly the elements of xs |
| JsArray.DedupLength | utils/chart-data.ts:98 | the spread has as many elements as the Set's size |
| JsArray.DistinctCardinality | utils/chart-data.ts:98 | a duplicate-free list has as many elements as its set |
| JsArray.Insert | utils/chart-data.ts:98-102 | inserting adds exactly one copy of the element (multiset) |
| JsArray.InsertSorted | utils/chart-data.ts:98-102 | insertion keeps a key-sorted list sorted |
| JsArray.InsertDistinct | utils/chart-data.ts:98-102 | inserting a new element keeps a list duplicate-free |
| JsArray.SortByKey | utils/chart-data.ts:98-102 | the sort by a numeric key is a permutation |
| JsArray.SortByKeySorted | utils/chart-data.ts:98-102 | the sort result is ordered by the key and stays duplicate-free |
| JsArray.StrictlySortedUnique | utils/chart-data.ts:98-102 | two strictly key-sorted lists with the same elements are equal, so any sort algorithm gives the same week list |
| JsArray.TailMembers | utils/chart-data.ts:98-102 | in a strictly sorted list the tail holds everything but the head |
| JsText.DigitOf | utils/chart-data.ts:99-100 | the digit value of a character is at most 36 |
| JsText.DigitChar | utils/chart-data.ts:87 | the printed digit character is a decimal digit with that value |
| JsText.NatToDecimal | utils/chart-data.ts:87 | the printed numeral is non-empty, all digits, with a leading 0 only for 0 |
| JsText.DecimalRoundTrip | utils/chart-data.ts:87 | the value of the printed numeral of n is n |
| JsText.TrimStart | hooks/form-validation/fieldFactory.ts:78 | parseInt's white-space skip removes a white-space prefix and stops at a non-white character |
| JsText.TrimStartAfterWhiteSpace | hooks/form-validation/fieldFactory.ts:78 | skipping white space before a non-white character gives that rest |
| JsText.LeadingDigits | hooks/form-validation/fieldFactory.ts:78 | the longest digit prefix: all digits, and the next character is not one |
| JsText.LeadingDigitsOf | hooks/form-validation/fieldFactory.ts:78 | the digit prefix of digits followed by a non-digit is those digits |
| JsText.Split | utils/chart-data.ts:99-100 | `split(sep)` always yields at least one part |
| JsText.SplitWithout | utils/chart-data.ts:99-100 | a string without the separator splits into itself |
| JsText.SplitAt | utils/chart-data.ts:99-100 | a separator-free head, the separator, then the tail: the head followed by the parts of the tail |
| JsText.ParseInt | hooks/form-validation/fieldFactory.ts:78 | `parseInt(s)`: white space skipped, optional sign, `0x` switches to radix 16, the longest digit prefix, NaN without digits; see `ParseIntAfterWhiteSpace`, `ParseIntOfIntToString`, `ParseIntWithoutDigits` and `ParseIntPositive` |
| JsText.ParseIntAfterWhiteSpace | hooks/form-validation/fieldFactory.ts:78 | parseInt ignores leading white space |
| JsText.DecimalMagnitude10 | hooks/form-validation/fieldFactory.ts:78 | decimal digits followed by a non-digit (no `0x`) are read as their value |
| JsText.IntToString | utils/chart-data.ts:87 | an integer in a template literal; `IntToStringScan` gives its shape, `ParseIntOfIntToString` and `ParseIntOfIntToStringThen` read it back |
| JsText.ParseIntOfIntToString | components/data-table/Activities-columns.tsx:84 | parseInt of a printed integer is that integer |
| JsText.ParseIntOfIntToStringThen | components/data-table/Activities-columns.tsx:84 | the same with any non-digit tail, except `x` or `X` after `0` |
| JsText.IntToStringScan | components/data-table/Activities-columns.tsx:84 | a printed integer has no leading white space, starts with `-` exactly when negative, and has its magnitude after the sign |
| JsText.DecimalNumeralMagnitude | components/data-table/Activities-columns.tsx:84 | the magnitude numeral followed by a non-digit tail (not `x` or `X` after `0`) is read as the magnitude |
| JsText.NotWhiteSpace | components/data-table/Activities-columns.tsx:84 | a text starting with a digit or `-` is not changed by the white-space skip |
| JsText.ParseIntWithoutDigits | hooks/form-validation/fieldFactory.ts:78 | parseInt is NaN when no digit follows the white space and the optional sign |
| JsText.ParseIntPositive | hooks/form-validation/fieldFactory.ts:78 | a positive parseInt result needs no `-` and a digit right after the sign |
| JsText.Pow10 | hooks/form-validation/fieldFactory.ts:69 | a power of ten is at least 1 |
| JsText.ScaleByPow10 | hooks/form-validation/fieldFactory.ts:69 | applying an exponent keeps the sign of a magnitude, and exponent 0 changes nothing |
| JsText.FractionValue | hooks/form-validation/fieldFactory.ts:69 | the value of fraction digits is non-negative, and 0 for none |
| JsText.DecimalMagnitude | hooks/form-validation/fieldFactory.ts:69 | a decimal literal's magnitude is non-negative, exists when there are integer digits, and is positive when they have a positive value |
| JsText.DecimalMagnitudeOfDigits | hooks/form-validation/fieldFactory.ts:69 | a string of digits alone is read as its value |
| JsText.ParseFloat | hooks/form-validation/fieldFactory.ts:69 | `parseFloat(s)`: white space skipped, sign, `Infinity` or a decimal literal, NaN otherwise; see `ParseFloatOfNatural`, `ParseFloatWithoutDigits`, `ParseFloatOfDigits` and `ParseFloatNegative` |
| JsText.ParseFloatOfMagnitude | hooks/form-validation/fieldFactory.ts:69 | without a sign or `Infinity`, parseFloat gives the magnitude read |
| JsText.ParseFloatOfNatural | hooks/form-validation/fieldFactory.ts:69 | parseFloat of a non-negative integer numeral is its value |
| JsText.ParseFloatWithoutDigits | hooks/form-validation/fieldFactory.ts:69 | no digit, point or `Infinity` after the sign: parseFloat is NaN |
| JsText.ParseFloatOfDigits | hooks/form-validation/fieldFactory.ts:69 | a digit after an optional `+`: parseFloat is finite and at least 0 |
| JsText.ParseFloatNegative | hooks/form-validation/fieldFactory.ts:69 | a `-` and digits of positive value: parseFloat is negative |
| JsText.SignedWithoutDigits | hooks/form-validation/fieldFactory.ts:69 | the same NaN case on the text after the sign |
| JsText.SignedOfDigits | hooks/form-validation/fieldFactory.ts:69 | the same non-negative case on the text after the sign |
| JsText.NegativeDigits | hooks/form-validation/fieldFactory.ts:69 | the same negative case on the text after the sign |
| Calendar.YearLength | utils/chart-data.ts:85 | a year has 366 days when it is a leap year and otherwise 365 |
| Calendar.YearSearch | utils/chart-data.ts:85 | the search finds the year whose 1 January to next 1 January holds the day |
| Calendar.YearOfDay | utils/chart-data.ts:85 | `getFullYear`: the year that contains the day |
| Calendar.JanFirst | utils/chart-data.ts:85 | the day number of `new Date(y, 0, 1)` in the proleptic Gregorian calendar; see `JanFirstMonotonic`, `YearOfDayUnique` and `EpochIsThursday` |
| Calendar.JanFirstMonotonic | utils/chart-data.ts:85 | 1 January increases with the year |
| Calendar.YearOfDayUnique | utils/chart-data.ts:85 | only one year contains a day |
| Calendar.DayNumber | utils/chart-data.ts:82 | a date as a day number, months and days normalised as MakeDay does; see `DayNumberAddDays` and `DayNumberOfValidDate` |
| Calendar.DayNumberAddDays | utils/chart-data.ts:84 | adding k to the day of the month adds k days, with overflow carrying into later months as in `setDate` |
| Calendar.DayNumberOfValidDate | utils/chart-data.ts:82 | a valid date lies in its own year, at 1 January plus the days before its month plus its day minus 1 |
| Calendar.MonthFitsInYear | utils/chart-data.ts:82 | the days before a month plus its length fit in the year |
| Calendar.JsWeekday | utils/chart-data.ts:84 | `getDay` is in 0..6 |
| Calendar.EpochIsThursday | utils/chart-data.ts:84 | 1 January 1970 is day 719162 and a Thursday, as in ECMAScript |
| ChartData.FindEmployeeIndex | utils/chart-data.ts:17 | `find` returns the first employee with the id, and nothing when none has it |
| ChartData.CalculateProjectCost | utils/chart-data.ts:12-21 | the cost fold over activities; see `CostVanishes`, `CostOfOneActivity`, `CostAdditive`, `UnknownEmployeeAddsNothing` and `CostNonnegative` |
| ChartData.CostVanishes | utils/chart-data.ts:12-21 | no activities, or no employees, cost 0 |
| ChartData.CostOfOneActivity | utils/chart-data.ts:16-20 | one activity costs minutes/60 times the rate of the first matching employee, and 0 when no employee matches |
| ChartData.CostAdditive | utils/chart-data.ts:16-20 | the cost of a concatenation is the sum of the costs |
| ChartData.UnknownEmployeeAddsNothing | utils/chart-data.ts:18 | an activity of an unknown employee changes nothing, wherever it sits |
| ChartData.CostNonnegative | utils/chart-data.ts:12-21 | non-negative minutes and rates give a non-negative cost |
| ChartData.GetProjectCostsData | utils/chart-data.ts:26-38 | one point per project, in order, named by the project, valued at the cost of the project's activities |
| ChartData.GetProjectProfitabilityData | utils/chart-data.ts:43-60 | per project: its budget, its cost, and profitability equal to budget minus cost, unclamped |
| ChartData.GetProjectHoursData | utils/chart-data.ts:65-76 | per project: the sum of its activities' minutes divided by 60 |
| ChartData.ProjectWithoutActivities | utils/chart-data.ts:26-76 | a project with no activity has cost 0, profitability equal to its budget, and 0 hours |
| ChartData.CostChartsAgree | utils/chart-data.ts:49-51 | the cost chart and the profitability cost agree for every project |
| ChartData.CostsDataIsGroupTotals | utils/chart-data.ts:31-37 | the cost bars add up to the group totals over the project ids |
| ChartData.CostsDataTotal | utils/chart-data.ts:31-37 | when every activity refers to exactly one listed project, the cost bars add up to the total cost |
| ChartData.HoursDataIsGroupTotals | utils/chart-data.ts:69-75 | the hour bars add up to the group totals of minutes, over 60 |
| ChartData.HoursDataTotal | utils/chart-data.ts:69-75 | under the same cover condition, the hour bars add up to all minutes over 60 |
| ChartData.IsoWeekday | utils/chart-data.ts:84 | `getDay()` with 0 replaced by 7 is in 1..7 |
| ChartData.ThursdayOf | utils/chart-data.ts:84 | the adjusted date is a Thursday within 3 days of the date |
| ChartData.Ceil | utils/chart-data.ts:86 | `Math.ceil`: the least integer not below x |
| ChartData.WeekOfYearDay | utils/chart-data.ts:86 | `ceil((k + 1)/7)` for whole days k is `k / 7 + 1` |
| ChartData.WeekLabel | utils/chart-data.ts:87 | `Semana ${weekNo}`; `WeekKeyOfLabel` reads the number back |
| ChartData.GetWeekNumber | utils/chart-data.ts:81-88 | the label is `Semana w` for some w in 1..53, the ISO 8601 week; see `WeekNumberIsIso8601` and `SameWeekSameLabel` |
| ChartData.WeekNumberOfDay | utils/chart-data.ts:81-88 | the week number is in 1..53 |
| ChartData.WeekNumberOfThursday | utils/chart-data.ts:85-86 | counted from 1 January of the Thursday's year, the week is in 1..53 |
| ChartData.WeekNumberInDays | utils/chart-data.ts:84-86 | the week number is the number of whole weeks from 1 January to the Thursday, plus one |
| ChartData.SameWeekSameLabel | utils/chart-data.ts:81-88 | all seven days from a Monday share the Thursday and the label |
| ChartData.ThursdayWithinWeek | utils/chart-data.ts:84 | every day of a Monday-to-Sunday week maps to that week's Thursday |
| ChartData.NextWeekNextNumber | utils/chart-data.ts:81-88 | within one year, a week later has the next number |
| ChartData.ThursdayNextWeek | utils/chart-data.ts:84 | a week later, the Thursday is 7 days later |
| ChartData.WeeksShift | utils/chart-data.ts:86 | proof step of `NextWeekNextNumber`: adding 7 days adds one week |
| ChartData.WeekNumberIsIso8601 | utils/chart-data.ts:81-88 | week 1 is the week holding 4 January, and weeks count Monday to Monday from there (ISO 8601) |
| ChartData.FourthOfJanuaryWeek | utils/chart-data.ts:85-86 | counting from 1 January to the Thursday equals counting Mondays from the week of 4 January |
| ChartData.WeekKey | utils/chart-data.ts:99-101 | the sort key `parseInt(label.split(' ')[1])`, 0 for NaN; see `WeekKeyOfLabel` and `LabelsDifferInKey` |
| ChartData.WeekKeyOfLabel | utils/chart-data.ts:87-100 | the sort key `parseInt(label.split(' ')[1])` reads back the number of `Semana n` |
| ChartData.ConstructorYear | utils/chart-data.ts:85 | the Date constructor reads a year from 0 to 99 as 1900 plus it and keeps every other year |
| ChartData.WeekNumberAsWritten | utils/chart-data.ts:85-86 | the week count as written, from `new Date(year, 0, 1)` with the constructor's year mapping; see `AsWrittenAgrees`, `AsWrittenEarlyYears` and `WeekExamples.WeekOfFifthMarch50` |
| ChartData.AsWrittenAgrees | utils/chart-data.ts:85-86 | when the Thursday's year is outside 0..99, the week number as written equals the model's week number |
| ChartData.AsWrittenEarlyYears | utils/chart-data.ts:85-86 | when the Thursday's year is in 0..99, the week number as written is below 1 |
| ChartData.WeekNumberFromYear | utils/chart-data.ts:85-86 | given the year that holds the Thursday, the week number is the whole weeks since its 1 January, plus one |
| ChartData.WeeklyHours | utils/chart-data.ts:109-115 | the spread-reduce writes every listed week with its hours and keeps the other keys |
| ChartData.WorkloadOf | utils/chart-data.ts:105-123 | a row: the employee's name, exactly the listed weeks with that employee's hours in each, and the total of all that employee's hours |
| ChartData.WorkloadRows | utils/chart-data.ts:105 | one row per employee, in order |
| ChartData.GetEmployeeWorkloadData | utils/chart-data.ts:93-127 | the week list is the sorted unique labels, with one row per employee over those weeks |
| ChartData.ActivityLabel | utils/chart-data.ts:98 | every activity's label is `Semana n` with n in 1..53, and its key reads back n |
| ChartData.SortedLabels | utils/chart-data.ts:98-102 | sorting distinct labels by number orders them strictly and keeps the same labels |
| ChartData.LabelsDifferInKey | utils/chart-data.ts:99-101 | distinct labels have distinct sort keys |
| ChartData.ActivityLabels | utils/chart-data.ts:98 | every mapped label is a week label |
| ChartData.DedupLabels | utils/chart-data.ts:98 | deduplicating keeps only week labels |
| ChartData.MapMembers | utils/chart-data.ts:98 | a label is mapped exactly when some activity has it |
| ChartData.UniqueWeeks | utils/chart-data.ts:98-102 | the sorted unique week labels; see `UniqueWeeksProperties`, `UniqueWeeksOrderIndependent` and `UniqueWeeksMembers` |
| ChartData.UniqueWeeksProperties | utils/chart-data.ts:98-102 | the week list is duplicate-free, strictly ascending by week number, and exactly the labels of the activities |
| ChartData.UniqueWeeksOrderIndependent | utils/chart-data.ts:98-102 | reordering or repeating activities with the same labels gives the same week list |
| ChartData.UniqueWeeksMembers | utils/chart-data.ts:98-102 | the week list holds exactly the mapped labels |
| ChartData.WeekHours | utils/chart-data.ts:111-113 | the hours of one week's activities; see `IdleWeekIsZero`, `WeekValuesAreGroupTotals` and `TotalIsSumOfWeeks` |
| ChartData.IdleWeekIsZero | utils/chart-data.ts:109-115 | a listed week with none of the employee's activities is present in the row with 0 hours |
| ChartData.WeekValuesAreGroupTotals | utils/chart-data.ts:109-115 | summing a row's weekly values gives the group totals of hours by week |
| ChartData.TotalIsSumOfWeeks | utils/chart-data.ts:109-123 | an employee's total equals the sum of that employee's weekly values |
| WeekExamples.LabelOfFirstJanuary2021 | utils/chart-data.ts:81-88 | Friday 1 January 2021 is `Semana 53` |
| WeekExamples.DayNumberOfFirstJanuary2021 | utils/chart-data.ts:82 | its day number is 737790 |
| WeekExamples.LabelOfThirtiethDecember2024 | utils/chart-data.ts:81-88 | Monday 30 December 2024 is `Semana 1` |
| WeekExamples.DayNumberOfThirtiethDecember2024 | utils/chart-data.ts:82 | its day number is 739249 |
| WeekExamples.WeekOfFifthMarch50 | utils/chart-data.ts:81-86 | for 5 March of the year 50 the week number as written is -99128, where the Thursday's own year gives 9 |
| WeekExamples.DayNumberOfFifthMarch50 | utils/chart-data.ts:82 | its day number is 17960 |
| WeekExamples.LabelOfSecondFebruary2024 | utils/chart-data.ts:81-88 | Friday 2 February 2024 is `Semana 5` |
| WeekExamples.DayNumberOfSecondFebruary2024 | utils/chart-data.ts:82 | its day number is 738917 |
| WeekExamples.LabelText53 | utils/chart-data.ts:87 | proof step of the `LabelOf` examples: the label text of week 53 |
| WeekExamples.LabelText1 | utils/chart-data.ts:87 | proof step of the `LabelOf` examples: the label text of week 1 |
| WeekExamples.LabelText5 | utils/chart-data.ts:87 | proof step of the `LabelOf` examples: the label text of week 5 |
| ApiData.OrEmpty | hooks/useApiData.ts:21 | `data ?? []`, also at lines 30 and 39; `UseAppData` states the defaults |
| ApiData.OrError | hooks/useApiData.ts:52 | the or of two errors, an absent error being falsy; see `CombinedError` and `OrErrorAssociative` |
| ApiData.CombinedError | hooks/useApiData.ts:52 | no error exactly when no fetch failed; otherwise the first error in the order employees, projects, activities |
| ApiData.OrErrorAssociative | hooks/useApiData.ts:52 | the or of errors groups either way |
| ApiData.ProjectStats | hooks/useApiData.ts:64-70 | one entry per project, in order: the project, the hours of its activities, and its activity count |
| ApiData.EmployeeStats | hooks/useApiData.ts:72-80 | one entry per employee, in order: the employee, the hours of their activities, and the number of distinct projects among them |
| ApiData.UseAppData | hooks/useApiData.ts:46-92 | lists default to empty until data arrives; loading when any fetch loads; the combined error; the statistics from the defaulted lists |
| ApiData.NothingArrivedNoStats | hooks/useApiData.ts:64-80 | before the projects and the employees arrive there are no statistics |
| ApiData.ActivityCountZero | hooks/useApiData.ts:64-70 | a project's count is 0 exactly when no activity names it, and then its hours are 0 |
| ApiData.ProjectStatMatchesHoursChart | hooks/useApiData.ts:66-68 | a project's total hours equal its bar in the hours chart |
| ApiData.ProjectCountIsDistinctProjects | hooks/useApiData.ts:77-79 | a project is counted for an employee exactly when one of the employee's activities names it |
| ApiData.ProjectCountBounds | hooks/useApiData.ts:77-79 | the project count is at most the employee's activity count, and 0 exactly when the employee has no activity |
| ApiData.EmployeeStatMatchesWorkload | hooks/useApiData.ts:74-76 | an employee's total hours equal the total of their workload row |
| ActivitiesColumns.Hours | components/data-table/Activities-columns.tsx:85 | `Math.floor(minutes / 60)`: 60h is at most minutes, which is below 60h + 60 |
| ActivitiesColumns.RemainingMinutes | components/data-table/Activities-columns.tsx:86 | ECMAScript `%`: the result has the sign of the dividend, is below 60 in magnitude, and differs from it by a multiple of 60 |
| ActivitiesColumns.ParsedMinutes | components/data-table/Activities-columns.tsx:84 | parseInt of the stored integer gives the integer back |
| ActivitiesColumns.MinutesText | components/data-table/Activities-columns.tsx:85-89 | the `Hh Mm` text; see `MinutesTextShape`, `HoursShownIff`, `MinutesTextRoundTrip` and the `Example` lemmas |
| ActivitiesColumns.MinutesCell | components/data-table/Activities-columns.tsx:84-89 | the minutes cell; `MinutesCellIsText` shows it is the text of the stored minutes |
| ActivitiesColumns.MinutesCellIsText | components/data-table/Activities-columns.tsx:84-89 | the cell is the text of the stored minutes |
| ActivitiesColumns.MinutesSplit | components/data-table/Activities-columns.tsx:85-86 | for non-negative minutes, hours*60 + rest = minutes with the rest in 0..59 |
| ActivitiesColumns.MinutesTextShape | components/data-table/Activities-columns.tsx:85-89 | `Hh Mm` from an hour up, `Mm` below an hour, only the signed remainder for negative minutes |
| ActivitiesColumns.QuantityLacks | components/data-table/Activities-columns.tsx:89 | a number with its unit holds no other letter and no blank |
| ActivitiesColumns.HoursShownIff | components/data-table/Activities-columns.tsx:89 | the cell shows an `h` exactly when there are at least 60 minutes |
| ActivitiesColumns.ExampleTwoHours | components/data-table/Activities-columns.tsx:84-89 | 120 minutes show as `2h 0m` |
| ActivitiesColumns.ExampleNoMinutes | components/data-table/Activities-columns.tsx:84-89 | 0 minutes show as `0m` |
| ActivitiesColumns.ExampleOneHourOneMinute | components/data-table/Activities-columns.tsx:84-89 | 61 minutes show as `1h 1m` |
| ActivitiesColumns.ExampleNegative | components/data-table/Activities-columns.tsx:85-89 | -90 minutes show as `-30m` |
| ActivitiesColumns.ParseQuantity | components/data-table/Activities-columns.tsx:89 | parseInt of a number followed by its unit gives the number |
| ActivitiesColumns.MinutesTextRoundTrip | components/data-table/Activities-columns.tsx:84-89 | the cell text of non-negative minutes determines them: reading hours and minutes back gives the count |
| ActivitiesColumns.ReadMinutesOnly | components/data-table/Activities-columns.tsx:89 | a minutes-only cell reads back as the minutes |
| ActivitiesColumns.ReadHoursAndMinutes | components/data-table/Activities-columns.tsx:89 | an hours-and-minutes cell reads back as hours*60 + minutes |
| ActivitiesColumns.HoursAndMinutesOf | components/data-table/Activities-columns.tsx:89 | proof step of `MinutesTextRoundTrip`: combining read hours and minutes gives hours*60 + minutes |
| ActivitiesColumns.ReadTwo | components/data-table/Activities-columns.tsx:89 | proof step of `ReadHoursAndMinutes`: two parts are read as hours and minutes |
| ActivitiesColumns.NameCell | components/data-table/Activities-columns.tsx:100 | a non-empty name is shown; an absent or empty name falls back to `ID: ` and the id |
| ActivitiesColumns.FallbackShowsId | components/data-table/Activities-columns.tsx:100 | the fallback starts with `ID: ` and parseInt of the rest is the id |
| ActivitiesColumns.NameCellNonEmpty | components/data-table/Activities-columns.tsx:99-110 | a name cell is never blank |
| ActivitiesColumns.EmployeeCell | components/data-table/Activities-columns.tsx:99-101 | `empleado_nombre` when non-empty, otherwise `ID: ` and `empleado_id` |
| ActivitiesColumns.ProjectCell | components/data-table/Activities-columns.tsx:108-110 | `proyecto_nombre` when non-empty, otherwise `ID: ` and `proyecto_id` |
| FieldFactory.CreateField | hooks/form-validation/fieldFactory.ts:36-41 | the field carries every configured property unchanged |
| FieldFactory.CreateFieldRoundTrip | hooks/form-validation/fieldFactory.ts:36-41 | every field comes from a configuration, and `createField` loses exactly the default label |
| FieldFactory.Validate | hooks/form-validation/fieldFactory.ts:57-80 | a rejection carries the validator's own message |
| FieldFactory.RequiredIff | hooks/form-validation/fieldFactory.ts:57 | `required` accepts exactly the non-empty strings, a blank included, and otherwise says `<field> es requerido` |
| FieldFactory.PositiveIntegerAcceptsNumeral | hooks/form-validation/fieldFactory.ts:77-80 | a positive numeral after white space, followed by nothing or by any non-digit (`5x` included), is accepted |
| FieldFactory.PositiveIntegerRejectsNonPositive | hooks/form-validation/fieldFactory.ts:77-80 | a numeral of 0 or below in that position is rejected with the message |
| FieldFactory.ReadsNumeral | hooks/form-validation/fieldFactory.ts:78 | parseInt reads a numeral after white space before a non-digit tail (not `x` or `X` after `0`) |
| FieldFactory.PositiveIntegerRejectsNonNumeric | hooks/form-validation/fieldFactory.ts:77-80 | no digit after the sign: rejected |
| FieldFactory.IntegerExampleTrailingLetters | hooks/form-validation/fieldFactory.ts:78 | `12abc` is accepted |
| FieldFactory.IntegerExampleTrailingX | hooks/form-validation/fieldFactory.ts:78 | `5x` is accepted |
| FieldFactory.IntegerExampleLeadingBlank | hooks/form-validation/fieldFactory.ts:78 | ` 7` is accepted |
| FieldFactory.IntegerExampleFraction | hooks/form-validation/fieldFactory.ts:78 | `1.9` is accepted and `0.9` rejected |
| FieldFactory.IntegerExampleHex | hooks/form-validation/fieldFactory.ts:78 | `0x1A` is accepted, read in radix 16 |
| FieldFactory.IntegerExampleEmpty | hooks/form-validation/fieldFactory.ts:78 | the empty string is rejected |
| FieldFactory.IntegerExampleLetters | hooks/form-validation/fieldFactory.ts:78 | `abc` is rejected |
| FieldFactory.IntegerExampleZero | hooks/form-validation/fieldFactory.ts:78 | `0` is rejected |
| FieldFactory.IntegerExampleNegative | hooks/form-validation/fieldFactory.ts:78 | `-3` is rejected |
| FieldFactory.PositiveNumberAcceptsNatural | hooks/form-validation/fieldFactory.ts:68-71 | every non-negative integer numeral is accepted |
| FieldFactory.PositiveNumberAcceptsZero | hooks/form-validation/fieldFactory.ts:69 | `0` is accepted, the check being `>= 0` |
| FieldFactory.PositiveNumberRejectsNegative | hooks/form-validation/fieldFactory.ts:68-71 | a `-` and digits of positive value are rejected, whatever follows |
| FieldFactory.PositiveNumberRejectsNonNumeric | hooks/form-validation/fieldFactory.ts:68-71 | no digit, point or `Infinity` after the sign: rejected |
| FieldFactory.NumberExampleNegative | hooks/form-validation/fieldFactory.ts:69 | `-1` is rejected |
| FieldFactory.NumberExampleLetters | hooks/form-validation/fieldFactory.ts:69 | `abc` is rejected |
| FieldFactory.NumberExampleEmpty | hooks/form-validation/fieldFactory.ts:69 | the empty string is rejected |
| FieldFactory.PositiveIntegerImpliesPositiveNumber | hooks/form-validation/fieldFactory.ts:68-80 | whatever `positiveInteger` accepts, `positiveNumber` accepts too |
| FieldFactory.ZeroSeparatesValidators | hooks/form-validation/fieldFactory.ts:68-80 | `0` passes `positiveNumber` but not `positiveInteger`, so the converse fails |

`Calendar.DivStep`, `Calendar.DivExact` and `Calendar.MulAtLeast` are facts about
integer division used by the calendar proofs; they model no line of the source.

## Left out

- Rounding: `toFixed(2)` followed by `parseFloat` on every chart value is not modelled. All amounts are exact reals, so the chart lemmas hold before display rounding.
- Floating point: `minutos / 60`, `costo_por_hora` and the sums are exact reals, not IEEE doubles.
- parseFloat: literals are read exactly. Underflow and overflow of doubles are not modelled, so `-1e-400`, which ECMAScript reads as -0 and `positiveNumber` accepts, reads as negative here.
- ChartData.WeekNumberOfThursday: counts from 1 January of the Thursday's own year, also for the years 0 to 99, where `new Date(year, 0, 1)` reads the year as 1900 plus it; the code as written is `ChartData.WeekNumberAsWritten` (see Findings).
- Dates: an activity date is taken as its year, month and day fields, normalised like ECMAScript's MakeDay; `yearStart` goes through the constructor's year mapping only in `ChartData.WeekNumberAsWritten`. Parsing a date string, time zones, daylight saving time and invalid dates are not part of this model. `setHours(0, 0, 0, 0)` is the identity on a day number.
- Integer printing: `IntToString` covers magnitudes below 10^21, the range where ECMAScript prints integers without an exponent.
- ChartData.WeekKey: a NaN key (no `Semana` label produces one) reads as 0.
- Data fetching: `fetcher`, SWR caching and revalidation, and `refreshData` are not modelled. Each fetch result is an input. An error value is any SWR error object; a falsy non-`Error` value is not modelled.
- ActivitiesColumns.ParsedMinutes: `minutos` is an integer, so parseInt of a fractional stored value is not modelled.
- ActivitiesColumns: the JSX around the texts (class names, header buttons, sorting, the actions column) is presentation and is left out.
- FieldFactory.CreateField: at run time the spread also copies `defaultLabel` into the object. `Field` does not declare it, so the model drops it.
- FieldFactory: the `email` validator depends on zod's e-mail pattern and is not modelled. Transformation callbacks are opaque values that are only passed on. zod measures string length in UTF-16 code units; here it is measured in characters.
- The card components, dialogs and API routes are not part of this model.

## Findings

| source | as written | input that shows it | evidently intended | confidence | as-written member | corrected member |
|---|---|---|---|---|---|---|
| utils/chart-data.ts:85 | `new Date(d.getFullYear(), 0, 1)` reads a year from 0 to 99 as 1900 plus it, so the week is counted from 1 January of the wrong year | an activity dated 0050-03-05 gets week number -99128, shown as `Semana -99128` (`WeekExamples.WeekOfFifthMarch50`) | count from 1 January of the Thursday's own year, giving `Semana 9` | low: such dates are unlikely in practice; not executed | `ChartData.WeekNumberAsWritten`, with `ChartData.AsWrittenEarlyYears` and `ChartData.AsWrittenAgrees` | `ChartData.WeekNumberOfDay` |
