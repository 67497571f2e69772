/**
 * Week labels of dates around the turn of the year, worked out from the
 * definition of `getWeekNumber`.
 */
module WeekExamples {
  import opened Types
  import opened JsText
  import opened Calendar
  import opened ChartData

  /** Friday 1 January 2021 belongs to the last week of 2020. */
  lemma LabelOfFirstJanuary2021()
    ensures GetWeekNumber(Date(2021, 1, 1)) == "Semana 53"
  {
    DayNumberOfFirstJanuary2021();
    assert WeekNumberOfDay(737790) == 53 by {
      WeekNumberFromYear(737790, 737789, 2020);
    }
    LabelText53();
  }

  lemma DayNumberOfFirstJanuary2021()
    ensures DayNumber(Date(2021, 1, 1)) == 737790
  {
  }

  /** Monday 30 December 2024 starts week 1 of 2025. */
  lemma LabelOfThirtiethDecember2024()
    ensures GetWeekNumber(Date(2024, 12, 30)) == "Semana 1"
  {
    DayNumberOfThirtiethDecember2024();
    assert WeekNumberOfDay(739249) == 1 by {
      WeekNumberFromYear(739249, 739252, 2025);
    }
    LabelText1();
  }

  lemma DayNumberOfThirtiethDecember2024()
    ensures DayNumber(Date(2024, 12, 30)) == 739249
  {
  }

  /** Friday 2 February 2024 is in week 5. */
  lemma LabelOfSecondFebruary2024()
    ensures GetWeekNumber(Date(2024, 2, 2)) == "Semana 5"
  {
    DayNumberOfSecondFebruary2024();
    assert WeekNumberOfDay(738917) == 5 by {
      WeekNumberFromYear(738917, 738916, 2024);
    }
    LabelText5();
  }

  lemma DayNumberOfSecondFebruary2024()
    ensures DayNumber(Date(2024, 2, 2)) == 738917
  {
    assert MonthStart(2024, 2) == 738916 by {
      assert (2 - 1) / 12 == 0 && (2 - 1) % 12 + 1 == 2;
      assert JanFirst(2024) == 738885;
      assert DaysBeforeMonth(2024, 2) == 31;
    }
  }

  /**
   * Saturday 5 March of the year 50: the code as written counts from 1 January
   * 1950 and reaches week -99128, where the Thursday's own year gives week 9.
   */
  lemma WeekOfFifthMarch50()
    ensures WeekNumberAsWritten(DayNumber(Date(50, 3, 5))) == -99128
    ensures WeekNumberOfDay(DayNumber(Date(50, 3, 5))) == 9
  {
    DayNumberOfFifthMarch50();
    assert ThursdayOf(17960) == 17958;
    assert YearOfDay(17958) == 50 by {
      assert JanFirst(50) == 17897 && JanFirst(51) == 18262;
      YearOfDayUnique(17958, 50);
    }
    assert JanFirst(1950) == 711857;
    WeekNumberFromYear(17960, 17958, 50);
  }

  lemma DayNumberOfFifthMarch50()
    ensures DayNumber(Date(50, 3, 5)) == 17960
  {
    assert MonthStart(50, 3) == 17956 by {
      assert (3 - 1) / 12 == 0 && (3 - 1) % 12 + 1 == 3;
      assert JanFirst(50) == 17897;
      assert DaysBeforeMonth(50, 3) == 59;
    }
  }

  lemma LabelText53()
    ensures WeekLabel(53) == "Semana 53"
  {
    assert IntToString(53) == "53";
  }

  lemma LabelText1()
    ensures WeekLabel(1) == "Semana 1"
  {
    assert IntToString(1) == "1";
  }

  lemma LabelText5()
    ensures WeekLabel(5) == "Semana 5"
  {
    assert IntToString(5) == "5";
  }
}
