/**
 * The two computed cells of the activities table
 * (components/data-table/Activities-columns.tsx): minutes shown as hours and
 * minutes, and a name with the id as fallback.
 */
module ActivitiesColumns {
  import opened Wrappers
  import opened Types
  import opened JsText

  // ---------------------------------------------------------------------------
  // the minutos cell

  /** `Math.floor(minutes / 60)`. */
  function Hours(minutes: int): (h: int)
    ensures 60 * h <= minutes < 60 * h + 60
  {
    minutes / 60
  }

  /** `minutes % 60` in ECMAScript: the remainder of the division truncated toward zero. */
  function RemainingMinutes(minutes: int): (r: int)
    ensures minutes >= 0 ==> 0 <= r < 60
    ensures minutes <= 0 ==> -60 < r <= 0
    ensures (minutes - r) % 60 == 0
  {
    if minutes >= 0 then minutes % 60 else -((-minutes) % 60)
  }

  /** `parseInt(row.getValue("minutos"))`: the integer is printed and read back unchanged. */
  function ParsedMinutes(minutos: int): (m: int)
    ensures m == minutos
  {
    ParseIntOfIntToString(minutos);
    ParseInt(IntToString(minutos)).value
  }

  /** A number followed by its unit letter: `${n}h` or `${n}m`. */
  function Quantity(n: int, unit: char): string {
    IntToString(n) + [unit]
  }

  /** The text of the cell for a number of minutes: `${hours}h ` when positive, then `${remainingMinutes}m`. */
  function MinutesText(minutes: int): string {
    var hours := Hours(minutes);
    var remainingMinutes := RemainingMinutes(minutes);
    if hours > 0 then Quantity(hours, 'h') + [' '] + Quantity(remainingMinutes, 'm')
    else Quantity(remainingMinutes, 'm')
  }

  /** The `minutos` cell: the value is read with `parseInt` and formatted. */
  function MinutesCell(minutos: int): string {
    MinutesText(ParsedMinutes(minutos))
  }

  /** Reading the value back with `parseInt` changes nothing, so the cell is the text of the value. */
  lemma MinutesCellIsText(minutos: int)
    ensures MinutesCell(minutos) == MinutesText(minutos)
  {
  }

  /** For a non-negative count the hours and the remaining minutes split it exactly. */
  lemma MinutesSplit(m: int)
    requires m >= 0
    ensures Hours(m) == m / 60 && RemainingMinutes(m) == m % 60
    ensures Hours(m) * 60 + RemainingMinutes(m) == m
    ensures 0 <= RemainingMinutes(m) < 60
  {
  }

  /**
   * At least an hour prints hours, a blank and the remaining minutes; less than
   * an hour prints the minutes alone; a negative count prints only the signed
   * remainder of the truncating division.
   */
  lemma MinutesTextShape(m: int)
    ensures m >= 60 ==> MinutesText(m) == Quantity(m / 60, 'h') + [' '] + Quantity(m % 60, 'm')
    ensures 0 <= m < 60 ==> MinutesText(m) == Quantity(m, 'm')
    ensures m < 0 ==> MinutesText(m) == Quantity(-((-m) % 60), 'm')
  {
    if m >= 60 {
      assert Hours(m) == m / 60 >= 1 && RemainingMinutes(m) == m % 60;
    } else if m >= 0 {
      assert Hours(m) == 0 && RemainingMinutes(m) == m;
    } else {
      assert Hours(m) < 0;
    }
  }

  /** A numeral has no letter and no blank. */
  lemma QuantityLacks(n: int, unit: char, c: char)
    requires c != '-' && !IsDecimalDigit(c) && c != unit
    ensures Lacks(Quantity(n, unit), c)
  {
    var ds := NatToDecimal(if n < 0 then -n else n);
    assert forall i :: 0 <= i < |ds| ==> IsDecimalDigit(ds[i]);
  }

  /** The cell mentions hours exactly when there is at least one full hour. */
  lemma HoursShownIff(m: int)
    ensures 'h' in MinutesText(m) <==> m >= 60
  {
    var hours, rem := Hours(m), RemainingMinutes(m);
    var tail := Quantity(rem, 'm');
    QuantityLacks(rem, 'm', 'h');
    if hours > 0 {
      var head := Quantity(hours, 'h');
      assert MinutesText(m)[|head| - 1] == 'h';
      assert 60 * hours <= m;
    } else {
      assert MinutesText(m) == tail;
    }
  }

  lemma ExampleTwoHours()
    ensures MinutesText(120) == "2h 0m"
  {
    assert MinutesText(120) == Quantity(2, 'h') + [' '] + Quantity(0, 'm') by {
      MinutesTextShape(120);
    }
    assert Quantity(2, 'h') == "2h" && Quantity(0, 'm') == "0m";
  }

  lemma ExampleNoMinutes()
    ensures MinutesText(0) == "0m"
  {
    assert MinutesText(0) == Quantity(0, 'm') by {
      MinutesTextShape(0);
    }
  }

  lemma ExampleOneHourOneMinute()
    ensures MinutesText(61) == "1h 1m"
  {
    assert MinutesText(61) == Quantity(1, 'h') + [' '] + Quantity(1, 'm') by {
      MinutesTextShape(61);
    }
    assert Quantity(1, 'h') == "1h" && Quantity(1, 'm') == "1m";
  }

  /** `Math.floor(-1.5)` is -2, which is not positive, and `-90 % 60` is -30. */
  lemma ExampleNegative()
    ensures MinutesText(-90) == "-30m"
  {
    assert MinutesText(-90) == Quantity(-30, 'm') by {
      MinutesTextShape(-90);
    }
    assert Quantity(-30, 'm') == "-30m" by {
      assert NatToDecimal(30) == NatToDecimal(3) + [DigitChar(0)];
    }
  }

  /**
   * Reading a cell back: `parseInt` of the part before the blank is the hours and
   * of the part after it the minutes.
   */
  function ReadMinutesText(s: string): Option<int> {
    ReadParts(Split(s, ' '), ParseInt)
  }

  /** One part is minutes; two parts are hours and minutes; `read` reads a number. */
  function ReadParts(parts: seq<string>, read: string -> Option<int>): Option<int> {
    if |parts| == 2 then HoursAndMinutes(read(parts[0]), read(parts[1]))
    else if |parts| == 1 then read(parts[0])
    else None
  }

  function HoursAndMinutes(hours: Option<int>, minutes: Option<int>): Option<int> {
    if hours.Some? && minutes.Some? then Some(hours.value * 60 + minutes.value) else None
  }

  /** A numeral followed by a unit letter is read as the number. */
  lemma ParseQuantity(n: int, unit: char)
    requires !IsDecimalDigit(unit) && unit != 'x' && unit != 'X'
    ensures ParseInt(Quantity(n, unit)) == Some(n)
  {
    ParseIntOfIntToStringThen(n, [unit]);
  }

  /** The cell of a non-negative number of minutes determines the number. */
  lemma MinutesTextRoundTrip(m: int)
    requires m >= 0
    ensures ReadMinutesText(MinutesText(m)) == Some(m)
  {
    if m >= 60 {
      var h, r := m / 60, m % 60;
      assert h * 60 + r == m;
      assert MinutesText(m) == Quantity(h, 'h') + [' '] + Quantity(r, 'm') by { MinutesTextShape(m); }
      ReadHoursAndMinutes(h, r, m);
    } else {
      assert MinutesText(m) == Quantity(m, 'm') by { MinutesTextShape(m); }
      ReadMinutesOnly(m);
    }
  }

  lemma ReadMinutesOnly(r: nat)
    ensures ReadMinutesText(Quantity(r, 'm')) == Some(r)
  {
    var b := Quantity(r, 'm');
    assert Split(b, ' ') == [b] by {
      QuantityLacks(r, 'm', ' ');
      SplitWithout(b, ' ');
    }
    assert ParseInt(b) == Some(r) by { ParseQuantity(r, 'm'); }
  }

  lemma ReadHoursAndMinutes(h: nat, r: nat, m: int)
    requires m == h * 60 + r
    ensures ReadMinutesText(Quantity(h, 'h') + [' '] + Quantity(r, 'm')) == Some(m)
  {
    var a, b := Quantity(h, 'h'), Quantity(r, 'm');
    assert Split(a + [' '] + b, ' ') == [a, b] by {
      QuantityLacks(h, 'h', ' ');
      QuantityLacks(r, 'm', ' ');
      SplitWithout(b, ' ');
      SplitAt(a, b, ' ');
    }
    assert ParseInt(a) == Some(h) by { ParseQuantity(h, 'h'); }
    assert ParseInt(b) == Some(r) by { ParseQuantity(r, 'm'); }
    assert ReadMinutesText(a + [' '] + b) == ReadParts([a, b], ParseInt);
    assert ReadParts([a, b], ParseInt) == HoursAndMinutes(ParseInt(a), ParseInt(b)) by { ReadTwo(a, b, ParseInt); }
    HoursAndMinutesOf(h, r, m);
  }

  lemma HoursAndMinutesOf(h: int, r: int, m: int)
    requires m == h * 60 + r
    ensures HoursAndMinutes(Some(h), Some(r)) == Some(m)
  {
  }

  lemma ReadTwo(a: string, b: string, read: string -> Option<int>)
    ensures ReadParts([a, b], read) == HoursAndMinutes(read(a), read(b))
  {
  }

  // ---------------------------------------------------------------------------
  // the name cells

  /** `name || `ID: ${id}``: an absent or empty name falls back to the id. */
  function NameCell(name: Option<string>, id: int): (s: string)
    ensures name.Some? && name.value != [] ==> s == name.value
    ensures name.None? || name.value == [] ==> s == "ID: " + IntToString(id)
  {
    if name.Some? && name.value != [] then name.value else "ID: " + IntToString(id)
  }

  /** The fallback text names the id: `parseInt` of what follows `ID: ` gives it back. */
  lemma FallbackShowsId(id: int)
    ensures NameCell(None, id)[..4] == "ID: "
    ensures ParseInt(NameCell(None, id)[4..]) == Some(id)
  {
    assert NameCell(None, id)[4..] == IntToString(id);
    ParseIntOfIntToString(id);
  }

  /** A name cell is never blank. */
  lemma NameCellNonEmpty(name: Option<string>, id: int)
    ensures |NameCell(name, id)| > 0
  {
  }

  /** The employee column: `empleado_nombre`, or `ID: ` and `empleado_id`. */
  function EmployeeCell(a: Activity): (s: string)
    ensures a.empleado_nombre.Some? && a.empleado_nombre.value != [] ==> s == a.empleado_nombre.value
    ensures a.empleado_nombre.None? || a.empleado_nombre.value == [] ==> s == "ID: " + IntToString(a.empleado_id)
  {
    NameCell(a.empleado_nombre, a.empleado_id)
  }

  /** The project column: `proyecto_nombre`, or `ID: ` and `proyecto_id`. */
  function ProjectCell(a: Activity): (s: string)
    ensures a.proyecto_nombre.Some? && a.proyecto_nombre.value != [] ==> s == a.proyecto_nombre.value
    ensures a.proyecto_nombre.None? || a.proyecto_nombre.value == [] ==> s == "ID: " + IntToString(a.proyecto_id)
  {
    NameCell(a.proyecto_nombre, a.proyecto_id)
  }
}
