/**
 * Form field construction and the shared validators of
 * hooks/form-validation/fieldFactory.ts. A validator is applied to the text of
 * an input and either accepts it or yields its error message.
 */
module FieldFactory {
  import opened Wrappers
  import opened JsText

  /** `FieldType`. */
  datatype FieldType = TextField | EmailField | NumberField | DateField | SelectField

  /** The three validators whose predicate is written out in the factory. */
  datatype Validation =
    | Required(field: string)
    | PositiveNumber(field: string)
    | PositiveInteger(field: string)

  /** `SelectOption`; `caption` is the `label` property, `label` being a keyword here. */
  datatype SelectOption = SelectOption(caption: string, value: string)

  /** `FieldConfig`; `T` stands for the transformation callbacks, which the factory only passes on. */
  datatype FieldConfig<T> = FieldConfig(
    name: string,
    caption: string,
    fieldType: FieldType,
    validation: Validation,
    transform: Option<T>,
    defaultValue: Option<string>,
    options: Option<seq<SelectOption>>,
    defaultLabel: Option<string>)

  /** `Field`, the shape the dialogs read. */
  datatype Field<T> = Field(
    name: string,
    caption: string,
    fieldType: FieldType,
    validation: Validation,
    transform: Option<T>,
    defaultValue: Option<string>,
    options: Option<seq<SelectOption>>)

  /** `createField`: the configuration seen as a field. */
  function CreateField<T>(config: FieldConfig<T>): (f: Field<T>)
    ensures f.name == config.name && f.caption == config.caption
    ensures f.fieldType == config.fieldType && f.validation == config.validation
    ensures f.transform == config.transform && f.defaultValue == config.defaultValue
    ensures f.options == config.options
  {
    Field(config.name, config.caption, config.fieldType, config.validation,
          config.transform, config.defaultValue, config.options)
  }

  /** The configuration a field comes from when it has no default option label. */
  function ConfigOf<T>(f: Field<T>): FieldConfig<T> {
    FieldConfig(f.name, f.caption, f.fieldType, f.validation, f.transform, f.defaultValue, f.options, None)
  }

  /**
   * Every field is created from some configuration, and `createField` loses
   * nothing but the default option label.
   */
  lemma CreateFieldRoundTrip<T>(f: Field<T>, config: FieldConfig<T>)
    ensures CreateField(ConfigOf(f)) == f
    ensures ConfigOf(CreateField(config)) == config <==> config.defaultLabel.None?
  {
  }

  // ---------------------------------------------------------------------------
  // validators

  function RequiredMessage(field: string): string {
    field + " es requerido"
  }

  function PositiveMessage(field: string): string {
    field + " debe ser un número positivo"
  }

  /** `!isNaN(x) && x >= 0`. */
  predicate AtLeastZero(x: Number) {
    match x
    case NaN => false
    case Finite(v) => v >= 0.0
    case Infinity(negative) => !negative
  }

  /** `!isNaN(n) && n > 0` for the result of `parseInt`. */
  predicate AboveZero(n: Option<int>) {
    n.Some? && n.value > 0
  }

  /** The outcome of a validator on an input: None when it passes, else its message. */
  function Validate(v: Validation, s: string): (r: Option<string>)
    ensures r.Some? ==> r.value == (if v.Required? then RequiredMessage(v.field) else PositiveMessage(v.field))
  {
    match v
    case Required(field) => if |s| >= 1 then None else Some(RequiredMessage(field))
    case PositiveNumber(field) => if AtLeastZero(ParseFloat(s)) then None else Some(PositiveMessage(field))
    case PositiveInteger(field) => if AboveZero(ParseInt(s)) then None else Some(PositiveMessage(field))
  }

  /** `required` accepts exactly the non-empty strings, white space included. */
  lemma RequiredIff(field: string, s: string)
    ensures Validate(Required(field), s).None? <==> s != []
    ensures s == [] ==> Validate(Required(field), s) == Some(field + " es requerido")
    ensures Validate(Required(field), " ") == None
  {
  }

  // ---------------------------------------------------------------------------
  // positiveInteger

  /**
   * `positiveInteger` accepts a positive numeral after any white space and
   * before any text that does not continue it.
   */
  lemma PositiveIntegerAcceptsNumeral(field: string, w: string, n: int, t: string)
    requires AllWhiteSpace(w) && n > 0
    requires t == [] || !IsDecimalDigit(t[0])
    ensures Validate(PositiveInteger(field), w + IntToString(n) + t) == None
  {
    ReadsNumeral(w, n, t);
  }

  /** ...and rejects a numeral of zero or below in the same position. */
  lemma PositiveIntegerRejectsNonPositive(field: string, w: string, n: int, t: string)
    requires AllWhiteSpace(w) && n <= 0
    requires t == [] || (!IsDecimalDigit(t[0]) && (n == 0 ==> t[0] != 'x' && t[0] != 'X'))
    ensures Validate(PositiveInteger(field), w + IntToString(n) + t) == Some(PositiveMessage(field))
  {
    ReadsNumeral(w, n, t);
  }

  /** White space, a numeral and a tail that does not continue it: parseInt reads the numeral. */
  lemma ReadsNumeral(w: string, n: int, t: string)
    requires AllWhiteSpace(w)
    requires t == [] || (!IsDecimalDigit(t[0]) && (n == 0 ==> t[0] != 'x' && t[0] != 'X'))
    ensures ParseInt(w + IntToString(n) + t) == Some(n)
  {
    var u := IntToString(n) + t;
    assert w + IntToString(n) + t == w + u;
    IntToStringScan(n, t);
    ParseIntAfterWhiteSpace(w, u);
    ParseIntOfIntToStringThen(n, t);
  }

  /** Without a digit after the optional sign, parseInt is NaN and the input is rejected. */
  lemma PositiveIntegerRejectsNonNumeric(field: string, s: string)
    requires DropSign(TrimStart(s)) == [] || !IsDecimalDigit(DropSign(TrimStart(s))[0])
    ensures Validate(PositiveInteger(field), s) == Some(PositiveMessage(field))
  {
    ParseIntWithoutDigits(s);
  }

  lemma IntegerExampleTrailingLetters(field: string)
    ensures Validate(PositiveInteger(field), "12abc") == None
  {
    assert IntToString(12) == "12";
    assert "12abc" == [] + IntToString(12) + "abc";
    PositiveIntegerAcceptsNumeral(field, [], 12, "abc");
  }

  /** `5x` is accepted: only after `0` does an `x` make a hex prefix. */
  lemma IntegerExampleTrailingX(field: string)
    ensures Validate(PositiveInteger(field), "5x") == None
  {
    assert "5x" == [] + IntToString(5) + "x";
    PositiveIntegerAcceptsNumeral(field, [], 5, "x");
  }

  lemma IntegerExampleLeadingBlank(field: string)
    ensures Validate(PositiveInteger(field), " 7") == None
  {
    assert " 7" == " " + IntToString(7) + [];
    PositiveIntegerAcceptsNumeral(field, " ", 7, []);
  }

  lemma IntegerExampleFraction(field: string)
    ensures Validate(PositiveInteger(field), "1.9") == None
    ensures Validate(PositiveInteger(field), "0.9") == Some(PositiveMessage(field))
  {
    assert "1.9" == [] + IntToString(1) + ".9";
    PositiveIntegerAcceptsNumeral(field, [], 1, ".9");
    assert "0.9" == [] + IntToString(0) + ".9";
    PositiveIntegerRejectsNonPositive(field, [], 0, ".9");
  }

  /** parseInt also reads a hexadecimal literal, which the validator then accepts. */
  lemma IntegerExampleHex(field: string)
    ensures Validate(PositiveInteger(field), "0x1A") == None
  {
    var s := "0x1A";
    assert TrimStart(s) == s && DropSign(s) == s by {
      NotWhiteSpace(s);
    }
    assert LeadingDigits(s[2..], 16) == "1A" by {
      assert s[2..] == "1A" + [];
      LeadingDigitsOf("1A", [], 16);
    }
    assert DigitsValue("1A", 16) == 26 by {
      assert "1A"[..1] == "1";
      assert ""[..0] == "";
    }
    assert ParseInt(s) == Some(26);
  }

  /** The empty string, letters, zero and a negative numeral are rejected. */
  lemma IntegerExampleEmpty(field: string)
    ensures Validate(PositiveInteger(field), "") == Some(PositiveMessage(field))
  {
    PositiveIntegerRejectsNonNumeric(field, "");
  }

  lemma IntegerExampleLetters(field: string)
    ensures Validate(PositiveInteger(field), "abc") == Some(PositiveMessage(field))
  {
    assert TrimStart("abc") == "abc" by { assert !IsWhiteSpace('a'); }
    PositiveIntegerRejectsNonNumeric(field, "abc");
  }

  lemma IntegerExampleZero(field: string)
    ensures Validate(PositiveInteger(field), "0") == Some(PositiveMessage(field))
  {
    assert "0" == [] + IntToString(0) + [];
    PositiveIntegerRejectsNonPositive(field, [], 0, []);
  }

  lemma IntegerExampleNegative(field: string)
    ensures Validate(PositiveInteger(field), "-3") == Some(PositiveMessage(field))
  {
    assert "-3" == [] + IntToString(-3) + [];
    PositiveIntegerRejectsNonPositive(field, [], -3, []);
  }

  // ---------------------------------------------------------------------------
  // positiveNumber

  /** `positiveNumber` accepts every non-negative integer numeral, 0 included. */
  lemma PositiveNumberAcceptsNatural(field: string, n: nat)
    ensures Validate(PositiveNumber(field), IntToString(n)) == None
  {
    ParseFloatOfNatural(n);
  }

  lemma PositiveNumberAcceptsZero(field: string)
    ensures Validate(PositiveNumber(field), "0") == None
  {
    assert IntToString(0) == "0";
    PositiveNumberAcceptsNatural(field, 0);
  }

  /**
   * `positiveNumber` rejects a minus sign followed by digits of positive value,
   * whatever follows them.
   */
  lemma PositiveNumberRejectsNegative(field: string, s: string)
    requires StartsWith(TrimStart(s), '-')
    requires DigitsValue(LeadingDigits(TrimStart(s)[1..], 10), 10) > 0
    ensures Validate(PositiveNumber(field), s) == Some(PositiveMessage(field))
  {
    ParseFloatNegative(s);
  }

  /** Without a digit, a point or `Infinity` after the optional sign, parseFloat is NaN. */
  lemma PositiveNumberRejectsNonNumeric(field: string, s: string)
    requires var u := DropSign(TrimStart(s)); u == [] || (!IsDecimalDigit(u[0]) && u[0] != '.' && u[0] != 'I')
    ensures Validate(PositiveNumber(field), s) == Some(PositiveMessage(field))
  {
    ParseFloatWithoutDigits(s);
  }

  /** A negative numeral, letters and the empty string are rejected. */
  lemma NumberExampleNegative(field: string)
    ensures Validate(PositiveNumber(field), "-1") == Some(PositiveMessage(field))
  {
    assert TrimStart("-1") == "-1" by { NotWhiteSpace("-1"); }
    assert LeadingDigits("1", 10) == "1" by {
      assert "1" == "1" + [];
      LeadingDigitsOf("1", [], 10);
    }
    PositiveNumberRejectsNegative(field, "-1");
  }

  lemma NumberExampleLetters(field: string)
    ensures Validate(PositiveNumber(field), "abc") == Some(PositiveMessage(field))
  {
    assert TrimStart("abc") == "abc" by { assert !IsWhiteSpace('a'); }
    PositiveNumberRejectsNonNumeric(field, "abc");
  }

  lemma NumberExampleEmpty(field: string)
    ensures Validate(PositiveNumber(field), "") == Some(PositiveMessage(field))
  {
    PositiveNumberRejectsNonNumeric(field, "");
  }

  /**
   * Whatever `positiveInteger` accepts `positiveNumber` accepts too; "0"
   * shows the converse fails.
   */
  lemma PositiveIntegerImpliesPositiveNumber(field: string, s: string)
    ensures Validate(PositiveInteger(field), s).None? ==> Validate(PositiveNumber(field), s).None?
  {
    if Validate(PositiveInteger(field), s).None? {
      ParseIntPositive(s);
      ParseFloatOfDigits(s);
    }
  }

  lemma ZeroSeparatesValidators(field: string)
    ensures Validate(PositiveNumber(field), "0").None?
    ensures Validate(PositiveInteger(field), "0").Some?
  {
    PositiveNumberAcceptsZero(field);
    IntegerExampleZero(field);
  }
}
