/** The cleaning rules: each maps a value to a value and the rule that changed it. */
module CleaningRules {
  import opened Wrappers
  import opened Text

  datatype RuleName =
    | TrimWhitespaceRule | NormalizeBlankRule | CoerceIntegerRule
    | CoerceDecimalRule | CoerceBooleanRule | NormalizeDateRule

  datatype ColumnType = IntegerColumn | DecimalColumn | BooleanColumn | DateColumn | DatetimeColumn | OtherColumn

  /** The library functions the rules call: case folding, the integer pattern, and the
      canonical forms of integral decimals, decimals and dates, where the text has one. */
  datatype Parsers = Parsers(
    casefold: string -> string, isInteger: string -> bool,
    integral: string -> Option<string>, decimal: string -> Option<string>, date: string -> Option<string>)

  /** Canonical forms are printed without surrounding whitespace. */
  ghost predicate PrintsStripped(p: Parsers) {
    forall s :: (p.integral(s).Some? ==> Stripped(p.integral(s).value))
             && (p.decimal(s).Some? ==> Stripped(p.decimal(s).value))
             && (p.date(s).Some? ==> Stripped(p.date(s).value))
  }

  type Cleaned = (string, Option<RuleName>)

  const BLANK_EQUIVALENTS: set<string> := {"null", "n/a", "na", "-", "none"}
  const BOOLEAN_TRUE: set<string> := {"true", "yes", "y", "1"}
  const BOOLEAN_FALSE: set<string> := {"false", "no", "n", "0"}

  function Confidence(r: RuleName): real {
    match r
    case TrimWhitespaceRule => 1.0
    case NormalizeBlankRule => 0.9
    case CoerceIntegerRule => 0.85
    case CoerceDecimalRule => 0.8
    case CoerceBooleanRule => 0.9
    case NormalizeDateRule => 0.7
  }

  function TrimWhitespace(value: string): Cleaned {
    var collapsed := Trim(value);
    if collapsed == value then (value, None) else (collapsed, Some(TrimWhitespaceRule))
  }

  function NormalizeBlank(p: Parsers, value: string): Cleaned {
    if value == "" then (value, None)
    else if p.casefold(value) in BLANK_EQUIVALENTS then ("", Some(NormalizeBlankRule))
    else (value, None)
  }

  function CoerceInteger(p: Parsers, value: string): Cleaned {
    var stripped := Strip(value);
    if p.isInteger(stripped) then
      if stripped == value then (value, None) else (stripped, Some(CoerceIntegerRule))
    else
      match p.integral(stripped)
      case None => (value, None)
      case Some(canonical) => (canonical, Some(CoerceIntegerRule))
  }

  function CoerceDecimal(p: Parsers, value: string): Cleaned {
    match p.decimal(Strip(value))
    case None => (value, None)
    case Some(canonical) => if canonical == value then (value, None) else (canonical, Some(CoerceDecimalRule))
  }

  function CoerceBoolean(p: Parsers, value: string): Cleaned {
    var lowered := p.casefold(Strip(value));
    if lowered in BOOLEAN_TRUE then ("true", if value == "true" then None else Some(CoerceBooleanRule))
    else if lowered in BOOLEAN_FALSE then ("false", if value == "false" then None else Some(CoerceBooleanRule))
    else (value, None)
  }

  function CoerceDate(p: Parsers, value: string): Cleaned {
    match p.date(Strip(value))
    case None => (value, None)
    case Some(canonical) => if canonical == value then (value, None) else (canonical, Some(NormalizeDateRule))
  }

  function CoerceType(p: Parsers, value: string, t: ColumnType): Cleaned {
    if value == "" then (value, None)
    else match t
      case IntegerColumn => CoerceInteger(p, value)
      case DecimalColumn => CoerceDecimal(p, value)
      case BooleanColumn => CoerceBoolean(p, value)
      case DateColumn => CoerceDate(p, value)
      case DatetimeColumn => CoerceDate(p, value)
      case OtherColumn => (value, None)
  }

  /** A rule that reports nothing has changed nothing. */
  lemma RulesReportChanges(p: Parsers, value: string, t: ColumnType)
    ensures TrimWhitespace(value).1.None? ==> TrimWhitespace(value).0 == value
    ensures NormalizeBlank(p, value).1.None? ==> NormalizeBlank(p, value).0 == value
    ensures CoerceType(p, value, t).1.None? ==> CoerceType(p, value, t).0 == value
  {
    hide Trim, Strip;
  }

  lemma CoerceKeepsStripped(p: Parsers, value: string, t: ColumnType)
    requires PrintsStripped(p) && Stripped(value)
    ensures Stripped(CoerceType(p, value, t).0)
  {
    hide Strip;
    assert Stripped("true") && Stripped("false");
    match t
    case IntegerColumn => assert Stripped(CoerceInteger(p, value).0);
    case DecimalColumn => assert Stripped(CoerceDecimal(p, value).0);
    case BooleanColumn => assert Stripped(CoerceBoolean(p, value).0);
    case DateColumn => assert Stripped(CoerceDate(p, value).0);
    case DatetimeColumn => assert Stripped(CoerceDate(p, value).0);
    case OtherColumn =>
  }

  /** The pipeline on one cell. */
  function CleanCell(p: Parsers, value: string, t: ColumnType): string {
    CoerceType(p, NormalizeBlank(p, TrimWhitespace(value).0).0, t).0
  }

  /** Cleaning looks at the stripped value only, leaves no surrounding whitespace, and
      keeps blank what was blank. */
  lemma CleanCellProperties(p: Parsers, value: string, t: ColumnType)
    requires PrintsStripped(p)
    ensures CleanCell(p, value, t) == CleanCell(p, Strip(value), t)
    ensures Stripped(CleanCell(p, value, t))
    ensures Strip(value) == "" ==> CleanCell(p, value, t) == ""
  {
    hide Strip, Trim, CoerceType;
    TrimProperties(value);
    var trimmed := TrimWhitespace(value).0;
    assert trimmed == Trim(value) && TrimWhitespace(Strip(value)).0 == Trim(value);
    CoerceKeepsStripped(p, NormalizeBlank(p, trimmed).0, t);
    CoerceBlank(p, t);
  }

  lemma CoerceBlank(p: Parsers, t: ColumnType)
    ensures CoerceType(p, "", t).0 == ""
  {
  }

  /** What a cell becomes, told from the trimmed text and the parsers alone.  Blanks and
      their equivalents become blank; otherwise the column's type decides, and a text its
      parser does not know is kept. */
  lemma CleanCellMeaning(p: Parsers, value: string, t: ColumnType)
    ensures var v, cleaned := Trim(value), CleanCell(p, value, t);
            if v == "" || p.casefold(v) in BLANK_EQUIVALENTS then cleaned == ""
            else match t
              case IntegerColumn =>
                cleaned == if p.isInteger(v) || p.integral(v).None? then v else p.integral(v).value
              case DecimalColumn => cleaned == if p.decimal(v).Some? then p.decimal(v).value else v
              case BooleanColumn =>
                && (p.casefold(v) in {"true", "yes", "y", "1"} ==> cleaned == "true")
                && (p.casefold(v) in {"false", "no", "n", "0"} ==> cleaned == "false")
                && (p.casefold(v) !in BOOLEAN_TRUE + BOOLEAN_FALSE ==> cleaned == v)
              case OtherColumn => cleaned == v
              case _ => cleaned == if p.date(v).Some? then p.date(v).value else v
  {
    hide Trim, Strip;
    TrimProperties(value);
    StripStripped(Trim(value));
  }

  lemma StripStripped(s: string)
    requires Stripped(s)
    ensures Strip(s) == s
  {
  }

  /** A cell of an untyped column that is not a blank equivalent keeps its visible
      characters in order; words stay words, one space apart. */
  lemma UntypedCellKeepsWords(p: Parsers, value: string)
    requires p.casefold(Trim(value)) !in BLANK_EQUIVALENTS
    ensures KeepsWords(value, CleanCell(p, value, OtherColumn))
  {
    hide Trim, KeepsWords, Strip, CleanCell;
    CleanCellMeaning(p, value, OtherColumn);
    TrimKeepsWords(value);
  }

  /** Trimming alone is certain; reparsed dates are trusted least. */
  lemma ConfidenceOrder(r: RuleName)
    ensures 0.0 < Confidence(NormalizeDateRule) <= Confidence(r) <= Confidence(TrimWhitespaceRule) == 1.0
    ensures r != TrimWhitespaceRule ==> Confidence(r) < 1.0
    ensures r != NormalizeDateRule ==> Confidence(NormalizeDateRule) < Confidence(r)
  {
  }
}
