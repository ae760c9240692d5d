/** The cell representation of spreadsheet/cell.cpp: the Empty, Text and
    Formula implementations, how Cell::Set chooses among them, what each
    reports as text, value, references and cache state, and the formula
    cache read (as written, and as intended). */
module Cells {
  import opened Common

  /** FORMULA_SIGN and ESCAPE_SIGN (declared in a header that is not part of
      this model; the values are the project's '=' and apostrophe). */
  const FormulaSign: char := '='
  const EscapeSign: char := '\''

  /** What the core uses of a parsed formula: its canonical expression
      (FormulaInterface::GetExpression) and the positions it reads
      (FormulaInterface::GetReferencedCells). Parsing and evaluation are
      outside the model. */
  datatype Formula = Formula(expression: string, refs: seq<Position>)

  /** Cell::EmptyImpl, Cell::TextImpl and Cell::FormulaImpl; the formula
      variant carries its cache (None = invalid). */
  datatype Content =
    | EmptyImpl
    | TextImpl(text: string)
    | FormulaImpl(formula: Formula, cache: Option<Value>)

  /** Impl::GetText: the stored text; a formula prints as '=' and its
      canonical expression. */
  function GetText(c: Content): (r: string)
    ensures c.EmptyImpl? ==> r == ""
    ensures c.TextImpl? ==> r == c.text
    ensures c.FormulaImpl? ==> |r| >= 1 && r[0] == FormulaSign && r[1..] == c.formula.expression
  {
    match c
    case EmptyImpl => ""
    case TextImpl(t) => t
    case FormulaImpl(f, _) => [FormulaSign] + f.expression
  }

  /** TextImpl::GetValue: the text with one leading escape sign removed. */
  function TextValue(text: string): (v: Value)
    ensures v.StringValue?
    ensures |v.s| == |text| - (if text != [] && text[0] == EscapeSign then 1 else 0)
    ensures v.s == text || [EscapeSign] + v.s == text
  {
    if text != [] && text[0] == EscapeSign then StringValue(text[1..]) else StringValue(text)
  }

  /** Impl::GetReferencedCells: only a formula references anything. */
  function GetReferencedCells(c: Content): (r: seq<Position>)
    ensures r != [] ==> c.FormulaImpl?
    ensures c.FormulaImpl? ==> r == c.formula.refs
  {
    if c.FormulaImpl? then c.formula.refs else []
  }

  /** The referenced positions as a set: what Cell::Set hooks r_nodes_ to. */
  function RefSet(c: Content): set<Position> {
    set q | q in GetReferencedCells(c)
  }

  /** Impl::IsCacheValid: Empty and Text report a valid cache. */
  predicate IsCacheValid(c: Content)
    ensures !c.FormulaImpl? ==> IsCacheValid(c)
    ensures c.FormulaImpl? ==> (IsCacheValid(c) <==> c.cache.Some?)
  {
    !c.FormulaImpl? || c.cache.Some?
  }

  /** Impl::InvalidateCache: a no-op except on a formula. */
  function InvalidateCache(c: Content): (r: Content)
    ensures !IsCacheValid(r) <==> c.FormulaImpl?
    ensures GetText(r) == GetText(c) && RefSet(r) == RefSet(c)
    ensures Cleared(r) && (c.FormulaImpl? ==> r.formula == c.formula) && (!c.FormulaImpl? ==> r == c)
  {
    if c.FormulaImpl? then FormulaImpl(c.formula, None) else c
  }

  /** The content holds no valid formula result: a formula whose cache was
      reset, or a cell that has no cache at all. */
  predicate Cleared(c: Content) {
    !c.FormulaImpl? || c.cache.None?
  }

  /** The representation Cell::Set builds from its text before anything is
      changed: "" is Empty; '=' followed by at least one character is a
      formula parsed from the rest (a parse failure raises); anything else,
      the lone "=" included, is Text. `parse` stands for ParseFormula. */
  function Classify(text: string, parse: string -> Option<Formula>): (r: Result<Content, SheetError>)
    ensures r.Failure? <==> |text| > 1 && text[0] == FormulaSign && parse(text[1..]).None?
    ensures r.Failure? ==> r.error == ParseError
    ensures r.Success? ==> (r.value.EmptyImpl? <==> text == [])
    ensures r.Success? && r.value.FormulaImpl? ==>
              |text| > 1 && text[0] == FormulaSign && r.value.cache.None? &&
              parse(text[1..]) == Some(r.value.formula)
    ensures r.Success? && !r.value.FormulaImpl? ==> GetText(r.value) == text
    ensures |text| > 1 && text[0] == FormulaSign && parse(text[1..]).Some? ==>
              r == Success(FormulaImpl(parse(text[1..]).value, None))
  {
    if |text| == 0 then Success(EmptyImpl)
    else if text[0] == FormulaSign && |text| > 1 then
      match parse(text[1..])
      case None => Failure(ParseError)
      case Some(f) => Success(FormulaImpl(f, None))
    else Success(TextImpl(text))
  }

  /** Value and text of a freshly classified text cell: the text is kept
      verbatim and the value drops exactly one leading escape sign. */
  lemma TextCellValue(text: string, parse: string -> Option<Formula>)
    requires text != [] && !(text[0] == FormulaSign && |text| > 1)
    ensures Classify(text, parse) == Success(TextImpl(text))
    ensures GetText(Classify(text, parse).value) == text
    ensures text[0] == EscapeSign ==> TextValue(text) == StringValue(text[1..])
    ensures text[0] != EscapeSign ==> TextValue(text) == StringValue(text)
  {
  }

  /** Entering the printed text of a cell again reproduces the same printed
      text, provided the parser maps a canonical expression to a formula with
      that same expression (its own round trip, outside this model). */
  lemma {:induction false} ReenteredTextIsStable(text: string, parse: string -> Option<Formula>)
    requires Classify(text, parse).Success?
    requires Classify(text, parse).value.FormulaImpl? ==>
               var e := Classify(text, parse).value.formula.expression;
               parse(e).Some? && parse(e).value.expression == e
    ensures Classify(GetText(Classify(text, parse).value), parse).Success?
    ensures GetText(Classify(GetText(Classify(text, parse).value), parse).value)
            == GetText(Classify(text, parse).value)
  {
    var c := Classify(text, parse).value;
    if c.FormulaImpl? {
      var e := c.formula.expression;
      var printed := [FormulaSign] + e;
      assert GetText(c) == printed;
      if e == [] {
        assert printed == [FormulaSign];
        assert Classify(printed, parse) == Success(TextImpl(printed));
      } else {
        assert printed[1..] == e;
        assert Classify(printed, parse) == Success(FormulaImpl(parse(e).value, None));
      }
    } else {
      assert GetText(c) == text;
    }
  }

  /** One read of a cell's value: the content afterwards (the cache may have
      been filled), the value returned, and how many times the formula was
      evaluated. */
  datatype Reading = Reading(content: Content, value: Value, evaluations: nat)

  /** Impl::GetValue as written: a formula fills an empty cache with one
      evaluation, then evaluates again and returns that second result.
      `evaluated` is what FormulaInterface::Evaluate yields in the current sheet. */
  function ReadAsWritten(c: Content, evaluated: Value): (r: Reading)
    ensures IsCacheValid(r.content)
    ensures GetText(r.content) == GetText(c) && RefSet(r.content) == RefSet(c)
    ensures c.FormulaImpl? ==> r.value == evaluated
    ensures c.FormulaImpl? ==> r.evaluations == (if c.cache.None? then 2 else 1)
    ensures c.FormulaImpl? && c.cache.Some? ==> r.content == c
    ensures c.FormulaImpl? && c.cache.None? ==> r.content == FormulaImpl(c.formula, Some(evaluated))
    ensures !c.FormulaImpl? ==> r.content == c && r.evaluations == 0
    ensures c.EmptyImpl? ==> r.value == StringValue("")
    ensures c.TextImpl? ==> r.value == TextValue(c.text)
  {
    match c
    case EmptyImpl => Reading(c, StringValue(""), 0)
    case TextImpl(t) => Reading(c, TextValue(t), 0)
    case FormulaImpl(f, cache) =>
      if cache.None? then Reading(FormulaImpl(f, Some(evaluated)), evaluated, 2)
      else Reading(c, evaluated, 1)
  }

  /** The as-written read never uses the cache: with a cached value that
      differs from the current evaluation it returns the evaluation, and it
      costs two evaluations when the cache was empty. */
  lemma ReadAsWrittenIgnoresCache()
    ensures var c := FormulaImpl(Formula("A1", [Position(0, 0)]), Some(NumberValue(1.0)));
            var r := ReadAsWritten(c, NumberValue(2.0));
            r.value == NumberValue(2.0) && r.value != c.cache.value && r.evaluations == 1
    ensures ReadAsWritten(FormulaImpl(Formula("A1", [Position(0, 0)]), None), NumberValue(2.0)).evaluations == 2
  {
  }

  /** Impl::GetValue as intended: a valid cache is returned without
      evaluating; an invalid one is filled by a single evaluation. */
  function Read(c: Content, evaluated: Value): (r: Reading)
    ensures IsCacheValid(r.content)
    ensures GetText(r.content) == GetText(c) && RefSet(r.content) == RefSet(c)
    ensures r.content.FormulaImpl? ==> r.content.cache == Some(r.value)
    ensures r.evaluations == (if c.FormulaImpl? && c.cache.None? then 1 else 0)
    ensures c.FormulaImpl? && c.cache.Some? ==> r.value == c.cache.value && r.content == c
    ensures c.FormulaImpl? && c.cache.None? ==>
              r.value == evaluated && r.content == FormulaImpl(c.formula, Some(evaluated))
    ensures c.EmptyImpl? ==> r.value == StringValue("")
    ensures c.TextImpl? ==> r.value == TextValue(c.text)
  {
    match c
    case EmptyImpl => Reading(c, StringValue(""), 0)
    case TextImpl(t) => Reading(c, TextValue(t), 0)
    case FormulaImpl(f, cache) =>
      if cache.None? then Reading(FormulaImpl(f, Some(evaluated)), evaluated, 1)
      else Reading(c, cache.value, 0)
  }
}
