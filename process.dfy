/** The processing script: the raw ads table is read column by column,
    identifying columns are replaced by surrogate ids, prices, dates and
    parking counts are converted to numbers and times, Yes/No columns become
    1/0 and descriptions are lower-cased. A table maps each column name to a
    typed column; a failed conversion ends the run with an error. */
module Process {
  import opened Wrappers
  import opened Sequences
  import opened Strings
  import opened Dates
  import Anonymize

  /** A pandas column and its dtype; `None` is a missing cell (NaN / NaT / <NA>). */
  datatype Column =
    | TextCol(texts: seq<Option<string>>)
    | IntCol(ints: seq<Option<int>>)
    | RealCol(reals: seq<Option<real>>)
    | TimeCol(times: seq<Option<DateTime>>)

  function Length(c: Column): nat {
    match c
    case TextCol(v) => |v|
    case IntCol(v) => |v|
    case RealCol(v) => |v|
    case TimeCol(v) => |v|
  }

  type Table = map<string, Column>

  /** The exceptions that end the script. */
  datatype ProcessError =
    | MissingColumn(name: string)         // KeyError
    | NotText(name: string)               // `.str` or a text conversion on a converted column
    | BadNumber(name: string, text: string)  // `astype(float)` on a non-numeric text
    | BadDate(name: string, text: string)    // `to_datetime` on a text the format rejects

  /** Same columns, each with as many cells as before: no step adds or drops
      a row or a column. */
  predicate SameShape(a: Table, b: Table) {
    a.Keys == b.Keys && forall n :: n in a ==> Length(b[n]) == Length(a[n])
  }

  /** Same shape, and every column but `name` as it was. */
  predicate OnlyChanges(a: Table, b: Table, name: string) {
    SameShape(a, b) && forall n :: n in a && n != name ==> b[n] == a[n]
  }

  /** Every cell converted by `f`, or the first failure. */
  function CastAll<A, B>(cells: seq<A>, f: A -> Result<B, ProcessError>): (r: Result<seq<B>, ProcessError>)
    ensures r.Success? <==> forall i :: 0 <= i < |cells| ==> f(cells[i]).Success?
    ensures r.Success? ==> |r.value| == |cells| && forall i :: 0 <= i < |cells| ==> f(cells[i]) == Success(r.value[i])
    ensures r.Failure? ==> exists i :: 0 <= i < |cells| && f(cells[i]) == Failure(r.error)
                                       && forall j :: 0 <= j < i ==> f(cells[j]).Success?
    decreases |cells|
  {
    if cells == [] then Success([])
    else
      match f(cells[0])
      case Failure(e) => Failure(e)
      case Success(x) =>
        var rest := CastAll(cells[1..], f);
        if rest.Failure? then
          var i :| 0 <= i < |cells[1..]| && f(cells[1..][i]) == Failure(rest.error)
                   && forall j :: 0 <= j < i ==> f(cells[1..][j]).Success?;
          assert f(cells[i + 1]) == Failure(rest.error);
          Failure(rest.error)
        else
          Success([x] + rest.value)
  }

  // ---------------------------------------------------------------- ids

  /** Cells `i` and `j` of `c` hold the same value (two missing cells count
      as the same value, as `unique()` lists NaN once). */
  predicate SameCell(c: Column, i: nat, j: nat)
    requires i < Length(c) && j < Length(c)
  {
    match c
    case TextCol(v) => v[i] == v[j]
    case IntCol(v) => v[i] == v[j]
    case RealCol(v) => v[i] == v[j]
    case TimeCol(v) => v[i] == v[j]
  }

  /** `anonymize_values` on a column of any dtype: an id for every cell, and
      two cells get the same id exactly when they hold the same value. */
  function AnonymizeColumn(c: Column): (r: Column)
    ensures r.IntCol? && |r.ints| == Length(c)
    ensures forall i :: 0 <= i < |r.ints| ==> r.ints[i].Some? && r.ints[i].value >= 0
    ensures forall i, j :: 0 <= i < Length(c) && 0 <= j < Length(c) ==>
              (r.ints[i] == r.ints[j] <==> SameCell(c, i, j))
  {
    match c
    case TextCol(v) => IdsConsistent(v); IntCol(Ids(v))
    case IntCol(v) => IdsConsistent(v); IntCol(Ids(v))
    case RealCol(v) => IdsConsistent(v); IntCol(Ids(v))
    case TimeCol(v) => IdsConsistent(v); IntCol(Ids(v))
  }

  function Ids<T(==)>(v: seq<T>): (r: seq<Option<int>>)
    ensures |r| == |v|
    ensures forall i :: 0 <= i < |v| ==> r[i] == Some(Anonymize.AnonymizeValues(v)[i] as int)
  {
    var ids := Anonymize.AnonymizeValues(v);
    seq(|v|, i requires 0 <= i < |v| => Some(ids[i] as int))
  }

  lemma IdsConsistent<T>(v: seq<T>)
    ensures forall i, j :: 0 <= i < |v| && 0 <= j < |v| ==> (Ids(v)[i] == Ids(v)[j] <==> v[i] == v[j])
  {
    forall i, j | 0 <= i < |v| && 0 <= j < |v|
      ensures Ids(v)[i] == Ids(v)[j] <==> v[i] == v[j]
    {
      Anonymize.AnonymizeConsistent(v, i, j);
    }
  }

  function AnonymizeStep(t: Table, name: string): (r: Result<Table, ProcessError>)
    ensures r.Success? ==> OnlyChanges(t, r.value, name)
    ensures r.Failure? <==> name !in t
    ensures r.Success? ==> r.value[name] == AnonymizeColumn(t[name])
  {
    if name !in t then Failure(MissingColumn(name))
    else Success(t[name := AnonymizeColumn(t[name])])
  }

  // ---------------------------------------------------------------- price

  /** The price texts the script reads as "no price". */
  const PricePlaceholders: set<string> := {"Please Contact", "Free", "Swap/Trade"}

  /** One Price cell: symbols stripped, a placeholder becomes missing, and the
      rest must read as a number. */
  function CleanPrice(cell: Option<string>): (r: Result<Option<real>, ProcessError>)
    ensures cell.None? ==> r == Success(None)
    ensures cell.Some? ==> (r == Success(None) <==> StripPrice(cell.value) in PricePlaceholders)
    ensures cell.Some? ==> (r.Failure? <==> StripPrice(cell.value) !in PricePlaceholders
                                             && ParseDecimal(StripPrice(cell.value)).None?)
    ensures cell.Some? && StripPrice(cell.value) !in PricePlaceholders && r.Success? ==>
              r.value == ParseDecimal(StripPrice(cell.value))
  {
    match cell
    case None => Success(None)
    case Some(s) =>
      var t := StripPrice(s);
      if t in PricePlaceholders then Success(None)
      else
        match ParseDecimal(t)
        case Some(v) => Success(Some(v))
        case None => Failure(BadNumber("Price", t))
  }

  /** A price that reads, once stripped, as a decimal text is the number that
      text denotes: "$1,250.50" is 1250.5, "-5" is -5. */
  lemma CleanPriceDecimal(s: string, sign: string, a: string, point: string, b: string)
    requires DecimalParts(StripPrice(s), sign, a, point, b)
    ensures CleanPrice(Some(s)) == Success(Some(DecimalValue(sign, a, b)))
  {
    var t := StripPrice(s);
    ParseDecimalOfParts(t, sign, a, point, b);
    assert t != [] && (t[0] in "+-." || IsDigit(t[0])) by {
      if sign != "" {
        assert t[0] == sign[0];
      } else if a != "" {
        assert t[0] == a[0];
      } else {
        assert t[0] == '.';
      }
    }
    assert t != "Please Contact" && t != "Free" && t != "Swap/Trade" by {
      assert "Please Contact"[0] == 'P' && "Free"[0] == 'F' && "Swap/Trade"[0] == 'S';
    }
  }

  /** A price written "$" digits "," digits reads as the number the digits
      spell once the separator is gone: "$1,200" is 1200. */
  lemma CleanPriceThousands(a: string, b: string)
    requires a != [] && AllDigits(a) && AllDigits(b)
    ensures AllDigits(a + b)
    ensures CleanPrice(Some("$" + a + "," + b)) == Success(Some(DigitsValue(a + b) as real))
  {
    var t := a + b;
    StripThousands(a, b);
    DigitsValueAppend(a, b);
    assert t !in PricePlaceholders by {
      assert IsDigit(t[0]);
    }
    ParseDecimalDigits(t);
  }

  lemma StripThousands(a: string, b: string)
    requires AllDigits(a) && AllDigits(b)
    ensures StripPrice("$" + a + "," + b) == a + b
  {
    RemoveDollar(a, b);
    RemoveComma(a, b);
  }

  lemma NoSymbol(a: string, c: char)
    requires AllDigits(a) && !IsDigit(c)
    ensures RemoveAll(a, [c]) == a
  {
    assert c !in a by {
      assert forall i :: 0 <= i < |a| ==> IsDigit(a[i]);
    }
    NotContainsChar(a, c);
    RemoveAllAbsent(a, [c]);
  }

  lemma RemoveDollar(a: string, b: string)
    requires AllDigits(a) && AllDigits(b)
    ensures RemoveAll("$" + a + "," + b, "$") == a + "," + b
  {
    NoSymbol(a, '$');
    NoSymbol(b, '$');
    RemoveCharAppend("$" + a + ",", b, '$');
    RemoveCharAppend("$" + a, ",", '$');
    RemoveCharAppend("$", a, '$');
    RemoveOneChar('$', '$');
    RemoveOneChar(',', '$');
  }

  lemma RemoveComma(a: string, b: string)
    requires AllDigits(a) && AllDigits(b)
    ensures RemoveAll(a + "," + b, ",") == a + b
  {
    NoSymbol(a, ',');
    NoSymbol(b, ',');
    RemoveCharAppend(a + ",", b, ',');
    RemoveCharAppend(a, ",", ',');
    RemoveOneChar(',', ',');
  }

  function PriceStep(t: Table): (r: Result<Table, ProcessError>)
    ensures r.Success? ==> OnlyChanges(t, r.value, "Price")
    ensures r.Success? ==> "Price" in r.value && r.value["Price"].RealCol?
  {
    if "Price" !in t then Failure(MissingColumn("Price"))
    else
      match t["Price"]
      case TextCol(v) =>
        var prices :- CastAll(v, CleanPrice);
        Success(t["Price" := RealCol(prices)])
      case _ => Failure(NotText("Price"))
  }

  // ---------------------------------------------------------------- dates

  /** Texts `to_datetime` reads as NaT instead of parsing them. */
  const NotATimeTexts: set<string> := {"", "NaT", "nat", "NAT", "nan", "NaN", "NAN"}

  /** One cell of `pd.to_datetime(column, format=..., utc=True)`. */
  function TimeCell(name: string, parse: string -> Option<DateTime>, cell: Option<string>)
    : (r: Result<Option<DateTime>, ProcessError>)
    ensures cell.None? ==> r == Success(None)
    ensures cell.Some? && cell.value in NotATimeTexts ==> r == Success(None)
    ensures cell.Some? && cell.value !in NotATimeTexts ==>
              (r.Failure? <==> parse(cell.value).None?)
              && (r.Success? ==> r.value == parse(cell.value))
  {
    match cell
    case None => Success(None)
    case Some(s) =>
      if s in NotATimeTexts then Success(None)
      else
        match parse(s)
        case Some(d) => Success(Some(d))
        case None => Failure(BadDate(name, s))
  }

  /** A text column converted to times with the format `parse` reads. */
  function TimeColumn(t: Table, name: string, parse: string -> Option<DateTime>): (r: Result<Table, ProcessError>)
    ensures r.Success? <==> name in t && t[name].TextCol?
                            && forall i :: 0 <= i < |t[name].texts| ==> TimeCell(name, parse, t[name].texts[i]).Success?
    ensures r.Success? ==> OnlyChanges(t, r.value, name)
    ensures r.Success? ==> name in t && t[name].TextCol? && r.value[name].TimeCol?
                           && forall i :: 0 <= i < |t[name].texts| ==>
                                TimeCell(name, parse, t[name].texts[i]) == Success(r.value[name].times[i])
  {
    if name !in t then Failure(MissingColumn(name))
    else
      match t[name]
      case TextCol(v) =>
        var times :- CastAll(v, c => TimeCell(name, parse, c));
        Success(t[name := TimeCol(times)])
      case _ => Failure(NotText(name))
  }

  function PostingDateStep(t: Table): (r: Result<Table, ProcessError>)
    ensures r.Success? ==> OnlyChanges(t, r.value, "PostingDate")
  {
    TimeColumn(t, "PostingDate", ParsePostingDate)
  }

  /** `raw` read with `%B-%d,-%Y`, cell by cell. */
  predicate MoveInConverted(raw: Column, c: Column) {
    && raw.TextCol? && c.TimeCol? && |c.times| == |raw.texts|
    && forall i :: 0 <= i < |raw.texts| ==> TimeCell("Move-In-Date", ParseMoveInDate, raw.texts[i]) == Success(c.times[i])
  }

  /** Move-In-Date is converted only when the table has it. */
  function MoveInStep(t: Table): (r: Result<Table, ProcessError>)
    ensures r.Success? ==> OnlyChanges(t, r.value, "Move-In-Date")
    ensures "Move-In-Date" !in t ==> r == Success(t)
    ensures "Move-In-Date" in t ==>
              (r.Success? <==> t["Move-In-Date"].TextCol?
                               && forall i :: 0 <= i < |t["Move-In-Date"].texts| ==>
                                    TimeCell("Move-In-Date", ParseMoveInDate, t["Move-In-Date"].texts[i]).Success?)
    ensures r.Success? && "Move-In-Date" in t ==> MoveInConverted(t["Move-In-Date"], r.value["Move-In-Date"])
  {
    if "Move-In-Date" !in t then Success(t) else TimeColumn(t, "Move-In-Date", ParseMoveInDate)
  }

  // ---------------------------------------------------------------- yes / no

  /** `map({'Yes': 1, 'No': 0}, na_action='ignore')` on one cell. */
  function YesNo(cell: Option<string>): (r: Option<int>)
    ensures r == Some(1) <==> cell == Some("Yes")
    ensures r == Some(0) <==> cell == Some("No")
    ensures r.None? <==> cell != Some("Yes") && cell != Some("No")
  {
    if cell == Some("Yes") then Some(1)
    else if cell == Some("No") then Some(0)
    else None
  }

  predicate HasYesNo(c: Column) {
    c.TextCol? && (Some("Yes") in c.texts || Some("No") in c.texts)
  }

  /** A column holding "Yes" or "No" becomes 1 / 0 / missing; any other is kept. */
  function BinarizeColumn(c: Column): (r: Column)
    ensures Length(r) == Length(c)
    ensures !HasYesNo(r)
    ensures HasYesNo(c) ==> r.IntCol? && forall i :: 0 <= i < |r.ints| ==> r.ints[i] == YesNo(c.texts[i])
    ensures !HasYesNo(c) ==> r == c
  {
    if HasYesNo(c) then IntCol(seq(|c.texts|, i requires 0 <= i < |c.texts| => YesNo(c.texts[i])))
    else c
  }

  /** The Yes/No pass over every column. */
  function BinarizeAll(t: Table): (r: Table)
    ensures SameShape(t, r)
    ensures forall n :: n in r ==> !HasYesNo(r[n])
    ensures forall n :: n in t ==> r[n] == BinarizeColumn(t[n])
  {
    map n | n in t :: BinarizeColumn(t[n])
  }

  /** Binarising is idempotent: a second pass changes nothing. */
  lemma BinarizeAllIdempotent(t: Table)
    ensures BinarizeAll(BinarizeAll(t)) == BinarizeAll(t)
  {
    var once := BinarizeAll(t);
    assert forall n :: n in once ==> BinarizeColumn(once[n]) == once[n];
  }

  // ---------------------------------------------------------------- parking

  /** One Parking-Included cell: "Not-Available" is 0, otherwise the first run
      of digits, missing when there is none. */
  function ParkingCount(cell: Option<string>): (r: Option<real>)
    ensures cell.None? ==> r.None?
    ensures cell == Some("Not-Available") ==> r == Some(0.0)
    ensures cell.Some? && cell.value != "Not-Available" ==>
              (r.None? <==> forall i :: 0 <= i < |cell.value| ==> !IsDigit(cell.value[i]))
    ensures r.Some? ==> r.value >= 0.0
    ensures cell.Some? && cell.value != "Not-Available" && r.Some? ==>
              FirstDigitRun(cell.value).Some? && r.value == DigitsValue(FirstDigitRun(cell.value).value) as real
  {
    match cell
    case None => None
    case Some(s) =>
      var s' := if s == "Not-Available" then "0" else s;
      match FirstDigitRun(s')
      case None => None
      case Some(d) => Some(DigitsValue(d) as real)
  }

  /** The count is the number the first run of digits spells, wherever it
      stands: "2 spots" and "Spots: 2" are both 2. */
  lemma ParkingCountDigits(p: string, d: string, rest: string)
    requires forall i :: 0 <= i < |p| ==> !IsDigit(p[i])
    requires d != [] && AllDigits(d)
    requires rest == [] || !IsDigit(rest[0])
    ensures ParkingCount(Some(p + d + rest)) == Some(DigitsValue(d) as real)
  {
    var s := p + d + rest;
    FirstDigitRunAfter(p, d, rest);
    var c := s[|p|];
    assert c == d[0] && IsDigit(c) && c in s;
    assert c !in "Not-Available";
  }

  /** `raw` counted cell by cell. */
  predicate ParkingConverted(raw: Column, c: Column) {
    && raw.TextCol? && c.RealCol? && |c.reals| == |raw.texts|
    && forall i :: 0 <= i < |raw.texts| ==> c.reals[i] == ParkingCount(raw.texts[i])
  }

  /** Parking-Included is counted only when the table has it. */
  function ParkingStep(t: Table): (r: Result<Table, ProcessError>)
    ensures r.Success? ==> OnlyChanges(t, r.value, "Parking-Included")
    ensures "Parking-Included" !in t ==> r == Success(t)
    ensures r.Success? <==> "Parking-Included" !in t || t["Parking-Included"].TextCol?
    ensures r.Success? && "Parking-Included" in t ==>
              ParkingConverted(t["Parking-Included"], r.value["Parking-Included"])
  {
    if "Parking-Included" !in t then Success(t)
    else
      match t["Parking-Included"]
      case TextCol(v) =>
        Success(t["Parking-Included" := RealCol(seq(|v|, i requires 0 <= i < |v| => ParkingCount(v[i])))])
      case _ => Failure(NotText("Parking-Included"))
  }

  // ---------------------------------------------------------------- description

  /** `.str.lower()` on one cell; a missing cell stays missing. */
  function LowerCell(cell: Option<string>): Option<string> {
    match cell
    case None => None
    case Some(s) => Some(Lower(s))
  }

  /** `raw` lower-cased cell by cell. */
  predicate DescriptionConverted(raw: Column, c: Column) {
    && raw.TextCol? && c.TextCol? && |c.texts| == |raw.texts|
    && forall i :: 0 <= i < |raw.texts| ==> c.texts[i] == LowerCell(raw.texts[i])
  }

  function DescriptionStep(t: Table): (r: Result<Table, ProcessError>)
    ensures r.Success? ==> OnlyChanges(t, r.value, "Description")
    ensures r.Success? <==> "Description" in t && t["Description"].TextCol?
    ensures r.Success? ==> DescriptionConverted(t["Description"], r.value["Description"])
  {
    if "Description" !in t then Failure(MissingColumn("Description"))
    else
      match t["Description"]
      case TextCol(v) =>
        Success(t["Description" := TextCol(seq(|v|, i requires 0 <= i < |v| => LowerCell(v[i])))])
      case _ => Failure(NotText("Description"))
  }

  // ---------------------------------------------------------------- the run

  /** The identifying columns replaced by ids: Poster, AdURL, AdId in turn. */
  function AnonymizeIds(t: Table): (r: Result<Table, ProcessError>)
    ensures r.Success? <==> "Poster" in t && "AdURL" in t && "AdId" in t
    ensures r.Success? ==> SameShape(t, r.value)
    ensures r.Success? ==> forall n :: n in t && n != "Poster" && n != "AdURL" && n != "AdId" ==> r.value[n] == t[n]
    ensures r.Success? ==> forall n :: (n == "Poster" || n == "AdURL" || n == "AdId") ==> r.value[n] == AnonymizeColumn(t[n])
  {
    var t1 :- AnonymizeStep(t, "Poster");
    var t2 :- AnonymizeStep(t1, "AdURL");
    AnonymizeStep(t2, "AdId")
  }

  /** The conversions after the Yes/No pass: Move-In-Date, Parking-Included,
      Description. */
  function LateSteps(t: Table): (r: Result<Table, ProcessError>)
    ensures r.Success? ==> SameShape(t, r.value)
    ensures r.Success? ==> forall n :: n in t && n != "Move-In-Date" && n != "Parking-Included" && n != "Description" ==> r.value[n] == t[n]
    ensures r.Success? ==> "Description" in t && DescriptionConverted(t["Description"], r.value["Description"])
    ensures r.Success? && "Move-In-Date" in t ==> MoveInConverted(t["Move-In-Date"], r.value["Move-In-Date"])
    ensures r.Success? && "Parking-Included" in t ==> ParkingConverted(t["Parking-Included"], r.value["Parking-Included"])
  {
    var t7 :- MoveInStep(t);
    var t8 :- ParkingStep(t7);
    DescriptionStep(t8)
  }

  /** Price, PostingDate, the Yes/No pass and the late conversions. A column
      none of them names and that holds no "Yes"/"No" comes through as it was. */
  function ConvertColumns(t: Table): (r: Result<Table, ProcessError>)
    ensures r.Success? ==> SameShape(t, r.value)
    ensures r.Success? ==> forall n :: n in t && n != "Price" && n != "PostingDate" && n != "Move-In-Date"
                                       && n != "Parking-Included" && n != "Description" && !HasYesNo(t[n])
                                       ==> r.value[n] == t[n]
  {
    var t4 :- PriceStep(t);
    var t5 :- PostingDateStep(t4);
    LateSteps(BinarizeAll(t5))
  }

  /** The main block in source order; geocoding is not part of this model. */
  function ProcessTable(t: Table): (r: Result<Table, ProcessError>)
    ensures r.Success? ==> SameShape(t, r.value)
  {
    var t3 :- AnonymizeIds(t);
    ConvertColumns(t3)
  }

  // ---------------------------------------------------------------- what a run guarantees

  /** The three identifying columns hold ids that agree exactly where the raw
      values agree. */
  lemma ProcessAnonymizes(t: Table, name: string, i: nat, j: nat)
    requires ProcessTable(t).Success?
    requires name == "Poster" || name == "AdURL" || name == "AdId"
    requires name in t && i < Length(t[name]) && j < Length(t[name])
    ensures var c := ProcessTable(t).value[name];
      && c.IntCol? && |c.ints| == Length(t[name]) && c.ints[i].Some?
      && (c.ints[i] == c.ints[j] <==> SameCell(t[name], i, j))
  {
    var t3 := AnonymizeIds(t).value;
    assert t3[name] == AnonymizeColumn(t[name]);
  }

  /** A processed Price column holds, cell by cell, the number the raw text
      reads as (missing for a placeholder). */
  lemma ProcessPrices(t: Table)
    requires ProcessTable(t).Success?
    ensures "Price" in t && t["Price"].TextCol?
    ensures var c := ProcessTable(t).value["Price"];
      && c.RealCol? && |c.reals| == |t["Price"].texts|
      && forall i :: 0 <= i < |c.reals| ==> CleanPrice(t["Price"].texts[i]) == Success(c.reals[i])
  {
    var t3 := AnonymizeIds(t).value;
    assert ProcessTable(t) == ConvertColumns(t3);
    ConvertedPrices(t3);
    assert "Price" != "Poster" && "Price" != "AdURL" && "Price" != "AdId";
    assert t3["Price"] == t["Price"];
  }

  lemma ConvertedPrices(t: Table)
    requires ConvertColumns(t).Success?
    ensures "Price" in t && t["Price"].TextCol?
    ensures var c := ConvertColumns(t).value["Price"];
      && c.RealCol? && |c.reals| == |t["Price"].texts|
      && forall i :: 0 <= i < |c.reals| ==> CleanPrice(t["Price"].texts[i]) == Success(c.reals[i])
  {
    var t4 := PriceStep(t).value;
    var t5 := PostingDateStep(t4).value;
    var t6 := BinarizeAll(t5);
    assert t6["Price"] == t4["Price"];
    assert ConvertColumns(t).value["Price"] == t6["Price"];
  }

  /** A processed PostingDate column holds, cell by cell, the time the raw
      text reads as in `%Y-%m-%dT%H:%M:%S`. */
  lemma ProcessPostingDates(t: Table)
    requires ProcessTable(t).Success?
    ensures "PostingDate" in t && t["PostingDate"].TextCol?
    ensures var c := ProcessTable(t).value["PostingDate"];
      && c.TimeCol? && |c.times| == |t["PostingDate"].texts|
      && forall i :: 0 <= i < |c.times| ==>
           TimeCell("PostingDate", ParsePostingDate, t["PostingDate"].texts[i]) == Success(c.times[i])
  {
    var t3 := AnonymizeIds(t).value;
    assert ProcessTable(t) == ConvertColumns(t3);
    ConvertedPostingDates(t3);
    assert "PostingDate" != "Poster" && "PostingDate" != "AdURL" && "PostingDate" != "AdId";
    assert t3["PostingDate"] == t["PostingDate"];
  }

  lemma ConvertedPostingDates(t: Table)
    requires ConvertColumns(t).Success?
    ensures "PostingDate" in t && t["PostingDate"].TextCol?
    ensures var c := ConvertColumns(t).value["PostingDate"];
      && c.TimeCol? && |c.times| == |t["PostingDate"].texts|
      && forall i :: 0 <= i < |c.times| ==>
           TimeCell("PostingDate", ParsePostingDate, t["PostingDate"].texts[i]) == Success(c.times[i])
  {
    var t4 := PriceStep(t).value;
    var t5 := PostingDateStep(t4).value;
    var t6 := BinarizeAll(t5);
    assert t4["PostingDate"] == t["PostingDate"];
    assert t6["PostingDate"] == t5["PostingDate"];
    assert ConvertColumns(t).value["PostingDate"] == t6["PostingDate"];
  }

  /** After a run no text column still holds "Yes" or "No". */
  lemma ProcessNoYesNo(t: Table)
    requires ProcessTable(t).Success?
    ensures forall n :: n in ProcessTable(t).value ==> !HasYesNo(ProcessTable(t).value[n])
  {
    var t3 := AnonymizeIds(t).value;
    var t5 := PostingDateStep(PriceStep(t3).value).value;
    LateStepsNoYesNo(BinarizeAll(t5));
  }

  /** The late conversions bring no "Yes"/"No" text back: lower-casing
      leaves no capital letter. */
  lemma LateStepsNoYesNo(t: Table)
    requires LateSteps(t).Success?
    requires forall n :: n in t ==> !HasYesNo(t[n])
    ensures forall n :: n in LateSteps(t).value ==> !HasYesNo(LateSteps(t).value[n])
  {
    var t7 := MoveInStep(t).value;
    var t8 := ParkingStep(t7).value;
    var r := LateSteps(t).value;
    assert r == DescriptionStep(t8).value;
    assert forall n :: n in t8 && n != "Move-In-Date" && n != "Parking-Included" ==> t8[n] == t[n];
    var v := t8["Description"].texts;
    forall i | 0 <= i < |v| ensures LowerCell(v[i]) != Some("Yes") && LowerCell(v[i]) != Some("No") {
      if v[i].Some? {
        var l := Lower(v[i].value);
        if |l| > 0 {
          assert l[0] == LowerChar(v[i].value[0]);
        }
      }
    }
    assert r["Description"] == TextCol(seq(|v|, i requires 0 <= i < |v| => LowerCell(v[i])));
  }

  /** The late conversions see the raw Move-In-Date, Parking-Included and
      Description columns: a Yes/No column would have been binarised and then
      refused as not text. */
  lemma ConvertedLate(t: Table)
    requires ConvertColumns(t).Success?
    ensures "Description" in t && DescriptionConverted(t["Description"], ConvertColumns(t).value["Description"])
    ensures "Move-In-Date" in t ==> MoveInConverted(t["Move-In-Date"], ConvertColumns(t).value["Move-In-Date"])
    ensures "Parking-Included" in t ==>
              ParkingConverted(t["Parking-Included"], ConvertColumns(t).value["Parking-Included"])
  {
    var t4 := PriceStep(t).value;
    var t5 := PostingDateStep(t4).value;
    var t6 := BinarizeAll(t5);
    var r := ConvertColumns(t).value;
    assert r == LateSteps(t6).value;
    RawAtLateSteps(t, "Description");
    if "Move-In-Date" in t {
      RawAtLateSteps(t, "Move-In-Date");
    }
    if "Parking-Included" in t {
      RawAtLateSteps(t, "Parking-Included");
    }
  }

  /** A column that neither Price nor PostingDate names reaches the late
      steps as it was, or binarised: then it is no longer text. */
  lemma RawAtLateSteps(t: Table, n: string)
    requires PriceStep(t).Success? && PostingDateStep(PriceStep(t).value).Success?
    requires n in t && n != "Price" && n != "PostingDate"
    ensures var t6 := BinarizeAll(PostingDateStep(PriceStep(t).value).value);
            n in t6 && (t6[n].TextCol? ==> t6[n] == t[n])
  {
    var t4 := PriceStep(t).value;
    var t5 := PostingDateStep(t4).value;
    assert t5[n] == t4[n] == t[n];
  }

  /** A processed Move-In-Date column holds, cell by cell, the midnight the
      raw text reads as in `%B-%d,-%Y`. */
  lemma ProcessMoveInDates(t: Table)
    requires ProcessTable(t).Success?
    requires "Move-In-Date" in t
    ensures MoveInConverted(t["Move-In-Date"], ProcessTable(t).value["Move-In-Date"])
  {
    var t3 := AnonymizeIds(t).value;
    assert ProcessTable(t) == ConvertColumns(t3);
    ConvertedLate(t3);
  }

  /** A processed Parking-Included column holds, cell by cell, the count of
      the raw text. */
  lemma ProcessParking(t: Table)
    requires ProcessTable(t).Success?
    requires "Parking-Included" in t
    ensures ParkingConverted(t["Parking-Included"], ProcessTable(t).value["Parking-Included"])
  {
    var t3 := AnonymizeIds(t).value;
    assert ProcessTable(t) == ConvertColumns(t3);
    ConvertedLate(t3);
  }

  /** A processed Description column holds, cell by cell, the raw text
      lower-cased. */
  lemma ProcessDescription(t: Table)
    requires ProcessTable(t).Success?
    ensures "Description" in t && DescriptionConverted(t["Description"], ProcessTable(t).value["Description"])
  {
    var t3 := AnonymizeIds(t).value;
    assert ProcessTable(t) == ConvertColumns(t3);
    ConvertedLate(t3);
    assert "Description" in t && t3["Description"] == t["Description"];
  }

  // ---------------------------------------------------------------- the data frame

  /** The script's `df`: column names in order and the columns they label.
      Each step assigns `df[name] = ...` in place. */
  class Frame {
    var names: seq<string>
    var columns: Table

    ghost predicate Valid()
      reads this
    {
      && (forall i, j :: 0 <= i < j < |names| ==> names[i] != names[j])
      && (forall n :: n in columns <==> n in names)
    }

    constructor (names: seq<string>, columns: Table)
      requires forall i, j :: 0 <= i < j < |names| ==> names[i] != names[j]
      requires forall n :: n in columns <==> n in names
      ensures Valid() && this.names == names && this.columns == columns
    {
      this.names := names;
      this.columns := columns;
    }

    /** One conversion step: on success its table replaces the columns, on
        failure the frame is left as it was and the error is returned. */
    method Apply(step: Table -> Result<Table, ProcessError>) returns (err: Option<ProcessError>)
      requires Valid()
      requires step(columns).Success? ==> SameShape(columns, step(columns).value)
      modifies this
      ensures Valid() && names == old(names)
      ensures match step(old(columns))
              case Success(t) => err.None? && columns == t
              case Failure(e) => err == Some(e) && columns == old(columns)
    {
      match step(columns)
      case Success(t) =>
        columns := t;
        err := None;
      case Failure(e) =>
        err := Some(e);
    }

    /** `for c in df.columns`: every column holding "Yes" or "No" is mapped
        to 1 / 0 / missing, one column at a time. */
    method BinarizeYesNo()
      requires Valid()
      modifies this
      ensures Valid() && names == old(names)
      ensures columns == BinarizeAll(old(columns))
    {
      for k := 0 to |names|
        invariant Valid() && names == old(names)
        invariant columns.Keys == old(columns).Keys
        invariant forall n :: n in columns ==>
                    columns[n] == if n in names[..k] then BinarizeColumn(old(columns)[n]) else old(columns)[n]
      {
        var c := names[k];
        assert c !in names[..k];
        columns := columns[c := BinarizeColumn(columns[c])];
        assert names[..k + 1] == names[..k] + [c];
      }
      assert names[..|names|] == names;
    }

    /** The main block: each step in turn, stopping at the first failure. */
    method Run() returns (err: Option<ProcessError>)
      requires Valid()
      modifies this
      ensures Valid() && names == old(names)
      ensures match ProcessTable(old(columns))
              case Success(t) => err.None? && columns == t
              case Failure(e) => err == Some(e)
    {
      err := Apply(t => AnonymizeStep(t, "Poster"));
      if err.Some? { return; }
      err := Apply(t => AnonymizeStep(t, "AdURL"));
      if err.Some? { return; }
      err := Apply(t => AnonymizeStep(t, "AdId"));
      if err.Some? { return; }
      err := Apply(PriceStep);
      if err.Some? { return; }
      err := Apply(PostingDateStep);
      if err.Some? { return; }
      BinarizeYesNo();
      err := Apply(MoveInStep);
      if err.Some? { return; }
      err := Apply(ParkingStep);
      if err.Some? { return; }
      err := Apply(DescriptionStep);
    }
  }
}
