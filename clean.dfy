/** `kijiji_rentals_clean.py`: the default output file name, the chain of
    row filters on the processed table, and the removal of duplicate rows. */
module Clean {
  import opened Wrappers
  import opened Sequences
  import opened Tabular
  import opened Strings

  // ---------------------------------------------------------------- file name

  /** The output file name: the given one, or when none is given the input
      name with every "_processed.csv" removed, cut at its first '_', and
      followed by "_cleaned.csv". */
  function OutputName(input: string, output: string): (r: string)
    ensures output != "" ==> r == output
    ensures output == "" ==> |r| >= |"_cleaned.csv"|
    ensures output == "" ==> var n := |r| - |"_cleaned.csv"|;
              && r[n..] == "_cleaned.csv"
              && '_' !in r[..n]
              && r[..n] <= RemoveAll(input, "_processed.csv")
              && (n == |RemoveAll(input, "_processed.csv")| || RemoveAll(input, "_processed.csv")[n] == '_')
  {
    if output == "" then
      var stem := FirstPiece(RemoveAll(input, "_processed.csv"), '_');
      assert (stem + "_cleaned.csv")[..|stem|] == stem;
      assert (stem + "_cleaned.csv")[|stem|..] == "_cleaned.csv";
      stem + "_cleaned.csv"
    else output
  }

  /** A name of the form stem "_processed.csv", with no '_' in the stem,
      becomes stem "_cleaned.csv": "ads_processed.csv" gives "ads_cleaned.csv". */
  lemma OutputNameOfProcessed(stem: string)
    requires '_' !in stem
    ensures OutputName(stem + "_processed.csv", "") == stem + "_cleaned.csv"
  {
    var p := "_processed.csv";
    RemoveAllBefore(stem, p, p);
    assert RemoveAll(p, p) == [] by {
      assert p <= p && p[|p|..] == [];
    }
    assert stem + [] == stem;
  }

  /** A text that does not hold the first character of `p` is kept whole
      in front of what follows it. */
  lemma {:induction false} RemoveAllBefore(a: string, b: string, p: string)
    requires p != [] && p[0] !in a
    ensures RemoveAll(a + b, p) == a + RemoveAll(b, p)
    decreases |a|
  {
    if a == [] {
      assert a + b == b;
    } else {
      var ab := a + b;
      assert ab[0] == a[0] && ab[1..] == a[1..] + b;
      assert !(p <= ab) by {
        assert ab[0] != p[0];
      }
      RemoveAllUnmatched(ab, p);
      RemoveAllBefore(a[1..], b, p);
      HeadThenRest(a, RemoveAll(b, p));
    }
  }

  lemma OutputNameExample()
    ensures OutputName("ads_processed.csv", "") == "ads_cleaned.csv"
  {
    ExampleNames();
    OutputNameOfProcessed("ads");
  }

  lemma ExampleNames()
    ensures '_' !in "ads"
    ensures "ads" + "_processed.csv" == "ads_processed.csv"
    ensures "ads" + "_cleaned.csv" == "ads_cleaned.csv"
  {
  }

  // ---------------------------------------------------------------- numbers

  /** A `float64` cell: missing (NaN), infinite, or a finite value. */
  datatype Float = NaN | NegInf | PosInf | Finite(v: real)

  /** `a <= b` on floats: false whenever either side is NaN. */
  predicate LessEq(a: Float, b: Float) {
    match (a, b)
    case (NaN, _) => false
    case (_, NaN) => false
    case (NegInf, _) => true
    case (_, PosInf) => true
    case (Finite(x), Finite(y)) => x <= y
    case _ => false
  }

  /** `a < b` on floats. */
  predicate Less(a: Float, b: Float) {
    LessEq(a, b) && a != b
  }

  predicate IsInf(a: Float) {
    a == NegInf || a == PosInf
  }

  const PriceFloor: Float := Finite(10000.0)

  /** `max(q, 10000)` as Python computes it: `q` unless 10000 is greater, so a
      NaN quantile stays NaN. */
  function PriceCap(q: Float): (cap: Float)
    ensures q != NaN ==> LessEq(PriceFloor, cap) && LessEq(q, cap)
    ensures q == NaN ==> cap == NaN
    ensures cap == q || cap == PriceFloor
  {
    if Less(q, PriceFloor) then PriceFloor else q
  }

  // ---------------------------------------------------------------- rows

  /** The columns of a processed row that cleaning reads; `others` stands for
      the remaining columns, which cleaning carries along unread. */
  datatype Row = Row(adId: int, poster: int, price: Float, pricePerBedroom: Float,
                     pricePerSqFt: Float, unitType: Option<string>,
                     agreementType: Option<string>, city: Option<string>,
                     rentalCategory: Option<string>, others: map<string, string>)

  /** The row filters of the script, in their order. */
  function CleanSteps(cap: Float): seq<Row -> bool> {
    [ (r: Row) => LessEq(r.price, cap),
      (r: Row) => r.price != NaN,
      (r: Row) => r.pricePerBedroom != NaN,
      (r: Row) => !IsInf(r.pricePerBedroom),
      (r: Row) => r.unitType.Some?,
      (r: Row) => r.unitType != Some("False"),
      (r: Row) => r.agreementType.Some?,
      (r: Row) => r.agreementType != Some("False"),
      (r: Row) => r.city.Some?,
      (r: Row) => r.rentalCategory.Some?,
      (r: Row) => r.pricePerSqFt != NaN ]
  }

  /** What a row that passes every filter looks like. */
  predicate Qualifies(r: Row, cap: Float) {
    && r.price != NaN && LessEq(r.price, cap)
    && r.pricePerBedroom != NaN && !IsInf(r.pricePerBedroom)
    && r.pricePerSqFt != NaN
    && r.unitType.Some? && r.unitType.value != "False"
    && r.agreementType.Some? && r.agreementType.value != "False"
    && r.city.Some? && r.rentalCategory.Some?
  }

  lemma PassesAllQualifies(r: Row, cap: Float)
    ensures PassesAll(CleanSteps(cap), r) <==> Qualifies(r, cap)
  {
    var steps := CleanSteps(cap);
    if Qualifies(r, cap) {
      forall k | 0 <= k < |steps| ensures steps[k](r) { }
    } else {
      assert !steps[0](r) || !steps[1](r) || !steps[2](r) || !steps[3](r) || !steps[4](r) || !steps[5](r)
          || !steps[6](r) || !steps[7](r) || !steps[8](r) || !steps[9](r) || !steps[10](r);
    }
  }

  /** The key rows are told apart by when dropping duplicates. */
  function Key(r: Row): (int, int, Option<string>, Float) {
    (r.adId, r.poster, r.city, r.price)
  }

  /** The filtered rows before duplicates are dropped. */
  function Filtered(rows: seq<Row>, q: Float): seq<Row> {
    Chain(rows, CleanSteps(PriceCap(q)))
  }

  /** The cleaned table for the price quantile `q` of the input. */
  function CleanRows(rows: seq<Row>, q: Float): seq<Row> {
    DropDuplicates(Filtered(rows, q), Key)
  }

  /** The filter chain keeps exactly the qualifying rows, in their order. */
  lemma FilteredSpec(rows: seq<Row>, q: Float)
    ensures Filtered(rows, q) == Filter(rows, r => Qualifies(r, PriceCap(q)))
  {
    var cap := PriceCap(q);
    ChainFilter(rows, CleanSteps(cap));
    forall r ensures PassesAll(CleanSteps(cap), r) == Qualifies(r, cap) {
      PassesAllQualifies(r, cap);
    }
    FilterExtensional(rows, r => PassesAll(CleanSteps(cap), r), r => Qualifies(r, cap));
  }

  lemma {:induction false} FilterExtensional<T>(s: seq<T>, p: T -> bool, q: T -> bool)
    requires forall x :: p(x) == q(x)
    ensures Filter(s, p) == Filter(s, q)
    decreases |s|
  {
    if s != [] {
      FilterExtensional(s[1..], p, q);
    }
  }

  /** The cleaned table: an order-preserving selection of the input rows,
      all of them qualifying, no two sharing (AdId, Poster, City, Price);
      every qualifying row's key is kept, by its earliest qualifying row; and
      the whole is `drop_duplicates` applied to the qualifying rows. */
  lemma CleanSpec(rows: seq<Row>, q: Float)
    ensures IsSubseq(CleanRows(rows, q), rows)
    ensures forall r :: r in CleanRows(rows, q) ==> Qualifies(r, PriceCap(q))
    ensures DistinctKeys(CleanRows(rows, q), Key)
    ensures forall r :: r in rows && Qualifies(r, PriceCap(q)) ==> HasKey(CleanRows(rows, q), Key, Key(r))
    ensures forall r :: r in CleanRows(rows, q) ==>
              HasKey(Filtered(rows, q), Key, Key(r)) && r == FirstWith(Filtered(rows, q), Key, Key(r))
    ensures CleanRows(rows, q) == DropDuplicates(Filter(rows, r => Qualifies(r, PriceCap(q))), Key)
  {
    var f := Filtered(rows, q);
    var c := CleanRows(rows, q);
    FilteredSpec(rows, q);
    FilterSubseq(rows, x => Qualifies(x, PriceCap(q)));
    DropDuplicatesSpec(f, Key);
    SubseqTrans(c, f, rows);
    SubseqMembers(c, f);
  }

  /** Cleaning row by row: one more input row is appended to the cleaned
      table exactly when it qualifies and no earlier qualifying row has its
      (AdId, Poster, City, Price) key. */
  lemma CleanSnoc(rows: seq<Row>, r: Row, q: Float)
    ensures CleanRows([], q) == []
    ensures CleanRows(rows + [r], q) == CleanRows(rows, q)
              + (if Qualifies(r, PriceCap(q)) && !HasKey(Filtered(rows, q), Key, Key(r)) then [r] else [])
  {
    var f, f' := Filtered(rows, q), Filtered(rows + [r], q);
    var b := Qualifies(r, PriceCap(q));
    FilteredSnoc(rows, r, q);
    DropDuplicatesMaybeSnoc(f, f', r, b, Key);
    DropDuplicatesSnoc([], r, Key);
  }

  /** The filter chain on one more row keeps it exactly when it qualifies. */
  lemma FilteredSnoc(rows: seq<Row>, r: Row, q: Float)
    ensures Filtered([], q) == []
    ensures Filtered(rows + [r], q) == Filtered(rows, q) + (if Qualifies(r, PriceCap(q)) then [r] else [])
  {
    var keep := x => Qualifies(x, PriceCap(q));
    FilteredSpec(rows, q);
    FilteredSpec(rows + [r], q);
    FilteredSpec([], q);
    FilterSnoc(rows, r, keep);
  }

  /** Every cleaned row qualifies. */
  lemma CleanQualifies(rows: seq<Row>, q: Float)
    ensures forall i :: 0 <= i < |CleanRows(rows, q)| ==> Qualifies(CleanRows(rows, q)[i], PriceCap(q))
  {
    var c := CleanRows(rows, q);
    CleanSpec(rows, q);
    forall i | 0 <= i < |c| ensures Qualifies(c[i], PriceCap(q)) {
      assert c[i] in c;
    }
  }

  /** Cleaning a cleaned table again, with the same cap, changes nothing. */
  lemma CleanIdempotent(rows: seq<Row>, q: Float)
    ensures CleanRows(CleanRows(rows, q), q) == CleanRows(rows, q)
  {
    var c := CleanRows(rows, q);
    CleanQualifies(rows, q);
    FilteredSpec(c, q);
    FilterKeepsAll(c, x => Qualifies(x, PriceCap(q)));
    assert Filtered(c, q) == c;
    DropDuplicatesIdempotent(Filtered(rows, q), Key);
  }
}
