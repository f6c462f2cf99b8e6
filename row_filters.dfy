/** The two filtering blocks of the report page: the period cutoff applied
    after loading (database mode only), and the three select boxes on month,
    customer and technician. */
module RowFilters {
  import opened Wrappers
  import opened Json
  import opened Seqs
  import opened ReportRows

  // ---------------------------------------------------------------------
  // The select boxes
  // ---------------------------------------------------------------------

  /** The option that leaves a select box's column unconstrained. */
  const Alle := "Alle"

  datatype Column = Maand | Klant | Monteur

  function Cell(row: Row, c: Column): Scalar {
    match c
    case Maand => Str(row.maand)
    case Klant => row.klant
    case Monteur => row.monteur
  }

  /** pandas `df[c] == v` for a string `v`: a null or NaN cell is never equal. */
  predicate CellEquals(row: Row, c: Column, v: string) {
    Cell(row, c) == Str(v)
  }

  /** `df[df[c] == v]` */
  function Where(rows: seq<Row>, c: Column, v: string): seq<Row> {
    Filter(row => CellEquals(row, c, v), rows)
  }

  /** One select box passes a row: "Alle", or the row's cell equals the choice. */
  predicate Chosen(row: Row, c: Column, choice: string) {
    choice == Alle || CellEquals(row, c, choice)
  }

  /** The selection a row must pass: each choice other than "Alle" fixes its column. */
  predicate Selected(row: Row, maand: string, klant: string, monteur: string) {
    Chosen(row, Maand, maand) && Chosen(row, Klant, klant) && Chosen(row, Monteur, monteur)
  }

  /** One conditional step: `if choice != "Alle": df = df[df[c] == choice]`. */
  function Narrow(rows: seq<Row>, c: Column, choice: string): seq<Row> {
    if choice == Alle then rows else Where(rows, c, choice)
  }

  /** The three successive steps keep exactly the rows that pass all three
      select boxes, in their original order. */
  lemma {:induction false} NarrowThrice(rows: seq<Row>, maand: string, klant: string, monteur: string)
    ensures Narrow(Narrow(Narrow(rows, Maand, maand), Klant, klant), Monteur, monteur) ==
            Filter((row: Row) => Selected(row, maand, klant, monteur), rows)
    decreases |rows|
  {
    if rows != [] {
      var x, rest := rows[0], rows[1..];
      assert rows == [x] + rest;
      NarrowThrice(rest, maand, klant, monteur);
      NarrowAppend([x], rest, Maand, maand);
      var n1 := Narrow([x], Maand, maand);
      NarrowAppend(n1, Narrow(rest, Maand, maand), Klant, klant);
      var n2 := Narrow(n1, Klant, klant);
      NarrowAppend(n2, Narrow(Narrow(rest, Maand, maand), Klant, klant), Monteur, monteur);
    }
  }

  lemma NarrowAppend(a: seq<Row>, b: seq<Row>, c: Column, choice: string)
    ensures Narrow(a + b, c, choice) == Narrow(a, c, choice) + Narrow(b, c, choice)
  {
    if choice != Alle {
      FilterAppend((row: Row) => CellEquals(row, c, choice), a, b);
    }
  }

  /** The three successive filters on `gefilterd`. */
  method ApplySelection(rapportData: seq<Row>, maand: string, klant: string, monteur: string)
    returns (gefilterd: seq<Row>)
    ensures gefilterd == Filter((row: Row) => Selected(row, maand, klant, monteur), rapportData)
    ensures IsSubsequence(gefilterd, rapportData)
    ensures forall i :: 0 <= i < |gefilterd| ==> Selected(gefilterd[i], maand, klant, monteur)
    ensures forall i :: 0 <= i < |rapportData| && Selected(rapportData[i], maand, klant, monteur) ==>
              rapportData[i] in gefilterd
    ensures maand == Alle && klant == Alle && monteur == Alle ==> gefilterd == rapportData
    ensures forall x :: multiset(gefilterd)[x] ==
              if Selected(x, maand, klant, monteur) then multiset(rapportData)[x] else 0
  {
    gefilterd := rapportData;
    if maand != Alle {
      gefilterd := Where(gefilterd, Maand, maand);
    }
    if klant != Alle {
      gefilterd := Where(gefilterd, Klant, klant);
    }
    if monteur != Alle {
      gefilterd := Where(gefilterd, Monteur, monteur);
    }
    NarrowThrice(rapportData, maand, klant, monteur);
    FilterCounts((row: Row) => Selected(row, maand, klant, monteur), rapportData);
    if maand == Alle && klant == Alle && monteur == Alle {
      FilterAll((row: Row) => Selected(row, maand, klant, monteur), rapportData);
    }
  }

  // ---------------------------------------------------------------------
  // The period cutoff
  // ---------------------------------------------------------------------

  /** Instants are counted in microseconds, the resolution of Python's datetime. */
  const MicrosPerDay: int := 86_400_000_000

  /** The day offset of each option of the period select box; "Alles", like
      any label not in the chain, gives no cutoff. */
  function PeriodDays(periode: string): (d: Option<nat>)
    ensures d.Some? <==> periode in {"Laatste maand", "Laatste 3 maanden", "Laatste 6 maanden", "Laatste jaar"}
    ensures d.Some? ==> d.value in {30, 90, 180, 365}
    ensures d == Some(30) <==> periode == "Laatste maand"
    ensures d == Some(90) <==> periode == "Laatste 3 maanden"
    ensures d == Some(180) <==> periode == "Laatste 6 maanden"
    ensures d == Some(365) <==> periode == "Laatste jaar"
  {
    if periode == "Laatste maand" then Some(30)
    else if periode == "Laatste 3 maanden" then Some(90)
    else if periode == "Laatste 6 maanden" then Some(180)
    else if periode == "Laatste jaar" then Some(365)
    else None
  }

  /** `datum_dt >= cutoff`, where an unparseable date is NaT and NaT compares false. */
  predicate OnOrAfter(parsed: Option<int>, cutoff: int) {
    parsed.Some? && parsed.value >= cutoff
  }

  /** The boolean mask `rapport_data['datum_dt'] >= cutoff`. */
  function DatedFrom(parse: string -> Option<int>, cutoff: int): Row -> bool {
    (row: Row) => OnOrAfter(parse(row.datum), cutoff)
  }

  /** The rows whose parsed `datum` is at or after `cutoff`. */
  function SinceCutoff(rows: seq<Row>, parse: string -> Option<int>, cutoff: int): seq<Row> {
    Filter(DatedFrom(parse, cutoff), rows)
  }

  /** The period block after loading. `useDatabase` is the data-source mode,
      `now` the value of `datetime.now()` and `parse` stands for
      `pd.to_datetime(..., errors='coerce')` on one date. */
  method FilterPeriod(rapportData: seq<Row>, useDatabase: bool, periode: string, now: int,
                      parse: string -> Option<int>)
    returns (r: seq<Row>)
    ensures !useDatabase || PeriodDays(periode).None? ==> r == rapportData
    ensures useDatabase && PeriodDays(periode).Some? ==>
              r == SinceCutoff(rapportData, parse, now - PeriodDays(periode).value * MicrosPerDay)
    ensures useDatabase && PeriodDays(periode).Some? ==>
              var cutoff := now - PeriodDays(periode).value * MicrosPerDay;
              && (forall i :: 0 <= i < |r| ==> OnOrAfter(parse(r[i].datum), cutoff))
              && (forall i :: 0 <= i < |rapportData| ==>
                    (rapportData[i] in r <==> OnOrAfter(parse(rapportData[i].datum), cutoff)))
              && (forall x :: multiset(r)[x] ==
                    if OnOrAfter(parse(x.datum), cutoff) then multiset(rapportData)[x] else 0)
    ensures IsSubsequence(r, rapportData)
  {
    SubsequenceReflexive(rapportData);
    r := rapportData;
    if r != [] && useDatabase {
      var days := PeriodDays(periode);
      if days.Some? {
        var cutoff := now - days.value * MicrosPerDay;
        r := SinceCutoff(r, parse, cutoff);
        FilterCounts(DatedFrom(parse, cutoff), rapportData);
      }
    }
  }

  /** A date parses to midnight of day `d`; the page is loaded `t`
      microseconds into day `today`. The row stays for the option of `n`
      days exactly when `d` is later than `today - n`, or equal to it when the
      page is loaded at exactly midnight. */
  lemma CutoffInDays(d: int, today: int, t: int, n: nat)
    requires 0 <= t < MicrosPerDay
    ensures OnOrAfter(Some(d * MicrosPerDay), today * MicrosPerDay + t - n * MicrosPerDay) <==>
              (d > today - n || (d == today - n && t == 0))
  {
  }

  /** Two passes with cutoffs `c1` and `c2` keep what one pass with the
      later cutoff keeps. */
  lemma {:induction false} SinceCutoffTwice(rows: seq<Row>, parse: string -> Option<int>, c1: int, c2: int)
    ensures SinceCutoff(SinceCutoff(rows, parse, c1), parse, c2) ==
            SinceCutoff(rows, parse, if c1 <= c2 then c2 else c1)
  {
    var p1, p2 := DatedFrom(parse, c1), DatedFrom(parse, c2);
    var c := if c1 <= c2 then c2 else c1;
    FilterCompose(p1, p2, rows);
    forall i | 0 <= i < |rows| ensures And(p1, p2)(rows[i]) == DatedFrom(parse, c)(rows[i]) {
      var d := parse(rows[i].datum);
      assert And(p1, p2)(rows[i]) == (p1(rows[i]) && p2(rows[i]));
      assert p1(rows[i]) == OnOrAfter(d, c1) && p2(rows[i]) == OnOrAfter(d, c2);
      assert DatedFrom(parse, c)(rows[i]) == OnOrAfter(d, c);
    }
    FilterCongruence(And(p1, p2), DatedFrom(parse, c), rows);
  }

  /** The periods nest: the rows kept for a shorter period are a subsequence
      of those kept for a longer one at the same moment. */
  lemma ShorterPeriodKeepsFewer(rows: seq<Row>, parse: string -> Option<int>, now: int, n1: nat, n2: nat)
    requires n1 <= n2
    ensures IsSubsequence(SinceCutoff(rows, parse, now - n1 * MicrosPerDay),
                          SinceCutoff(rows, parse, now - n2 * MicrosPerDay))
  {
    var c1, c2 := now - n1 * MicrosPerDay, now - n2 * MicrosPerDay;
    assert c2 <= c1;
    SinceCutoffTwice(rows, parse, c2, c1);
  }
}
