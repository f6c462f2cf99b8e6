/** load_data_from_json: the loop that turns the technician notes of the
    sample data (`monteur_notities`) into report rows, one per note that
    carries a work order (werkbon). */
module ReportRows {
  import opened Wrappers
  import opened Json
  import opened Seqs
  import CleanText

  /** One element of `monteur_notities`. `tekst` is None when the key is
      absent. `werkbon` is the note's work-order object; an absent key and a
      JSON null are modelled as the empty object, which the loop skips in the
      same way. */
  datatype Note = Note(tekst: Option<Scalar>, werkbon: Object)

  /** One report row, the dictionary the loop appends. Columns copied from
      the work order keep whatever scalar they hold, null included. */
  datatype Row = Row(
    werkbonCode: Scalar,
    klant: Scalar,
    monteur: Scalar,
    datum: string,
    maand: string,
    status: string,
    notitie: string,
    werkbonType: Scalar)

  /** The exceptions the loop can raise: slicing a NaN melddatum (a float) and
      calling strip() on a null or NaN status. They end the whole load. */
  datatype LoadError = MelddatumNotSliceable | StatusNotString

  const Onbekend := "Onbekend"

  function Min(a: nat, b: nat): nat {
    if a <= b then a else b
  }

  /** `if not werkbon: continue` lets only a non-empty work order through. */
  predicate HasWerkbon(n: Note) {
    n.werkbon != map[]
  }

  function Melddatum(n: Note): Scalar {
    Get(n.werkbon, "melddatum", Str(""))
  }

  function StatusValue(n: Note): Scalar {
    Get(n.werkbon, "status", Str(""))
  }

  /** `notitie.get("tekst", "")` */
  function TekstValue(n: Note): Scalar {
    match n.tekst
    case None => Str("")
    case Some(v) => v
  }

  /** Python's `s[:k]` */
  function Head(s: string, k: nat): string {
    if |s| <= k then s else s[..k]
  }

  /** `melddatum[:k] if melddatum else ifFalsy` */
  function SliceMelddatum(m: Scalar, k: nat, ifFalsy: string): Result<string, LoadError> {
    if !Truthy(m) then Success(ifFalsy)
    else if m.Str? then Success(Head(m.s, k))
    else Failure(MelddatumNotSliceable)
  }

  /** `werkbon.get("status", "").strip()` */
  function StripStatus(v: Scalar): Result<string, LoadError> {
    if v.Str? then Success(CleanText.Strip(v.s)) else Failure(StatusNotString)
  }

  /** The column `key` of the work order, `default` when the key is absent. */
  ghost predicate DefaultsTo(w: Object, key: string, v: Scalar, default: string) {
    if key in w then v == w[key] else v == Str(default)
  }

  /** The dictionary literal appended for a note with a work order, its
      entries evaluated in source order. */
  function ToRow(n: Note): (r: Result<Row, LoadError>)
    ensures r.Failure? <==> Melddatum(n).NaN? || !StatusValue(n).Str?
    ensures r.Failure? ==> (r.error == MelddatumNotSliceable <==> Melddatum(n).NaN?)
    ensures r.Success? ==>
      && DefaultsTo(n.werkbon, "werkbon_code", r.value.werkbonCode, "")
      && DefaultsTo(n.werkbon, "klant", r.value.klant, Onbekend)
      && DefaultsTo(n.werkbon, "monteur", r.value.monteur, Onbekend)
      && DefaultsTo(n.werkbon, "type", r.value.werkbonType, "")
      && r.value.notitie == CleanText.CleanTekst(TekstValue(n))
      && r.value.status == CleanText.Strip(StatusValue(n).s)
    ensures r.Success? && Truthy(Melddatum(n)) ==>
      var m := Melddatum(n).s;
      && r.value.datum <= m && |r.value.datum| == Min(10, |m|)
      && r.value.maand <= r.value.datum && |r.value.maand| == Min(7, |m|)
    ensures r.Success? && !Truthy(Melddatum(n)) ==>
      r.value.datum == "" && r.value.maand == Onbekend
  {
    var tekst := CleanText.CleanTekst(TekstValue(n));
    var melddatum := Melddatum(n);
    var datum :- SliceMelddatum(melddatum, 10, "");
    // cannot fail once the slice for datum has succeeded
    var maand := SliceMelddatum(melddatum, 7, Onbekend).value;
    var status :- StripStatus(StatusValue(n));
    Success(Row(
      Get(n.werkbon, "werkbon_code", Str("")),
      Get(n.werkbon, "klant", Str(Onbekend)),
      Get(n.werkbon, "monteur", Str(Onbekend)),
      datum,
      maand,
      status,
      tekst,
      Get(n.werkbon, "type", Str(""))))
  }

  /** The loop body for one note: skip it, append its row, or stop. */
  function Step(rows: seq<Row>, n: Note): Result<seq<Row>, LoadError> {
    if !HasWerkbon(n) then Success(rows)
    else
      match ToRow(n)
      case Failure(e) => Failure(e)
      case Success(row) => Success(rows + [row])
  }

  /** What the loop has built after the notes `notes`, or the exception it
      stopped on. */
  function ConvertNotes(notes: seq<Note>): Result<seq<Row>, LoadError>
    decreases |notes|
  {
    if notes == [] then Success([])
    else
      match ConvertNotes(notes[..|notes| - 1])
      case Failure(e) => Failure(e)
      case Success(rows) => Step(rows, notes[|notes| - 1])
  }

  /** Once the loop has stopped on an exception, later notes change nothing. */
  lemma {:induction false} FailureIsFinal(notes: seq<Note>, i: nat)
    requires i <= |notes|
    requires ConvertNotes(notes[..i]).Failure?
    ensures ConvertNotes(notes) == ConvertNotes(notes[..i])
    decreases |notes| - i
  {
    if i < |notes| {
      assert notes[..i + 1][..i] == notes[..i];
      FailureIsFinal(notes, i + 1);
    } else {
      assert notes[..i] == notes;
    }
  }

  /** The loop of load_data_from_json over the parsed `monteur_notities`. */
  method LoadDataFromJson(notes: seq<Note>) returns (r: Result<seq<Row>, LoadError>)
    ensures r == ConvertNotes(notes)
  {
    var rapportItems: seq<Row> := [];
    var i := 0;
    while i < |notes|
      invariant i <= |notes|
      invariant ConvertNotes(notes[..i]) == Success(rapportItems)
    {
      var notitie := notes[i];
      assert notes[..i + 1][..i] == notes[..i];
      if !HasWerkbon(notitie) {
        i := i + 1;
        continue;
      }
      var row := ToRow(notitie);
      if row.Failure? {
        FailureIsFinal(notes, i + 1);
        return Failure(row.error);
      }
      rapportItems := rapportItems + [row.value];
      i := i + 1;
    }
    assert notes[..i] == notes;
    return Success(rapportItems);
  }

  /** The notes with a work order, in input order. */
  function Kept(notes: seq<Note>): seq<Note> {
    Filter(HasWerkbon, notes)
  }

  /** The load succeeds exactly when every note with a work order converts. */
  lemma {:induction false} ConvertNotesSucceeds(notes: seq<Note>)
    ensures ConvertNotes(notes).Success? <==> forall i :: 0 <= i < |Kept(notes)| ==> ToRow(Kept(notes)[i]).Success?
    decreases |notes|
  {
    if notes != [] {
      var init, last := notes[..|notes| - 1], notes[|notes| - 1];
      assert notes == init + [last];
      FilterSnoc(HasWerkbon, init, last);
      ConvertNotesSucceeds(init);
      var k, ki := Kept(notes), Kept(init);
      if HasWerkbon(last) {
        assert k == ki + [last];
        assert k[|ki|] == last;
        assert forall i :: 0 <= i < |ki| ==> k[i] == ki[i];
        assert ConvertNotes(notes).Success? <==> ConvertNotes(init).Success? && ToRow(last).Success?;
      } else {
        assert k == ki;
      }
    }
  }

  /** A successful load yields one row per note with a work order, in input
      order. */
  lemma {:induction false} ConvertNotesRows(notes: seq<Note>)
    ensures ConvertNotes(notes).Success? ==>
              |ConvertNotes(notes).value| == |Kept(notes)| &&
              forall i :: 0 <= i < |Kept(notes)| ==> ToRow(Kept(notes)[i]) == Success(ConvertNotes(notes).value[i])
    decreases |notes|
  {
    if notes != [] && ConvertNotes(notes).Success? {
      var init, last := notes[..|notes| - 1], notes[|notes| - 1];
      assert notes == init + [last];
      FilterSnoc(HasWerkbon, init, last);
      ConvertNotesRows(init);
      var k, ki := Kept(notes), Kept(init);
      var rows := ConvertNotes(init).value;
      if HasWerkbon(last) {
        var out := ConvertNotes(notes).value;
        assert k == ki + [last];
        assert out == rows + [ToRow(last).value];
        forall i | 0 <= i < |k| ensures ToRow(k[i]) == Success(out[i]) {
          if i < |ki| {
            assert k[i] == ki[i] && out[i] == rows[i];
          } else {
            assert k[i] == last && out[i] == ToRow(last).value;
          }
        }
      } else {
        assert k == ki;
        assert ConvertNotes(notes) == ConvertNotes(init);
      }
    }
  }

  /** A failed load reports the exception of the first note with a work
      order that does not convert. */
  lemma {:induction false} ConvertNotesError(notes: seq<Note>)
    ensures ConvertNotes(notes).Failure? ==>
              exists i :: 0 <= i < |Kept(notes)| &&
                ToRow(Kept(notes)[i]) == Failure(ConvertNotes(notes).error) &&
                forall j :: 0 <= j < i ==> ToRow(Kept(notes)[j]).Success?
    decreases |notes|
  {
    if notes != [] {
      var init, last := notes[..|notes| - 1], notes[|notes| - 1];
      assert notes == init + [last];
      FilterSnoc(HasWerkbon, init, last);
      var k, ki := Kept(notes), Kept(init);
      assert forall i :: 0 <= i < |ki| ==> k[i] == ki[i];
      if ConvertNotes(init).Failure? {
        ConvertNotesError(init);
      } else if ConvertNotes(notes).Failure? {
        ConvertNotesSucceeds(init);
        assert HasWerkbon(last) && k == ki + [last];
        assert k[|ki|] == last;
        assert ToRow(k[|ki|]) == Failure(ConvertNotes(notes).error);
      }
    }
  }
}
