/** The record store: an append-only table of rows keyed by medical record number
    (MRN). Reading the file is left to the caller; the table is the sequence of
    rows the file held, empty when there is no file yet. */
module Store {
  import opened Strings
  import opened Cells
  import opened ListReader

  type Table = seq<Row>

  const MrnKey: string := "MRN"

  /** A cell as pandas' `astype(str)` renders it: text as is, integers in decimal,
      and a NaN cell as `nan`. */
  function CellText(v: Option<Value>): string {
    match v
    case None => "nan"
    case Some(Text(s)) => s
    case Some(Num(n)) => DecimalText(n)
  }

  /** The MRN of a row as the store compares it: the cell as text, stripped. */
  function StoredMrn(row: Row): (m: string)
    ensures Trimmed(m)
  {
    Strip(CellText(Get(row, MrnKey)))
  }

  /** `df["MRN"] = df["MRN"].astype(str).str.strip()` applied to one row: the MRN
      becomes its stripped text and every other column is left alone. */
  function NormaliseRow(row: Row): (r: Row)
    ensures r.Keys == row.Keys + {MrnKey}
    ensures forall k :: k in row && k != MrnKey ==> r[k] == row[k]
    ensures r[MrnKey] == Some(Text(StoredMrn(row)))
  {
    row[MrnKey := Some(Text(StoredMrn(row)))]
  }

  /** Normalising twice is normalising once, and keeps the stored MRN. */
  lemma NormaliseRowIdempotent(row: Row)
    ensures StoredMrn(NormaliseRow(row)) == StoredMrn(row)
    ensures NormaliseRow(NormaliseRow(row)) == NormaliseRow(row)
  {
    StripIdempotent(CellText(Get(row, MrnKey)));
  }

  /** `load_data` followed by the normalisation `save_data` applies: each row
      normalised in place. Afterwards every row is a fixed point of the
      normalisation and the MRN column is the one the table had. */
  function Normalise(t: Table): (r: Table)
    ensures |r| == |t|
    ensures forall i :: 0 <= i < |t| ==> r[i] == NormaliseRow(t[i])
    ensures forall i :: 0 <= i < |r| ==> NormaliseRow(r[i]) == r[i]
    ensures MrnColumn(r) == MrnColumn(t)
  {
    var r := seq(|t|, i requires 0 <= i < |t| => NormaliseRow(t[i]));
    assert forall i :: 0 <= i < |r| ==> NormaliseRow(r[i]) == r[i] && StoredMrn(r[i]) == StoredMrn(t[i]) by {
      forall i | 0 <= i < |r| ensures NormaliseRow(r[i]) == r[i] && StoredMrn(r[i]) == StoredMrn(t[i]) {
        NormaliseRowIdempotent(t[i]);
      }
    }
    r
  }

  /** The row's stored MRN equals the query with surrounding whitespace removed;
      the comparison is otherwise exact, so letter case matters. */
  predicate Matches(row: Row, mrn: string) {
    StoredMrn(row) == Strip(mrn)
  }

  /** The MRN column after normalisation, one stored MRN per row: it holds exactly
      the stored MRNs of the rows, each stripped. */
  function MrnColumn(t: Table): (c: seq<string>)
    ensures |c| == |t|
    ensures forall i :: 0 <= i < |t| ==> c[i] == StoredMrn(t[i])
    ensures forall k :: k in c <==> exists i :: 0 <= i < |t| && StoredMrn(t[i]) == k
    ensures forall i :: 0 <= i < |c| ==> Trimmed(c[i])
  {
    seq(|t|, i requires 0 <= i < |t| => StoredMrn(t[i]))
  }

  /** The position of the earliest occurrence of `k` in `keys`, if any. */
  function IndexOf(keys: seq<string>, k: string): (r: Option<nat>)
    ensures r.None? <==> k !in keys
    ensures r.Some? ==> r.value < |keys| && keys[r.value] == k && k !in keys[..r.value]
  {
    if keys == [] then None
    else if keys[0] == k then Some(0)
    else
      match IndexOf(keys[1..], k)
      case None => None
      case Some(i) =>
        assert keys[..i + 1] == [keys[0]] + keys[1..][..i];
        Some(i + 1)
  }

  /** `get_patient_data(mrn)`: the normalised copy of the earliest row whose stored
      MRN matches the stripped query, and nothing when no row matches. */
  function GetPatientData(t: Table, mrn: string): (r: Option<Row>)
    ensures r.None? <==> forall i :: 0 <= i < |t| ==> !Matches(t[i], mrn)
    ensures r.Some? ==> exists i :: && 0 <= i < |t| && Matches(t[i], mrn)
                                   && r.value == NormaliseRow(t[i])
                                   && forall j :: 0 <= j < i ==> !Matches(t[j], mrn)
  {
    var keys := MrnColumn(t);
    var q := Strip(mrn);
    match IndexOf(keys, q)
    case None =>
      assert forall i :: 0 <= i < |t| ==> !Matches(t[i], mrn) by {
        forall i | 0 <= i < |t| ensures !Matches(t[i], mrn) {
          assert keys[i] in keys;
        }
      }
      None
    case Some(i) =>
      assert Matches(t[i], mrn);
      assert forall j :: 0 <= j < i ==> !Matches(t[j], mrn) by {
        forall j | 0 <= j < i ensures !Matches(t[j], mrn) {
          assert keys[j] in keys[..i];
        }
      }
      Some(Normalise(t)[i])
  }

  /** The form looks a record up only once an MRN has been typed. */
  function FetchPatient(t: Table, mrn: string): (r: Option<Row>)
    ensures mrn == "" ==> r.None?
    ensures mrn != "" ==> r == GetPatientData(t, mrn)
  {
    if mrn == "" then None else GetPatientData(t, mrn)
  }

  /** `save_data(data)`: every stored row normalised, then the record appended as a
      new last row with its MRN stripped. No existing row is replaced, even one
      with the same MRN. */
  function SaveData(t: Table, data: Row): (r: Table)
    requires MrnKey in data
    ensures |r| == |t| + 1
    ensures forall i :: 0 <= i < |t| ==> r[i] == NormaliseRow(t[i])
    ensures r[|t|].Keys == data.Keys
    ensures forall k :: k in data && k != MrnKey ==> r[|t|][k] == data[k]
    ensures r[|t|][MrnKey] == Some(Text(Strip(CellText(data[MrnKey]))))
  {
    Normalise(t) + [data[MrnKey := Some(Text(Strip(CellText(data[MrnKey]))))]]
  }

  /** Saving keeps every existing row's stored MRN and adds the record's. */
  lemma SaveMrnColumn(t: Table, data: Row)
    requires MrnKey in data
    ensures MrnColumn(SaveData(t, data)) == MrnColumn(t) + [StoredMrn(data)]
  {
    var t' := SaveData(t, data);
    forall i | 0 <= i < |t|
      ensures StoredMrn(t'[i]) == StoredMrn(t[i])
    {
      NormaliseRowIdempotent(t[i]);
    }
    StripIdempotent(CellText(data[MrnKey]));
  }

  lemma {:induction false} IndexOfAppend(keys: seq<string>, x: string, k: string)
    ensures k in keys ==> IndexOf(keys + [x], k) == IndexOf(keys, k)
    ensures k !in keys && x == k ==> IndexOf(keys + [x], k) == Some(|keys|)
  {
    var ks := keys + [x];
    assert ks[..|keys|] == keys;
    if k in keys {
      var i := IndexOf(keys, k).value;
      var j := IndexOf(ks, k).value;
      assert ks[..i] == keys[..i];
      assert ks[..j] == keys[..j];
    }
  }

  /** Append, not update: a lookup that found a record before a save finds the
      same record after it, whatever MRN the saved record carries. */
  lemma SaveKeepsEarlierLookup(t: Table, data: Row, mrn: string)
    requires MrnKey in data
    requires GetPatientData(t, mrn).Some?
    ensures GetPatientData(SaveData(t, data), mrn) == GetPatientData(t, mrn)
  {
    var t' := SaveData(t, data);
    SaveMrnColumn(t, data);
    IndexOfAppend(MrnColumn(t), StoredMrn(data), Strip(mrn));
    var i := IndexOf(MrnColumn(t), Strip(mrn)).value;
    NormaliseRowIdempotent(t[i]);
  }

  lemma SavedRowNormalised(t: Table, data: Row)
    requires MrnKey in data
    ensures Normalise(SaveData(t, data))[|t|] == SaveData(t, data)[|t|]
  {
    assert SaveData(t, data)[|t|] == NormaliseRow(data);
    NormaliseRowIdempotent(data);
  }

  /** A record saved under an MRN nobody had yet is what a lookup of that MRN
      returns afterwards. */
  lemma SaveThenFind(t: Table, data: Row, mrn: string)
    requires MrnKey in data
    requires GetPatientData(t, mrn).None? && Matches(data, mrn)
    ensures GetPatientData(SaveData(t, data), mrn) == Some(SaveData(t, data)[|t|])
  {
    var q := Strip(mrn);
    assert IndexOf(MrnColumn(t), q).None?;
    SaveMrnColumn(t, data);
    IndexOfAppend(MrnColumn(t), StoredMrn(data), q);
    assert GetPatientData(SaveData(t, data), mrn) == Some(Normalise(SaveData(t, data))[|t|]);
    SavedRowNormalised(t, data);
  }

  /** Saving twice under the same MRN leaves two rows for it; the lookup keeps
      answering with the earlier one. */
  lemma SaveTwiceKeepsBoth(t: Table, first: Row, second: Row, mrn: string)
    requires MrnKey in first && MrnKey in second
    requires GetPatientData(t, mrn).None? && Matches(first, mrn) && Matches(second, mrn)
    ensures var t2 := SaveData(SaveData(t, first), second);
            && |t2| == |t| + 2
            && Matches(t2[|t|], mrn) && Matches(t2[|t| + 1], mrn)
            && GetPatientData(t2, mrn) == Some(SaveData(t, first)[|t|])
  {
    var t1 := SaveData(t, first);
    SaveThenFind(t, first, mrn);
    SaveKeepsEarlierLookup(t1, second, mrn);
    SaveMrnColumn(t, first);
    SaveMrnColumn(t1, second);
    assert MrnColumn(t1)[|t|] == StoredMrn(first);
  }

  /** A list column saved as Python list text reads back, through lookup and the
      corrected list reader, as the same items in the same order, commas inside
      items included. */
  lemma SavedListRoundTrip(t: Table, data: Row, mrn: string, key: string, items: seq<string>)
    requires MrnKey in data && key != MrnKey
    requires GetPatientData(t, mrn).None? && Matches(data, mrn)
    requires key in data && data[key] == Some(Text(EncodeList(items))) && AllQuotable(items)
    ensures GetPatientData(SaveData(t, data), mrn).Some?
    ensures SafeGetListIntended(GetPatientData(SaveData(t, data), mrn).value, key) == items
  {
    SaveThenFind(t, data, mrn);
    ReadEncode(items);
  }

  /** A numeric MRN is compared through its decimal text: stored `123` is found by
      `123` and by ` 123 `, but not by `0123`, although the values are equal. */
  lemma NumericMrnExamples()
    ensures Matches(map[MrnKey := Some(Num(123))], "123")
    ensures Matches(map[MrnKey := Some(Num(123))], " 123 ")
    ensures !Matches(map[MrnKey := Some(Num(123))], "0123")
  {
    var row := map[MrnKey := Some(Num(123))];
    assert Get(row, MrnKey) == Some(Num(123));
    DecimalText123();
    StripTrimmed("123");
    assert StoredMrn(row) == "123";
    StripPadded123();
    StripTrimmed("0123");
  }

  // The literal facts below are proved on their own to keep the example cheap.

  lemma DecimalText123()
    ensures CellText(Some(Num(123))) == "123"
  {
    assert Digits(1) == "1";
    assert Digits(12) == "12";
    assert Digits(123) == "123";
  }

  lemma StripPadded123()
    ensures Strip(" 123 ") == "123"
  {
  }

  /** Stored ` A123 ` is found by `A123`, but not by `a123`. */
  lemma MatchExamples()
    ensures Matches(map[MrnKey := Some(Text(" A123 "))], "A123")
    ensures !Matches(map[MrnKey := Some(Text(" A123 "))], "a123")
  {
    assert Strip(" A123 ") == "A123";
    StripTrimmed("A123");
    StripTrimmed("a123");
  }
}
