/** The reference corpus of References.kt: reference histograms with an
    average grouping error, stored as a count followed by, per reference, its
    average error and its values. */
module ReferenceCorpus {
  import opened Wrappers
  import opened ObjectStreams
  import opened RealSeqs
  import opened Histograms
  import opened SampleCorpus
  import Variants

  datatype Reference = Reference(id: int, averageError: real, data: seq<real>)

  /** `Reference.equals`: two references are the same reference when their
      ids agree, whatever their errors and data. */
  predicate SameReference(a: Reference, b: Reference)
  {
    a.id == b.id
  }

  /** `Reference.hashCode`. */
  function HashCode(a: Reference): int
  {
    a.id
  }

  /** Equality by id is an equivalence that the hash code respects. */
  lemma ReferenceEquality(a: Reference, b: Reference, c: Reference)
    ensures SameReference(a, a)
    ensures SameReference(a, b) == SameReference(b, a)
    ensures SameReference(a, b) && SameReference(b, c) ==> SameReference(a, c)
    ensures SameReference(a, b) ==> HashCode(a) == HashCode(b)
    ensures a.id == b.id && a.averageError != b.averageError ==> SameReference(a, b)
  {
  }

  datatype References = References(medianMin: real, medianMax: real, refs: seq<Reference>)

  /** `getMedianQuantum`. */
  function MedianQuantum(r: References): real
  {
    (r.medianMax - r.medianMin) / 18.0
  }

  /** Eighteen quanta span the median range. */
  lemma MedianQuantumSpansRange(r: References)
    ensures 18.0 * MedianQuantum(r) == r.medianMax - r.medianMin
    ensures r.medianMin <= r.medianMax ==> MedianQuantum(r) >= 0.0
  {
  }

  /** `getReferences`: the one chosen reference, or the diapason's slice. */
  function GetReferences(all: seq<Reference>, diapason: Variants.Diapason, referenceIndex: int): (r: Result<seq<Reference>>)
    ensures referenceIndex >= 0 && referenceIndex < |all| ==> r == Success([all[referenceIndex]])
    ensures referenceIndex >= |all| ==> r == Failure(IndexOutOfBounds)
    ensures referenceIndex < 0 ==>
              var start, end := Variants.StartIndex(diapason, |all|), Variants.EndIndex(diapason, |all|);
              r.Success? && |r.value| == end - start && forall k :: 0 <= k < |r.value| ==> r.value[k] == all[start + k]
  {
    if referenceIndex >= 0 then
      (if referenceIndex < |all| then Success([all[referenceIndex]]) else Failure(IndexOutOfBounds))
    else
      Variants.DiapasonBounds(diapason, |all|);
      Success(all[Variants.StartIndex(diapason, |all|)..Variants.EndIndex(diapason, |all|)])
  }

  /** With ALL and no chosen reference every reference is returned. */
  lemma GetAllReferences(all: seq<Reference>, referenceIndex: int)
    requires referenceIndex < 0
    ensures GetReferences(all, Variants.All, referenceIndex) == Success(all)
  {
    assert all[0..|all|] == all;
  }

  // ---- the file format ----

  /** Every reference's average error followed by its values. */
  function Body(refs: seq<Reference>): seq<real>
  {
    if refs == [] then [] else [refs[0].averageError] + refs[0].data + Body(refs[1..])
  }

  lemma {:induction false} BodySnoc(refs: seq<Reference>, r: Reference)
    ensures Body(refs + [r]) == Body(refs) + [r.averageError] + r.data
  {
    if refs == [] {
      assert Body([r]) == [r.averageError] + r.data + Body([]);
      assert [] + [r] == [r];
    } else {
      assert (refs + [r])[1..] == refs[1..] + [r];
      BodySnoc(refs[1..], r);
    }
  }

  /** What `serializeReferences` writes; the ids are not written. */
  function ReferenceTokens(refs: seq<Reference>): seq<Token>
  {
    [IntToken(|refs|)] + DoubleTokens(Body(refs))
  }

  /** `serializeReferences`. */
  method SerializeReferences(writer: TokenWriter, refs: seq<Reference>)
    modifies writer
    ensures writer.tokens == old(writer.tokens) + ReferenceTokens(refs)
  {
    writer.WriteInt(|refs|);
    for i := 0 to |refs|
      invariant writer.tokens == old(writer.tokens) + [IntToken(|refs|)] + DoubleTokens(Body(refs[..i]))
    {
      var sample := refs[i];
      DoubleTokensSnoc(Body(refs[..i]), sample.averageError);
      writer.WriteDouble(sample.averageError);
      for j := 0 to |sample.data|
        invariant writer.tokens == old(writer.tokens) + [IntToken(|refs|)]
                                   + DoubleTokens(Body(refs[..i]) + [sample.averageError] + sample.data[..j])
      {
        DoubleTokensSnoc(Body(refs[..i]) + [sample.averageError] + sample.data[..j], sample.data[j]);
        assert sample.data[..j + 1] == sample.data[..j] + [sample.data[j]];
        writer.WriteDouble(sample.data[j]);
      }
      assert sample.data[..|sample.data|] == sample.data;
      assert refs[..i + 1] == refs[..i] + [sample];
      BodySnoc(refs[..i], sample);
    }
    assert refs[..|refs|] == refs;
  }

  /** The average errors and data rows read from the doubles `ds` for `size`
      references of `width` values. Reading stops at the first missing value:
      the row being filled keeps what it has and later rows stay zero. */
  function ReadReferences(ds: seq<real>, size: nat, width: nat): (r: (seq<real>, seq<seq<real>>))
    ensures |r.0| <= size && |r.1| == size
  {
    if size == 0 then ([], [])
    else if ds == [] then ([], ZeroRows(size, width))
    else if |ds| - 1 < width then ([ds[0]], [Fit(ds[1..], width)] + ZeroRows(size - 1, width))
    else
      var rest := ReadReferences(ds[1 + width..], size - 1, width);
      ([ds[0]] + rest.0, [ds[1..1 + width]] + rest.1)
  }

  /** `dataArrays.map { getHistogramMedianValue(HistogramData(0.0, 1.0, it), 0.5) }`. */
  function Medians(rows: seq<seq<real>>): (m: seq<real>)
    requires forall k :: 0 <= k < |rows| ==> |rows[k]| != 1
    ensures |m| == |rows|
  {
    seq(|rows|, k requires 0 <= k < |rows| => MedianValueOf(HistogramData(0.0, 1.0, rows[k]), 0.5))
  }

  /** The `References` built after reading: `averageErrors[it]` throws when
      fewer average errors than rows were read. */
  function BuildReferences(errors: seq<real>, rows: seq<seq<real>>): Result<References>
    requires forall k :: 0 <= k < |rows| ==> |rows[k]| != 1
  {
    var medians := Medians(rows);
    if |errors| < |rows| then Failure(IndexOutOfBounds)
    else
      Success(References(
        if medians == [] then 0.0 else Min(medians),
        if medians == [] then 1.0 else Max(medians),
        seq(|rows|, k requires 0 <= k < |rows| => Reference(k, errors[k], rows[k]))))
  }

  /** What `deserializeReferences` returns. */
  function DeserializeReferencesSpec(t: seq<Token>, sampleSize: int): Result<References>
    requires sampleSize != 1
  {
    if t == [] || !t[0].IntToken? then Failure(EndOfStream)
    else if t[0].i < 0 || (t[0].i > 0 && sampleSize < 0) then Failure(NegativeArraySize)
    else
      var width: nat := if sampleSize < 0 then 0 else sampleSize;
      var read := ReadReferences(LeadingDoubles(t[1..]), t[0].i, width);
      ReadShape(LeadingDoubles(t[1..]), t[0].i, width);
      BuildReferences(read.0, read.1)
  }

  /** Every row read holds `width` values. */
  lemma {:induction false} ReadShape(ds: seq<real>, size: nat, width: nat)
    ensures forall k :: 0 <= k < size ==> |ReadReferences(ds, size, width).1[k]| == width
  {
    if size > 0 && ds != [] && |ds| - 1 >= width {
      ReadShape(ds[1 + width..], size - 1, width);
    }
  }

  lemma ReadEmpty(size: nat, width: nat)
    requires size >= 1
    ensures ReadReferences([], size, width) == ([], ZeroRows(size, width))
  {
  }

  lemma ReadShort(e: real, ds: seq<real>, size: nat, width: nat)
    requires size >= 1 && |ds| < width
    ensures ReadReferences([e] + ds, size, width) == ([e], [Fit(ds, width)] + ZeroRows(size - 1, width))
  {
    assert ([e] + ds)[1..] == ds;
  }

  lemma ReadFull(e: real, row: seq<real>, rest: seq<real>, size: nat, width: nat)
    requires size >= 1 && |row| == width
    ensures var r := ReadReferences(rest, size - 1, width);
            ReadReferences([e] + row + rest, size, width) == ([e] + r.0, [row] + r.1)
  {
    var ds := [e] + row + rest;
    assert ds[1 + width..] == rest && ds[1..1 + width] == row && ds[0] == e;
  }

  /** One pass of the loop of `deserializeReferences`: the average error,
      then the values of one reference. `ok` is false once a read failed. */
  method ReadReference(reader: TokenReader, size: nat, width: nat) returns (errors: seq<real>, row: seq<real>, ok: bool)
    requires size >= 1
    modifies reader
    ensures var before, after := old(LeadingDoubles(reader.Rest())), LeadingDoubles(reader.Rest());
            var next := ReadReferences(after, size - 1, width);
            (ok ==> ReadReferences(before, size, width) == (errors + next.0, [row] + next.1)) &&
            (!ok ==> ReadReferences(before, size, width) == (errors, [row] + ZeroRows(size - 1, width)))
  {
    ghost var rest0 := LeadingDoubles(reader.Rest());
    var average := reader.ReadDouble();
    if average.Failure? {
      ReadEmpty(size, width);
      assert ZeroRows(size, width) == [Zeros(width)] + ZeroRows(size - 1, width);
      return [], Zeros(width), false;
    }
    var data := new real[width](_ => 0.0);
    ghost var rest1 := LeadingDoubles(reader.Rest());
    ok := ReadRow(reader, data);
    errors, row := [average.value], data[..];
    if !ok {
      ReadShort(average.value, rest1, size, width);
      return;
    }
    ghost var rest2 := LeadingDoubles(reader.Rest());
    assert rest0 == [average.value] + row + rest2;
    ReadFull(average.value, row, rest2, size, width);
  }

  /** The loop of `deserializeReferences`: reads `size` references, stopping
      at the first failed read. */
  method ReadAll(reader: TokenReader, size: nat, width: nat) returns (averageErrors: seq<real>, dataArrays: seq<seq<real>>)
    modifies reader
    ensures (averageErrors, dataArrays) == ReadReferences(old(LeadingDoubles(reader.Rest())), size, width)
  {
    ghost var all := ReadReferences(LeadingDoubles(reader.Rest()), size, width);
    averageErrors, dataArrays := [], [];
    for referenceIndex := 0 to size
      invariant averageErrors + ReadReferences(LeadingDoubles(reader.Rest()), size - referenceIndex, width).0 == all.0
      invariant dataArrays + ReadReferences(LeadingDoubles(reader.Rest()), size - referenceIndex, width).1 == all.1
    {
      ghost var before := LeadingDoubles(reader.Rest());
      var errors, row, ok := ReadReference(reader, size - referenceIndex, width);
      ghost var after := LeadingDoubles(reader.Rest());
      if !ok {
        LastStep(averageErrors, dataArrays, errors, row, before, size - referenceIndex, width, all);
        return averageErrors + errors, dataArrays + [row] + ZeroRows(size - referenceIndex - 1, width);
      }
      NextStep(averageErrors, dataArrays, errors, row, before, after, size - referenceIndex, width, all);
      averageErrors := averageErrors + errors;
      dataArrays := dataArrays + [row];
    }
    assert ReadReferences(LeadingDoubles(reader.Rest()), 0, width) == ([], []);
    assert averageErrors + [] == averageErrors && dataArrays + [] == dataArrays;
  }

  lemma NextStep(errors: seq<real>, rows: seq<seq<real>>, e: seq<real>, row: seq<real>,
                 before: seq<real>, after: seq<real>, size: nat, width: nat, all: (seq<real>, seq<seq<real>>))
    requires size >= 1
    requires var r, next := ReadReferences(before, size, width), ReadReferences(after, size - 1, width);
             r == (e + next.0, [row] + next.1) && errors + r.0 == all.0 && rows + r.1 == all.1
    ensures var next := ReadReferences(after, size - 1, width);
            errors + e + next.0 == all.0 && rows + [row] + next.1 == all.1
  {
    var next := ReadReferences(after, size - 1, width);
    assert errors + (e + next.0) == errors + e + next.0;
    assert rows + ([row] + next.1) == rows + [row] + next.1;
  }

  lemma LastStep(errors: seq<real>, rows: seq<seq<real>>, e: seq<real>, row: seq<real>,
                 before: seq<real>, size: nat, width: nat, all: (seq<real>, seq<seq<real>>))
    requires size >= 1
    requires var r := ReadReferences(before, size, width);
             r == (e, [row] + ZeroRows(size - 1, width)) && errors + r.0 == all.0 && rows + r.1 == all.1
    ensures errors + e == all.0 && rows + [row] + ZeroRows(size - 1, width) == all.1
  {
    assert rows + ([row] + ZeroRows(size - 1, width)) == rows + [row] + ZeroRows(size - 1, width);
  }

  /** `deserializeReferences`: reads every reference until a read fails. */
  method DeserializeReferences(t: seq<Token>, sampleSize: int) returns (r: Result<References>)
    requires sampleSize != 1
    ensures r == DeserializeReferencesSpec(t, sampleSize)
  {
    var reader := new TokenReader(t);
    assert reader.Rest() == t;
    var header := reader.ReadInt();
    if header.Failure? {
      return Failure(header.error);
    }
    var size := header.value;
    assert t[0] == IntToken(size) && reader.Rest() == t[1..];
    if size < 0 || (size > 0 && sampleSize < 0) {
      return Failure(NegativeArraySize);
    }
    var width: nat := if sampleSize < 0 then 0 else sampleSize;
    var averageErrors, dataArrays := ReadAll(reader, size, width);
    ReadShape(LeadingDoubles(t[1..]), size, width);
    r := BuildReferences(averageErrors, dataArrays);
  }

  // ---- properties of the format ----

  function AverageErrors(refs: seq<Reference>): (e: seq<real>)
    ensures |e| == |refs|
  {
    seq(|refs|, k requires 0 <= k < |refs| => refs[k].averageError)
  }

  function DataRows(refs: seq<Reference>): (d: seq<seq<real>>)
    ensures |d| == |refs|
  {
    seq(|refs|, k requires 0 <= k < |refs| => refs[k].data)
  }

  lemma {:induction false} ReadWritten(refs: seq<Reference>, width: nat)
    requires forall k :: 0 <= k < |refs| ==> |refs[k].data| == width
    ensures ReadReferences(Body(refs), |refs|, width) == (AverageErrors(refs), DataRows(refs))
  {
    if refs != [] {
      ReadWritten(refs[1..], width);
      assert Body(refs) == [refs[0].averageError] + refs[0].data + Body(refs[1..]);
      ReadFull(refs[0].averageError, refs[0].data, Body(refs[1..]), |refs|, width);
      assert AverageErrors(refs) == [refs[0].averageError] + AverageErrors(refs[1..]);
      assert DataRows(refs) == [refs[0].data] + DataRows(refs[1..]);
    }
  }

  /** Round trip: every average error and every data row comes back, in order,
      with the positions as ids. */
  lemma ReferencesRoundTrip(refs: seq<Reference>, sampleSize: nat)
    requires sampleSize != 1
    requires forall k :: 0 <= k < |refs| ==> |refs[k].data| == sampleSize
    ensures var r := DeserializeReferencesSpec(ReferenceTokens(refs), sampleSize);
            r.Success? && |r.value.refs| == |refs| &&
            forall k :: 0 <= k < |refs| ==>
              r.value.refs[k] == Reference(k, refs[k].averageError, refs[k].data)
  {
    var t := ReferenceTokens(refs);
    assert t[0] == IntToken(|refs|);
    assert t[1..] == DoubleTokens(Body(refs)) + [];
    LeadingDoublesOfWritten(Body(refs), []);
    assert LeadingDoubles(t[1..]) == Body(refs) + [] == Body(refs);
    ReadWritten(refs, sampleSize);
  }

  lemma MulSuccessor(a: nat, b: nat)
    requires a >= 2
    ensures (a - 1) * b == b + (a - 2) * b
  {
  }

  /** Fewer average errors than references are read exactly when the body
      ends before the last reference's average error. */
  lemma {:induction false} ShortReadIff(ds: seq<real>, size: nat, width: nat)
    requires size >= 1
    ensures |ReadReferences(ds, size, width).0| < size <==> |ds| <= (size - 1) * (width + 1)
  {
    if ds != [] && |ds| - 1 >= width && size >= 2 {
      ShortReadIff(ds[1 + width..], size - 1, width);
      MulSuccessor(size, width + 1);
    } else if ds != [] && |ds| - 1 < width && size >= 2 {
      MulSuccessor(size, width + 1);
    }
  }

  /** A body that stops before the last reference's average error makes
      `deserializeReferences` throw; one that reaches it does not. */
  lemma TruncatedReferences(ds: seq<real>, size: nat, sampleSize: nat)
    requires size >= 1 && sampleSize != 1
    ensures var r := DeserializeReferencesSpec([IntToken(size)] + DoubleTokens(ds), sampleSize);
            (r == Failure(IndexOutOfBounds) <==> |ds| <= (size - 1) * (sampleSize + 1)) &&
            (r.Failure? ==> r == Failure(IndexOutOfBounds))
  {
    var t := [IntToken(size)] + DoubleTokens(ds);
    assert t[1..] == DoubleTokens(ds) + [];
    LeadingDoublesOfWritten(ds, []);
    assert LeadingDoubles(t[1..]) == ds + [] == ds;
    ShortReadIff(ds, size, sampleSize);
  }

  /** The median range is ordered, covers the median of every reference and
      defaults to [0, 1] when there are no references. */
  lemma MedianRange(errors: seq<real>, rows: seq<seq<real>>)
    requires forall k :: 0 <= k < |rows| ==> |rows[k]| != 1
    requires BuildReferences(errors, rows).Success?
    ensures var r := BuildReferences(errors, rows).value;
            r.medianMin <= r.medianMax &&
            (rows == [] ==> r.medianMin == 0.0 && r.medianMax == 1.0) &&
            forall k :: 0 <= k < |rows| ==> r.medianMin <= Medians(rows)[k] <= r.medianMax
  {
    var medians := Medians(rows);
    if medians != [] {
      assert Min(medians) <= medians[0] <= Max(medians);
    }
  }
}
