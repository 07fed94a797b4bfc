/** The sample corpus file of Samples.kt: a count, then every value of every
    sample histogram in order. */
module SampleCorpus {
  import opened Wrappers
  import opened ObjectStreams

  function Zeros(n: nat): (z: seq<real>)
    ensures |z| == n && forall k :: 0 <= k < n ==> z[k] == 0.0
  {
    seq(n, _ => 0.0)
  }

  /** `n` rows of zeros, as `DoubleArray(sampleSize)` starts out. */
  function ZeroRows(n: nat, width: nat): (rows: seq<seq<real>>)
    ensures |rows| == n && forall r :: 0 <= r < n ==> rows[r] == Zeros(width)
  {
    seq(n, _ => Zeros(width))
  }

  /** All values of all rows, row after row. */
  function Flatten(rows: seq<seq<real>>): seq<real>
  {
    if rows == [] then [] else rows[0] + Flatten(rows[1..])
  }

  lemma {:induction false} FlattenSnoc(rows: seq<seq<real>>, row: seq<real>)
    ensures Flatten(rows + [row]) == Flatten(rows) + row
  {
    if rows == [] {
      assert [] + [row] == [row];
      assert Flatten([row]) == row + Flatten([row][1..]);
    } else {
      assert (rows + [row])[1..] == rows[1..] + [row];
      FlattenSnoc(rows[1..], row);
    }
  }

  lemma {:induction false} FlattenZeroRows(n: nat, width: nat)
    ensures Flatten(ZeroRows(n, width)) == Zeros(n * width)
  {
    if n > 0 {
      assert ZeroRows(n, width)[1..] == ZeroRows(n - 1, width);
      FlattenZeroRows(n - 1, width);
      assert n * width == width + (n - 1) * width;
    }
  }

  lemma DoubleTokensSnoc(ds: seq<real>, d: real)
    ensures DoubleTokens(ds + [d]) == DoubleTokens(ds) + [DoubleToken(d)]
  {
  }

  /** What `serializeSamples` writes. */
  function SamplesTokens(samples: seq<seq<real>>): seq<Token>
  {
    [IntToken(|samples|)] + DoubleTokens(Flatten(samples))
  }

  /** `serializeSamples`. */
  method SerializeSamples(writer: TokenWriter, samples: seq<seq<real>>)
    modifies writer
    ensures writer.tokens == old(writer.tokens) + SamplesTokens(samples)
  {
    writer.WriteInt(|samples|);
    for i := 0 to |samples|
      invariant writer.tokens == old(writer.tokens) + [IntToken(|samples|)] + DoubleTokens(Flatten(samples[..i]))
    {
      for j := 0 to |samples[i]|
        invariant writer.tokens == old(writer.tokens) + [IntToken(|samples|)] + DoubleTokens(Flatten(samples[..i]) + samples[i][..j])
      {
        DoubleTokensSnoc(Flatten(samples[..i]) + samples[i][..j], samples[i][j]);
        assert Flatten(samples[..i]) + samples[i][..j + 1] == Flatten(samples[..i]) + samples[i][..j] + [samples[i][j]];
        writer.WriteDouble(samples[i][j]);
      }
      assert samples[i][..|samples[i]|] == samples[i];
      assert samples[..i + 1] == samples[..i] + [samples[i]];
      FlattenSnoc(samples[..i], samples[i]);
    }
    assert samples[..|samples|] == samples;
  }

  /** `ds` cut or padded with zeros to exactly `n` values. */
  function Fit(ds: seq<real>, n: nat): (r: seq<real>)
    ensures |r| == n
  {
    if |ds| >= n then ds[..n] else ds + Zeros(n - |ds|)
  }

  /** `size` rows of `width` values filled from `ds` in order. Once `ds` runs
      out the row being filled keeps what it has and the rest stay zero. */
  function Rows(ds: seq<real>, size: nat, width: nat): (rows: seq<seq<real>>)
    ensures |rows| == size && forall r :: 0 <= r < size ==> |rows[r]| == width
  {
    if size == 0 then []
    else if |ds| < width then [Fit(ds, width)] + ZeroRows(size - 1, width)
    else [ds[..width]] + Rows(ds[width..], size - 1, width)
  }

  /** What `deserializeSamples` returns: a failed header read or a negative
      array size throws; a short body leaves zeros. */
  function DeserializeSamplesSpec(t: seq<Token>, sampleSize: int): Result<seq<seq<real>>>
  {
    if t == [] || !t[0].IntToken? then Failure(EndOfStream)
    else if t[0].i < 0 || (t[0].i > 0 && sampleSize < 0) then Failure(NegativeArraySize)
    else Success(Rows(LeadingDoubles(t[1..]), t[0].i, if sampleSize < 0 then 0 else sampleSize))
  }

  /** `deserializeSamples`: fills each row until a read fails, then returns. */
  method DeserializeSamples(t: seq<Token>, sampleSize: int) returns (r: Result<seq<seq<real>>>)
    ensures r == DeserializeSamplesSpec(t, sampleSize)
  {
    var reader := new TokenReader(t);
    assert reader.Rest() == t;
    var header := reader.ReadInt();
    if header.Failure? {
      return Failure(header.error);
    }
    var size := header.value;
    assert t[0] == IntToken(size) && reader.Rest() == t[1..];
    if size < 0 || (size > 0 && sampleSize < 0) {
      return Failure(NegativeArraySize);
    }
    var width: nat := if sampleSize < 0 then 0 else sampleSize;
    ghost var ds := LeadingDoubles(t[1..]);
    var result: seq<seq<real>> := [];
    assert result + Rows(LeadingDoubles(reader.Rest()), size - 0, width) == Rows(ds, size, width);
    for sampleIndex := 0 to size
      invariant result + Rows(LeadingDoubles(reader.Rest()), size - sampleIndex, width) == Rows(ds, size, width)
    {
      var row, ok := ReadSample(reader, width, size - sampleIndex);
      if !ok {
        AppendAssoc(result, [row], ZeroRows(size - sampleIndex - 1, width));
        return Success(result + [row] + ZeroRows(size - sampleIndex - 1, width));
      }
      AppendAssoc(result, [row], Rows(LeadingDoubles(reader.Rest()), size - sampleIndex - 1, width));
      result := result + [row];
    }
    assert result + Rows(LeadingDoubles(reader.Rest()), size - size, width) == result;
    return Success(result);
  }

  /** One row of `deserializeSamples`, read into a fresh `DoubleArray`: the
      first of the `left` rows still to come, and whether the rest can follow. */
  method ReadSample(reader: TokenReader, width: nat, left: nat) returns (row: seq<real>, ok: bool)
    requires left >= 1
    modifies reader
    ensures var ds := LeadingDoubles(old(reader.Rest()));
            ok ==> Rows(ds, left, width) == [row] + Rows(LeadingDoubles(reader.Rest()), left - 1, width)
    ensures var ds := LeadingDoubles(old(reader.Rest()));
            !ok ==> Rows(ds, left, width) == [row] + ZeroRows(left - 1, width)
  {
    ghost var ds := LeadingDoubles(reader.Rest());
    var a := new real[width](_ => 0.0);
    ok := ReadRow(reader, a);
    row := a[..];
    if ok {
      RowsFull(ds, left, width);
    } else {
      RowsShort(ds, left, width);
    }
  }

  lemma AppendAssoc<T>(a: seq<T>, b: seq<T>, c: seq<T>)
    ensures a + b + c == a + (b + c)
  {
  }

  lemma RowsShort(ds: seq<real>, size: nat, width: nat)
    requires size >= 1 && |ds| < width
    ensures Rows(ds, size, width) == [Fit(ds, width)] + ZeroRows(size - 1, width)
  {
  }

  lemma RowsFull(ds: seq<real>, size: nat, width: nat)
    requires size >= 1 && |ds| >= width
    ensures Rows(ds, size, width) == [ds[..width]] + Rows(ds[width..], size - 1, width)
  {
  }

  /** The inner loop of `deserializeSamples`: fills `row` from the reader and
      reports whether every read succeeded. */
  method ReadRow(reader: TokenReader, row: array<real>) returns (ok: bool)
    requires forall k :: 0 <= k < row.Length ==> row[k] == 0.0
    modifies reader, row
    ensures var ds := LeadingDoubles(old(reader.Rest()));
            ok ==> |ds| >= row.Length && row[..] == ds[..row.Length] && LeadingDoubles(reader.Rest()) == ds[row.Length..]
    ensures var ds := LeadingDoubles(old(reader.Rest()));
            !ok ==> |ds| < row.Length && row[..] == Fit(ds, row.Length)
  {
    ghost var rest0 := LeadingDoubles(reader.Rest());
    var n := row.Length;
    for index := 0 to n
      invariant index <= |rest0| && LeadingDoubles(reader.Rest()) == rest0[index..]
      invariant forall k :: 0 <= k < index ==> row[k] == rest0[k]
      invariant forall k :: index <= k < n ==> row[k] == 0.0
    {
      var v := reader.ReadDouble();
      if v.Failure? {
        ShortRow(rest0, row[..], index);
        return false;
      }
      row[index] := v.value;
    }
    assert row[..] == rest0[..n];
    return true;
  }

  /** A row whose first values came from the stream and whose rest is zero is
      the stream's values padded with zeros. */
  lemma ShortRow(ds: seq<real>, row: seq<real>, index: nat)
    requires index == |ds| < |row|
    requires forall k :: 0 <= k < index ==> row[k] == ds[k]
    requires forall k :: index <= k < |row| ==> row[k] == 0.0
    ensures row == Fit(ds, |row|)
  {
  }

  /** The rows hold the body's values in order, zero padded. */
  lemma {:induction false} RowsFlatten(ds: seq<real>, size: nat, width: nat)
    ensures Flatten(Rows(ds, size, width)) == Fit(ds, size * width)
  {
    if size > 0 {
      if |ds| < width {
        ShortRowsFlatten(ds, size, width);
      } else {
        RowsFlatten(ds[width..], size - 1, width);
        FullRowFlatten(ds, size, width);
      }
    }
  }

  /** A body shorter than the first row: that row padded, then zero rows. */
  lemma ShortRowsFlatten(ds: seq<real>, size: nat, width: nat)
    requires size > 0 && |ds| < width
    ensures Flatten(Rows(ds, size, width)) == Fit(ds, size * width)
  {
    var rows := Rows(ds, size, width);
    var m := (size - 1) * width;
    MulSucc(size, width);
    assert rows[0] == ds + Zeros(width - |ds|);
    assert rows[1..] == ZeroRows(size - 1, width);
    assert Flatten(rows) == rows[0] + Flatten(rows[1..]);
    FlattenZeroRows(size - 1, width);
    assert Zeros(width - |ds|) + Zeros(m) == Zeros(size * width - |ds|);
  }

  /** A full first row followed by the rows of the rest of the body. */
  lemma FullRowFlatten(ds: seq<real>, size: nat, width: nat)
    requires size > 0 && |ds| >= width
    requires Flatten(Rows(ds[width..], size - 1, width)) == Fit(ds[width..], (size - 1) * width)
    ensures Flatten(Rows(ds, size, width)) == Fit(ds, size * width)
  {
    var rows := Rows(ds, size, width);
    var n, m := size * width, (size - 1) * width;
    MulSucc(size, width);
    assert rows[1..] == Rows(ds[width..], size - 1, width);
    assert Flatten(rows) == ds[..width] + Fit(ds[width..], m);
    if |ds| >= n {
      assert ds[..width] + ds[width..][..m] == ds[..n];
    } else {
      assert ds[..width] + ds[width..] == ds;
    }
  }

  lemma MulSucc(a: nat, b: nat)
    requires a >= 1
    ensures a * b == b + (a - 1) * b
  {
  }

  /** `deserializeSamples` always answers with `size` rows of `sampleSize`
      values once the header is read and the sizes are not negative. */
  lemma DeserializeShape(t: seq<Token>, sampleSize: int)
    requires t != [] && t[0].IntToken? && t[0].i >= 0 && sampleSize >= 0
    ensures var r := DeserializeSamplesSpec(t, sampleSize);
            r.Success? && |r.value| == t[0].i && forall k :: 0 <= k < |r.value| ==> |r.value[k]| == sampleSize
  {
  }

  lemma {:induction false} RowsOfFlatten(samples: seq<seq<real>>, width: nat)
    requires forall k :: 0 <= k < |samples| ==> |samples[k]| == width
    ensures Rows(Flatten(samples), |samples|, width) == samples
  {
    if samples != [] {
      var ds := Flatten(samples);
      assert ds == samples[0] + Flatten(samples[1..]);
      assert ds[..width] == samples[0] && ds[width..] == Flatten(samples[1..]);
      RowsOfFlatten(samples[1..], width);
    }
  }

  /** Round trip: samples of the requested size come back unchanged. */
  lemma SamplesRoundTrip(samples: seq<seq<real>>, sampleSize: nat)
    requires forall k :: 0 <= k < |samples| ==> |samples[k]| == sampleSize
    ensures DeserializeSamplesSpec(SamplesTokens(samples), sampleSize) == Success(samples)
  {
    var t := SamplesTokens(samples);
    var ds := Flatten(samples);
    assert t[0] == IntToken(|samples|);
    assert t[1..] == DoubleTokens(ds) + [];
    LeadingDoublesOfWritten(ds, []);
    assert LeadingDoubles(t[1..]) == ds + [] == ds;
    RowsOfFlatten(samples, sampleSize);
  }

  /** A body cut short still gives `size` rows: the values that were there,
      in order, and zeros after them. */
  lemma TruncatedInput(ds: seq<real>, size: nat, sampleSize: nat)
    requires |ds| <= size * sampleSize
    ensures var r := DeserializeSamplesSpec([IntToken(size)] + DoubleTokens(ds), sampleSize);
            r.Success? && |r.value| == size && Flatten(r.value) == ds + Zeros(size * sampleSize - |ds|)
  {
    var t := [IntToken(size)] + DoubleTokens(ds);
    assert t[1..] == DoubleTokens(ds) + [];
    LeadingDoublesOfWritten(ds, []);
    assert LeadingDoubles(t[1..]) == ds + [] == ds;
    RowsFlatten(ds, size, sampleSize);
    var n := size * sampleSize;
    if |ds| == n {
      assert ds[..n] == ds + Zeros(0);
    }
  }
}
