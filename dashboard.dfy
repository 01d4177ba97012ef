/**
 * The deduplication checker page: the submissions table is deduplicated
 * twice on its identity columns (`Verified ID Number`, `Verified Phone
 * Number`), once on the values as entered ("Excel-style") and once after a
 * copy of the table has had those two columns normalised ("strict"), and the
 * three row counts are shown side by side.
 */
module Dashboard {
  import Phone
  import NationalId
  import Dedup

  /**
   * One submission.  The two identity cells are held as the text pandas
   * renders them; every other column is carried along untouched.
   */
  datatype Row = Row(id: string, phone: string, others: seq<string>)

  /** A value of the dedup subset: (ID, phone). */
  type Key = (string, string)

  /** The subset `['Verified ID Number', 'Verified Phone Number']`. */
  function IdentityKey(r: Row): Key {
    (r.id, r.phone)
  }

  /** A row after lines 22-24: both identity cells overwritten by their normal forms. */
  function NormalizeRow(r: Row): Row {
    r.(id := NationalId.Normalize(r.id), phone := Phone.Normalize(r.phone))
  }

  /** The table `df_norm`: every row normalised, in the same order. */
  function NormalizeTable(df: seq<Row>): seq<Row> {
    Dedup.MapRows(NormalizeRow, df)
  }

  /** The canonical key of a raw row: its identity key after normalisation. */
  function CanonicalKey(r: Row): Key {
    IdentityKey(NormalizeRow(r))
  }

  /** Normalisation of a key, component by component. */
  function NormalizeKey(k: Key): Key {
    (NationalId.Normalize(k.0), Phone.Normalize(k.1))
  }

  /** The three figures the page shows. */
  datatype Metrics = Metrics(total: nat, excelStyle: nat, strict: nat)

  /**
   * A column assignment `df_norm[col] = ...` on the copied table: each row's
   * cell is overwritten in place with a value computed from that row.
   */
  method UpdateEachRow(t: array<Row>, f: Row -> Row)
    modifies t
    ensures t[..] == Dedup.MapRows(f, old(t[..]))
  {
    for i := 0 to t.Length
      invariant forall k :: 0 <= k < i ==> t[k] == f(old(t[k]))
      invariant forall k :: i <= k < t.Length ==> t[k] == old(t[k])
    {
      t[i] := f(t[i]);
    }
  }

  /**
   * Lines 22-24 on the copied table: the phone column has its non-digits
   * deleted, then its prefix rewritten, then the ID column is stripped and
   * upper-cased.
   */
  method NormalizeColumns(t: array<Row>)
    modifies t
    ensures t[..] == NormalizeTable(old(t[..]))
  {
    ghost var t0 := t[..];
    UpdateEachRow(t, (r: Row) => r.(phone := Phone.StripNonDigits(r.phone)));
    UpdateEachRow(t, (r: Row) => r.(phone := Phone.ApplyCountryCode(r.phone)));
    UpdateEachRow(t, (r: Row) => r.(id := NationalId.Normalize(r.id)));
    forall k | 0 <= k < t.Length ensures t[k] == NormalizeRow(t0[k]) { }
  }

  /**
   * The page's computation (lines 14-35): the Excel-style table, the strict
   * table built from a normalised copy, and the three counts.
   */
  method ComputeMetrics(df: seq<Row>) returns (excelStyle: seq<Row>, strict: seq<Row>, m: Metrics)
    ensures excelStyle == Dedup.KeepFirst(df, IdentityKey)
    ensures strict == Dedup.KeepFirst(NormalizeTable(df), IdentityKey)
    ensures m == Metrics(|df|, |excelStyle|, |strict|)
    ensures m.strict <= m.excelStyle <= m.total
  {
    excelStyle := Dedup.DropDuplicates(df, IdentityKey);
    var dfNorm := new Row[|df|](i requires 0 <= i < |df| => df[i]);
    assert dfNorm[..] == df;
    NormalizeColumns(dfNorm);
    strict := Dedup.DropDuplicates(dfNorm[..], IdentityKey);
    MetricsOrdered(df);
    m := Metrics(|df|, |excelStyle|, |strict|);
  }

  /**
   * The strict table is the raw table deduplicated on the canonical key, with
   * the surviving rows normalised: of the rows that normalise to the same
   * identity, the first one survives.
   */
  lemma StrictIsDedupOnCanonicalKey(df: seq<Row>)
    ensures Dedup.KeepFirst(NormalizeTable(df), IdentityKey)
         == NormalizeTable(Dedup.KeepFirst(df, CanonicalKey))
  {
    Dedup.KeepFirstMap(df, NormalizeRow, IdentityKey, CanonicalKey);
  }

  /** Strict count <= Excel-style count <= total count. */
  lemma MetricsOrdered(df: seq<Row>)
    ensures |Dedup.KeepFirst(NormalizeTable(df), IdentityKey)| <= |Dedup.KeepFirst(df, IdentityKey)| <= |df|
  {
    StrictIsDedupOnCanonicalKey(df);
    Dedup.CoarserKeyKeepsFewer(df, IdentityKey, CanonicalKey, NormalizeKey);
  }

  /**
   * One registrant entered three times, with the subscriber number `x`
   * written with the trunk `0`, bare, and with the country code (for example
   * `0712345678`, `712345678`, `254712345678`).
   */
  function ThreeFormats(id: string, x: string, others: seq<string>): seq<Row> {
    [Row(id, "0" + x, others), Row(id, x, others), Row(id, Phone.CountryCode + x, others)]
  }

  /**
   * On the three renderings of one number, Excel-style deduplication keeps
   * all three rows and strict deduplication keeps only the first: the gap
   * between the second and third figure on the page.
   */
  lemma PhoneFormatsScenario(id: string, x: string, others: seq<string>)
    requires Phone.AllDigits(x)
    requires !(|x| >= 1 && x[0] == '0') && !(Phone.CountryCode <= x)
    ensures Dedup.KeepFirst(ThreeFormats(id, x, others), IdentityKey) == ThreeFormats(id, x, others)
    ensures Dedup.KeepFirst(NormalizeTable(ThreeFormats(id, x, others)), IdentityKey)
         == [NormalizeRow(ThreeFormats(id, x, others)[0])]
  {
    var df := ThreeFormats(id, x, others);
    ThreeFormatsRawDistinct(id, x, others);
    ThreeFormatsOneCanonicalKey(id, x, others);
    StrictIsDedupOnCanonicalKey(df);
    NormalizeTableSingleton(df[0]);
  }

  lemma CanonicalKeyOf(r: Row)
    ensures CanonicalKey(r) == (NationalId.Normalize(r.id), Phone.Normalize(r.phone))
  {
  }

  lemma NormalizeTableSingleton(r: Row)
    ensures NormalizeTable([r]) == [NormalizeRow(r)]
  {
  }

  lemma ThreeFormatsRawDistinct(id: string, x: string, others: seq<string>)
    ensures Dedup.KeepFirst(ThreeFormats(id, x, others), IdentityKey) == ThreeFormats(id, x, others)
  {
    var df := ThreeFormats(id, x, others);
    assert Dedup.DistinctKeys(df, IdentityKey) by {
      assert |df[0].phone| == |x| + 1 && |df[1].phone| == |x| && |df[2].phone| == |x| + 3;
    }
    Dedup.KeepFirstOfDistinct(df, IdentityKey);
  }

  lemma ThreeFormatsOneCanonicalKey(id: string, x: string, others: seq<string>)
    requires Phone.AllDigits(x)
    requires !(|x| >= 1 && x[0] == '0') && !(Phone.CountryCode <= x)
    ensures var df := ThreeFormats(id, x, others); Dedup.KeepFirst(df, CanonicalKey) == [df[0]]
  {
    var df := ThreeFormats(id, x, others);
    Phone.EquivalentForms(x);
    var canon := (NationalId.Normalize(id), Phone.CountryCode + x);
    assert |df| == 3;
    assert CanonicalKey(df[0]) == canon by {
      assert df[0] == Row(id, "0" + x, others);
      CanonicalKeyOf(df[0]);
    }
    assert CanonicalKey(df[1]) == canon by {
      assert df[1] == Row(id, x, others);
      CanonicalKeyOf(df[1]);
    }
    assert CanonicalKey(df[2]) == canon by {
      assert df[2] == Row(id, Phone.CountryCode + x, others);
      CanonicalKeyOf(df[2]);
    }
    forall i | 0 <= i < |df| ensures CanonicalKey(df[i]) == CanonicalKey(df[0]) {
      assert i == 0 || i == 1 || i == 2;
    }
    Dedup.KeepFirstOfOneKey(df, CanonicalKey);
  }
}
