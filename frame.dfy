/** Rows of the two tables and the row-level operations of the tabular library
    that the dashboard relies on: selecting rows through a boolean mask, the
    age-range mask itself, and the minimum and maximum of the age column. */
module Frame {

  /** The census-tract identifier SEZIONE_20, as a value with equality. */
  type Key = int

  /** A tract polygon, never inspected by the pipeline. */
  type Geometry = seq<seq<(real, real)>>

  datatype Option<T> = None | Some(value: T)

  /** One row of the residents table after renaming: its tract key, its age
      (the Eta column) and its remaining fields, kept opaque. */
  datatype Resident = Resident(tract: Key, eta: int, fields: seq<string>)

  /** One row of the shapefile: its tract key, its polygon and its other
      attributes. */
  datatype Tract = Tract(tract: Key, geometry: Geometry, fields: seq<string>)

  function ResidentEta(r: Resident): int
  {
    r.eta
  }

  predicate InRange(age: int, lo: int, hi: int)
  {
    lo <= age && age <= hi
  }

  /** `rows[mask]`: the rows whose mask entry is true, in their original order. */
  function Select<T>(rows: seq<T>, mask: seq<bool>): (r: seq<T>)
    requires |mask| == |rows|
    ensures |r| <= |rows|
  {
    if |rows| == 0 then []
    else (if mask[0] then [rows[0]] else []) + Select(rows[1..], mask[1..])
  }

  /** The element-wise mask `(Eta >= lo) & (Eta <= hi)` over a table's age column. */
  function AgeMask<T>(rows: seq<T>, eta: T -> int, lo: int, hi: int): (m: seq<bool>)
    ensures |m| == |rows|
  {
    seq(|rows|, i requires 0 <= i < |rows| => eta(rows[i]) >= lo && eta(rows[i]) <= hi)
  }

  /** The rows of a table whose age lies in the closed range [lo, hi]. */
  function FilterEta<T>(rows: seq<T>, eta: T -> int, lo: int, hi: int): (r: seq<T>)
    ensures |r| <= |rows|
  {
    Select(rows, AgeMask(rows, eta, lo, hi))
  }

  /** Filtering a non-empty table keeps or drops its first row and filters the rest. */
  lemma FilterEtaCons<T>(rows: seq<T>, eta: T -> int, lo: int, hi: int)
    requires |rows| > 0
    ensures FilterEta(rows, eta, lo, hi) ==
      (if InRange(eta(rows[0]), lo, hi) then [rows[0]] else []) + FilterEta(rows[1..], eta, lo, hi)
  {
    assert AgeMask(rows, eta, lo, hi)[1..] == AgeMask(rows[1..], eta, lo, hi);
  }

  /** Soundness and completeness: a row is in the result exactly when it is in
      the table and its age is in range. */
  lemma {:induction false} FilterEtaMembers<T>(rows: seq<T>, eta: T -> int, lo: int, hi: int)
    ensures forall x :: x in FilterEta(rows, eta, lo, hi) <==> x in rows && InRange(eta(x), lo, hi)
  {
    if |rows| > 0 {
      FilterEtaCons(rows, eta, lo, hi);
      FilterEtaMembers(rows[1..], eta, lo, hi);
      assert rows == [rows[0]] + rows[1..];
    }
  }

  /** Completeness with multiplicity: every in-range row is kept as often as it
      occurs, every other row is dropped. */
  lemma {:induction false} FilterEtaCount<T>(rows: seq<T>, eta: T -> int, lo: int, hi: int)
    ensures forall x ::
      multiset(FilterEta(rows, eta, lo, hi))[x] == (if InRange(eta(x), lo, hi) then multiset(rows)[x] else 0)
  {
    if |rows| > 0 {
      FilterEtaCons(rows, eta, lo, hi);
      FilterEtaCount(rows[1..], eta, lo, hi);
      assert rows == [rows[0]] + rows[1..];
    }
  }

  /** Order: the filter of a concatenation is the concatenation of the filters,
      so the result is the in-range subsequence in the table's own order. */
  lemma {:induction false} FilterEtaAppend<T>(a: seq<T>, b: seq<T>, eta: T -> int, lo: int, hi: int)
    ensures FilterEta(a + b, eta, lo, hi) == FilterEta(a, eta, lo, hi) + FilterEta(b, eta, lo, hi)
  {
    if |a| == 0 {
      assert a + b == b;
    } else {
      FilterEtaCons(a + b, eta, lo, hi);
      FilterEtaCons(a, eta, lo, hi);
      assert (a + b)[1..] == a[1..] + b;
      FilterEtaAppend(a[1..], b, eta, lo, hi);
    }
  }

  /** A one-row table is kept exactly when its age is in range. */
  lemma FilterEtaSingleton<T>(x: T, eta: T -> int, lo: int, hi: int)
    ensures FilterEta([x], eta, lo, hi) == if InRange(eta(x), lo, hi) then [x] else []
  {
    FilterEtaCons([x], eta, lo, hi);
  }

  /** A table whose every age is in range comes back unchanged. */
  lemma {:induction false} FilterEtaKeepsAll<T>(rows: seq<T>, eta: T -> int, lo: int, hi: int)
    requires forall i :: 0 <= i < |rows| ==> InRange(eta(rows[i]), lo, hi)
    ensures FilterEta(rows, eta, lo, hi) == rows
  {
    if |rows| > 0 {
      FilterEtaCons(rows, eta, lo, hi);
      FilterEtaKeepsAll(rows[1..], eta, lo, hi);
    }
  }

  /** The result is empty exactly when no age of the table is in range; in
      particular an inverted range (lo > hi) selects nothing and is no error. */
  lemma {:induction false} FilterEtaEmpty<T>(rows: seq<T>, eta: T -> int, lo: int, hi: int)
    ensures FilterEta(rows, eta, lo, hi) == [] <==> forall x :: x in rows ==> !InRange(eta(x), lo, hi)
    ensures lo > hi ==> FilterEta(rows, eta, lo, hi) == []
  {
    if |rows| > 0 {
      FilterEtaCons(rows, eta, lo, hi);
      FilterEtaEmpty(rows[1..], eta, lo, hi);
      assert rows == [rows[0]] + rows[1..];
    }
  }

  /** `df['Eta'].min()` of a non-empty table: an age of some row, no larger than any. */
  function EtaMin(df: seq<Resident>): (m: int)
    requires |df| > 0
    ensures exists i :: 0 <= i < |df| && df[i].eta == m
    ensures forall i :: 0 <= i < |df| ==> m <= df[i].eta
  {
    if |df| == 1 then df[0].eta
    else
      var rest := EtaMin(df[1..]);
      assert exists i :: 0 < i < |df| && df[i].eta == rest by {
        var j :| 0 <= j < |df[1..]| && df[1..][j].eta == rest;
        assert df[j + 1].eta == rest;
      }
      if df[0].eta <= rest then df[0].eta else rest
  }

  /** `df['Eta'].max()` of a non-empty table: an age of some row, no smaller than any. */
  function EtaMax(df: seq<Resident>): (m: int)
    requires |df| > 0
    ensures exists i :: 0 <= i < |df| && df[i].eta == m
    ensures forall i :: 0 <= i < |df| ==> df[i].eta <= m
  {
    if |df| == 1 then df[0].eta
    else
      var rest := EtaMax(df[1..]);
      assert exists i :: 0 < i < |df| && df[i].eta == rest by {
        var j :| 0 <= j < |df[1..]| && df[1..][j].eta == rest;
        assert df[j + 1].eta == rest;
      }
      if df[0].eta >= rest then df[0].eta else rest
  }

  /** The range slider's bounds and initial value [Eta_min, Eta_max]. The
      library yields no number for an empty column, and the slider cannot be
      built then. */
  function SliderBounds(df: seq<Resident>): (b: Option<(int, int)>)
    ensures b.None? <==> |df| == 0
    ensures b.Some? ==> b.value.0 <= b.value.1
  {
    if |df| == 0 then None else Some((EtaMin(df), EtaMax(df)))
  }

  /** Selecting the slider's initial full range keeps every row, in order. */
  lemma FullRangeKeepsAll(df: seq<Resident>)
    requires |df| > 0
    ensures FilterEta(df, ResidentEta, EtaMin(df), EtaMax(df)) == df
  {
    FilterEtaKeepsAll(df, ResidentEta, EtaMin(df), EtaMax(df));
  }

  /** A range entirely above or below the observed ages selects nothing. */
  lemma OutsideDomainSelectsNothing(df: seq<Resident>, lo: int, hi: int)
    requires |df| > 0
    requires lo > EtaMax(df) || hi < EtaMin(df)
    ensures FilterEta(df, ResidentEta, lo, hi) == []
  {
    FilterEtaEmpty(df, ResidentEta, lo, hi);
    forall x | x in df
      ensures !InRange(ResidentEta(x), lo, hi)
    {
      var i :| 0 <= i < |df| && df[i] == x;
    }
  }
}
