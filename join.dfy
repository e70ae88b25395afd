/** The inner merge of the shapefile with the residents table on the tract
    key SEZIONE_20: each geometry row is paired with every resident row that
    has the same key, and rows with no partner on the other side vanish. */
module Join {
  import opened Frame

  /** One joined row: the single key column, the geometry row's polygon and
      attributes, and the resident row's age and fields. */
  datatype Feature = Feature(tract: Key, geometry: Geometry, tractFields: seq<string>, eta: int, fields: seq<string>)

  function FeatureEta(f: Feature): int
  {
    f.eta
  }

  /** The geometry row a joined row came from. */
  function GeometryRow(f: Feature): Tract
  {
    Tract(f.tract, f.geometry, f.tractFields)
  }

  /** The resident row a joined row came from. */
  function ResidentRow(f: Feature): Resident
  {
    Resident(f.tract, f.eta, f.fields)
  }

  /** Two rows with the same key glued into one; both can be read back from it. */
  function Combine(t: Tract, r: Resident): (f: Feature)
    requires t.tract == r.tract
    ensures GeometryRow(f) == t && ResidentRow(f) == r
  {
    Feature(t.tract, t.geometry, t.fields, r.eta, r.fields)
  }

  function TractKeys(gdf: seq<Tract>): set<Key>
  {
    set t | t in gdf :: t.tract
  }

  function ResidentKeys(df: seq<Resident>): set<Key>
  {
    set r | r in df :: r.tract
  }

  function FeatureKeys(fs: seq<Feature>): set<Key>
  {
    set f | f in fs :: f.tract
  }

  /** The joined rows one geometry row contributes: one per resident row with
      its key, in the residents' order. */
  function Partners(t: Tract, df: seq<Resident>): (r: seq<Feature>)
    ensures |r| <= |df|
  {
    if |df| == 0 then []
    else (if df[0].tract == t.tract then [Combine(t, df[0])] else []) + Partners(t, df[1..])
  }

  /** `gdf.merge(df, on='SEZIONE_20', how='inner')`. */
  function Merge(gdf: seq<Tract>, df: seq<Resident>): (r: seq<Feature>)
    ensures |r| <= |gdf| * |df|
  {
    if |gdf| == 0 then []
    else
      assert (|gdf| - 1) * |df| + |df| == |gdf| * |df| by { MulSucc(|gdf| - 1, |df|); }
      Partners(gdf[0], df) + Merge(gdf[1..], df)
  }

  lemma {:induction false} PartnersMembers(t: Tract, df: seq<Resident>)
    ensures forall f :: f in Partners(t, df) <==> GeometryRow(f) == t && ResidentRow(f) in df
  {
    if |df| > 0 {
      PartnersMembers(t, df[1..]);
      assert df == [df[0]] + df[1..];
      forall f | GeometryRow(f) == t && ResidentRow(f) == df[0]
        ensures f == Combine(t, df[0])
      {
      }
    }
  }

  /** Soundness and completeness of the join: a row is in the result exactly
      when its geometry part is a row of gdf and its resident part a row of df. */
  lemma {:induction false} MergeMembers(gdf: seq<Tract>, df: seq<Resident>)
    ensures forall f :: f in Merge(gdf, df) <==> GeometryRow(f) in gdf && ResidentRow(f) in df
  {
    if |gdf| > 0 {
      PartnersMembers(gdf[0], df);
      MergeMembers(gdf[1..], df);
      assert gdf == [gdf[0]] + gdf[1..];
    }
  }

  /** The keys of the joined rows are exactly the keys present in both tables:
      no joined row carries a key missing from either side. */
  lemma MergeKeys(gdf: seq<Tract>, df: seq<Resident>)
    ensures FeatureKeys(Merge(gdf, df)) == TractKeys(gdf) * ResidentKeys(df)
  {
    MergeMembers(gdf, df);
    var m := Merge(gdf, df);
    forall k | k in FeatureKeys(m)
      ensures k in TractKeys(gdf) && k in ResidentKeys(df)
    {
      var f :| f in m && f.tract == k;
      assert GeometryRow(f) in gdf && ResidentRow(f) in df;
    }
    forall k | k in TractKeys(gdf) * ResidentKeys(df)
      ensures k in FeatureKeys(m)
    {
      var t :| t in gdf && t.tract == k;
      var r :| r in df && r.tract == k;
      var f := Combine(t, r);
      assert f in m;
    }
  }

  lemma {:induction false} PartnersCount(t: Tract, df: seq<Resident>)
    ensures forall f ::
      multiset(Partners(t, df))[f] == (if GeometryRow(f) == t then multiset(df)[ResidentRow(f)] else 0)
  {
    if |df| > 0 {
      PartnersCount(t, df[1..]);
      assert df == [df[0]] + df[1..];
      forall f
        ensures multiset(Partners(t, df))[f] ==
          (if GeometryRow(f) == t then multiset(df)[ResidentRow(f)] else 0)
      {
        if df[0].tract == t.tract {
          var g := Combine(t, df[0]);
          assert f == g <==> GeometryRow(f) == t && ResidentRow(f) == df[0];
        }
      }
    }
  }

  lemma MulSucc(m: int, n: int)
    ensures (m + 1) * n == m * n + n
  {
  }

  lemma {:induction false} MergeCountAt(gdf: seq<Tract>, df: seq<Resident>, f: Feature)
    ensures multiset(Merge(gdf, df))[f] == multiset(gdf)[GeometryRow(f)] * multiset(df)[ResidentRow(f)]
  {
    if |gdf| > 0 {
      var t, rest := gdf[0], gdf[1..];
      MergeCountAt(rest, df, f);
      PartnersCount(t, df);
      assert gdf == [t] + rest;
      var g := GeometryRow(f);
      var n := multiset(df)[ResidentRow(f)];
      var m := multiset(rest)[g];
      assert multiset(Merge(gdf, df))[f] == multiset(Partners(t, df))[f] + multiset(Merge(rest, df))[f];
      if g == t {
        assert multiset(gdf)[g] == m + 1;
        assert multiset(Partners(t, df))[f] == n;
        MulSucc(m, n);
      } else {
        assert multiset(gdf)[g] == m;
        assert multiset(Partners(t, df))[f] == 0;
      }
    }
  }

  /** Multiplicity: a joined row occurs as often as its geometry row occurs in
      gdf times as often as its resident row occurs in df. */
  lemma MergeCount(gdf: seq<Tract>, df: seq<Resident>)
    ensures forall f ::
      multiset(Merge(gdf, df))[f] == multiset(gdf)[GeometryRow(f)] * multiset(df)[ResidentRow(f)]
  {
    forall f
      ensures multiset(Merge(gdf, df))[f] == multiset(gdf)[GeometryRow(f)] * multiset(df)[ResidentRow(f)]
    {
      MergeCountAt(gdf, df, f);
    }
  }

  lemma {:induction false} MergeAppend(a: seq<Tract>, b: seq<Tract>, df: seq<Resident>)
    ensures Merge(a + b, df) == Merge(a, df) + Merge(b, df)
  {
    if |a| == 0 {
      assert a + b == b;
    } else {
      assert (a + b)[1..] == a[1..] + b;
      MergeAppend(a[1..], b, df);
    }
  }

  lemma {:induction false} PartnersAppend(t: Tract, a: seq<Resident>, b: seq<Resident>)
    ensures Partners(t, a + b) == Partners(t, a) + Partners(t, b)
  {
    if |a| == 0 {
      assert a + b == b;
    } else {
      assert (a + b)[1..] == a[1..] + b;
      PartnersAppend(t, a[1..], b);
    }
  }

  lemma {:induction false} PartnersUnmatched(t: Tract, df: seq<Resident>)
    requires t.tract !in ResidentKeys(df)
    ensures Partners(t, df) == []
  {
    if |df| > 0 {
      assert df[0] in df;
      assert ResidentKeys(df[1..]) <= ResidentKeys(df);
      PartnersUnmatched(t, df[1..]);
    }
  }

  /** A geometry row whose key no resident has contributes nothing. */
  lemma MergeDropsUnmatchedTract(g1: seq<Tract>, t: Tract, g2: seq<Tract>, df: seq<Resident>)
    requires t.tract !in ResidentKeys(df)
    ensures Merge(g1 + [t] + g2, df) == Merge(g1 + g2, df)
  {
    MergeAppend(g1 + [t], g2, df);
    MergeAppend(g1, [t], df);
    MergeAppend(g1, g2, df);
    PartnersUnmatched(t, df);
    assert Merge([t], df) == Partners(t, df) + Merge([], df);
  }

  /** A resident row whose key no geometry row has contributes nothing. */
  lemma {:induction false} MergeDropsUnmatchedResident(gdf: seq<Tract>, d1: seq<Resident>, r: Resident, d2: seq<Resident>)
    requires r.tract !in TractKeys(gdf)
    ensures Merge(gdf, d1 + [r] + d2) == Merge(gdf, d1 + d2)
  {
    if |gdf| > 0 {
      var t := gdf[0];
      assert t in gdf;
      PartnersAppend(t, d1 + [r], d2);
      PartnersAppend(t, d1, [r]);
      PartnersAppend(t, d1, d2);
      assert Partners(t, [r]) == [] + Partners(t, []);
      assert TractKeys(gdf[1..]) <= TractKeys(gdf);
      MergeDropsUnmatchedResident(gdf[1..], d1, r, d2);
    }
  }

  lemma {:induction false} PartnersFilter(t: Tract, df: seq<Resident>, lo: int, hi: int)
    ensures Partners(t, FilterEta(df, ResidentEta, lo, hi)) == FilterEta(Partners(t, df), FeatureEta, lo, hi)
  {
    if |df| > 0 {
      var r := df[0];
      FilterEtaCons(df, ResidentEta, lo, hi);
      var head := if InRange(ResidentEta(r), lo, hi) then [r] else [];
      PartnersAppend(t, head, FilterEta(df[1..], ResidentEta, lo, hi));
      PartnersFilter(t, df[1..], lo, hi);
      var own := if r.tract == t.tract then [Combine(t, r)] else [];
      FilterEtaAppend(own, Partners(t, df[1..]), FeatureEta, lo, hi);
      if r.tract == t.tract {
        FilterEtaSingleton(Combine(t, r), FeatureEta, lo, hi);
      }
      assert Partners(t, head) == FilterEta(own, FeatureEta, lo, hi) by {
        if InRange(r.eta, lo, hi) {
          assert Partners(t, [r]) == own + Partners(t, []);
        }
      }
    } else {
      assert FilterEta(df, ResidentEta, lo, hi) == [];
    }
  }

  /** Filtering the residents before the join gives the same rows, in the same
      order, as filtering the joined rows by age afterwards. */
  lemma {:induction false} FilterThenJoin(gdf: seq<Tract>, df: seq<Resident>, lo: int, hi: int)
    ensures Merge(gdf, FilterEta(df, ResidentEta, lo, hi)) == FilterEta(Merge(gdf, df), FeatureEta, lo, hi)
  {
    if |gdf| > 0 {
      PartnersFilter(gdf[0], df, lo, hi);
      FilterThenJoin(gdf[1..], df, lo, hi);
      FilterEtaAppend(Partners(gdf[0], df), Merge(gdf[1..], df), FeatureEta, lo, hi);
    }
  }

  /** The same fact as multisets of rows, which is all that does not depend on
      the library's row order. */
  lemma FilterThenJoinMultiset(gdf: seq<Tract>, df: seq<Resident>, lo: int, hi: int)
    ensures forall f ::
      multiset(Merge(gdf, FilterEta(df, ResidentEta, lo, hi)))[f] == (if InRange(f.eta, lo, hi) then multiset(Merge(gdf, df))[f] else 0)
  {
    FilterThenJoin(gdf, df, lo, hi);
    FilterEtaCount(Merge(gdf, df), FeatureEta, lo, hi);
  }
}
