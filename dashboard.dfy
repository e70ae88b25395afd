/** The dashboard's data flow: the start-up sequence that reconciles the
    residents table with the shapefile and joins them, and the range-slider
    callback that recomputes the map's features, their fill colours and the
    table rows for a selected age range. */
module Dashboard {
  import opened Schema
  import opened Frame
  import opened Join
  import opened Colour

  const KEY_COLUMN: string := "SEZIONE_20"
  const AGE_COLUMN: string := "Eta"

  /** Why start-up stops: a column the pipeline reads is missing, the key
      label occurs more than once so the merge refuses it, or the age column
      is empty so the slider has no bounds. */
  datatype Error = MissingColumn(name: string) | DuplicateColumn(name: string) | NoAges

  datatype Result<T> = Ok(value: T) | Err(error: Error)

  /** What start-up leaves for the callback: the renamed header row, both
      tables, the full join (computed at start-up, though only the callback
      ever draws a map) and the slider's bounds. */
  datatype Context = Context(
    columns: seq<string>,
    residents: seq<Resident>,
    tracts: seq<Tract>,
    merged: seq<Feature>,
    etaMin: int,
    etaMax: int)

  /** What one callback returns: the map's features with their fill colours,
      and the rows for the table. */
  datatype View = View(features: seq<Feature>, fills: seq<string>, table: seq<Resident>)

  predicate Consistent(ctx: Context)
  {
    && |ctx.residents| > 0
    && ctx.merged == Merge(ctx.tracts, ctx.residents)
    && ctx.etaMin == EtaMin(ctx.residents)
    && ctx.etaMax == EtaMax(ctx.residents)
  }

  /** The module's top level: rename the residents' headers, read the key
      column on both sides, join on it (which needs a single key label), and
      read the age column's bounds. */
  function Startup(csvColumns: seq<string>, residents: seq<Resident>, shapeColumns: seq<string>, tracts: seq<Tract>): (r: Result<Context>)
    ensures r.Ok? <==>
      && multiset(csvColumns)[KEY_COLUMN] + multiset(csvColumns)["SEZIONE_CENSIMENTO"] == 1
      && KEY_COLUMN in shapeColumns
      && AGE_COLUMN in csvColumns
      && |residents| > 0
    ensures r.Ok? ==>
      && Consistent(r.value)
      && r.value.columns == RenameColumns(csvColumns)
      && r.value.residents == residents
      && r.value.tracts == tracts
  {
    KeyColumnCount(csvColumns);
    AgeColumnAfterRename(csvColumns);
    var columns := RenameColumns(csvColumns);
    if KEY_COLUMN !in columns then Err(MissingColumn(KEY_COLUMN))
    else if KEY_COLUMN !in shapeColumns then Err(MissingColumn(KEY_COLUMN))
    else if multiset(columns)[KEY_COLUMN] > 1 then Err(DuplicateColumn(KEY_COLUMN))
    else if AGE_COLUMN !in columns then Err(MissingColumn(AGE_COLUMN))
    else match SliderBounds(residents)
      case None => Err(NoAges)
      case Some((lo, hi)) => Ok(Context(columns, residents, tracts, Merge(tracts, residents), lo, hi))
  }

  /** The fill colour of each map feature, from its age. */
  function FillColours(features: seq<Feature>): (c: seq<string>)
    ensures |c| == |features|
    ensures forall i :: 0 <= i < |c| ==> c[i] in PALETTE
  {
    seq(|features|, i requires 0 <= i < |features| => GetColor(features[i].eta))
  }

  /** `update_output_div`: filter the residents by the selected range, join
      the result with the shapefile and colour the joined features. */
  function UpdateOutput(ctx: Context, selected: (int, int)): (v: View)
    ensures |v.fills| == |v.features|
    ensures |v.table| <= |ctx.residents|
  {
    var filtered := FilterEta(ctx.residents, ResidentEta, selected.0, selected.1);
    var features := Merge(ctx.tracts, filtered);
    View(features, FillColours(features), filtered)
  }

  /** The table shows exactly the residents whose age is in the selected range,
      each as often as it occurs. */
  lemma UpdateOutputTable(ctx: Context, selected: (int, int))
    ensures var v := UpdateOutput(ctx, selected);
      && (forall r :: r in v.table <==> r in ctx.residents && InRange(r.eta, selected.0, selected.1))
      && (forall r :: multiset(v.table)[r] ==
            (if InRange(r.eta, selected.0, selected.1) then multiset(ctx.residents)[r] else 0))
  {
    FilterEtaMembers(ctx.residents, ResidentEta, selected.0, selected.1);
    FilterEtaCount(ctx.residents, ResidentEta, selected.0, selected.1);
  }

  /** The map shows the start-up join restricted to the selected range, and each
      feature pairs a shapefile row with a row the table shows. */
  lemma UpdateOutputMap(ctx: Context, selected: (int, int))
    requires Consistent(ctx)
    ensures var v := UpdateOutput(ctx, selected);
      && v.features == FilterEta(ctx.merged, FeatureEta, selected.0, selected.1)
      && (forall f :: f in v.features <==>
            GeometryRow(f) in ctx.tracts && ResidentRow(f) in v.table)
      && (forall f :: f in v.features ==> InRange(f.eta, selected.0, selected.1))
  {
    var v := UpdateOutput(ctx, selected);
    FilterThenJoin(ctx.tracts, ctx.residents, selected.0, selected.1);
    MergeMembers(ctx.tracts, v.table);
    FilterEtaMembers(ctx.residents, ResidentEta, selected.0, selected.1);
  }

  /** Every map feature is filled with the colour of its own age's band. */
  lemma UpdateOutputColours(ctx: Context, selected: (int, int))
    ensures var v := UpdateOutput(ctx, selected);
      && |v.fills| == |v.features|
      && forall i :: 0 <= i < |v.fills| ==>
           v.fills[i] in PALETTE && v.fills[i] == PALETTE[Bucket(v.features[i].eta)]
  {
    var v := UpdateOutput(ctx, selected);
    forall i | 0 <= i < |v.fills|
      ensures v.fills[i] == PALETTE[Bucket(v.features[i].eta)]
    {
      GetColorIsBucket(v.features[i].eta);
    }
  }

  /** The first callback, fired with the slider's initial value
      [Eta_min, Eta_max], draws exactly the join computed at start-up (which
      is otherwise never drawn) and shows every resident in the table. */
  lemma InitialSelectionShowsAll(ctx: Context)
    requires Consistent(ctx)
    ensures UpdateOutput(ctx, (ctx.etaMin, ctx.etaMax)).features == ctx.merged
    ensures UpdateOutput(ctx, (ctx.etaMin, ctx.etaMax)).table == ctx.residents
  {
    FullRangeKeepsAll(ctx.residents);
  }

  /** A range outside the observed ages, or an inverted one, yields an empty map
      and an empty table, and no error. */
  lemma UpdateOutputEmpty(ctx: Context, selected: (int, int))
    requires Consistent(ctx)
    requires selected.0 > ctx.etaMax || selected.1 < ctx.etaMin || selected.0 > selected.1
    ensures UpdateOutput(ctx, selected) == View([], [], [])
  {
    if selected.0 > selected.1 {
      FilterEtaEmpty(ctx.residents, ResidentEta, selected.0, selected.1);
    } else {
      OutsideDomainSelectsNothing(ctx.residents, selected.0, selected.1);
    }
    assert |Merge(ctx.tracts, [])| == 0;
  }

  /** A header row holding the key under both names renames to two key
      labels, and the merge refuses them. */
  lemma DuplicateKeyHeaderFails()
    ensures Startup([KEY_COLUMN, "SEZIONE_CENSIMENTO", AGE_COLUMN], [Resident(1, 10, [])], [KEY_COLUMN], []).Err?
  {
    var header := [KEY_COLUMN, "SEZIONE_CENSIMENTO", AGE_COLUMN];
    assert multiset(header)[KEY_COLUMN] == 1 && multiset(header)["SEZIONE_CENSIMENTO"] == 1;
  }

  lemma MergeTwoOfThree(tracts: seq<Tract>, table: seq<Resident>)
    requires tracts == [Tract(1, [], []), Tract(2, [], []), Tract(3, [], [])]
    requires table == [Resident(1, 10, []), Resident(2, 40, [])]
    ensures Merge(tracts, table) == [Combine(tracts[0], table[0]), Combine(tracts[1], table[1])]
  {
    assert table == [table[0]] + [table[1]];
    forall t | t in tracts
      ensures Partners(t, table) == Partners(t, [table[0]]) + Partners(t, [table[1]])
    {
      PartnersAppend(t, [table[0]], [table[1]]);
    }
    assert tracts == [tracts[0]] + ([tracts[1]] + [tracts[2]]);
    MergeAppend([tracts[0]], [tracts[1]] + [tracts[2]], table);
    MergeAppend([tracts[1]], [tracts[2]], table);
  }

  /** Three tracts with one resident each, aged 10, 40 and 80: the range
      [0, 50] keeps the first two, coloured green and orange. */
  lemma ThreeTractScenario()
    ensures var residents := [Resident(1, 10, []), Resident(2, 40, []), Resident(3, 80, [])];
      var tracts := [Tract(1, [], []), Tract(2, [], []), Tract(3, [], [])];
      var started := Startup([KEY_COLUMN, AGE_COLUMN], residents, [KEY_COLUMN], tracts);
      && started.Ok?
      && var v := UpdateOutput(started.value, (0, 50));
      && v.table == residents[..2]
      && v.features == [Combine(tracts[0], residents[0]), Combine(tracts[1], residents[1])]
      && v.fills == ["green", "orange"]
  {
    var residents := [Resident(1, 10, []), Resident(2, 40, []), Resident(3, 80, [])];
    var tracts := [Tract(1, [], []), Tract(2, [], []), Tract(3, [], [])];
    var table := residents[..2];
    var features := [Combine(tracts[0], residents[0]), Combine(tracts[1], residents[1])];
    assert FilterEta(residents, ResidentEta, 0, 50) == table by {
      FilterEtaAppend(table, [residents[2]], ResidentEta, 0, 50);
      assert residents == table + [residents[2]];
      FilterEtaKeepsAll(table, ResidentEta, 0, 50);
      FilterEtaSingleton(residents[2], ResidentEta, 0, 50);
    }
    MergeTwoOfThree(tracts, table);
    assert FillColours(features) == ["green", "orange"];
    var started := Startup([KEY_COLUMN, AGE_COLUMN], residents, [KEY_COLUMN], tracts);
    assert started.Ok? && started.value.residents == residents && started.value.tracts == tracts by {
      var header := [KEY_COLUMN, AGE_COLUMN];
      assert multiset(header)[KEY_COLUMN] == 1 && multiset(header)["SEZIONE_CENSIMENTO"] == 0;
    }
  }
}
