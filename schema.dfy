/** Column reconciliation: the residents table's legacy headers are renamed
    to the names the census-tract shapefile uses, so that the two tables
    share the join key column SEZIONE_20. Headers outside the mapping are
    left as they are. */
module Schema {

  /** The fixed legacy-to-shapefile header mapping. */
  const RENAMES: map<string, string> := map[
    "SEZIONE_CENSIMENTO" := "SEZIONE_20",
    "CODICE_MUNICIPIO" := "CODICE_MUN",
    "NOME_MUNICIPIO" := "NOME_MUNIC",
    "CODICE_CIRCOSCRIZIONE" := "CODICE_CIR",
    "NOME_CIRCOSCRIZIONE" := "NOME_CIRCO",
    "CODICE_UNITA_URBANISTICA" := "CODICE_UNI",
    "NOME_UNITA_URBANISTICA" := "NOME_UNITA"
  ]

  /** The new name of one header. */
  function RenameColumn(h: string): (r: string)
    ensures r !in RENAMES
  {
    if h in RENAMES then RENAMES[h] else h
  }

  /** The header row after renaming, position by position. */
  function RenameColumns(cols: seq<string>): (r: seq<string>)
    ensures |r| == |cols|
  {
    seq(|cols|, i requires 0 <= i < |cols| => RenameColumn(cols[i]))
  }

  predicate Distinct(s: seq<string>)
  {
    forall i, j :: 0 <= i < j < |s| ==> s[i] != s[j]
  }

  /** No legacy header in `cols` has its new name already present in `cols`. */
  predicate NoTargetClash(cols: seq<string>)
  {
    forall i, j :: 0 <= i < |cols| && 0 <= j < |cols| && cols[i] in RENAMES ==> cols[j] != RENAMES[cols[i]]
  }

  /** Each of the seven legacy headers gets its listed shapefile name, and a
      header that is not a legacy one keeps its name. */
  lemma RenameColumnsPointwise(cols: seq<string>)
    ensures forall i :: 0 <= i < |cols| && cols[i] !in RENAMES ==> RenameColumns(cols)[i] == cols[i]
    ensures RenameColumn("SEZIONE_CENSIMENTO") == "SEZIONE_20"
    ensures RenameColumn("CODICE_MUNICIPIO") == "CODICE_MUN"
    ensures RenameColumn("NOME_MUNICIPIO") == "NOME_MUNIC"
    ensures RenameColumn("CODICE_CIRCOSCRIZIONE") == "CODICE_CIR"
    ensures RenameColumn("NOME_CIRCOSCRIZIONE") == "NOME_CIRCO"
    ensures RenameColumn("CODICE_UNITA_URBANISTICA") == "CODICE_UNI"
    ensures RenameColumn("NOME_UNITA_URBANISTICA") == "NOME_UNITA"
  {
  }

  /** The mapping is one-to-one: two legacy headers never share a new name. */
  lemma RenamesInjective(a: string, b: string)
    requires a in RENAMES && b in RENAMES
    requires RENAMES[a] == RENAMES[b]
    ensures a == b
  {
  }

  /** No new name is itself a legacy header, so renaming twice is renaming once. */
  lemma RenameColumnIdempotent(h: string)
    ensures RenameColumn(h) !in RENAMES
    ensures RenameColumn(RenameColumn(h)) == RenameColumn(h)
  {
  }

  /** Two different headers end up with the same name exactly when one is a
      legacy header and the other is already its new name. */
  lemma RenameColumnCollision(a: string, b: string)
    requires a != b
    ensures RenameColumn(a) == RenameColumn(b) <==>
      (a in RENAMES && RENAMES[a] == b) || (b in RENAMES && RENAMES[b] == a)
  {
    if a in RENAMES && b in RENAMES && RENAMES[a] == RENAMES[b] {
      RenamesInjective(a, b);
    }
    RenameColumnIdempotent(a);
    RenameColumnIdempotent(b);
  }

  /** Distinct headers stay distinct unless a legacy header and its new name
      are both present. */
  lemma RenameColumnsDistinct(cols: seq<string>)
    requires Distinct(cols) && NoTargetClash(cols)
    ensures Distinct(RenameColumns(cols))
  {
    var r := RenameColumns(cols);
    forall i, j | 0 <= i < j < |r|
      ensures r[i] != r[j]
    {
      RenameColumnCollision(cols[i], cols[j]);
    }
  }

  /** After renaming no legacy header is left. */
  lemma RenameColumnsNoLegacy(cols: seq<string>)
    ensures forall h :: h in RenameColumns(cols) ==> h !in RENAMES
  {
    var r := RenameColumns(cols);
    forall h | h in r
      ensures h !in RENAMES
    {
      var i :| 0 <= i < |r| && r[i] == h;
      RenameColumnIdempotent(cols[i]);
    }
  }

  /** A name that is not a legacy header appears after renaming exactly when it
      was already there or a legacy header that maps to it was. */
  lemma RenamedContains(cols: seq<string>, name: string)
    requires name !in RENAMES
    ensures name in RenameColumns(cols) <==>
      name in cols || exists k :: k in RENAMES && RENAMES[k] == name && k in cols
  {
    var r := RenameColumns(cols);
    if name in r {
      var i :| 0 <= i < |r| && r[i] == name;
      if cols[i] in RENAMES {
        assert RENAMES[cols[i]] == name && cols[i] in cols;
      }
    }
    if name in cols {
      var i :| 0 <= i < |cols| && cols[i] == name;
      assert r[i] == name;
    }
    if exists k :: k in RENAMES && RENAMES[k] == name && k in cols {
      var k :| k in RENAMES && RENAMES[k] == name && k in cols;
      var i :| 0 <= i < |cols| && cols[i] == k;
      assert r[i] == name;
    }
  }

  /** The join key column is present after renaming exactly when the raw
      header row holds it under its legacy or its new name. */
  lemma KeyColumnAfterRename(cols: seq<string>)
    ensures "SEZIONE_20" in RenameColumns(cols) <==> "SEZIONE_20" in cols || "SEZIONE_CENSIMENTO" in cols
  {
    RenamedContains(cols, "SEZIONE_20");
    forall k | k in RENAMES && RENAMES[k] == "SEZIONE_20"
      ensures k == "SEZIONE_CENSIMENTO"
    {
      RenamesInjective(k, "SEZIONE_CENSIMENTO");
    }
  }

  /** The age column is untouched by the renaming. */
  lemma AgeColumnAfterRename(cols: seq<string>)
    ensures "Eta" in RenameColumns(cols) <==> "Eta" in cols
  {
    RenamedContains(cols, "Eta");
  }

  lemma RenameColumnsCons(cols: seq<string>)
    requires |cols| > 0
    ensures RenameColumns(cols) == [RenameColumn(cols[0])] + RenameColumns(cols[1..])
  {
  }

  /** After renaming, the key column appears once for every raw header that
      is either `SEZIONE_20` or its legacy name `SEZIONE_CENSIMENTO`. */
  lemma {:induction false} KeyColumnCount(cols: seq<string>)
    ensures multiset(RenameColumns(cols))["SEZIONE_20"] ==
      multiset(cols)["SEZIONE_20"] + multiset(cols)["SEZIONE_CENSIMENTO"]
  {
    if |cols| > 0 {
      RenameColumnsCons(cols);
      KeyColumnCount(cols[1..]);
      assert cols == [cols[0]] + cols[1..];
      RenameColumnIdempotent(cols[0]);
      if RenameColumn(cols[0]) == "SEZIONE_20" && cols[0] != "SEZIONE_20" {
        RenamesInjective(cols[0], "SEZIONE_CENSIMENTO");
      }
    }
  }
}
