/** The write-side configuration (XsvWrite), its SortOrder length check and
    its column selection. */
module XsvWrite {
  import opened Common

  /** XsvWrite[T]: the tag settings, whether the header row is omitted, the
      columns to output, the column order, header renames, the per-record
      callback and the header-name normaliser. */
  datatype WriteConfig<!T> = WriteConfig(
    tagName: string,
    tagSeparator: string,
    omitHeaders: bool,
    selectedColumns: seq<string>,
    sortOrder: seq<int>,
    headerModifier: map<string, string>,
    onRecord: Option<T -> T>,
    nameNormalizer: string -> string)

  /** NewXsvWrite: tag "csv" split on ",", headers written, every column in
      schema order, no renames, no callback, the identity normaliser. */
  function NewXsvWrite<T>(): (c: WriteConfig<T>)
    ensures c.tagName == "csv" && c.tagSeparator == ","
    ensures !c.omitHeaders
    ensures c.selectedColumns == [] && c.sortOrder == [] && c.headerModifier == map[]
    ensures c.onRecord.None?
    ensures forall s :: c.nameNormalizer(s) == s
  {
    WriteConfig("csv", ",", false, [], [], map[], None, s => s)
  }

  /** checkSortOrderSlice: an empty SortOrder is always accepted; otherwise
      it must have one entry per output column, and the error names that count. */
  function CheckSortOrderSlice<T>(c: WriteConfig<T>, outputFieldsCount: int): (r: Option<WriteError>)
    ensures r.None? <==> |c.sortOrder| == 0 || |c.sortOrder| == outputFieldsCount
    ensures r.Some? ==> r.value == SortOrderLength(outputFieldsCount)
  {
    if |c.sortOrder| > 0 && |c.sortOrder| != outputFieldsCount then
      Some(SortOrderLength(outputFieldsCount))
    else None
  }

  /** A field is selected by its canonical (first) key only. */
  function Selects(columns: seq<string>): FieldInfo -> bool {
    (f: FieldInfo) => |f.keys| > 0 && f.keys[0] in columns
  }

  /** What getSelectedFieldInfos keeps: every field when no column is named. */
  function SelectedFieldInfos(columns: seq<string>, fields: seq<FieldInfo>): seq<FieldInfo> {
    if |columns| > 0 then Keep(fields, Selects(columns)) else fields
  }

  method GetSelectedFieldInfos<T>(c: WriteConfig<T>, fieldInfos: seq<FieldInfo>) returns (selected: seq<FieldInfo>)
    requires WellFormed(fieldInfos)
    ensures selected == SelectedFieldInfos(c.selectedColumns, fieldInfos)
  {
    if |c.selectedColumns| > 0 {
      selected := [];
      var i := 0;
      while i < |fieldInfos|
        invariant 0 <= i <= |fieldInfos|
        invariant selected == Keep(fieldInfos[..i], Selects(c.selectedColumns))
      {
        var info := fieldInfos[i];
        if info.keys[0] in c.selectedColumns {
          selected := selected + [info];
        }
        assert fieldInfos[..i + 1][..i] == fieldInfos[..i];
        i := i + 1;
      }
      assert fieldInfos[..|fieldInfos|] == fieldInfos;
    } else {
      selected := fieldInfos;
    }
  }

  /** A field is output exactly when its canonical key is among the selected
      columns; an alias in the selection selects nothing. */
  lemma SelectedMembership(columns: seq<string>, fields: seq<FieldInfo>, f: FieldInfo)
    requires WellFormed(fields) && |columns| > 0
    ensures f in SelectedFieldInfos(columns, fields) <==> f in fields && f.keys[0] in columns
  {
    KeepMembership(fields, Selects(columns), f);
  }

  /** Selection keeps the schema order, not the order the columns are named in. */
  lemma SelectedKeepsSchemaOrder(columns: seq<string>, a: seq<FieldInfo>, b: seq<FieldInfo>)
    ensures SelectedFieldInfos(columns, a + b) == SelectedFieldInfos(columns, a) + SelectedFieldInfos(columns, b)
  {
    if |columns| > 0 {
      KeepConcat(a, b, Selects(columns));
    }
  }

  /** Naming a column no field is canonically called (such as "-") changes
      nothing, as long as some column is still named. */
  lemma SelectingUnknownColumnIsHarmless(columns: seq<string>, fields: seq<FieldInfo>, x: string)
    requires WellFormed(fields) && |columns| > 0
    requires forall i :: 0 <= i < |fields| ==> fields[i].keys[0] != x
    ensures SelectedFieldInfos(columns + [x], fields) == SelectedFieldInfos(columns, fields)
  {
    KeepCongruence(fields, Selects(columns + [x]), Selects(columns));
  }

  /** The selection of a well-formed schema is well formed. */
  lemma SelectedWellFormed(columns: seq<string>, fields: seq<FieldInfo>)
    requires WellFormed(fields)
    ensures WellFormed(SelectedFieldInfos(columns, fields))
  {
    KeepWellFormed(fields, Selects(columns));
  }
}
