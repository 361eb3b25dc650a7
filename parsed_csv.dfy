/**
 * A record as the CSV parser hands it over with `header: true`: an object whose keys are
 * the column headers, in header order, and whose values are the cells' texts. Columns a
 * short line does not reach are absent from its record.
 */
module ParsedCsv {
  import opened JsValues

  /** The national aggregate: a column of the aggregated file and a row of the regional one. */
  const UnitedStates := "United States"

  datatype Field = Field(name: string, text: string)

  /** The fields of one record, in header order; the parser makes their names distinct. */
  type Record = seq<Field>

  /** `Object.keys(record)`. */
  function Keys(r: Record): (ks: seq<string>)
    ensures |ks| == |r|
    ensures forall i :: 0 <= i < |r| ==> ks[i] == r[i].name
  {
    seq(|r|, i requires 0 <= i < |r| => r[i].name)
  }

  /** `record[key]`: the text of the field named `key`, or undefined when there is none. */
  function Get(r: Record, key: string): (v: Option<string>)
    ensures v.None? <==> key !in Keys(r)
    ensures v.Some? ==> exists i :: 0 <= i < |r| && r[i] == Field(key, v.value)
  {
    match Find(r, (f: Field) => f.name == key)
    case None =>
      assert forall i :: 0 <= i < |r| ==> Keys(r)[i] != key;
      None
    case Some(f) => Some(f.text)
  }
}
