/**
 * A record: the sentences of one packet and a display label
 * (src/main/java/parser/Record.java). Both are set by the constructor and
 * never changed afterwards, so the record is a value.
 */
module Records {
  import opened Wrappers
  import opened Sentences
  import Decimal

  /** The label's fixed text; the record number follows it. */
  const NamePrefix: string := "Запись "

  datatype Record = Record(name: string, fields: seq<Sentence>)
  {
    function GetFields(): seq<Sentence> { fields }

    function GetName(): string { name }

    function ToString(): string { name }
  }

  /** The record number its label shows, when the label has the constructor's shape. */
  function RecordNumber(r: Record): Option<int>
  {
    if |r.name| >= |NamePrefix| && r.name[..|NamePrefix|] == NamePrefix then
      Decimal.ParseInt(r.name[|NamePrefix|..])
    else
      None
  }

  /** The constructor `Record(fields, number)`: the fields are the very list given. */
  function NewRecord(fields: seq<Sentence>, number: int): (r: Record)
    ensures r.GetFields() == fields
  {
    Record(NamePrefix + Decimal.IntToString(number), fields)
  }

  /**
   * The label `NewRecord` gives: the fixed text, then the number in
   * decimal, which reads back intact.
   */
  lemma NewRecordLabel(fields: seq<Sentence>, number: int)
    ensures var name := NewRecord(fields, number).GetName();
      && |name| > |NamePrefix| && name[..|NamePrefix|] == NamePrefix
      && Decimal.ParseInt(name[|NamePrefix|..]) == Some(number)
    ensures RecordNumber(NewRecord(fields, number)) == Some(number)
  {
    var name := NewRecord(fields, number).GetName();
    assert name[|NamePrefix|..] == Decimal.IntToString(number);
    Decimal.IntToStringRoundTrip(number);
  }

  /** `getName()` and `toString()` agree on every record. */
  lemma NameIsToString(r: Record)
    ensures r.GetName() == r.ToString()
  {
  }

  /** Two records get the same label exactly when they were given the same number. */
  lemma NewRecordNameInjective(f: seq<Sentence>, g: seq<Sentence>, m: int, n: int)
    ensures NewRecord(f, m).GetName() == NewRecord(g, n).GetName() <==> m == n
  {
    NewRecordLabel(f, m);
    NewRecordLabel(g, n);
    if NewRecord(f, m).GetName() == NewRecord(g, n).GetName() {
      assert RecordNumber(NewRecord(f, m)) == RecordNumber(NewRecord(g, n));
    }
  }
}
