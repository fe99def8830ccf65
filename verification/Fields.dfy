/** Header fields (section 5 of RFC 9112): names, values and the map a list of them stands for. */
module Fields {
  import opened Wrappers
  import opened Text

  datatype Field = Field(name: string, value: string)

  function FieldLine(f: Field): string {
    f.name + ": " + f.value
  }

  function FieldLines(fields: seq<Field>): (lines: seq<string>)
    ensures |lines| == |fields| && forall i :: 0 <= i < |fields| ==> lines[i] == FieldLine(fields[i])
  {
    seq(|fields|, i requires 0 <= i < |fields| => FieldLine(fields[i]))
  }

  /** The map a list of fields stands for: later fields replace earlier ones of the same name. */
  function AddFields(headers: map<string, string>, fields: seq<Field>): map<string, string>
    decreases |fields|
  {
    if fields == [] then headers else AddFields(headers[fields[0].name := fields[0].value], fields[1..])
  }

  /** With distinct names the map holds exactly the fields. */
  lemma {:induction false} AddFieldsExact(headers: map<string, string>, fields: seq<Field>)
    requires forall i, j :: 0 <= i < j < |fields| ==> fields[i].name != fields[j].name
    ensures var r := AddFields(headers, fields);
            && (forall i :: 0 <= i < |fields| ==> fields[i].name in r && r[fields[i].name] == fields[i].value)
            && (forall k :: k in r ==> k in headers || exists i :: 0 <= i < |fields| && fields[i].name == k)
            && (forall k :: k in headers && (forall i :: 0 <= i < |fields| ==> fields[i].name != k) ==>
                  k in r && r[k] == headers[k])
    decreases |fields|
  {
    if fields != [] {
      var rest := fields[1..];
      var headers' := headers[fields[0].name := fields[0].value];
      AddFieldsExact(headers', rest);
      var r := AddFields(headers, fields);
      forall i | 0 <= i < |rest| ensures rest[i].name != fields[0].name {
        assert rest[i] == fields[i + 1];
      }
      assert fields[0].name in headers';
      assert fields[0].name in r && r[fields[0].name] == fields[0].value;
      forall k | k in r ensures k in headers || exists i :: 0 <= i < |fields| && fields[i].name == k {
        if k !in headers' {
          var i :| 0 <= i < |rest| && rest[i].name == k;
          assert fields[i + 1].name == k;
        } else if k !in headers {
          assert fields[0].name == k;
        }
      }
    }
  }
}
