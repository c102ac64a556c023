/**
 * `Utilities` of src/utilities.ts: element-wise conversions between decimal
 * text and field elements. The element conversions themselves (`Field(s)`
 * and `Field.toString()`) are o1js code and are passed in.
 */
module Utilities {
  import opened Primitives

  /** The list whose element i is `parse` of element i of `input`. */
  function FieldsOf(parse: string -> Field, input: seq<string>): (r: seq<Field>)
    ensures |r| == |input|
    ensures forall i | 0 <= i < |input| :: r[i] == parse(input[i])
    decreases |input|
  {
    if input == [] then [] else FieldsOf(parse, input[..|input| - 1]) + [parse(input[|input| - 1])]
  }

  /** The list whose element i is `text` of element i of `input`. */
  function TextsOf(text: Field -> string, input: seq<Field>): (r: seq<string>)
    ensures |r| == |input|
    ensures forall i | 0 <= i < |input| :: r[i] == text(input[i])
    decreases |input|
  {
    if input == [] then [] else TextsOf(text, input[..|input| - 1]) + [text(input[|input| - 1])]
  }

  /** `stringArrayToFields`: pushes the conversion of each element in turn. */
  method StringArrayToFields(parse: string -> Field, input: seq<string>) returns (result: seq<Field>)
    ensures result == FieldsOf(parse, input)
  {
    result := [];
    var i := 0;
    while i < |input|
      invariant 0 <= i <= |input|
      invariant result == FieldsOf(parse, input[..i])
    {
      assert input[..i + 1][..i] == input[..i];
      result := result + [parse(input[i])];
      i := i + 1;
    }
    assert input[..i] == input;
  }

  /** `fieldsToStringArray`: pushes the text of each element in turn. */
  method FieldsToStringArray(text: Field -> string, input: seq<Field>) returns (result: seq<string>)
    ensures result == TextsOf(text, input)
  {
    result := [];
    var i := 0;
    while i < |input|
      invariant 0 <= i <= |input|
      invariant result == TextsOf(text, input[..i])
    {
      assert input[..i + 1][..i] == input[..i];
      result := result + [text(input[i])];
      i := i + 1;
    }
    assert input[..i] == input;
  }

  /** Converting to fields and back gives the input whenever each element
      survives the round trip through the element conversions. */
  lemma {:induction false} TextRoundTrip(parse: string -> Field, text: Field -> string, s: seq<string>)
    requires forall i | 0 <= i < |s| :: text(parse(s[i])) == s[i]
    ensures TextsOf(text, FieldsOf(parse, s)) == s
  {
    var r := TextsOf(text, FieldsOf(parse, s));
    assert forall i | 0 <= i < |s| :: r[i] == s[i];
  }

  /** Converting to text and back gives the input whenever each element
      survives the round trip through the element conversions. */
  lemma {:induction false} FieldRoundTrip(parse: string -> Field, text: Field -> string, s: seq<Field>)
    requires forall i | 0 <= i < |s| :: parse(text(s[i])) == s[i]
    ensures FieldsOf(parse, TextsOf(text, s)) == s
  {
    var r := FieldsOf(parse, TextsOf(text, s));
    assert forall i | 0 <= i < |s| :: r[i] == s[i];
  }
}
