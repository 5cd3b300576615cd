/** The expansion flag as the serialisation layer sees it: one field named
    "Expanded" holding the literal "True" or "False". */
module Serialization {

  datatype Result<T> = Ok(value: T) | Err(message: string)

  const ExpandedField: string := "Expanded"
  const InvalidState: string := "Invalid expansion state"

  /** getSerializationNames */
  function SerializationNames(): (names: seq<string>)
    ensures |names| == 1 && names[0] == ExpandedField
  {
    [ExpandedField]
  }

  /** getSerializationStrings: one string per serialised field. */
  function Encode(expanded: bool): (strings: seq<string>)
    ensures |strings| == |SerializationNames()|
    ensures strings[0] == "True" || strings[0] == "False"
    ensures expanded <==> strings[0] == "True"
  {
    [if expanded then "True" else "False"]
  }

  /** setSerializationStrings: only the first string is looked at; anything but
      the two literals (a missing string included) is a format error. */
  function Decode(strings: seq<string>): (r: Result<bool>)
    ensures r.Ok? <==> |strings| > 0 && (strings[0] == "True" || strings[0] == "False")
    ensures r.Ok? ==> (r.value <==> strings[0] == "True")
    ensures r.Err? ==> r.message == InvalidState
  {
    if |strings| == 0 || (strings[0] != "True" && strings[0] != "False") then Err(InvalidState)
    else Ok(strings[0] == "True")
  }

  /** Decoding what was encoded gives the flag back. */
  lemma DecodeEncode(expanded: bool)
    ensures Decode(Encode(expanded)) == Ok(expanded)
  {
  }

  /** Whatever decodes is, in its first string, exactly what encoding the
      decoded flag writes: "True" and "False" are the only accepted tokens. */
  lemma EncodeDecode(strings: seq<string>)
    requires Decode(strings).Ok?
    ensures Encode(Decode(strings).value) == strings[..1]
  {
  }
}
