/**
 * The value codec of bool fields (letter `b`): `toString` writes "true" or
 * "false"; `_decodeValue` reads the empty text as undefined, "true" as true
 * and every other text as false.
 */
module BoolCodec {
  import opened Wrappers

  /** `b.toString()`. */
  function Text(b: bool): string {
    if b then "true" else "false"
  }

  /** `_decodeValue`. */
  function Decode(s: string): (r: Option<bool>)
    ensures r.None? <==> s == ""
    ensures r.Some? ==> (r.value <==> s == "true")
  {
    if s == "" then None else Some(s == "true")
  }

  /** Both booleans are read back from their text. */
  lemma DecodeText(b: bool)
    ensures Decode(Text(b)) == Some(b)
  {
    assert "false" != "true" by {
      assert "false"[0] != "true"[0];
    }
  }

  /** Any non-empty text other than "true" reads as false, "incorrectValue" included. */
  lemma OtherTextIsFalse(s: string)
    requires s != "" && s != "true"
    ensures Decode(s) == Some(false)
  {
  }
}
