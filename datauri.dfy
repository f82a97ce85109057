/**
 * Images travel as PNG data URIs: `image_to_base64` puts a fixed header in
 * front of the base64 text, and `create_puzzle_pieces` takes it off again
 * with `str.replace` before decoding.
 */
module DataUri {
  import opened Strings

  const Prefix: string := "data:image/png;base64,"

  /** The 64 letters of the standard base64 alphabet and the padding `=`. */
  predicate IsBase64Char(c: char) {
    'A' <= c <= 'Z' || 'a' <= c <= 'z' || '0' <= c <= '9' || c == '+' || c == '/' || c == '='
  }

  predicate IsBase64(payload: string) {
    forall k :: 0 <= k < |payload| ==> IsBase64Char(payload[k])
  }

  /** The data URI `image_to_base64` returns for an encoded payload. */
  function Wrap(payload: string): (s: string)
  {
    Prefix + payload
  }

  /** `image_data.replace('data:image/png;base64,', '')` */
  function Strip(imageData: string): (s: string)
    ensures |s| <= |imageData|
  {
    Replace(imageData, Prefix, "")
  }

  /**
   * The header contains a ':' that base64 text never does, so the only
   * occurrence `replace` finds is the header itself.
   */
  lemma StripWrap(payload: string)
    requires IsBase64(payload)
    ensures Strip(Wrap(payload)) == payload
  {
    var uri := Wrap(payload);
    assert StartsWith(uri, Prefix) by {
      assert uri[..|Prefix|] == Prefix;
    }
    assert uri[|Prefix|..] == payload;
    assert Prefix[4] == ':' && !IsBase64Char(':');
    ReplaceAbsent(payload, Prefix, "", 4);
  }

  /** Text that holds no ':' at all goes through the strip unchanged. */
  lemma StripWithoutHeader(imageData: string)
    requires ':' !in imageData
    ensures Strip(imageData) == imageData
  {
    assert Prefix[4] == ':';
    ReplaceAbsent(imageData, Prefix, "", 4);
  }
}
