/** Shared vocabulary: bytes, byte strings and the optional value that stands
    for JavaScript's `undefined`/`null` throughout the model. */
module Base {

  /** One octet. Every string of the system is modelled by its UTF-8 bytes. */
  type byte = b: int | 0 <= b < 256

  /** A UTF-8 encoded string. */
  type Text = seq<byte>

  /** A value that may be missing (`undefined` or `null` in the source). */
  datatype Option<+T> = None | Some(value: T)

  predicate IsAscii(s: string) {
    forall i :: 0 <= i < |s| ==> s[i] as int < 128
  }

  /** The UTF-8 bytes of an ASCII literal. */
  function Ascii(s: string): (t: Text)
    requires IsAscii(s)
    ensures |t| == |s|
    ensures forall i :: 0 <= i < |s| ==> t[i] == s[i] as int
  {
    seq(|s|, i requires 0 <= i < |s| => s[i] as int)
  }

  /** JavaScript truthiness of an optional string: `undefined` and `''` are falsy.
      This is how the source tests its environment variables (`if (!botToken)`). */
  predicate Configured(v: Option<Text>) {
    v.Some? && v.value != []
  }
}
