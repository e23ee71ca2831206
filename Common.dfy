/**
 * Value types shared by the two records: the nullable wrapper, the key type,
 * the fixed-width numbers of the wire format, and the meaning of the
 * data-annotation attributes that the records carry.
 */
module Common {

  /** A C# nullable (`string?`, `int?`) or a lookup that may find nothing. */
  datatype Option<+T> = None | Some(value: T)

  /** A `System.Guid`: a 128-bit value, compared only for equality. */
  newtype Guid = x: int | 0 <= x < 0x1_0000_0000_0000_0000_0000_0000_0000_0000

  /** The all-zero Guid, `Guid.Empty`, the default of a Guid-typed property. */
  const EmptyGuid: Guid := 0

  /** A C# `int`. */
  newtype Int32 = x: int | -0x8000_0000 <= x < 0x8000_0000

  /** A C# `float`, kept as its IEEE-754 bit pattern: the model carries it and never computes with it. */
  type Float32 = bv32

  /** `char.IsWhiteSpace`: the Unicode space, line and paragraph separators, U+0009..U+000D and U+0085. */
  predicate IsWhiteSpace(c: char)
  {
    || ('\U{9}' <= c <= '\U{D}')
    || c == ' '
    || c == '\U{85}'
    || c == '\U{A0}'
    || c == '\U{1680}'
    || ('\U{2000}' <= c <= '\U{200A}')
    || c == '\U{2028}'
    || c == '\U{2029}'
    || c == '\U{202F}'
    || c == '\U{205F}'
    || c == '\U{3000}'
  }

  /**
   * `[Required]` on a string: the value must not be null, empty or made only
   * of white space (`string.IsNullOrWhiteSpace` is false).
   */
  predicate Required(s: string)
    ensures Required(s) ==> |s| > 0
  {
    exists i :: 0 <= i < |s| && !IsWhiteSpace(s[i])
  }

  /** `[StringLength(max)]`: at most `max` characters; a null value passes. */
  predicate StringLength(s: Option<string>, max: nat)
    ensures s.None? ==> StringLength(s, max)
    ensures s.Some? ==> (StringLength(s, max) <==> |s.value| <= max)
  {
    s.None? || |s.value| <= max
  }

  /** `[Range(lo, hi)]` on an `int?`: a null value passes, a present one lies in lo..hi inclusive. */
  predicate InRange(v: Option<Int32>, lo: int, hi: int)
    ensures v.None? ==> InRange(v, lo, hi)
    ensures hi < lo ==> (InRange(v, lo, hi) <==> v.None?)
    ensures InRange(v, lo, hi) && v.Some? ==> lo <= v.value as int <= hi
  {
    v.None? || lo <= v.value as int <= hi
  }

  lemma {:induction false} RequiredRejectsBlank(s: string)
    requires forall i :: 0 <= i < |s| ==> IsWhiteSpace(s[i])
    ensures !Required(s)
  {
  }

  lemma RequiredAcceptsAnyVisibleCharacter(s: string, i: nat)
    requires i < |s| && !IsWhiteSpace(s[i])
    ensures Required(s)
  {
  }
}
