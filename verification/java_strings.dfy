/**
 Java's `String` as the JVM sees it: a sequence of UTF-16 code units.
 `String.length()` is the number of code units, and `String.equals(Object)`
 is true exactly for a non-null `String` holding the same code units.
 Unpaired surrogates are legal in a Java string, so a code unit is any
 16-bit value rather than a Dafny `char`.
 */
module JavaStrings {
  import opened Wrappers

  newtype CodeUnit = x: int | 0 <= x < 0x1_0000

  type JavaString = seq<CodeUnit>

  /** Code-unit-by-code-unit comparison of two equally long strings from index `i` on. */
  function SameUnitsFrom(a: JavaString, b: JavaString, i: nat): (r: bool)
    requires |a| == |b| && i <= |a|
    ensures r <==> a[i..] == b[i..]
    decreases |a| - i
  {
    if i == |a| then true
    else if a[i] != b[i] then
      assert a[i..][0] != b[i..][0];
      false
    else
      assert a[i..] == [a[i]] + a[i + 1..];
      assert b[i..] == [b[i]] + b[i + 1..];
      SameUnitsFrom(a, b, i + 1)
  }

  /**
   `s.equals(other)` for a receiver `s` and an argument that may be `null`:
   false for `null`, false for a different length, otherwise the comparison
   of every code unit.
   */
  function Equals(s: JavaString, other: Option<JavaString>): (r: bool)
    ensures r <==> other == Some(s)
  {
    match other
    case None => false
    case Some(t) => |t| == |s| && SameUnitsFrom(s, t, 0)
  }

}
