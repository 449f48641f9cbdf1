/**
 * The few pieces of java.lang behaviour the Gitlet core relies on:
 * 32-bit wrap-around of int, String.hashCode and String.contains.
 */
module JavaLang {

  const IntRange := 0x1_0000_0000
  const IntMin := -0x8000_0000

  predicate IsInt32(x: int) {
    IntMin <= x < IntMin + IntRange
  }

  /** Two's-complement truncation of an unbounded integer to a Java int. */
  function WrapInt32(x: int): (r: int)
    ensures IsInt32(r)
    ensures (r - x) % IntRange == 0
    ensures IsInt32(x) ==> r == x
  {
    (x - IntMin) % IntRange + IntMin
  }

  /**
   * String.hashCode: h = 31 * h + c over the characters, left to right,
   * in int arithmetic. Java folds over UTF-16 code units and this model
   * over Dafny characters; the two agree on every character below U+10000,
   * which covers the hexadecimal ids it is applied to.
   */
  function StringHashCode(s: string): (h: int)
    ensures IsInt32(h)
  {
    if s == [] then 0
    else WrapInt32(31 * StringHashCode(s[..|s| - 1]) + s[|s| - 1] as int)
  }

  /** `sub` occurs in `s` starting at index `i`. */
  predicate OccursAt(s: string, sub: string, i: int) {
    0 <= i && i + |sub| <= |s| && s[i..i + |sub|] == sub
  }

  /** String.contains: `sub` occurs somewhere in `s`, not necessarily at the start. */
  predicate Contains(s: string, sub: string) {
    exists i | 0 <= i <= |s| - |sub| :: OccursAt(s, sub, i)
  }

  /** Every string contains the empty string and each of its own prefixes. */
  lemma ContainsPrefix(s: string, k: nat)
    requires k <= |s|
    ensures Contains(s, s[..k])
  {
    assert OccursAt(s, s[..k], 0);
  }

  /** Contains is not a prefix test: any infix is contained as well. */
  lemma ContainsInfix(s: string, i: nat, j: nat)
    requires i <= j <= |s|
    ensures Contains(s, s[i..j])
  {
    assert OccursAt(s, s[i..j], i);
  }
}
