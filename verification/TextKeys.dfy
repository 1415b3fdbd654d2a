/** Keys that are put together from text: uuids of fixed length and what separates them. */
module TextKeys {

  /** A hexadecimal digit, in either case, or a hyphen. */
  predicate IsUuidChar(c: char) {
    '0' <= c <= '9' || 'a' <= c <= 'f' || 'A' <= c <= 'F' || c == '-'
  }

  predicate IsUuid(s: string) {
    |s| == 36 && forall i :: 0 <= i < 36 ==> IsUuidChar(s[i])
  }

  lemma Unprefix(p: string, a: string, b: string)
    requires p + a == p + b
    ensures a == b
  {
    assert a == (p + a)[|p|..] && b == (p + b)[|p|..];
  }

  lemma SplitAt(a: string, a': string, b: string, b': string)
    requires |a| == |b| && a + a' == b + b'
    ensures a == b && a' == b'
  {
    assert a == (a + a')[..|a|] && b == (b + b')[..|b|];
    assert a' == (a + a')[|a|..] && b' == (b + b')[|b|..];
  }
}
