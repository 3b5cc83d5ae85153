/** Facts about sequence concatenation that the loops of the codecs and
    the queue rely on. */
module Seqs {
  /** Concatenation is associative. */
  lemma ConcatAssoc<T>(a: seq<T>, b: seq<T>, c: seq<T>)
    ensures (a + b) + c == a + (b + c)
  {
  }

  /** Appending four pieces one after another appends their concatenation. */
  lemma AppendFour<T>(x: seq<T>, a: seq<T>, b: seq<T>, c: seq<T>, d: seq<T>)
    ensures x + a + b + c + d == x + (a + b + c + d)
  {
    ConcatAssoc(x + a + b, c, d);
    ConcatAssoc(x + a, b, c + d);
    ConcatAssoc(x, a, b + (c + d));
  }
}
