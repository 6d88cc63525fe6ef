/** What several modules share. */
module Basics {
  datatype Option<+T> = None | Some(value: T)

  /** ECMAScript's white space and line terminators. */
  const WHITE: string :=
    "\t\n\U{b}\U{c}\r \U{a0}\U{1680}\U{2000}\U{2001}\U{2002}\U{2003}\U{2004}\U{2005}\U{2006}\U{2007}\U{2008}\U{2009}\U{200a}\U{2028}\U{2029}\U{202f}\U{205f}\U{3000}\U{feff}"

  function Max(a: int, b: int): int {
    if a >= b then a else b
  }

  /** A product does not fall in its second factor. */
  lemma MoreTimes(n: int, a: int, b: int)
    requires n >= 0 && a <= b
    ensures n * a <= n * b
  {
  }

  lemma Assoc<T>(a: seq<T>, b: seq<T>, c: seq<T>)
    ensures a + b + c == a + (b + c)
  {
  }
}
