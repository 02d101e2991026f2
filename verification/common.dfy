/** Results, optional values and sequence flattening shared by every component. */
module Common {

  /** The errors the core reports. */
  datatype Error =
    | BlockSizeZero   // "block size must be > 0"
    | StrongSizeZero  // "hash size must be > 0"
    | EndOfStream     // io.EOF surfaced to the caller
    | NegativeOffset  // a seek to an offset that is negative as an int64

  datatype Result<T> = Ok(value: T) | Err(error: Error)

  datatype Option<T> = None | Some(value: T)

  function Min(a: int, b: int): int
  {
    if a <= b then a else b
  }

  /** Quotient and remainder are the only ones with `0 <= r < n`. */
  lemma DivModUnique(x: int, n: int, q: int, r: int)
    requires n > 0 && 0 <= r < n && x == q * n + r
    ensures x / n == q && x % n == r
  {
    var q', r' := x / n, x % n;
    assert x == q' * n + r';
    var d := q - q';
    assert d * n == r' - r by {
      assert q * n - q' * n == (q - q') * n;
    }
    if d > 0 {
      MulAtLeast(d, n);
    } else if d < 0 {
      assert (-d) * n == -(d * n);
      MulAtLeast(-d, n);
    }
  }

  lemma MulAtLeast(d: int, n: int)
    requires d >= 1 && n > 0
    ensures d * n >= n
  {
    assert d * n == (d - 1) * n + n;
    assert (d - 1) * n >= 0;
  }

  /** Concatenation of a sequence of sequences, in order. */
  function Flatten<T>(xss: seq<seq<T>>): seq<T>
  {
    if |xss| == 0 then [] else xss[0] + Flatten(xss[1..])
  }

  lemma {:induction false} FlattenAppend<T>(xss: seq<seq<T>>, yss: seq<seq<T>>)
    ensures Flatten(xss + yss) == Flatten(xss) + Flatten(yss)
  {
    if |xss| > 0 {
      TailOfAppend(xss, yss);
      FlattenAppend(xss[1..], yss);
      Assoc(xss[0], Flatten(xss[1..]), Flatten(yss));
    } else {
      AppendNothing(yss);
    }
  }

  // Sequence algebra, kept in lemmas of their own so that proofs about
  // larger terms only have to instantiate them.

  lemma Assoc<T>(x: seq<T>, y: seq<T>, z: seq<T>)
    ensures (x + y) + z == x + (y + z)
  {
  }

  lemma AppendNothing<T>(x: seq<T>)
    ensures x + [] == x && [] + x == x
  {
  }

  /** Splitting off the first element of `s` onto the end of `prefix`. */
  lemma SplitFirst<T>(prefix: seq<T>, s: seq<T>)
    requires |s| > 0
    ensures prefix + s == (prefix + [s[0]]) + s[1..]
    ensures s == [s[0]] + s[1..]
  {
    assert s == [s[0]] + s[1..];
    Assoc(prefix, [s[0]], s[1..]);
  }

  /** The tail of a concatenation whose first part is not empty. */
  lemma TailOfAppend<T>(x: seq<T>, y: seq<T>)
    requires |x| > 0
    ensures (x + y)[0] == x[0] && (x + y)[1..] == x[1..] + y
  {
  }
}
