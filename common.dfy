/** Types shared by every part of the hex-grid engine. */
module Common {

  /** A byte of the edited file, read unsigned (the source reads its signed
      bytes through `b & 0xFF`). */
  type Byte = x: int | 0 <= x < 256

  datatype Option<+T> = None | Some(value: T)

  datatype Result<+T, +E> = Success(value: T) | Failure(error: E)

  /** `s` with the characters from `at` on overwritten by `r`: what replacing a
      text range by text of the same length does. */
  function Splice<T>(s: seq<T>, at: nat, r: seq<T>): (t: seq<T>)
    requires at + |r| <= |s|
    ensures |t| == |s|
  {
    seq(|s|, j requires 0 <= j < |s| => if at <= j < at + |r| then r[j - at] else s[j])
  }

  /** The spliced sequence, element by element: `r` inside the range, `s`
      outside it. */
  lemma SpliceAt<T>(s: seq<T>, at: nat, r: seq<T>)
    requires at + |r| <= |s|
    ensures forall j :: 0 <= j < |s| ==>
              Splice(s, at, r)[j] == if at <= j < at + |r| then r[j - at] else s[j]
  {
  }

  /** Splicing inside the left part of a concatenation. */
  lemma SpliceLeft<T>(a: seq<T>, b: seq<T>, at: nat, r: seq<T>)
    requires at + |r| <= |a|
    ensures Splice(a, at, r) + b == Splice(a + b, at, r)
  {
    SpliceAt(a, at, r);
    SpliceAt(a + b, at, r);
    assert forall j :: 0 <= j < |a| + |b| ==> (Splice(a, at, r) + b)[j] == Splice(a + b, at, r)[j];
  }

  /** Splicing inside the right part of a concatenation. */
  lemma SpliceRight<T>(a: seq<T>, b: seq<T>, at: nat, r: seq<T>)
    requires at + |r| <= |b|
    ensures a + Splice(b, at, r) == Splice(a + b, |a| + at, r)
  {
    SpliceAt(b, at, r);
    SpliceAt(a + b, |a| + at, r);
    assert forall j :: 0 <= j < |a| + |b| ==> (a + Splice(b, at, r))[j] == Splice(a + b, |a| + at, r)[j];
  }

  /** Number of line feeds in `s`. */
  function Newlines(s: seq<char>): nat
  {
    if s == [] then 0 else Newlines(s[..|s| - 1]) + (if s[|s| - 1] == '\n' then 1 else 0)
  }

  lemma {:induction false} NewlinesAppend(a: seq<char>, b: seq<char>)
    ensures Newlines(a + b) == Newlines(a) + Newlines(b)
    decreases |b|
  {
    if b == [] {
      assert a + b == a;
    } else {
      assert (a + b)[..|a + b| - 1] == a + b[..|b| - 1];
      NewlinesAppend(a, b[..|b| - 1]);
    }
  }

  lemma {:induction false} NoNewlines(s: seq<char>)
    requires forall j :: 0 <= j < |s| ==> s[j] != '\n'
    ensures Newlines(s) == 0
  {
    if s != [] {
      NoNewlines(s[..|s| - 1]);
    }
  }
}
