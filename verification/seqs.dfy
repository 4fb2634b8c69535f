/** Sequence operations the file-generation job is built from: repeating a
    string, truncating it, and the file that results from a list of appends. */
module Seqs {

  /** `r` is a prefix of the endless repetition of `s`: element `k` of `r` is
      `s[k mod |s|]`. Only the empty sequence repeats the empty sequence. */
  predicate Cyclic<T(==)>(r: seq<T>, s: seq<T>) {
    forall k :: 0 <= k < |r| ==> |s| > 0 && r[k] == s[k % |s|]
  }

  /** `n` copies of `s` back to back, as Rust's `str::repeat(n)` builds them. */
  function Repeat<T>(s: seq<T>, n: nat): (r: seq<T>)
    ensures |r| == n * |s|
  {
    if n == 0 then [] else Repeat(s, n - 1) + s
  }

  /** Rust's `String::truncate(n)`: keeps the first `n` elements, and has no
      effect when `n` is at least the current length. */
  function Truncate<T>(s: seq<T>, n: nat): (r: seq<T>)
    ensures |r| <= n && |r| <= |s|
    ensures |r| == n || |r| == |s|
    ensures r == s[..|r|]
  {
    if n < |s| then s[..n] else s
  }

  /** `n` writes of the same slice `b`. */
  function Copies<T>(b: seq<T>, n: nat): (ws: seq<seq<T>>)
    ensures |ws| == n
    ensures forall i :: 0 <= i < n ==> ws[i] == b
  {
    seq(n, _ => b)
  }

  /** The content of a file that starts empty and receives the writes `ws`
      in order, each appended at the end. */
  function Flatten<T>(ws: seq<seq<T>>): (r: seq<T>)
    ensures |ws| == 0 ==> r == []
    ensures |ws| > 0 ==> |ws[|ws| - 1]| <= |r| && r[|r| - |ws[|ws| - 1]|..] == ws[|ws| - 1]
  {
    if |ws| == 0 then [] else Flatten(ws[..|ws| - 1]) + ws[|ws| - 1]
  }

  /** Euclidean division is determined by the quotient and remainder it must satisfy. */
  lemma DivModUnique(a: int, m: int, d: int, r: int)
    requires m > 0 && 0 <= r < m && a == d * m + r
    ensures a / m == d && a % m == r
  {
    var t := d - a / m;
    assert t * m == a % m - r;
    assert -m < t * m < m;
    assert t == 0;
  }

  /** Adding whole multiples of `m` does not change a remainder modulo `m`. */
  lemma ModShift(k: int, q: nat, m: int)
    requires m > 0
    ensures (q * m + k) % m == k % m
  {
    assert k == (k / m) * m + k % m;
    assert q * m + k == (q + k / m) * m + k % m;
    DivModUnique(q * m + k, m, q + k / m, k % m);
  }

  /** Appending a repetition of `s` to a repetition of `s` whose length is a
      whole number of copies of `s` gives a repetition of `s`. */
  lemma CyclicConcat<T>(a: seq<T>, b: seq<T>, s: seq<T>)
    requires Cyclic(a, s) && Cyclic(b, s)
    requires |s| > 0 && |a| % |s| == 0
    ensures Cyclic(a + b, s)
  {
    forall k | |a| <= k < |a| + |b|
      ensures (a + b)[k] == s[k % |s|]
    {
      assert |a| == (|a| / |s|) * |s|;
      ModShift(k - |a|, |a| / |s|, |s|);
    }
  }

  /** Repeating a whole number of copies of `s` keeps both properties. */
  lemma {:induction false} RepeatCyclic<T>(b: seq<T>, s: seq<T>, n: nat)
    requires |s| > 0 && Cyclic(b, s) && |b| % |s| == 0
    ensures Cyclic(Repeat(b, n), s)
    ensures |Repeat(b, n)| % |s| == 0
  {
    if n > 0 {
      RepeatCyclic(b, s, n - 1);
      var a := Repeat(b, n - 1);
      CyclicConcat(a, b, s);
      assert |a| == (|a| / |s|) * |s|;
      ModShift(|b|, |a| / |s|, |s|);
    }
  }

  /** A sequence is a repetition of itself. */
  lemma SelfCyclic<T>(s: seq<T>)
    ensures Cyclic(s, s)
  {
  }

  /** Two repetitions of the same `s` with the same length are equal. */
  lemma CyclicUnique<T>(a: seq<T>, b: seq<T>, s: seq<T>)
    requires Cyclic(a, s) && Cyclic(b, s) && |a| == |b|
    ensures a == b
  {
  }

  /** Writing the same slice `n` times leaves `n` copies of it in the file. */
  lemma {:induction false} FlattenCopies<T>(b: seq<T>, n: nat)
    ensures Flatten(Copies(b, n)) == Repeat(b, n)
  {
    if n > 0 {
      assert Copies(b, n)[..n - 1] == Copies(b, n - 1);
      FlattenCopies(b, n - 1);
    }
  }

  /** One more write appends its slice to the file. */
  lemma FlattenSnoc<T>(ws: seq<seq<T>>, w: seq<T>)
    ensures Flatten(ws + [w]) == Flatten(ws) + w
  {
    assert (ws + [w])[..|ws|] == ws;
  }
}
