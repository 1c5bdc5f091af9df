/** Generic sequence helpers shared by the pipeline modules. */
module Seqs {

  /** Flattening of a sequence of sequences (the effect of collecting a
      `flat_map`), built up from the back so that a loop can extend it. */
  function Concat<T>(ss: seq<seq<T>>): seq<T>
  {
    if |ss| == 0 then [] else Concat(ss[..|ss| - 1]) + ss[|ss| - 1]
  }

  /** Flattening distributes over concatenation of the outer sequence. */
  lemma {:induction false} ConcatAppend<T>(a: seq<seq<T>>, b: seq<seq<T>>)
    ensures Concat(a + b) == Concat(a) + Concat(b)
    decreases |b|
  {
    if |b| == 0 {
      assert a + b == a;
    } else {
      assert (a + b)[..|a + b| - 1] == a + b[..|b| - 1];
      ConcatAppend(a, b[..|b| - 1]);
    }
  }

  /** Flattening a sequence that starts with `x` starts with `x`. */
  lemma ConcatCons<T>(x: seq<T>, rest: seq<seq<T>>)
    ensures Concat([x] + rest) == x + Concat(rest)
  {
    ConcatAppend([x], rest);
    assert [x][..0] == [];
  }

  /** The number of leading elements of `s` that satisfy `ok`
      (Rust's `take_while(ok).count()`): every element before it satisfies
      `ok`, and the element at it, if any, does not. */
  function LeadingCount<T>(s: seq<T>, ok: T -> bool): (n: nat)
    ensures n <= |s|
    ensures forall i :: 0 <= i < n ==> ok(s[i])
    ensures n < |s| ==> !ok(s[n])
  {
    if |s| == 0 || !ok(s[0]) then 0 else 1 + LeadingCount(s[1..], ok)
  }

  /** The leading count is the only index before which every element
      satisfies `ok` and at which, if anywhere, one does not. */
  lemma {:induction false} LeadingCountUnique<T>(s: seq<T>, ok: T -> bool, n: nat)
    requires n <= |s|
    requires forall i :: 0 <= i < n ==> ok(s[i])
    requires n < |s| ==> !ok(s[n])
    ensures LeadingCount(s, ok) == n
    decreases n
  {
    if n > 0 {
      assert ok(s[0]);
      assert forall i :: 0 <= i < n - 1 ==> s[1..][i] == s[i + 1];
      LeadingCountUnique(s[1..], ok, n - 1);
    }
  }

  /** Concatenation is associative; stated once so that long proofs can
      regroup without reasoning about every element. */
  lemma AppendAssoc<T>(a: seq<T>, b: seq<T>, c: seq<T>)
    ensures (a + b) + c == a + (b + c)
  {
  }
}
