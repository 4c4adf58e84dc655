/** What stands in a buffer. */
module Memory {
  /** The contents of a buffer. */
  ghost predicate Image<T>(buf: array<T>, m: seq<T>)
    reads buf
  {
    |m| == buf.Length && forall i :: 0 <= i < |m| ==> m[i] == buf[i]
  }

  /** Text t stands at i in m. */
  ghost predicate Reads<T>(m: seq<T>, i: nat, t: seq<T>) {
    i + |t| <= |m| && forall k :: 0 <= k < |t| ==> t[k] == m[i + k]
  }

  lemma {:induction false} ReadsBoth<T>(m: seq<T>, i: nat, a: seq<T>, b: seq<T>)
    requires Reads(m, i, a + b)
    ensures Reads(m, i, a) && Reads(m, i + |a|, b)
  {
    var all := a + b;
    assert forall k :: 0 <= k < |a| ==> a[k] == all[k];
    assert forall k :: 0 <= k < |b| ==> b[k] == all[k + |a|];
  }
}
