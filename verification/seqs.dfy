/** Sequence combinators used by the models of the source's `for ... push` loops. */
module Seqs {
  import opened Wrappers

  /** The concatenation of a sequence of sequences, in order. */
  function Concat<T>(xss: seq<seq<T>>): (r: seq<T>)
    ensures |xss| == 0 ==> r == []
  {
    if |xss| == 0 then [] else Concat(xss[..|xss| - 1]) + xss[|xss| - 1]
  }

  lemma {:induction false} ConcatAppend<T>(a: seq<seq<T>>, b: seq<seq<T>>)
    ensures Concat(a + b) == Concat(a) + Concat(b)
    decreases |b|
  {
    if |b| == 0 {
      assert a + b == a;
    } else {
      var b' := b[..|b| - 1];
      assert (a + b)[..|a + b| - 1] == a + b';
      assert (a + b)[|a + b| - 1] == b[|b| - 1];
      ConcatAppend(a, b');
    }
  }

  /** Every element of the concatenation comes from one of the parts. */
  lemma {:induction false} ConcatMember<T>(xss: seq<seq<T>>, x: T) returns (k: nat)
    requires x in Concat(xss)
    ensures k < |xss| && x in xss[k]
    decreases |xss|
  {
    var init := xss[..|xss| - 1];
    if x in Concat(init) {
      k := ConcatMember(init, x);
      assert xss[k] == init[k];
    } else {
      k := |xss| - 1;
    }
  }

  /** `xs.find(x => key(x) === name)`: the first element with that key. */
  function FindFirst<T(==)>(xs: seq<T>, key: T -> string, name: string): (r: Option<T>)
    ensures r.None? <==> forall i :: 0 <= i < |xs| ==> key(xs[i]) != name
    ensures r.Some? ==> exists i :: 0 <= i < |xs| && xs[i] == r.value
                          && key(r.value) == name
                          && forall j :: 0 <= j < i ==> key(xs[j]) != name
  {
    if |xs| == 0 then None
    else if key(xs[0]) == name then Some(xs[0])
    else
      var r := FindFirst(xs[1..], key, name);
      if r.Some? then
        var i :| 0 <= i < |xs[1..]| && xs[1..][i] == r.value
                 && key(r.value) == name
                 && forall j :: 0 <= j < i ==> key(xs[1..][j]) != name;
        assert xs[i + 1] == r.value;
        r
      else r
  }
}
