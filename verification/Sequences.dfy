/** Concatenation of pieces, shared by the text renderers. */
module Sequences {
  function Flat<T>(parts: seq<seq<T>>): seq<T> {
    if parts == [] then [] else parts[0] + Flat(parts[1..])
  }

  lemma {:induction false} FlatAppend<T>(a: seq<seq<T>>, b: seq<seq<T>>)
    ensures Flat(a + b) == Flat(a) + Flat(b)
  {
    if a == [] {
      assert a + b == b;
    } else {
      FlatAppend(a[1..], b);
      var h := a[0];
      assert (a + b)[1..] == a[1..] + b && (a + b)[0] == h;
      calc {
        Flat(a + b);
        h + (Flat(a[1..]) + Flat(b));
        (h + Flat(a[1..])) + Flat(b);
        Flat(a) + Flat(b);
      }
    }
  }

  lemma FlatOne<T>(part: seq<T>)
    ensures Flat([part]) == part
  {
    assert [part][1..] == [];
  }
}
