/** Option and Result values, used for the parser's NaN results and for the
    calculator's typed errors. */
module Wrappers {

  datatype Option<+T> = None | Some(value: T)

  datatype Result<+R, +E> = Success(value: R) | Failure(error: E)

  /** The values of the present elements, in order: `filter(x => x !== null)`. */
  function Somes<T>(s: seq<Option<T>>): seq<T> {
    if s == [] then []
    else (if s[0].Some? then [s[0].value] else []) + Somes(s[1..])
  }

  /** Filtering a concatenation filters each part in turn: the filter keeps
      the order of the elements it lets through. */
  lemma {:induction false} SomesAppend<T>(s: seq<Option<T>>, t: seq<Option<T>>)
    ensures Somes(s + t) == Somes(s) + Somes(t)
  {
    if s != [] {
      var head := if s[0].Some? then [s[0].value] else [];
      SomesAppend(s[1..], t);
      assert (s + t)[0] == s[0];
      assert (s + t)[1..] == s[1..] + t;
      assert Somes(s + t) == head + (Somes(s[1..]) + Somes(t));
    } else {
      assert s + t == t;
    }
  }

  /** A value survives the filter exactly when some element holds it. */
  lemma {:induction false} SomesMembers<T>(s: seq<Option<T>>, x: T)
    ensures x in Somes(s) <==> exists i | 0 <= i < |s| :: s[i] == Some(x)
  {
    if s != [] {
      var tail := s[1..];
      SomesMembers(tail, x);
      if x in Somes(tail) {
        var i :| 0 <= i < |tail| && tail[i] == Some(x);
        assert s[i + 1] == Some(x);
      }
      if exists i | 0 <= i < |s| :: s[i] == Some(x) {
        var i :| 0 <= i < |s| && s[i] == Some(x);
        if i > 0 {
          assert tail[i - 1] == Some(x);
        }
      }
    }
  }
}
