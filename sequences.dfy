/** Joining pieces with a separator and splitting them apart again: the shape
    of Go's strings.Join, of CRLF-separated lines and of comma lists. */
module Sequences {

  /** The pieces of `xs` with `sep` between neighbours (strings.Join). */
  function Join<T>(xs: seq<seq<T>>, sep: seq<T>): seq<T>
  {
    if |xs| == 0 then []
    else if |xs| == 1 then xs[0]
    else xs[0] + sep + Join(xs[1..], sep)
  }

  /** All pieces laid end to end. */
  function Concat<T>(xs: seq<seq<T>>): seq<T>
  {
    if |xs| == 0 then [] else xs[0] + Concat(xs[1..])
  }

  /** Index of the first occurrence of `sep` in `t`, or |t| when there is none. */
  function Find<T(==)>(t: seq<T>, sep: seq<T>): (i: nat)
    requires |sep| > 0
    ensures i <= |t|
    ensures i + |sep| <= |t| ==> t[i..i + |sep|] == sep
    decreases |t|
  {
    if |t| < |sep| then |t|
    else if t[..|sep|] == sep then 0
    else 1 + Find(t[1..], sep)
  }

  /** `t` cut at every occurrence of `sep`, separators dropped. */
  function Split<T(==)>(t: seq<T>, sep: seq<T>): (r: seq<seq<T>>)
    requires |sep| > 0
    ensures |r| >= 1
    decreases |t|
  {
    var i := Find(t, sep);
    if i + |sep| <= |t| then [t[..i]] + Split(t[i + |sep|..], sep) else [t]
  }

  /** No piece contains the first element of the separator. */
  predicate Separable<T(==)>(xs: seq<seq<T>>, sep: seq<T>)
    requires |sep| > 0
  {
    forall k :: 0 <= k < |xs| ==> sep[0] !in xs[k]
  }

  lemma {:induction false} FindAbsent<T>(t: seq<T>, sep: seq<T>)
    requires |sep| > 0 && sep[0] !in t
    ensures Find(t, sep) == |t|
    decreases |t|
  {
    if |t| >= |sep| {
      assert t[0] != sep[0];
      assert t[..|sep|] != sep;
      FindAbsent(t[1..], sep);
    }
  }

  lemma {:induction false} FindAfter<T>(x: seq<T>, sep: seq<T>, rest: seq<T>)
    requires |sep| > 0 && sep[0] !in x
    ensures Find(x + sep + rest, sep) == |x|
    decreases |x|
  {
    var t := x + sep + rest;
    if x == [] {
      assert t[..|sep|] == sep;
    } else {
      assert t[0] == x[0] != sep[0];
      assert t[..|sep|] != sep;
      assert t[1..] == x[1..] + sep + rest;
      FindAfter(x[1..], sep, rest);
    }
  }

  /** Splitting undoes joining when no piece contains the separator's first element. */
  lemma {:induction false} SplitJoin<T>(xs: seq<seq<T>>, sep: seq<T>)
    requires |xs| >= 1 && |sep| > 0 && Separable(xs, sep)
    ensures Split(Join(xs, sep), sep) == xs
    decreases |xs|
  {
    if |xs| == 1 {
      FindAbsent(xs[0], sep);
    } else {
      var t := Join(xs, sep);
      var rest := Join(xs[1..], sep);
      assert t == xs[0] + sep + rest;
      FindAfter(xs[0], sep, rest);
      assert t[..|xs[0]|] == xs[0];
      assert t[|xs[0]| + |sep|..] == rest;
      SplitJoin(xs[1..], sep);
      assert [xs[0]] + xs[1..] == xs;
    }
  }

  lemma JoinCons<T>(x: seq<T>, xs: seq<seq<T>>, sep: seq<T>)
    requires |xs| >= 1
    ensures Join([x] + xs, sep) == x + sep + Join(xs, sep)
  {
    assert ([x] + xs)[1..] == xs;
  }

  /** Appending three pieces one after another appends their concatenation. */
  lemma AppendAssoc<T>(a: seq<T>, b: seq<T>, c: seq<T>, d: seq<T>)
    ensures a + b + c + d == a + (b + c + d)
  {
  }

  /** Each piece followed by the separator (lines that all end in CRLF). */
  function Terminated<T>(xs: seq<seq<T>>, sep: seq<T>): seq<T>
  {
    if |xs| == 0 then [] else xs[0] + sep + Terminated(xs[1..], sep)
  }

  lemma {:induction false} TerminatedSnoc<T>(xs: seq<seq<T>>, x: seq<T>, sep: seq<T>)
    ensures Terminated(xs + [x], sep) == Terminated(xs, sep) + x + sep
    decreases |xs|
  {
    if |xs| == 0 {
      assert xs + [x] == [x];
      var one: seq<seq<T>> := [x];
      assert one[1..] == [];
    } else {
      assert (xs + [x])[0] == xs[0];
      assert (xs + [x])[1..] == xs[1..] + [x];
      TerminatedSnoc(xs[1..], x, sep);
    }
  }

  /** Terminated lines followed by a last piece are the pieces joined. */
  lemma {:induction false} TerminatedJoin<T>(xs: seq<seq<T>>, last: seq<T>, sep: seq<T>)
    ensures Terminated(xs, sep) + last == Join(xs + [last], sep)
    decreases |xs|
  {
    if |xs| == 0 {
      assert xs + [last] == [last];
    } else {
      TerminatedJoin(xs[1..], last, sep);
      assert xs + [last] == [xs[0]] + (xs[1..] + [last]);
      JoinCons(xs[0], xs[1..] + [last], sep);
    }
  }

  /** A value absent from every piece and from the separator is absent from the join. */
  lemma {:induction false} JoinExcludes<T>(xs: seq<seq<T>>, sep: seq<T>, c: T)
    requires c !in sep
    requires forall k :: 0 <= k < |xs| ==> c !in xs[k]
    ensures c !in Join(xs, sep)
    decreases |xs|
  {
    if |xs| > 1 {
      JoinExcludes(xs[1..], sep, c);
    }
  }

  /** Splitting terminated pieces followed by a tail gives back the pieces,
      then the pieces of the tail. */
  lemma {:induction false} SplitTerminated<T>(xs: seq<seq<T>>, sep: seq<T>, t: seq<T>)
    requires |sep| > 0 && Separable(xs, sep)
    ensures Split(Terminated(xs, sep) + t, sep) == xs + Split(t, sep)
    decreases |xs|
  {
    if |xs| == 0 {
      assert Terminated(xs, sep) + t == t;
    } else {
      var rest := Terminated(xs[1..], sep) + t;
      var u := xs[0] + sep + rest;
      assert Terminated(xs, sep) + t == u;
      FindAfter(xs[0], sep, rest);
      assert u[..|xs[0]|] == xs[0];
      assert u[|xs[0]| + |sep|..] == rest;
      assert Separable(xs[1..], sep) by {
        forall k | 0 <= k < |xs[1..]|
          ensures sep[0] !in xs[1..][k]
        {
          assert xs[1..][k] == xs[k + 1];
        }
      }
      assert Split(u, sep) == [xs[0]] + Split(rest, sep);
      SplitTerminated(xs[1..], sep, t);
      calc {
        Split(Terminated(xs, sep) + t, sep);
        Split(u, sep);
        [xs[0]] + Split(rest, sep);
        [xs[0]] + (xs[1..] + Split(t, sep));
        { ConsTail(xs, Split(t, sep)); }
        xs + Split(t, sep);
      }
    }
  }

  lemma ConsTail<U>(xs: seq<U>, w: seq<U>)
    requires |xs| > 0
    ensures [xs[0]] + (xs[1..] + w) == xs + w
  {
    assert [xs[0]] + xs[1..] == xs;
  }

  /** A non-empty sequence that does not start like the separator has a
      non-empty first piece. */
  lemma SplitHeadNonEmpty<T>(t: seq<T>, sep: seq<T>)
    requires |sep| > 0 && |t| > 0 && t[0] != sep[0]
    ensures Split(t, sep)[0] != []
  {
    if |t| >= |sep| {
      assert t[..|sep|][0] == t[0];
    }
  }
}
