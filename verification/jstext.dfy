/** JavaScript's `Array.prototype.join` and `String.prototype.split` for a
    one-character separator, and the count of pieces equal to a given
    string (`filter(l => l === w).length`), as the reveal timer uses them. */
module JsText {

  /** `xs.join(sep)`: the pieces with one separator between neighbours. */
  function Join(xs: seq<string>, sep: char): string
    decreases |xs|
  {
    if |xs| == 0 then ""
    else if |xs| == 1 then xs[0]
    else xs[0] + [sep] + Join(xs[1..], sep)
  }

  /** A join starts with the first piece, has one more character per
      separator than its pieces hold, and with two pieces or more puts a
      separator right after the first piece, followed by the join of the
      rest. */
  lemma {:induction false} JoinShape(xs: seq<string>, sep: char)
    requires |xs| > 0
    ensures xs[0] <= Join(xs, sep)
    ensures |Join(xs, sep)| == TotalLength(xs) + |xs| - 1
    ensures |xs| > 1 ==> sep in Join(xs, sep)
    ensures |xs| > 1 ==> |xs[0]| < |Join(xs, sep)| && Join(xs, sep)[|xs[0]|] == sep
                         && Join(xs, sep)[|xs[0]| + 1..] == Join(xs[1..], sep)
    decreases |xs|
  {
    if |xs| > 1 {
      JoinShape(xs[1..], sep);
      var r := Join(xs, sep);
      assert r == xs[0] + [sep] + Join(xs[1..], sep);
      assert r[|xs[0]|] == sep;
    }
  }

  /** The number of characters in all the pieces together. */
  function TotalLength(xs: seq<string>): nat
  {
    if |xs| == 0 then 0 else |xs[0]| + TotalLength(xs[1..])
  }

  /** `s.split(sep)`: the maximal separator-free pieces, in order; there is
      always at least one (`"".split(" ")` is `[""]`). */
  function Split(s: string, sep: char): (r: seq<string>)
    ensures |r| >= 1
    ensures forall i :: 0 <= i < |r| ==> sep !in r[i]
    decreases |s|
  {
    if |s| == 0 then [""]
    else
      var rest := Split(s[1..], sep);
      if s[0] == sep then [""] + rest
      else [[s[0]] + rest[0]] + rest[1..]
  }

  /** The number of pieces equal to `w`. */
  function Count(xs: seq<string>, w: string): (n: nat)
    ensures n <= |xs|
    ensures n == 0 <==> w !in xs
  {
    if |xs| == 0 then 0 else (if xs[0] == w then 1 else 0) + Count(xs[1..], w)
  }

  lemma {:induction false} CountAppend(a: seq<string>, b: seq<string>, w: string)
    ensures Count(a + b, w) == Count(a, w) + Count(b, w)
  {
    if |a| == 0 {
      assert a + b == b;
    } else {
      assert (a + b)[1..] == a[1..] + b;
      CountAppend(a[1..], b, w);
    }
  }

  /** Splitting at a separator splits the two sides independently. */
  lemma {:induction false} SplitAround(a: string, b: string, sep: char)
    ensures Split(a + [sep] + b, sep) == Split(a, sep) + Split(b, sep)
    decreases |a|
  {
    if |a| == 0 {
      assert a + [sep] + b == [sep] + b;
      assert ([sep] + b)[1..] == b;
    } else {
      assert (a + [sep] + b)[1..] == a[1..] + [sep] + b;
      SplitAround(a[1..], b, sep);
    }
  }

  /** Splitting a piece without a separator yields the piece itself. */
  lemma {:induction false} SplitPlain(s: string, sep: char)
    requires sep !in s
    ensures Split(s, sep) == [s]
    decreases |s|
  {
    if |s| > 0 {
      assert sep !in s[1..] by {
        forall i | 0 <= i < |s[1..]| ensures s[1..][i] != sep {
          assert s[1..][i] == s[i + 1];
        }
      }
      SplitPlain(s[1..], sep);
      assert [s[0]] + s[1..] == s;
    }
  }

  /** Every piece split on its own, the results concatenated. */
  function SplitEach(xs: seq<string>, sep: char): seq<string>
    decreases |xs|
  {
    if |xs| == 0 then [] else Split(xs[0], sep) + SplitEach(xs[1..], sep)
  }

  /** Splitting a join on the same separator splits every piece. */
  lemma {:induction false} SplitJoin(xs: seq<string>, sep: char)
    requires |xs| >= 1
    ensures Split(Join(xs, sep), sep) == SplitEach(xs, sep)
    decreases |xs|
  {
    if |xs| == 1 {
      assert SplitEach(xs, sep) == Split(xs[0], sep) + SplitEach(xs[1..], sep);
      assert SplitEach(xs[1..], sep) == [];
    } else {
      SplitAround(xs[0], Join(xs[1..], sep), sep);
      SplitJoin(xs[1..], sep);
    }
  }

  /** Round trip: joining separator-free pieces and splitting again gives
      the pieces back. */
  lemma {:induction false} SplitJoinRoundTrip(xs: seq<string>, sep: char)
    requires |xs| >= 1
    requires forall i :: 0 <= i < |xs| ==> sep !in xs[i]
    ensures Split(Join(xs, sep), sep) == xs
  {
    SplitJoin(xs, sep);
    SplitEachPlain(xs, sep);
  }

  lemma {:induction false} SplitEachPlain(xs: seq<string>, sep: char)
    requires forall i :: 0 <= i < |xs| ==> sep !in xs[i]
    ensures SplitEach(xs, sep) == xs
    decreases |xs|
  {
    if |xs| > 0 {
      SplitPlain(xs[0], sep);
      SplitEachPlain(xs[1..], sep);
      assert [xs[0]] + xs[1..] == xs;
    }
  }

  /** Round trip the other way: joining the pieces of a split restores the
      string. */
  lemma {:induction false} JoinSplitRoundTrip(s: string, sep: char)
    ensures Join(Split(s, sep), sep) == s
    decreases |s|
  {
    if |s| > 0 {
      var rest := Split(s[1..], sep);
      JoinSplitRoundTrip(s[1..], sep);
      if s[0] == sep {
        assert Join([""] + rest, sep) == "" + [sep] + Join(rest, sep);
        assert [s[0]] + s[1..] == s;
      } else if |rest| == 1 {
        assert [s[0]] + s[1..] == s;
      } else {
        var r := [[s[0]] + rest[0]] + rest[1..];
        assert r[1..] == rest[1..];
        assert Join(r, sep) == [s[0]] + rest[0] + [sep] + Join(rest[1..], sep);
        assert Join(rest, sep) == rest[0] + [sep] + Join(rest[1..], sep);
        assert [s[0]] + s[1..] == s;
      }
    }
  }

}
