/** String helpers with the meaning of Python's `str.join` and `str.split`. */
module Text {

  /** `s` begins with `p`. */
  predicate StartsWith(s: string, p: string) {
    |p| <= |s| && s[..|p|] == p
  }

  /**
   * `sep.join(xs)`: the strings of `xs` with `sep` between neighbours; an
   * empty list joins to the empty string and a single string has no separator.
   */
  function Join(sep: string, xs: seq<string>): (r: string)
    ensures |xs| == 0 ==> r == ""
    ensures |xs| == 1 ==> r == xs[0]
    decreases |xs|
  {
    if |xs| == 0 then ""
    else if |xs| == 1 then xs[0]
    else xs[0] + sep + Join(sep, xs[1..])
  }

  /** `"".join(xs)`. */
  function Concat(xs: seq<string>): string
    decreases |xs|
  {
    if |xs| == 0 then "" else xs[0] + Concat(xs[1..])
  }

  /**
   * What `for ch in s` enumerates on a string: its characters, each as a
   * string of length one, in order; concatenated they give back `s`.
   */
  function Chars(s: string): (r: seq<string>)
    ensures |r| == |s|
    ensures forall i :: 0 <= i < |s| ==> r[i] == [s[i]]
    ensures Concat(r) == s
    decreases |s|
  {
    if |s| == 0 then []
    else
      var rest := Chars(s[1..]);
      assert ([[s[0]]] + rest)[1..] == rest;
      assert [s[0]] + s[1..] == s;
      [[s[0]]] + rest
  }

  /** `s.split(c)` for a one-character separator: the pieces between separators. */
  function Split(c: char, s: string): (r: seq<string>)
    ensures |r| > 0
    decreases |s|
  {
    if |s| == 0 then [""]
    else
      var rest := Split(c, s[1..]);
      if s[0] == c then [""] + rest else [[s[0]] + rest[0]] + rest[1..]
  }

  /** Where `xs[i]` starts inside `Join(sep, xs)`. */
  function JoinOffset(sep: string, xs: seq<string>, i: nat): nat
    requires i < |xs|
    decreases i
  {
    if i == 0 then 0 else |xs[0]| + |sep| + JoinOffset(sep, xs[1..], i - 1)
  }

  lemma {:induction false} ConcatAppend(a: seq<string>, b: seq<string>)
    ensures Concat(a + b) == Concat(a) + Concat(b)
    decreases |a|
  {
    if |a| == 0 {
      assert a + b == b;
    } else {
      assert (a + b)[1..] == a[1..] + b;
      ConcatAppend(a[1..], b);
    }
  }

  /** Joining one more string appends the separator and that string. */
  lemma {:induction false} JoinSnoc(sep: string, xs: seq<string>, x: string)
    requires |xs| > 0
    ensures Join(sep, xs + [x]) == Join(sep, xs) + sep + x
    decreases |xs|
  {
    if |xs| == 1 {
      assert xs + [x] == [xs[0], x];
      assert [xs[0], x][1..] == [x];
    } else {
      assert (xs + [x])[1..] == xs[1..] + [x];
      JoinSnoc(sep, xs[1..], x);
    }
  }

  /** Every joined string appears verbatim in the result, at `JoinOffset`. */
  lemma {:induction false} JoinContains(sep: string, xs: seq<string>, i: nat)
    requires i < |xs|
    ensures JoinOffset(sep, xs, i) + |xs[i]| <= |Join(sep, xs)|
    ensures Join(sep, xs)[JoinOffset(sep, xs, i)..JoinOffset(sep, xs, i) + |xs[i]|] == xs[i]
    decreases i
  {
    if i == 0 {
      if |xs| > 1 {
        var rest := sep + Join(sep, xs[1..]);
        assert Join(sep, xs) == xs[0] + rest;
        assert (xs[0] + rest)[..|xs[0]|] == xs[0];
      }
    } else {
      JoinContains(sep, xs[1..], i - 1);
      JoinTail(sep, xs, i);
    }
  }

  /** What holds for `xs[i]` inside `Join(sep, xs[1..])` holds, shifted, inside `Join(sep, xs)`. */
  lemma JoinTail(sep: string, xs: seq<string>, i: nat)
    requires 0 < i < |xs|
    requires JoinOffset(sep, xs[1..], i - 1) + |xs[i]| <= |Join(sep, xs[1..])|
    requires Join(sep, xs[1..])[JoinOffset(sep, xs[1..], i - 1)..JoinOffset(sep, xs[1..], i - 1) + |xs[i]|] == xs[i]
    ensures JoinOffset(sep, xs, i) + |xs[i]| <= |Join(sep, xs)|
    ensures Join(sep, xs)[JoinOffset(sep, xs, i)..JoinOffset(sep, xs, i) + |xs[i]|] == xs[i]
  {
    var lead := xs[0] + sep;
    var rest := Join(sep, xs[1..]);
    var o := JoinOffset(sep, xs[1..], i - 1);
    assert Join(sep, xs) == lead + rest;
    assert JoinOffset(sep, xs, i) == |lead| + o;
    assert (lead + rest)[|lead| + o..|lead| + o + |xs[i]|] == rest[o..o + |xs[i]|];
  }

  /**
   * Associativity of string concatenation, proved on its own so that the
   * proofs that use it do not search for it among everything else they know.
   */
  lemma ConcatAssoc(a: string, b: string, c: string)
    ensures (a + b) + c == a + (b + c)
  {
  }

  /** A string without the separator splits into itself alone. */
  lemma {:induction false} SplitWithoutSeparator(c: char, x: string)
    requires c !in x
    ensures Split(c, x) == [x]
    decreases |x|
  {
    if |x| > 0 {
      assert c !in x[1..] by {
        forall k | 0 <= k < |x[1..]| ensures x[1..][k] != c {
          assert x[1..][k] == x[k + 1];
        }
      }
      SplitWithoutSeparator(c, x[1..]);
      assert [x[0]] + x[1..] == x;
    }
  }

  /** A separator-free piece followed by the separator splits off as one piece. */
  lemma {:induction false} SplitAfterPiece(c: char, x: string, rest: string)
    requires c !in x
    ensures Split(c, x + [c] + rest) == [x] + Split(c, rest)
    decreases |x|
  {
    var s := x + [c] + rest;
    if |x| == 0 {
      assert s[1..] == rest;
    } else {
      assert c !in x[1..] by {
        forall k | 0 <= k < |x[1..]| ensures x[1..][k] != c {
          assert x[1..][k] == x[k + 1];
        }
      }
      assert s[1..] == x[1..] + [c] + rest;
      SplitAfterPiece(c, x[1..], rest);
      assert [x[0]] + x[1..] == x;
    }
  }

  /** Splitting undoes joining when no piece holds the separator. */
  lemma {:induction false} SplitJoin(c: char, xs: seq<string>)
    requires |xs| > 0
    requires forall i :: 0 <= i < |xs| ==> c !in xs[i]
    ensures Split(c, Join([c], xs)) == xs
    decreases |xs|
  {
    if |xs| == 1 {
      SplitWithoutSeparator(c, xs[0]);
    } else {
      SplitJoin(c, xs[1..]);
      SplitAfterPiece(c, xs[0], Join([c], xs[1..]));
      assert [xs[0]] + xs[1..] == xs;
    }
  }
}
