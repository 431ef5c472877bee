/** `str.split(sep)` with a one-character separator, and its inverse `sep.join(...)`. */
module Lines {

  /** The pieces of `s` between occurrences of `sep`: always at least one, an empty
      piece wherever two separators meet or one ends the text. */
  function Split(s: string, sep: char): (r: seq<string>)
    ensures |r| >= 1
    decreases |s|
  {
    if |s| == 0 then [""]
    else
      var rest := Split(s[1..], sep);
      if s[0] == sep then [""] + rest
      else [[s[0]] + rest[0]] + rest[1..]
  }

  /** No piece holds the separator. */
  lemma {:induction false} SplitPiecesFree(s: string, sep: char)
    ensures forall p :: p in Split(s, sep) ==> sep !in p
    decreases |s|
  {
    if |s| > 0 {
      SplitPiecesFree(s[1..], sep);
    }
  }

  /** The pieces with `sep` between each neighbouring pair. */
  function Join(ps: seq<string>, sep: char): string
  {
    if |ps| == 0 then ""
    else if |ps| == 1 then ps[0]
    else ps[0] + [sep] + Join(ps[1..], sep)
  }

  /** Number of occurrences of `c` in `s`. */
  function Occurrences(c: char, s: string): nat
  {
    multiset(s)[c]
  }

  /** Joining the pieces gives back the text. */
  lemma {:induction false} JoinSplit(s: string, sep: char)
    ensures Join(Split(s, sep), sep) == s
    decreases |s|
  {
    if |s| > 0 {
      var rest := Split(s[1..], sep);
      JoinSplit(s[1..], sep);
      if s[0] == sep {
        assert ([""] + rest)[1..] == rest;
      } else {
        var r := [[s[0]] + rest[0]] + rest[1..];
        if |rest| > 1 {
          assert r[1..] == rest[1..];
          assert s == [s[0]] + s[1..];
        }
      }
    }
  }

  /** A text that holds no separator is one piece. */
  lemma {:induction false} SplitWithoutSeparator(p: string, sep: char)
    requires sep !in p
    ensures Split(p, sep) == [p]
    decreases |p|
  {
    if |p| > 0 {
      assert p == [p[0]] + p[1..];
      SplitWithoutSeparator(p[1..], sep);
    }
  }

  /** A separator cuts the text in two independent halves. */
  lemma {:induction false} SplitAtSeparator(a: string, sep: char, b: string)
    ensures Split(a + [sep] + b, sep) == Split(a, sep) + Split(b, sep)
    decreases |a|
  {
    var s := a + [sep] + b;
    if |a| == 0 {
      assert s == [sep] + b;
      assert s[1..] == b;
    } else {
      assert s[1..] == a[1..] + [sep] + b;
      SplitAtSeparator(a[1..], sep, b);
      SplitConsStep(a[0], a[1..] + [sep] + b, a[1..], sep, Split(b, sep));
      assert a == [a[0]] + a[1..] && s == [a[0]] + s[1..];
    }
  }

  /** Splitting a text that starts with `c`: a separator opens a new empty piece,
      any other character joins the first piece of the rest. */
  lemma SplitCons(c: char, t: string, sep: char)
    ensures Split([c] + t, sep) ==
      if c == sep then [""] + Split(t, sep)
      else [[c] + Split(t, sep)[0]] + Split(t, sep)[1..]
  {
    assert ([c] + t)[0] == c && ([c] + t)[1..] == t;
  }

  /** One more leading character: if the rest of two texts splits as the rest of the
      first followed by `tail`, so do the whole texts. */
  lemma SplitConsStep(c: char, t: string, u: string, sep: char, tail: seq<string>)
    requires Split(t, sep) == Split(u, sep) + tail
    ensures Split([c] + t, sep) == Split([c] + u, sep) + tail
  {
    SplitCons(c, t, sep);
    SplitCons(c, u, sep);
    if c != sep {
      PrependToFirst([c], Split(u, sep), tail);
    }
  }

  lemma PrependToFirst(x: string, left: seq<string>, tail: seq<string>)
    requires |left| >= 1
    ensures var rest := left + tail;
      [x + rest[0]] + rest[1..] == [x + left[0]] + left[1..] + tail
  {
    var rest := left + tail;
    assert rest[0] == left[0];
    assert rest[1..] == left[1..] + tail;
  }

  /** Splitting undoes joining, for at least one piece and pieces free of `sep`. */
  lemma {:induction false} SplitJoin(ps: seq<string>, sep: char)
    requires |ps| >= 1
    requires forall p :: p in ps ==> sep !in p
    ensures Split(Join(ps, sep), sep) == ps
    decreases |ps|
  {
    if |ps| == 1 {
      SplitWithoutSeparator(ps[0], sep);
    } else {
      SplitJoin(ps[1..], sep);
      SplitAtSeparator(ps[0], sep, Join(ps[1..], sep));
      SplitWithoutSeparator(ps[0], sep);
      assert ps == [ps[0]] + ps[1..];
    }
  }

  /** A text ending in the separator has an empty last piece. */
  lemma TrailingSeparator(s: string, sep: char)
    ensures Split(s + [sep], sep) == Split(s, sep) + [""]
  {
    SplitAtSeparator(s, sep, "");
    assert s + [sep] + "" == s + [sep];
  }

  /** One piece more than there are separators. */
  lemma {:induction false} SplitCount(s: string, sep: char)
    ensures |Split(s, sep)| == Occurrences(sep, s) + 1
    decreases |s|
  {
    if |s| > 0 {
      SplitCount(s[1..], sep);
      assert s == [s[0]] + s[1..];
      assert multiset(s) == multiset{s[0]} + multiset(s[1..]);
    }
  }
}
