/**
 * The string operations of Python that the module relies on, for a
 * one-character separator: `str.split`, `str.join`, `str.startswith`,
 * right-aligned padding, and the prefix filter of the completion.
 */
module Text {

  /** Python's `s.startswith(prefix)`. */
  predicate StartsWith(s: string, prefix: string) {
    |prefix| <= |s| && s[..|prefix|] == prefix
  }

  /** Number of occurrences of `c` in `s`. */
  function Count(s: string, c: char): nat {
    if s == [] then 0 else (if s[0] == c then 1 else 0) + Count(s[1..], c)
  }

  lemma {:induction false} CountZero(s: string, c: char)
    ensures Count(s, c) == 0 <==> c !in s
  {
    if s != [] {
      CountZero(s[1..], c);
      assert s == [s[0]] + s[1..];
    }
  }

  /** Python's `sep.join(xs)` for a one-character separator. */
  function Join(xs: seq<string>, sep: char): string {
    if |xs| == 0 then ""
    else if |xs| == 1 then xs[0]
    else xs[0] + [sep] + Join(xs[1..], sep)
  }

  /**
   * Python's `s.split(sep)` with an explicit separator: every occurrence of
   * `sep` separates two pieces and empty pieces are kept, so `"".split(' ')`
   * is `[""]`. The three ensures clauses determine the result uniquely
   * (see SplitJoin).
   */
  function Split(s: string, sep: char): (pieces: seq<string>)
    ensures |pieces| == Count(s, sep) + 1
    ensures forall i :: 0 <= i < |pieces| ==> sep !in pieces[i]
    ensures Join(pieces, sep) == s
  {
    if s == [] then [""]
    else
      var rest := Split(s[1..], sep);
      if s[0] == sep then
        assert s == [sep] + s[1..];
        [""] + rest
      else
        assert s == [s[0]] + s[1..];
        assert |rest| > 1 ==> Join(rest, sep) == rest[0] + [sep] + Join(rest[1..], sep);
        [[s[0]] + rest[0]] + rest[1..]
  }

  /** A piece without the separator splits into itself. */
  lemma {:induction false} SplitNoSeparator(a: string, sep: char)
    requires sep !in a
    ensures Split(a, sep) == [a]
  {
    CountZero(a, sep);
  }

  /** A leading separator closes an empty first piece. */
  lemma SplitLeadingSeparator(b: string, sep: char)
    ensures Split([sep] + b, sep) == [""] + Split(b, sep)
  {
    assert ([sep] + b)[1..] == b;
  }

  /** Any other leading character joins the first piece. */
  lemma SplitLeadingChar(c: char, t: string, sep: char)
    requires c != sep
    ensures Split([c] + t, sep) == [[c] + Split(t, sep)[0]] + Split(t, sep)[1..]
  {
    assert ([c] + t)[1..] == t;
  }

  /** Splitting `a + sep + b` yields `a` followed by the pieces of `b`. */
  lemma {:induction false} SplitCons(a: string, b: string, sep: char)
    requires sep !in a
    ensures Split(a + [sep] + b, sep) == [a] + Split(b, sep)
  {
    if a == [] {
      assert a + [sep] + b == [sep] + b;
      SplitLeadingSeparator(b, sep);
    } else {
      var t := a[1..] + [sep] + b;
      SplitCons(a[1..], b, sep);
      assert a + [sep] + b == [a[0]] + t;
      SplitLeadingChar(a[0], t, sep);
      assert [a[0]] + a[1..] == a;
    }
  }

  /** Round trip: `sep.join(xs).split(sep) == xs` when no piece holds `sep`. */
  lemma {:induction false} SplitJoin(xs: seq<string>, sep: char)
    requires |xs| >= 1
    requires forall i :: 0 <= i < |xs| ==> sep !in xs[i]
    ensures Split(Join(xs, sep), sep) == xs
  {
    if |xs| == 1 {
      SplitNoSeparator(xs[0], sep);
    } else {
      SplitJoin(xs[1..], sep);
      SplitCons(xs[0], Join(xs[1..], sep), sep);
      assert [xs[0]] + xs[1..] == xs;
    }
  }

  /**
   * Python's `f'{s:{fill}>{width}}'`: `s` right-aligned in a field of at
   * least `width` characters; a longer `s` is kept whole.
   */
  function PadLeft(s: string, width: nat, fill: char): (r: string)
    ensures |r| == if |s| < width then width else |s|
    ensures r[|r| - |s|..] == s
    ensures forall i :: 0 <= i < |r| - |s| ==> r[i] == fill
  {
    if |s| < width then seq(width - |s|, _ => fill) + s else s
  }

  /** `[x for x in names if x.startswith(word)]`. */
  function PrefixFilter(names: seq<string>, word: string): (r: seq<string>)
    ensures |r| <= |names|
    ensures forall n :: n in r <==> n in names && StartsWith(n, word)
  {
    if names == [] then []
    else (if StartsWith(names[0], word) then [names[0]] else []) + PrefixFilter(names[1..], word)
  }

  /** The filter keeps order: filtering a concatenation filters each part. */
  lemma {:induction false} PrefixFilterConcat(a: seq<string>, b: seq<string>, word: string)
    ensures PrefixFilter(a + b, word) == PrefixFilter(a, word) + PrefixFilter(b, word)
  {
    if a != [] {
      PrefixFilterConcat(a[1..], b, word);
      var head := if StartsWith(a[0], word) then [a[0]] else [];
      assert (a + b)[0] == a[0] && (a + b)[1..] == a[1..] + b;
      assert PrefixFilter(a + b, word) == head + PrefixFilter(a[1..] + b, word);
      assert PrefixFilter(a, word) == head + PrefixFilter(a[1..], word);
    } else {
      assert a + b == b;
    }
  }

  /** An empty word completes to every name, in order. */
  lemma {:induction false} PrefixFilterEmptyWord(names: seq<string>)
    ensures PrefixFilter(names, "") == names
  {
    if names != [] {
      PrefixFilterEmptyWord(names[1..]);
      assert [names[0]] + names[1..] == names;
    }
  }
}
