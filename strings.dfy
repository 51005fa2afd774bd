/** The two functions of Go's `strings` package that the filesystem uses on
    paths: `strings.Split` with a one-character separator, and `strings.Join`. */
module Strings {

  /** `strings.Split(s, string(sep))`: the pieces of `s` between occurrences of
      `sep`. Empty pieces are kept, so `Split("", sep) == [""]` and a leading,
      trailing or doubled separator yields an empty piece. */
  function Split(s: string, sep: char): (r: seq<string>)
    ensures |r| >= 1
    ensures forall i :: 0 <= i < |r| ==> sep !in r[i]
    decreases |s|
  {
    if |s| == 0 then [""]
    else
      var rest := Split(s[1..], sep);
      if s[0] == sep then [""] + rest
      else [[s[0]] + rest[0]] + rest[1..]
  }

  /** `strings.Join(ss, string(sep))`: the pieces glued together with `sep`
      between neighbours; the empty list joins to the empty string. */
  function Join(ss: seq<string>, sep: char): string
  {
    if |ss| == 0 then ""
    else if |ss| == 1 then ss[0]
    else ss[0] + [sep] + Join(ss[1..], sep)
  }

  /** Joining the pieces of a split gives back the original string. */
  lemma {:induction false} JoinSplit(s: string, sep: char)
    ensures Join(Split(s, sep), sep) == s
    decreases |s|
  {
    if |s| > 0 {
      var rest := Split(s[1..], sep);
      JoinSplit(s[1..], sep);
      if s[0] == sep {
        assert ([""] + rest)[1..] == rest;
      } else if |rest| > 1 {
        var head := [[s[0]] + rest[0]] + rest[1..];
        assert head[1..] == rest[1..];
        assert s == [s[0]] + s[1..];
      } else {
        assert s == [s[0]] + s[1..];
      }
    }
  }

  /** A string without the separator splits into itself alone. */
  lemma {:induction false} SplitWithoutSep(a: string, sep: char)
    requires sep !in a
    ensures Split(a, sep) == [a]
    decreases |a|
  {
    if |a| > 0 {
      SplitWithoutSep(a[1..], sep);
      assert a == [a[0]] + a[1..];
    }
  }

  /** A separator-free head followed by a separator splits off as one piece. */
  lemma {:induction false} SplitAtSep(a: string, b: string, sep: char)
    requires sep !in a
    ensures Split(a + [sep] + b, sep) == [a] + Split(b, sep)
    decreases |a|
  {
    if |a| == 0 {
      assert a + [sep] + b == [sep] + b;
      assert ([sep] + b)[1..] == b;
    } else {
      var s := a + [sep] + b;
      assert s[0] == a[0] && s[1..] == a[1..] + [sep] + b;
      SplitAtSep(a[1..], b, sep);
      assert a == [a[0]] + a[1..];
    }
  }

  /** Splitting a join of separator-free pieces gives back the pieces. */
  lemma {:induction false} SplitJoin(ss: seq<string>, sep: char)
    requires |ss| >= 1
    requires forall i :: 0 <= i < |ss| ==> sep !in ss[i]
    ensures Split(Join(ss, sep), sep) == ss
    decreases |ss|
  {
    if |ss| == 1 {
      SplitWithoutSep(ss[0], sep);
    } else {
      SplitJoin(ss[1..], sep);
      SplitAtSep(ss[0], Join(ss[1..], sep), sep);
      assert ss == [ss[0]] + ss[1..];
    }
  }
}
