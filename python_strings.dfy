/**
 The Python string built-ins that the tokenizer and the padding pass are made of,
 on `string` (= `seq<char>`): `str.replace` with one-character arguments,
 `sep.join(tokens)`, iterating a string character by character, and
 `str.split(sep)` with an explicit one-character separator.
 */
module PythonStrings {

  /** `s.replace(pat, rep)` for one-character `pat` and `rep`. */
  function ReplaceChar(s: string, pat: char, rep: char): (r: string)
    ensures |r| == |s|
    ensures forall i :: 0 <= i < |s| ==> r[i] == (if s[i] == pat then rep else s[i])
  {
    if s == [] then []
    else [if s[0] == pat then rep else s[0]] + ReplaceChar(s[1..], pat, rep)
  }

  /** The one-character strings that iterating over `s` yields, in order. */
  function Chars(s: string): (r: seq<string>)
    ensures |r| == |s|
  {
    seq(|s|, i requires 0 <= i < |s| => [s[i]])
  }

  /** `sep.join(ts)`: the tokens with `sep` between each adjacent pair. */
  function Join(sep: string, ts: seq<string>): string
  {
    if |ts| == 0 then ""
    else if |ts| == 1 then ts[0]
    else ts[0] + sep + Join(sep, ts[1..])
  }

  /**
   `s.split(sep)` with an explicit separator: never an empty list (`"".split(" ")`
   is `[""]`), no token holding the separator, and adjacent separators giving
   empty tokens.
   */
  function Split(s: string, sep: char): (r: seq<string>)
    ensures |r| >= 1
    ensures forall i :: 0 <= i < |r| ==> sep !in r[i]
  {
    if s == [] then [""]
    else
      assert s == [s[0]] + s[1..];
      var rest := Split(s[1..], sep);
      if s[0] == sep then [""] + rest
      else [[s[0]] + rest[0]] + rest[1..]
  }

  /** Joining a token in front of a non-empty list puts it and a separator in front. */
  lemma JoinCons(sep: string, t: string, ts: seq<string>)
    requires |ts| >= 1
    ensures Join(sep, [t] + ts) == t + sep + Join(sep, ts)
  {
    assert ([t] + ts)[1..] == ts;
  }

  /** Putting `p` in front of the first token puts it in front of the joined text. */
  lemma {:induction false} JoinPrependFirst(sep: string, p: string, ts: seq<string>)
    requires |ts| >= 1
    ensures Join(sep, [p + ts[0]] + ts[1..]) == p + Join(sep, ts)
  {
    var us := [p + ts[0]] + ts[1..];
    if |ts| > 1 {
      assert us[1..] == ts[1..];
    }
  }

  /** Joining what `split` returns, with the same separator, gives back the text. */
  lemma {:induction false} JoinSplit(s: string, sep: char)
    ensures Join([sep], Split(s, sep)) == s
  {
    if s != [] {
      var rest := Split(s[1..], sep);
      JoinSplit(s[1..], sep);
      if s[0] == sep {
        assert ([""] + rest)[1..] == rest;
      } else {
        JoinPrependFirst([sep], [s[0]], rest);
      }
    }
  }

  /** Text without the separator splits into itself alone. */
  lemma {:induction false} SplitWithoutSep(s: string, sep: char)
    requires sep !in s
    ensures Split(s, sep) == [s]
  {
    if s != [] {
      assert s[0] != sep;
      SplitWithoutSep(s[1..], sep);
      assert [s[0]] + s[1..] == s;
    }
  }

  /** A separator-free prefix followed by the separator splits off as the first token. */
  lemma {:induction false} SplitAfterSep(a: string, sep: char, b: string)
    requires sep !in a
    ensures Split(a + [sep] + b, sep) == [a] + Split(b, sep)
  {
    var s := a + [sep] + b;
    if a == [] {
      assert s[1..] == b;
    } else {
      assert s[1..] == a[1..] + [sep] + b;
      SplitAfterSep(a[1..], sep, b);
      assert [a[0]] + a[1..] == a;
    }
  }

  /**
   Splitting a join of at least one separator-free token gives the tokens back:
   `sep.join(ts).split(sep) == ts`.
   */
  lemma {:induction false} SplitJoin(ts: seq<string>, sep: char)
    requires |ts| >= 1
    requires forall i :: 0 <= i < |ts| ==> sep !in ts[i]
    ensures Split(Join([sep], ts), sep) == ts
  {
    if |ts| == 1 {
      SplitWithoutSep(ts[0], sep);
    } else {
      SplitJoin(ts[1..], sep);
      SplitAfterSep(ts[0], sep, Join([sep], ts[1..]));
    }
  }

  /**
   Joining the characters of `s` with a one-character separator interleaves them:
   even positions hold the characters of `s` in order, odd positions the separator.
   */
  lemma {:induction false} JoinCharsAt(s: string, sep: char)
    ensures |Join([sep], Chars(s))| == if |s| == 0 then 0 else 2 * |s| - 1
    ensures forall j :: 0 <= j < |Join([sep], Chars(s))| && j % 2 == 0 ==>
              Join([sep], Chars(s))[j] == s[j / 2]
    ensures forall j :: 0 <= j < |Join([sep], Chars(s))| && j % 2 == 1 ==>
              Join([sep], Chars(s))[j] == sep
  {
    if |s| > 1 {
      var t := s[1..];
      assert Chars(s)[1..] == Chars(t);
      JoinCharsAt(t, sep);
      var r := Join([sep], Chars(s));
      var r' := Join([sep], Chars(t));
      assert r == [s[0]] + [sep] + r';
      forall j | 2 <= j < |r|
        ensures r[j] == r'[j - 2]
        ensures j % 2 == 0 ==> r[j] == s[j / 2]
      {
        assert (j - 2) / 2 == j / 2 - 1;
      }
    }
  }
}
