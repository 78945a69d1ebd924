/** The two string operations the pipeline relies on: sep.join(words)
    and s.split(sep) for a one-character separator. */
module Text {

  /** sep.join(words). */
  function Join(words: seq<string>, sep: string): string
  {
    if |words| == 0 then ""
    else if |words| == 1 then words[0]
    else words[0] + sep + Join(words[1..], sep)
  }

  /** The number of occurrences of c in s. */
  function Occurrences(s: string, c: char): nat
  {
    if s == [] then 0 else (if s[0] == c then 1 else 0) + Occurrences(s[1..], c)
  }

  /** s.split(sep) with an explicit one-character separator: every occurrence
      cuts, so adjacent, leading and trailing separators give empty fields. */
  function Split(s: string, sep: char): (fields: seq<string>)
    ensures |fields| == Occurrences(s, sep) + 1
    ensures forall k :: 0 <= k < |fields| ==> sep !in fields[k]
    ensures Join(fields, [sep]) == s
    decreases |s|
  {
    if s == [] then [[]]
    else
      var rest := Split(s[1..], sep);
      if s[0] == sep then
        assert [s[0]] + s[1..] == s;
        [[]] + rest
      else
        var fields := [[s[0]] + rest[0]] + rest[1..];
        assert fields[1..] == rest[1..];
        assert Join(fields, [sep]) == [s[0]] + Join(rest, [sep]) by {
          if |rest| > 1 {
            assert rest == [rest[0]] + rest[1..];
          }
        }
        assert [s[0]] + s[1..] == s;
        fields
  }

  /** Splitting a word without the separator, followed by more text. */
  lemma {:induction false} SplitPrefix(w: string, t: string, sep: char)
    requires sep !in w
    ensures Split(w + t, sep) == [w + Split(t, sep)[0]] + Split(t, sep)[1..]
  {
    if w != [] {
      assert (w + t)[0] == w[0] && (w + t)[1..] == w[1..] + t;
      SplitPrefix(w[1..], t, sep);
      assert [w[0]] + (w[1..] + Split(t, sep)[0]) == w + Split(t, sep)[0];
    } else {
      var f := Split(t, sep);
      assert w + t == t && w + f[0] == f[0];
      assert f == [f[0]] + f[1..];
    }
  }

  /** Splitting undoes joining, for a non-empty list of words free of the separator. */
  lemma {:induction false} SplitJoin(words: seq<string>, sep: char)
    requires |words| >= 1
    requires forall k :: 0 <= k < |words| ==> sep !in words[k]
    ensures Split(Join(words, [sep]), sep) == words
  {
    if |words| == 1 {
      SplitPrefix(words[0], [], sep);
      assert words[0] + [] == words[0];
    } else {
      var rest := Join(words[1..], [sep]);
      assert Join(words, [sep]) == words[0] + ([sep] + rest);
      SplitJoin(words[1..], sep);
      SplitPrefix(words[0], [sep] + rest, sep);
      assert ([sep] + rest)[1..] == rest;
      assert Split([sep] + rest, sep) == [[]] + words[1..];
      assert words[0] + [] == words[0];
      assert words == [words[0]] + words[1..];
    }
  }
}
