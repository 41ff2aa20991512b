/** Character-level helpers standing in for the Python string operations
    the model needs: literal search, `in` on strings and `str.split` for the
    documentation pass, and `str.replace` with single characters for the
    launcher's flag names. */
module Text {

  /** `lit` occurs in `s` starting at index `i`. */
  predicate IsAt(s: string, i: nat, lit: string)
  {
    i + |lit| <= |s| && s[i..i + |lit|] == lit
  }

  /** Where `lit` occurs, `s` holds each of its characters. */
  lemma CharAt(s: string, i: nat, lit: string, j: nat)
    requires IsAt(s, i, lit) && j < |lit|
    ensures s[i + j] == lit[j]
  {
    assert s[i..i + |lit|][j] == s[i + j];
  }

  /** `lit` occurs where it is appended. */
  lemma IsAtEnd(x: string, lit: string)
    ensures IsAt(x + lit, |x|, lit)
  {
    assert (x + lit)[|x|..|x| + |lit|] == lit;
  }

  /** An occurrence stays where it is when text is appended... */
  lemma IsAtExtend(s: string, t: string, i: nat, lit: string)
    requires IsAt(s, i, lit)
    ensures IsAt(s + t, i, lit)
  {
    assert (s + t)[i..i + |lit|] == s[i..i + |lit|];
  }

  /** ... and moves by the length of text put in front. */
  lemma IsAtShift(x: string, s: string, i: nat, lit: string)
    requires IsAt(s, i, lit)
    ensures IsAt(x + s, |x| + i, lit)
  {
    assert (x + s)[|x| + i..|x| + i + |lit|] == s[i..i + |lit|];
  }

  /** A prefix of `x` is a prefix of `x + y`. */
  lemma TakeOfJoin(x: string, y: string, n: nat)
    requires n <= |x|
    ensures (x + y)[..n] == x[..n]
  {
  }

  /** Every character of `s[i..j]` is a blank. */
  predicate SpacesBetween(s: string, i: nat, j: nat)
    requires i <= j <= |s|
  {
    forall k :: i <= k < j ==> s[k] == ' '
  }

  /** The end of the run of blanks that starts at `i` (what a greedy ` *` consumes). */
  function SkipSpaces(s: string, i: nat): (j: nat)
    requires i <= |s|
    ensures i <= j <= |s|
    ensures SpacesBetween(s, i, j)
    ensures j == |s| || s[j] != ' '
    decreases |s| - i
  {
    if i < |s| && s[i] == ' ' then SkipSpaces(s, i + 1) else i
  }

  /** The end of a blank run is determined by its start: any `p` reached over
      blanks and followed by a non-blank is the one `SkipSpaces` finds. */
  lemma SkipSpacesUnique(s: string, i: nat, p: nat)
    requires i <= p < |s|
    requires SpacesBetween(s, i, p)
    requires s[p] != ' '
    ensures SkipSpaces(s, i) == p
  {
  }

  /** Python's `needle in hay` on two strings: a substring test. */
  predicate IsSubstring(needle: string, hay: string)
  {
    exists i :: 0 <= i <= |hay| - |needle| && IsAt(hay, i, needle)
  }

  /** `s.replace(from, to)` for single characters. */
  function ReplaceChar(s: string, from: char, to: char): (r: string)
    ensures |r| == |s|
    ensures forall i :: 0 <= i < |s| ==> r[i] == (if s[i] == from then to else s[i])
  {
    if s == [] then []
    else [if s[0] == from then to else s[0]] + ReplaceChar(s[1..], from, to)
  }

  /** Number of occurrences of `c` in `s`. */
  function CountChar(s: string, c: char): nat
  {
    if s == [] then 0 else (if s[0] == c then 1 else 0) + CountChar(s[1..], c)
  }

  /** Python's `s.split(sep)` with a one-character separator: never empty,
      no piece holds the separator, one piece more than there are separators. */
  function Split(s: string, sep: char): (parts: seq<string>)
    ensures |parts| == CountChar(s, sep) + 1
    ensures forall i :: 0 <= i < |parts| ==> sep !in parts[i]
  {
    if s == [] then [""]
    else
      var rest := Split(s[1..], sep);
      if s[0] == sep then [""] + rest
      else [[s[0]] + rest[0]] + rest[1..]
  }

  /** `sep.join(parts)`: the inverse of `Split`. */
  function Join(parts: seq<string>, sep: char): string
    requires |parts| >= 1
  {
    if |parts| == 1 then parts[0] else parts[0] + [sep] + Join(parts[1..], sep)
  }

  /** Splitting loses nothing: joining the pieces gives back the string. */
  lemma {:induction false} JoinSplit(s: string, sep: char)
    ensures Join(Split(s, sep), sep) == s
  {
    if s != [] {
      JoinSplit(s[1..], sep);
      var rest := Split(s[1..], sep);
      if s[0] != sep {
        if |rest| > 1 {
          assert Join(rest, sep) == rest[0] + [sep] + Join(rest[1..], sep);
          assert [s[0]] + rest[0] + [sep] + Join(rest[1..], sep) == [s[0]] + Join(rest, sep);
        }
        assert Split(s, sep)[1..] == rest[1..];
      } else {
        assert Split(s, sep)[1..] == rest;
      }
    }
  }

  /** Splitting a join of separator-free pieces gives the pieces back. */
  lemma {:induction false} SplitJoin(parts: seq<string>, sep: char)
    requires |parts| >= 1
    requires forall i :: 0 <= i < |parts| ==> sep !in parts[i]
    ensures Split(Join(parts, sep), sep) == parts
  {
    if |parts| == 1 {
      SplitNoSeparator(parts[0], sep);
    } else {
      SplitJoin(parts[1..], sep);
      SplitPrefix(parts[0], Join(parts[1..], sep), sep);
      assert Join(parts, sep) == parts[0] + ([sep] + Join(parts[1..], sep));
    }
  }

  lemma {:induction false} SplitNoSeparator(s: string, sep: char)
    requires sep !in s
    ensures Split(s, sep) == [s]
  {
    if s != [] {
      SplitNoSeparator(s[1..], sep);
      assert [s[0]] + s[1..] == s;
    }
  }

  /** A separator-free prefix followed by the separator becomes the first piece. */
  lemma {:induction false} SplitPrefix(a: string, b: string, sep: char)
    requires sep !in a
    ensures Split(a + [sep] + b, sep) == [a] + Split(b, sep)
  {
    if a == [] {
      assert a + [sep] + b == [sep] + b;
      assert ([sep] + b)[1..] == b;
    } else {
      SplitPrefix(a[1..], b, sep);
      assert (a + [sep] + b)[1..] == a[1..] + [sep] + b;
      assert [a[0]] + a[1..] == a;
    }
  }
}
