/** The two functions of Go's `strings` package that the exporter relies on:
    `Split` (with a one-character separator) and `Fields`, with `Join` as the
    inverse of both. Strings are sequences of Unicode scalar values, that is,
    Go strings after UTF-8 decoding. */
module GoStrings {

  /** `unicode.IsSpace`: the six ASCII white-space characters, U+0085 and
      U+00A0 from Latin-1, and the other characters with the Unicode
      White_Space property. */
  predicate IsSpace(c: char) {
    || c == '\t' || c == '\n' || c == '\U{B}' || c == '\U{C}' || c == '\r' || c == ' '
    || c == '\U{85}' || c == '\U{A0}' || c == '\U{1680}'
    || ('\U{2000}' <= c <= '\U{200A}')
    || c == '\U{2028}' || c == '\U{2029}' || c == '\U{202F}' || c == '\U{205F}' || c == '\U{3000}'
  }

  /** A field as `strings.Fields` produces it: non-empty, with no white space. */
  predicate IsWord(w: string) {
    w != [] && forall k :: 0 <= k < |w| ==> !IsSpace(w[k])
  }

  /** Printable ASCII other than the space: what `netstat` prints in its columns. */
  predicate IsVisibleAscii(w: string) {
    forall k :: 0 <= k < |w| ==> '!' <= w[k] <= '~'
  }

  /** Non-empty printable ASCII text without spaces is a field. */
  lemma VisibleAsciiIsWord(w: string)
    requires w != [] && IsVisibleAscii(w)
    ensures IsWord(w)
  {
  }

  /** The position of the first `c` in `s` at or after `from`, or `|s|`
      when there is none. */
  function IndexFrom(s: string, c: char, from: nat): (i: nat)
    requires from <= |s|
    ensures from <= i <= |s|
    ensures i < |s| ==> s[i] == c
    ensures forall k :: from <= k < i ==> s[k] != c
    decreases |s| - from
  {
    if from == |s| || s[from] == c then from else IndexFrom(s, c, from + 1)
  }

  /** The position of the first `c` in `s`, or `|s|` when there is none. */
  function IndexOf(s: string, c: char): (i: nat)
    ensures i <= |s|
    ensures i < |s| ==> s[i] == c
    ensures forall k :: 0 <= k < i ==> s[k] != c
  {
    IndexFrom(s, c, 0)
  }

  /** Only the first occurrence satisfies the contract of `IndexOf`. */
  lemma IndexOfIs(s: string, c: char, i: nat)
    requires i <= |s| && (i < |s| ==> s[i] == c)
    requires forall k :: 0 <= k < i ==> s[k] != c
    ensures IndexOf(s, c) == i
  {
  }

  /** The first occurrence of a character in `a` is also its first in `a + b`. */
  lemma IndexOfConcat(a: string, b: string, c: char)
    requires IndexOf(a, c) < |a|
    ensures IndexOf(a + b, c) == IndexOf(a, c)
  {
    var i := IndexOf(a, c);
    assert forall k :: 0 <= k <= i ==> (a + b)[k] == a[k];
    IndexOfIs(a + b, c, i);
  }

  /** Slicing a concatenation within its first part. */
  lemma SliceConcat(a: string, b: string, j: nat)
    requires j <= |a|
    ensures (a + b)[..j] == a[..j] && (a + b)[j..] == a[j..] + b
  {
  }

  /** `strings.Join(parts, string(sep))`. */
  function Join(parts: seq<string>, sep: char): string {
    if parts == [] then []
    else if |parts| == 1 then parts[0]
    else parts[0] + [sep] + Join(parts[1..], sep)
  }

  /** `strings.Split(s, string(sep))`: the pieces of `s` between occurrences of
      `sep`; a string without `sep` is one piece, the empty string included. */
  function Split(s: string, sep: char): (parts: seq<string>)
    ensures 1 <= |parts| <= |s| + 1
    decreases |s|
  {
    var i := IndexOf(s, sep);
    if i == |s| then [s] else [s[..i]] + Split(s[i + 1..], sep)
  }

  /** Splitting yields at least one piece, exactly one when the separator does
      not occur, and no piece holds the separator. */
  lemma {:induction false} SplitShape(s: string, sep: char)
    ensures |Split(s, sep)| >= 1
    ensures |Split(s, sep)| == 1 <==> sep !in s
    ensures forall k :: 0 <= k < |Split(s, sep)| ==> sep !in Split(s, sep)[k]
    decreases |s|
  {
    var i := IndexOf(s, sep);
    if i < |s| {
      var head, rest := s[..i], s[i + 1..];
      assert sep !in head by {
        assert forall k :: 0 <= k < i ==> head[k] == s[k];
      }
      SplitShape(rest, sep);
      var parts, tail := Split(s, sep), Split(rest, sep);
      assert parts == [head] + tail;
      forall k | 0 <= k < |parts|
        ensures sep !in parts[k]
      {
        if k > 0 {
          assert parts[k] == tail[k - 1];
        }
      }
    }
  }

  /** Joining the pieces again gives back the string that was split. */
  lemma {:induction false} JoinSplit(s: string, sep: char)
    ensures Join(Split(s, sep), sep) == s
    decreases |s|
  {
    var i := IndexOf(s, sep);
    if i < |s| {
      var head, rest := s[..i], s[i + 1..];
      assert s == head + [sep] + rest by {
        assert head + [sep] == s[..i + 1];
      }
      var tail := Split(rest, sep);
      SplitShape(rest, sep);
      JoinSplit(rest, sep);
      JoinCons(head, tail, sep);
    }
  }

  /** Joining a piece in front of at least one other piece. */
  lemma JoinCons(head: string, tail: seq<string>, sep: char)
    requires |tail| >= 1
    ensures Join([head] + tail, sep) == head + [sep] + Join(tail, sep)
  {
    assert ([head] + tail)[1..] == tail;
  }

  /** Splitting a join of separator-free pieces gives the pieces back. */
  lemma {:induction false} SplitJoin(parts: seq<string>, sep: char)
    requires |parts| >= 1
    requires forall k :: 0 <= k < |parts| ==> sep !in parts[k]
    ensures Split(Join(parts, sep), sep) == parts
  {
    var head := parts[0];
    if |parts| == 1 {
      IndexOfIs(head, sep, |head|);
    } else {
      var rest := parts[1..];
      var tail := Join(rest, sep);
      var s := Join(parts, sep);
      assert s == head + [sep] + tail;
      assert forall k :: 0 <= k < |head| ==> s[k] == head[k];
      IndexOfIs(s, sep, |head|);
      assert s[..|head|] == head;
      assert s[|head| + 1..] == tail;
      SplitJoin(rest, sep);
      assert parts == [head] + rest;
    }
  }

  /** The last piece is what follows the last separator, whatever precedes it. */
  lemma {:induction false} SplitLast(prefix: string, sep: char, last: string)
    requires sep !in last
    ensures var parts := Split(prefix + [sep] + last, sep);
            |parts| >= 2 && parts[|parts| - 1] == last
    decreases |prefix|
  {
    var s := prefix + [sep] + last;
    var i := FirstSeparator(prefix, sep, last);
    SplitCons(s, sep);
    if i < |prefix| {
      SplitLast(prefix[i + 1..], sep, last);
    } else {
      IndexOfIs(last, sep, |last|);
    }
    LastOfCons(s[..i], Split(s[i + 1..], sep));
  }

  /** Where the first separator of `prefix + [sep] + last` is, and what follows it. */
  lemma FirstSeparator(prefix: string, sep: char, last: string) returns (i: nat)
    requires sep !in last
    ensures i == IndexOf(prefix + [sep] + last, sep) && i <= |prefix|
    ensures i < |prefix| ==> (prefix + [sep] + last)[i + 1..] == prefix[i + 1..] + [sep] + last
    ensures i == |prefix| ==> (prefix + [sep] + last)[i + 1..] == last
  {
    var s := prefix + [sep] + last;
    assert s[|prefix|] == sep;
    i := IndexOf(s, sep);
    assert forall k :: 0 <= k < |prefix| ==> s[k] == prefix[k];
    if i < |prefix| {
      assert s[i + 1..] == prefix[i + 1..] + [sep] + last;
    } else {
      assert s[i + 1..] == last;
    }
  }

  /** The first piece of a string holding the separator is the text before it. */
  lemma SplitCons(s: string, sep: char)
    requires IndexOf(s, sep) < |s|
    ensures Split(s, sep) == [s[..IndexOf(s, sep)]] + Split(s[IndexOf(s, sep) + 1..], sep)
  {
  }

  /** The last element is unchanged by putting one in front. */
  lemma LastOfCons<T>(h: T, tail: seq<T>)
    requires |tail| >= 1
    ensures ([h] + tail)[|tail|] == tail[|tail| - 1]
  {
  }

  /** The position of the first white space in `s` at or after `from`, or
      `|s|` when there is none. */
  function WordEnd(s: string, from: nat): (i: nat)
    requires from <= |s|
    ensures from <= i <= |s|
    ensures forall k :: from <= k < i ==> !IsSpace(s[k])
    ensures i < |s| ==> IsSpace(s[i])
    decreases |s| - from
  {
    if from == |s| || IsSpace(s[from]) then from else WordEnd(s, from + 1)
  }

  /** The length of the run of non-space characters that starts `s`. */
  function WordLen(s: string): (n: nat)
    ensures n <= |s|
    ensures forall k :: 0 <= k < n ==> !IsSpace(s[k])
    ensures n < |s| ==> IsSpace(s[n])
  {
    WordEnd(s, 0)
  }

  /** Only the end of the first run satisfies the contract of `WordLen`. */
  lemma WordLenIs(s: string, n: nat)
    requires n <= |s| && (n < |s| ==> IsSpace(s[n]))
    requires forall k :: 0 <= k < n ==> !IsSpace(s[k])
    ensures WordLen(s) == n
  {
  }

  /** `strings.Fields`: the maximal runs of non-space characters of `s`, in order. */
  function Fields(s: string): (fs: seq<string>)
    ensures |fs| <= |s|
    ensures s != [] && !IsSpace(s[0]) ==> |fs| >= 1
    decreases |s|
  {
    if s == [] then []
    else if IsSpace(s[0]) then Fields(s[1..])
    else
      var n := WordLen(s);
      [s[..n]] + Fields(s[n..])
  }

  /** Text made only of white space has no fields. */
  lemma {:induction false} FieldsOfSpaces(s: string)
    requires forall k :: 0 <= k < |s| ==> IsSpace(s[k])
    ensures Fields(s) == []
    decreases |s|
  {
    if s != [] {
      FieldsOfSpaces(s[1..]);
    }
  }

  /** Every field is non-empty and free of white space. */
  lemma {:induction false} FieldsAreWords(s: string)
    ensures forall k :: 0 <= k < |Fields(s)| ==> IsWord(Fields(s)[k])
    decreases |s|
  {
    if s != [] && IsSpace(s[0]) {
      FieldsAreWords(s[1..]);
    } else if s != [] {
      var n := WordLen(s);
      var word, tail := s[..n], Fields(s[n..]);
      assert IsWord(word) by {
        assert forall k :: 0 <= k < n ==> word[k] == s[k];
      }
      FieldsAreWords(s[n..]);
      var fs := Fields(s);
      assert fs == [word] + tail;
      forall k | 0 <= k < |fs|
        ensures IsWord(fs[k])
      {
        if k > 0 {
          assert fs[k] == tail[k - 1];
        }
      }
    }
  }

  /** A word run stops at the end of its string when what follows starts with space. */
  lemma WordLenConcat(s: string, t: string)
    requires WordLen(s) < |s| || t == [] || IsSpace(t[0])
    ensures WordLen(s + t) == WordLen(s)
  {
    var n := WordLen(s);
    assert forall k :: 0 <= k < n ==> (s + t)[k] == s[k];
    WordLenIs(s + t, n);
  }

  /** Fields of two texts separated by white space are the fields of each, in order. */
  lemma {:induction false} FieldsConcat(s: string, t: string)
    requires s == [] || IsSpace(s[|s| - 1]) || t == [] || IsSpace(t[0])
    ensures Fields(s + t) == Fields(s) + Fields(t)
    decreases |s|
  {
    if s == [] {
      assert s + t == t;
    } else if IsSpace(s[0]) {
      assert (s + t)[1..] == s[1..] + t;
      FieldsConcat(s[1..], t);
    } else {
      var n := WordLen(s);
      WordLenConcat(s, t);
      SliceConcat(s, t, n);
      FieldsConcat(s[n..], t);
      FieldsCons(s + t, s[..n], s[n..] + t);
      FieldsCons(s, s[..n], s[n..]);
      AppendAssoc([s[..n]], Fields(s[n..]), Fields(t));
    }
  }

  /** A text that starts with a word splits into that word and the fields after it. */
  lemma FieldsCons(s: string, word: string, rest: string)
    requires s != [] && !IsSpace(s[0]) && word == s[..WordLen(s)] && rest == s[WordLen(s)..]
    ensures Fields(s) == [word] + Fields(rest)
  {
  }

  /** Concatenation is associative. */
  lemma AppendAssoc<T>(x: seq<T>, y: seq<T>, z: seq<T>)
    ensures x + (y + z) == (x + y) + z
  {
  }

  /** A word on its own is its one field. */
  lemma FieldsOfWord(w: string)
    requires IsWord(w)
    ensures Fields(w) == [w]
  {
    WordLenIs(w, |w|);
    assert w[..|w|] == w;
    assert w[|w|..] == [];
  }

  /** Joining words with single spaces and taking the fields gives the words back. */
  lemma {:induction false} FieldsJoin(words: seq<string>)
    requires forall k :: 0 <= k < |words| ==> IsWord(words[k])
    ensures Fields(Join(words, ' ')) == words
  {
    if |words| == 1 {
      FieldsOfWord(words[0]);
    } else if |words| > 1 {
      var w, tail := words[0], words[1..];
      assert words == [w] + tail;
      JoinCons(w, tail, ' ');
      FieldsAfterWord(w, Join(tail, ' '));
      FieldsJoin(tail);
    }
  }

  /** A word and a space in front of a text add that word in front of its fields. */
  lemma FieldsAfterWord(w: string, rest: string)
    requires IsWord(w)
    ensures Fields(w + [' '] + rest) == [w] + Fields(rest)
  {
    var spaced := [' '] + rest;
    AppendAssoc(w, [' '], rest);
    FieldsConcat(w, spaced);
    FieldsOfWord(w);
    assert spaced[1..] == rest;
  }
}
