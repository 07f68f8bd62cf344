/**
 * The string operations `RecordFromString` relies on: `bufio.ScanWords`
 * (Words), `strings.Contains`, `strings.Split` (Split, with its inverse Join)
 * and `strings.Title` (Title).
 */
module Text {

  /** White space as `bufio.ScanWords` (and `unicode.IsSpace`) recognise it. */
  predicate IsSpace(c: char) {
    || c == ' ' || c == '\t' || c == '\n' || c == '\U{B}' || c == '\U{C}' || c == '\r'
    || c == '\U{85}' || c == '\U{A0}' || c == '\U{1680}'
    || ('\U{2000}' <= c <= '\U{200A}')
    || c == '\U{2028}' || c == '\U{2029}' || c == '\U{202F}' || c == '\U{205F}' || c == '\U{3000}'
  }

  /** A token `ScanWords` can return: non-empty and free of white space. */
  predicate IsWord(w: string) {
    w != [] && forall i :: 0 <= i < |w| ==> !IsSpace(w[i])
  }

  /** The length of the run of non-space characters at the start of `s`. */
  function RunLength(s: string): (n: nat)
    ensures n <= |s|
    ensures forall i :: 0 <= i < n ==> !IsSpace(s[i])
    ensures n < |s| ==> IsSpace(s[n])
  {
    if s == [] || IsSpace(s[0]) then 0 else 1 + RunLength(s[1..])
  }

  /** The tokens `bufio.ScanWords` yields: the maximal runs of non-space characters, in order. */
  function Words(s: string): (ws: seq<string>)
    ensures forall k :: 0 <= k < |ws| ==> IsWord(ws[k])
    decreases |s|
  {
    if s == [] then []
    else if IsSpace(s[0]) then Words(s[1..])
    else
      var n := RunLength(s);
      [s[..n]] + Words(s[n..])
  }

  lemma {:induction false} RunLengthStopsAtSpace(a: string, c: char, b: string)
    requires IsSpace(c)
    ensures RunLength(a + [c] + b) == RunLength(a)
  {
    if a != [] && !IsSpace(a[0]) {
      assert (a + [c] + b)[1..] == a[1..] + [c] + b;
      RunLengthStopsAtSpace(a[1..], c, b);
    }
  }

  /** A space splits the text: the words of `a + " " + b` are those of `a`, then those of `b`. */
  lemma {:induction false} WordsAroundSpace(a: string, c: char, b: string)
    requires IsSpace(c)
    ensures Words(a + [c] + b) == Words(a) + Words(b)
    decreases |a|
  {
    var s := a + [c] + b;
    if a == [] {
      assert s[1..] == b;
    } else if IsSpace(a[0]) {
      assert s[1..] == a[1..] + [c] + b;
      WordsAroundSpace(a[1..], c, b);
    } else {
      RunLengthStopsAtSpace(a, c, b);
      var n := RunLength(a);
      assert s[..n] == a[..n];
      assert s[n..] == a[n..] + [c] + b;
      WordsAroundSpace(a[n..], c, b);
    }
  }

  lemma WordsOfWord(w: string)
    requires IsWord(w)
    ensures Words(w) == [w]
  {
    assert RunLength(w) == |w|;
    assert w[..|w|] == w;
    assert w[|w|..] == [];
  }

  /** Words joined by single spaces scan back into the same words. */
  lemma {:induction false} WordsOfJoin(ws: seq<string>)
    requires forall k :: 0 <= k < |ws| ==> IsWord(ws[k])
    ensures Words(Join(ws, ' ')) == ws
  {
    if |ws| == 1 {
      WordsOfWord(ws[0]);
    } else if |ws| > 1 {
      WordsAroundSpace(ws[0], ' ', Join(ws[1..], ' '));
      WordsOfWord(ws[0]);
      WordsOfJoin(ws[1..]);
    }
  }

  /** The position of the first `c` in `s`. */
  function IndexOf(s: string, c: char): (i: nat)
    requires c in s
    ensures i < |s| && s[i] == c && c !in s[..i]
  {
    if s[0] == c then 0 else 1 + IndexOf(s[1..], c)
  }

  /** `strings.Split(s, sep)` for a one-character separator: the pieces between the separators. */
  function Split(s: string, sep: char): (parts: seq<string>)
    ensures |parts| >= 1
    ensures (|parts| > 1) == (sep in s)
    ensures forall k :: 0 <= k < |parts| ==> sep !in parts[k]
    decreases |s|
  {
    if sep !in s then [s]
    else
      var i := IndexOf(s, sep);
      [s[..i]] + Split(s[i + 1..], sep)
  }

  /** `strings.Join(parts, sep)`: the pieces with a separator between neighbours. */
  function Join(parts: seq<string>, sep: char): string {
    if parts == [] then ""
    else if |parts| == 1 then parts[0]
    else parts[0] + [sep] + Join(parts[1..], sep)
  }

  /** Joining the pieces of a split gives back the original string. */
  lemma {:induction false} JoinSplit(s: string, sep: char)
    ensures Join(Split(s, sep), sep) == s
    decreases |s|
  {
    if sep in s {
      var i := IndexOf(s, sep);
      var rest := Split(s[i + 1..], sep);
      JoinSplit(s[i + 1..], sep);
      assert Split(s, sep) == [s[..i]] + rest;
      assert s == s[..i] + [sep] + s[i + 1..];
    }
  }

  /** Splitting a join of separator-free pieces gives back the pieces. */
  lemma {:induction false} SplitJoin(parts: seq<string>, sep: char)
    requires |parts| >= 1
    requires forall k :: 0 <= k < |parts| ==> sep !in parts[k]
    ensures Split(Join(parts, sep), sep) == parts
  {
    if |parts| > 1 {
      var s := Join(parts, sep);
      var p := parts[0];
      assert s == p + [sep] + Join(parts[1..], sep);
      assert s[..|p|] == p;
      assert sep in s && IndexOf(s, sep) == |p| by {
        assert s[|p|] == sep;
      }
      assert s[|p| + 1..] == Join(parts[1..], sep);
      SplitJoin(parts[1..], sep);
    }
  }

  /** Go's `isSeparator`: what `strings.Title` treats as a word boundary. */
  predicate IsSeparator(c: char) {
    if c <= '\U{7F}' then
      !('0' <= c <= '9' || 'a' <= c <= 'z' || 'A' <= c <= 'Z' || c == '_')
    else
      IsSpace(c)
  }

  /** `unicode.ToTitle`, for ASCII characters: lower-case letters become upper-case. */
  function ToTitle(c: char): char {
    if 'a' <= c <= 'z' then (c as int - 'a' as int + 'A' as int) as char else c
  }

  /** `strings.Title`: the first character of each word goes through `ToTitle`. */
  function Title(s: string): (t: string)
    ensures |t| == |s|
  {
    seq(|s|, i requires 0 <= i < |s| => if i == 0 || IsSeparator(s[i - 1]) then ToTitle(s[i]) else s[i])
  }

  /**
   * What `strings.Title` changes: the first character and every character
   * after a separator go through `ToTitle`; every other character, and every
   * character that is not a lower-case letter, stays as it is.
   */
  lemma TitleChars(s: string)
    ensures s != [] ==> Title(s)[0] == ToTitle(s[0])
    ensures forall i :: 0 < i < |s| && IsSeparator(s[i - 1]) ==> Title(s)[i] == ToTitle(s[i])
    ensures forall i :: 0 < i < |s| && !IsSeparator(s[i - 1]) ==> Title(s)[i] == s[i]
    ensures forall i :: 0 <= i < |s| && !('a' <= s[i] <= 'z') ==> Title(s)[i] == s[i]
  {
  }
}
