/** The few Python `str` operations the feature extractor relies on:
    `split()` with no separator, `lower()`, and the substring test `sub in s`. */
module Text {

  /** Python's `str.isspace()` for one character: the separators that
      `split()` with no argument splits on. */
  predicate IsSpace(c: char) {
    || ('\t' <= c <= '\r')
    || ('\U{1c}' <= c <= '\U{1f}')
    || c == ' '
    || c == '\U{85}'
    || c == '\U{a0}'
    || c == '\U{1680}'
    || ('\U{2000}' <= c <= '\U{200a}')
    || c == '\U{2028}'
    || c == '\U{2029}'
    || c == '\U{202f}'
    || c == '\U{205f}'
    || c == '\U{3000}'
  }

  predicate NoSpace(w: string) {
    forall i :: 0 <= i < |w| ==> !IsSpace(w[i])
  }

  predicate AllSpace(s: string) {
    forall i :: 0 <= i < |s| ==> IsSpace(s[i])
  }

  /** `s` without its leading run of whitespace. */
  function TrimStart(s: string): (r: string)
    ensures |r| <= |s| && r == s[|s| - |r|..]
    ensures AllSpace(s[..|s| - |r|])
    ensures r == [] || !IsSpace(r[0])
  {
    if s != [] && IsSpace(s[0]) then TrimStart(s[1..]) else s
  }

  /** The longest prefix of `s` that holds no whitespace. */
  function LeadingWord(s: string): (w: string)
    ensures w <= s && NoSpace(w)
    ensures |w| == |s| || IsSpace(s[|w|])
  {
    if s != [] && !IsSpace(s[0]) then [s[0]] + LeadingWord(s[1..]) else []
  }

  /** Python's `s.split()`: the whitespace-separated words of `s`. Each word
      is non-empty and holds no whitespace, and the first one is the
      string's first word (`SplitFirstWord`). */
  function Split(s: string): (words: seq<string>)
    ensures Words(words)
    ensures words == [] <==> AllSpace(s)
    decreases |s|
  {
    var t := TrimStart(s);
    if t == [] then
      assert s[..|s|] == s;
      []
    else
      var w := LeadingWord(t);
      assert s[|s| - |t|] == t[0];
      SpaceAt(s, |s| - |t|);
      var rest := Split(t[|w|..]);
      ConsWords(w, rest);
      [w] + rest
  }

  /** Every element is a non-empty run of non-whitespace. */
  predicate Words(ws: seq<string>) {
    forall k :: 0 <= k < |ws| ==> ws[k] != [] && NoSpace(ws[k])
  }

  lemma ConsWords(w: string, rest: seq<string>)
    requires w != [] && NoSpace(w) && Words(rest)
    ensures Words([w] + rest)
  {
    forall k | 1 <= k < |[w] + rest| ensures ([w] + rest)[k] == rest[k - 1] {
    }
  }

  /** A string with a non-space character is not all whitespace. */
  lemma SpaceAt(s: string, i: int)
    requires 0 <= i < |s| && !IsSpace(s[i])
    ensures !AllSpace(s)
  {
  }

  /** `w` is the first whitespace-delimited word of `s`: it follows a run of
      whitespace only, is non-empty, holds no whitespace, and ends at the end
      of `s` or at a whitespace character. */
  ghost predicate IsFirstWord(s: string, w: string) {
    exists i :: 0 <= i <= |s| - |w| && FirstWordAt(s, w, i)
  }

  ghost predicate FirstWordAt(s: string, w: string, i: int)
    requires 0 <= i <= |s| - |w|
  {
    && w != [] && NoSpace(w)
    && AllSpace(s[..i])
    && s[i..i + |w|] == w
    && (i + |w| == |s| || IsSpace(s[i + |w|]))
  }

  /** The first word `split()` returns is the first word of the string. */
  lemma SplitFirstWord(s: string)
    requires !AllSpace(s)
    ensures Split(s) != [] && IsFirstWord(s, Split(s)[0])
  {
    var t := TrimStart(s);
    var i := |s| - |t|;
    var w := LeadingWord(t);
    assert s[i..i + |w|] == w;
    assert FirstWordAt(s, w, i);
  }

  /** At most one string is the first word of `s`. */
  lemma {:induction false} FirstWordUnique(s: string, w1: string, w2: string)
    requires IsFirstWord(s, w1) && IsFirstWord(s, w2)
    ensures w1 == w2
  {
    var i1 :| 0 <= i1 <= |s| - |w1| && FirstWordAt(s, w1, i1);
    var i2 :| 0 <= i2 <= |s| - |w2| && FirstWordAt(s, w2, i2);
    assert s[i1] == w1[0] && s[i2] == w2[0];
    if i1 != i2 {
      assert false;
    }
    if |w1| != |w2| {
      assert false;
    }
    assert w1 == s[i1..i1 + |w1|];
  }

  /** Python's `str.lower()` on one character, for the ASCII letters. */
  function LowerChar(c: char): char {
    if 'A' <= c <= 'Z' then (c as int - 'A' as int + 'a' as int) as char else c
  }

  function UpperChar(c: char): char {
    if 'a' <= c <= 'z' then (c as int - 'a' as int + 'A' as int) as char else c
  }

  function Lower(s: string): string {
    seq(|s|, i requires 0 <= i < |s| => LowerChar(s[i]))
  }

  function Upper(s: string): string {
    seq(|s|, i requires 0 <= i < |s| => UpperChar(s[i]))
  }

  /** Lower-casing is idempotent, and it forgets what upper-casing did. */
  lemma LowerUpper(s: string)
    ensures Lower(Lower(s)) == Lower(s)
    ensures Lower(Upper(s)) == Lower(s)
  {
  }

  /** Python's `sub in s` on strings. */
  predicate Occurs(sub: string, s: string)
    decreases |s|
  {
    sub <= s || (s != [] && Occurs(sub, s[1..]))
  }

  /** `sub` is the slice of `s` that starts at offset `i`. */
  predicate SliceAt(sub: string, s: string, i: int) {
    0 <= i <= |s| - |sub| && s[i..i + |sub|] == sub
  }

  /** `sub in s` holds exactly when `sub` is the slice of `s` at some offset. */
  lemma {:induction false} OccursAt(sub: string, s: string)
    ensures Occurs(sub, s) <==> exists i :: SliceAt(sub, s, i)
    decreases |s|
  {
    if sub <= s {
      assert SliceAt(sub, s, 0);
    } else if s == [] {
    } else {
      OccursAt(sub, s[1..]);
      if Occurs(sub, s[1..]) {
        var j :| SliceAt(sub, s[1..], j);
        assert SliceAt(sub, s, j + 1);
      }
      if exists i :: SliceAt(sub, s, i) {
        var i :| SliceAt(sub, s, i);
        assert i != 0;  // a slice at offset 0 is a prefix
        assert SliceAt(sub, s[1..], i - 1);
      }
    }
  }
}
