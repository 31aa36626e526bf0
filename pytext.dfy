/** The few Python string operations the reply routine uses: `str.lower`
    (restricted to ASCII letters), `str.strip` with no argument, and
    `' '.join` as a reference for the accumulated answer text. */
module PyText {

  /** Python's `str.isspace` on one character: exactly the characters that
      `str.strip()` removes from either end. */
  predicate IsSpace(c: char) {
    || ('\t' <= c <= '\r')
    || ('\U{1C}' <= c <= '\U{1F}')
    || c == ' '
    || c == '\U{85}'
    || c == '\U{A0}'
    || c == '\U{1680}'
    || ('\U{2000}' <= c <= '\U{200A}')
    || c == '\U{2028}'
    || c == '\U{2029}'
    || c == '\U{202F}'
    || c == '\U{205F}'
    || c == '\U{3000}'
  }

  predicate IsAsciiUpper(c: char) {
    'A' <= c <= 'Z'
  }

  function LowerChar(c: char): char {
    if IsAsciiUpper(c) then (c as int + 32) as char else c
  }

  /** `str.lower()` on the ASCII letters; every other character is kept. */
  function Lower(s: string): (r: string)
    ensures |r| == |s|
    ensures forall i :: 0 <= i < |s| ==> !IsAsciiUpper(r[i])
    ensures forall i :: 0 <= i < |s| ==> (IsAsciiUpper(s[i]) ==> r[i] as int == s[i] as int + 32)
    ensures forall i :: 0 <= i < |s| ==> (!IsAsciiUpper(s[i]) ==> r[i] == s[i])
  {
    seq(|s|, i requires 0 <= i < |s| => LowerChar(s[i]))
  }

  /** Drops the leading whitespace of `s`. */
  function TrimStart(s: string): (r: string)
    ensures |r| <= |s| && r == s[|s| - |r|..]
    ensures forall i :: 0 <= i < |s| - |r| ==> IsSpace(s[i])
    ensures r == [] || !IsSpace(r[0])
    decreases |s|
  {
    if s != [] && IsSpace(s[0]) then TrimStart(s[1..]) else s
  }

  /** Drops the trailing whitespace of `s`. */
  function TrimEnd(s: string): (r: string)
    ensures |r| <= |s| && r == s[..|r|]
    ensures forall i :: |r| <= i < |s| ==> IsSpace(s[i])
    ensures r == [] || !IsSpace(r[|r| - 1])
    decreases |s|
  {
    if s != [] && IsSpace(s[|s| - 1]) then TrimEnd(s[..|s| - 1]) else s
  }

  /** `str.strip()`: cuts the leading, then the trailing whitespace. */
  function Strip(s: string): (r: string)
    ensures r == [] || (!IsSpace(r[0]) && !IsSpace(r[|r| - 1]))
  {
    TrimEnd(TrimStart(s))
  }

  /** Only whitespace is cut: `s` is the stripped text, starting at index
      `|s| - |TrimStart(s)|`, with whitespace before and after it. */
  lemma StripIsSlice(s: string)
    ensures |s| - |TrimStart(s)| + |Strip(s)| <= |s|
    ensures s[|s| - |TrimStart(s)|..|s| - |TrimStart(s)| + |Strip(s)|] == Strip(s)
    ensures forall k :: 0 <= k < |s| - |TrimStart(s)| ==> IsSpace(s[k])
    ensures forall k :: |s| - |TrimStart(s)| + |Strip(s)| <= k < |s| ==> IsSpace(s[k])
  {
    var a := TrimStart(s);
    var b := TrimEnd(a);
    assert Strip(s) == b;
    assert |b| <= |a| && b == a[..|b|];
    assert a == s[|s| - |a|..];
    SuffixSlice(s, a, b);
  }

  /** `b`, a prefix of the suffix `a` of `s` followed only by whitespace in
      `a`, is a slice of `s` followed only by whitespace in `s`. */
  lemma SuffixSlice(s: string, a: string, b: string)
    requires |a| <= |s| && a == s[|s| - |a|..]
    requires |b| <= |a| && b == a[..|b|]
    requires forall k :: |b| <= k < |a| ==> IsSpace(a[k])
    ensures s[|s| - |a|..|s| - |a| + |b|] == b
    ensures forall k :: |s| - |a| + |b| <= k < |s| ==> IsSpace(s[k])
  {
    var i := |s| - |a|;
    assert s[i..i + |b|] == a[..|b|];
    forall k | i + |b| <= k < |s| ensures IsSpace(s[k]) {
      assert s[k] == a[k - i];
    }
  }

  /** A string with neither leading nor trailing whitespace is its own strip. */
  lemma StripTrimmed(s: string)
    requires s == [] || (!IsSpace(s[0]) && !IsSpace(s[|s| - 1]))
    ensures Strip(s) == s
  {
  }

  /** `' '.join(words)`. */
  function Join(words: seq<string>): string
    decreases |words|
  {
    if |words| == 0 then ""
    else if |words| == 1 then words[0]
    else Join(words[..|words| - 1]) + " " + words[|words| - 1]
  }

  /** The text built by appending `' ' + word` for each word in turn. */
  function Prefixed(words: seq<string>): string
    decreases |words|
  {
    if words == [] then "" else Prefixed(words[..|words| - 1]) + " " + words[|words| - 1]
  }

  lemma {:induction false} PrefixedIsSpaceJoin(words: seq<string>)
    requires words != []
    ensures Prefixed(words) == " " + Join(words)
    decreases |words|
  {
    if |words| > 1 {
      var init := words[..|words| - 1];
      PrefixedIsSpaceJoin(init);
    }
  }

  lemma {:induction false} JoinEnds(words: seq<string>)
    requires words != []
    ensures |Join(words)| >= |words[0]| && Join(words)[..|words[0]|] == words[0]
    ensures |Join(words)| >= |words[|words| - 1]|
    ensures Join(words)[|Join(words)| - |words[|words| - 1]|..] == words[|words| - 1]
    decreases |words|
  {
    if |words| > 1 {
      var init := words[..|words| - 1];
      JoinEnds(init);
      assert init[0] == words[0];
      var j := Join(init);
      assert Join(words) == j + " " + words[|words| - 1];
      assert Join(words)[..|words[0]|] == j[..|words[0]|];
    }
  }

  /** A space in front of a trimmed, non-empty text is stripped again. */
  lemma StripSpacePrefix(s: string)
    requires s != [] && !IsSpace(s[0]) && !IsSpace(s[|s| - 1])
    ensures Strip(" " + s) == s
  {
    assert (" " + s)[1..] == s;
    assert TrimStart(" " + s) == s;
    StripTrimmed(s);
  }

  /** Stripping the accumulated `' ' + word` text gives back the words joined
      by single spaces, provided no word is empty or has whitespace at an end. */
  lemma StripPrefixedIsJoin(words: seq<string>)
    requires forall w :: w in words ==> w != [] && !IsSpace(w[0]) && !IsSpace(w[|w| - 1])
    ensures Strip(Prefixed(words)) == Join(words)
  {
    if words != [] {
      PrefixedIsSpaceJoin(words);
      JoinEnds(words);
      var j := Join(words);
      var first, last := words[0], words[|words| - 1];
      assert first in words && last in words;
      assert j[0] == first[0] by {
        assert j[..|first|][0] == first[0];
      }
      assert j[|j| - 1] == last[|last| - 1] by {
        assert j[|j| - |last|..][|last| - 1] == last[|last| - 1];
      }
      StripSpacePrefix(j);
    }
  }
}
