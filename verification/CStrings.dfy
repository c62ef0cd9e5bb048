/**
  C strings in character buffers: terminators, words, and the library calls that
  fill a buffer.
  */
module CStrings {

  const NUL: char := '\0'

  const BUFFERLEN: nat := 4096

  predicate IsNul(c: char) {
    c == NUL
  }

  /** isspace() in the C locale */
  predicate IsSpace(c: char) {
    c == ' ' || c == '\t' || c == '\n' || c == '\U{0B}' || c == '\U{0C}' || c == '\r'
  }

  /** White space is the blank and the five control characters from tab to carriage return. */
  lemma SpaceCodes(c: char)
    ensures IsSpace(c) <==> c as int == 32 || 9 <= c as int <= 13
  {
    assert ' ' as int == 32 && '\t' as int == 9 && '\r' as int == 13;
  }

  /** The length of the longest prefix without a separator. */
  function Span(s: string, sep: char -> bool): (n: nat)
    ensures n <= |s|
    ensures forall i | 0 <= i < n :: !sep(s[i])
    ensures n < |s| ==> sep(s[n])
  {
    if s == "" || sep(s[0]) then 0 else 1 + Span(s[1..], sep)
  }

  /** The string a buffer holds. */
  function CString(buffer: string): string {
    buffer[..Span(buffer, IsNul)]
  }

  lemma {:induction false} SpanUnique(s: string, sep: char -> bool, n: nat)
    requires n <= |s| && (forall i | 0 <= i < n :: !sep(s[i])) && (n < |s| ==> sep(s[n]))
    ensures Span(s, sep) == n
  {
    if n > 0 {
      SpanUnique(s[1..], sep, n - 1);
    }
  }

  /** The maximal runs of characters that are not separators, from left to right. */
  function Words(s: string, sep: char -> bool): seq<string>
    decreases |s|
  {
    if s == "" then []
    else if sep(s[0]) then Words(s[1..], sep)
    else
      var n := Span(s, sep);
      assert n > 0;
      [s[..n]] + Words(s[n..], sep)
  }

  /** A word in front of a separator is the first word. */
  lemma FirstWord(word: string, sep: char -> bool, c: char, rest: string)
    requires word != "" && sep(c) && forall i | 0 <= i < |word| :: !sep(word[i])
    ensures Words(word + [c] + rest, sep) == [word] + Words(rest, sep)
  {
    var s := word + [c] + rest;
    SpanUnique(s, sep, |word|);
    assert s[..|word|] == word;
    assert s[|word|..] == [c] + rest;
    assert ([c] + rest)[1..] == rest;
  }

  lemma OnlyWord(word: string, sep: char -> bool)
    requires word != "" && forall i | 0 <= i < |word| :: !sep(word[i])
    ensures Words(word, sep) == [word]
  {
    SpanUnique(word, sep, |word|);
    assert word[..|word|] == word && word[|word|..] == "";
  }

  /** Nothing but separators is lost: joining the words gives the other characters, in order. */
  function Join(words: seq<string>): string {
    if words == [] then "" else words[0] + Join(words[1..])
  }

  function Others(s: string, sep: char -> bool): string {
    if s == "" then "" else (if sep(s[0]) then "" else [s[0]]) + Others(s[1..], sep)
  }

  lemma {:induction false} OthersOfSpan(s: string, sep: char -> bool)
    ensures Others(s, sep) == s[..Span(s, sep)] + Others(s[Span(s, sep)..], sep)
  {
    if s != "" && !sep(s[0]) {
      OthersOfSpan(s[1..], sep);
      var n := Span(s[1..], sep);
      assert s[..n + 1] == [s[0]] + s[1..][..n];
      assert s[n + 1..] == s[1..][n..];
    } else {
      assert s[0..] == s;
    }
  }

  lemma {:induction false} WordsKeepOthers(s: string, sep: char -> bool)
    ensures Join(Words(s, sep)) == Others(s, sep)
    ensures forall w <- Words(s, sep) :: w != "" && forall c <- w :: !sep(c)
    decreases |s|
  {
    if s != "" {
      if sep(s[0]) {
        WordsKeepOthers(s[1..], sep);
      } else {
        var n := Span(s, sep);
        WordsKeepOthers(s[n..], sep);
        OthersOfSpan(s, sep);
        assert ([s[..n]] + Words(s[n..], sep))[1..] == Words(s[n..], sep);
      }
    }
  }

  /** snprintf(buffer, size, ...) for a formatted text without terminators: characters up to
      size - 1, then a terminator. */
  method Snprintf(buffer: array<char>, size: nat, text: string)
    requires 1 <= size <= buffer.Length && NUL !in text
    modifies buffer
    ensures CString(buffer[..]) == if |text| < size then text else text[..size - 1]
    ensures buffer[size..] == old(buffer[size..])
  {
    var n := 0;
    while n < size - 1 && n < |text|
      invariant 0 <= n <= size - 1 && n <= |text|
      invariant buffer[..n] == text[..n]
      invariant buffer[size..] == old(buffer[size..])
    {
      buffer[n] := text[n];
      n := n + 1;
    }
    buffer[n] := NUL;
    assert forall i | 0 <= i < n :: buffer[..][i] == text[..n][i];
    SpanUnique(buffer[..], IsNul, n);
    assert buffer[..][..n] == text[..n];
  }
}
