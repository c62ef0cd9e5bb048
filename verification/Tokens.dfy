/**
  zerocmd(): splitting a command into words by overwriting its white space in place.
  */
module Tokens {
  import opened CStrings

  function Zeroed(s: string): (r: string)
    ensures |r| == |s|
    ensures forall i | 0 <= i < |s| :: r[i] == (if IsSpace(s[i]) then NUL else s[i])
  {
    seq(|s|, i requires 0 <= i < |s| => if IsSpace(s[i]) then NUL else s[i])
  }

  lemma ZeroedSpan(s: string)
    requires NUL !in s
    ensures Span(Zeroed(s), IsNul) == Span(s, IsSpace)
  {
    SpanUnique(Zeroed(s), IsNul, Span(s, IsSpace));
  }

  /** Overwriting the white space does not change the words, only their separators. */
  lemma {:induction false} ZeroedWords(s: string)
    requires NUL !in s
    ensures Words(Zeroed(s), IsNul) == Words(s, IsSpace)
    decreases |s|
  {
    if s != "" {
      if IsSpace(s[0]) {
        ZeroedWords(s[1..]);
        assert Zeroed(s)[1..] == Zeroed(s[1..]);
      } else {
        var n := Span(s, IsSpace);
        ZeroedSpan(s);
        ZeroedWords(s[n..]);
        assert Zeroed(s)[..n] == s[..n];
        assert Zeroed(s)[n..] == Zeroed(s[n..]);
      }
    }
  }

  /** The loop of zerocmd(): up to the terminator the buffer had at the start, white space is
      overwritten and everything else is kept; what lies behind is untouched; the pieces
      between the terminators are the words of the command. */
  method ZeroCmd(cmd: array<char>)
    requires NUL in cmd[..]
    modifies cmd
    ensures var n := Span(old(cmd[..]), IsNul);
            && cmd[..n] == Zeroed(CString(old(cmd[..])))
            && cmd[n..] == old(cmd[n..])
            && Words(cmd[..n], IsNul) == Words(CString(old(cmd[..])), IsSpace)
  {
    ghost var before := cmd[..];
    ghost var n := Span(before, IsNul);
    assert n < cmd.Length by {
      var k :| 0 <= k < |before| && before[k] == NUL;
      assert n < |before|;
    }
    var p := 0;
    while cmd[p] != NUL
      invariant 0 <= p <= n
      invariant forall i | 0 <= i < p :: cmd[i] == if IsSpace(before[i]) then NUL else before[i]
      invariant forall i | p <= i < cmd.Length :: cmd[i] == before[i]
      decreases n - p
    {
      if IsSpace(cmd[p]) {
        cmd[p] := NUL;
      }
      p := p + 1;
    }
    assert cmd[..n] == Zeroed(before[..n]);
    ZeroedWords(before[..n]);
  }
}
