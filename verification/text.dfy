/** The pieces of Rust's `str` that the TGF codec relies on: `char::is_whitespace`,
    `split_whitespace`, `join(" ")`, `lines`, and the decimal `Display`/`FromStr`
    of the `i32` key type. */
module Text {
  import opened Results
  import opened Edges
  import Seqs

  /** `char::is_whitespace`: the Unicode White_Space property. */
  predicate IsWhitespace(c: char) {
    || ('\t' <= c <= '\r') || c == ' ' || c == '\U{0085}' || c == '\U{00A0}' || c == '\U{1680}'
    || ('\U{2000}' <= c <= '\U{200A}') || c == '\U{2028}' || c == '\U{2029}' || c == '\U{202F}'
    || c == '\U{205F}' || c == '\U{3000}'
  }

  /** Length of the leading run of non-whitespace characters. */
  function TokenLength(s: string): (n: nat)
    ensures n <= |s|
    ensures forall i :: 0 <= i < n ==> !IsWhitespace(s[i])
    ensures n < |s| ==> IsWhitespace(s[n])
  {
    if |s| == 0 || IsWhitespace(s[0]) then 0 else 1 + TokenLength(s[1..])
  }

  /** `str::split_whitespace`: the maximal non-whitespace runs, in order. */
  function SplitWhitespace(s: string): (ts: seq<string>)
    ensures forall i :: 0 <= i < |ts| ==> |ts[i]| > 0
    decreases |s|
  {
    if |s| == 0 then []
    else if IsWhitespace(s[0]) then SplitWhitespace(s[1..])
    else
      var n := TokenLength(s);
      [s[..n]] + SplitWhitespace(s[n..])
  }

  /** `[&str]::join(" ")`. */
  function Join(ts: seq<string>): string {
    if |ts| == 0 then ""
    else if |ts| == 1 then ts[0]
    else ts[0] + " " + Join(ts[1..])
  }

  /** Drops one `'\r'` left in front of a stripped `'\n'`. */
  function StripCR(line: string): string {
    if |line| > 0 && line[|line| - 1] == '\r' then line[..|line| - 1] else line
  }

  /** `str::lines`: split after each `'\n'`, drop it and a `'\r'` right before it;
      a final line needs no terminator and an empty text has no lines. */
  function Lines(s: string): seq<string>
    decreases |s|
  {
    if |s| == 0 then []
    else match Seqs.First(s, (c: char) => c == '\n')
      case None => [s]
      case Some(i) => [StripCR(s[..i])] + Lines(s[i + 1..])
  }

  /** Each line followed by `'\n'`, as the codec's `buffer += format!("..\n")` builds it. */
  function JoinLines(ls: seq<string>): string {
    if |ls| == 0 then "" else ls[0] + "\n" + JoinLines(ls[1..])
  }

  /** A line `lines` hands back unchanged: no `'\n'` inside, no trailing `'\r'`. */
  predicate PlainLine(l: string) {
    (forall i :: 0 <= i < |l| ==> l[i] != '\n') && (|l| == 0 || l[|l| - 1] != '\r')
  }

  /** Text that survives `split_whitespace` followed by `join(" ")`: the only
      whitespace is single spaces between non-whitespace characters. */
  predicate Normalized(s: string) {
    forall i :: 0 <= i < |s| && IsWhitespace(s[i]) ==>
      s[i] == ' ' && 0 < i < |s| - 1 && !IsWhitespace(s[i + 1])
  }

  /** A plain line ended by `'\n'` comes back as the first line, and `lines`
      carries on right after the terminator. */
  lemma LinesCons(l: string, rest: string)
    requires PlainLine(l)
    ensures Lines(l + "\n" + rest) == [l] + Lines(rest)
  {
    var s := l + "\n" + rest;
    assert s[|l|] == '\n';
    assert forall j :: 0 <= j < |l| ==> s[j] == l[j];
    var r := Seqs.First(s, (c: char) => c == '\n');
    assert r == Some(|l|) by {
      assert r.Some?;
    }
    assert s[..|l|] == l;
    assert s[|l| + 1..] == rest;
    assert StripCR(l) == l;
  }

  lemma {:induction false} LinesOfJoinLines(ls: seq<string>)
    requires forall i :: 0 <= i < |ls| ==> PlainLine(ls[i])
    ensures Lines(JoinLines(ls)) == ls
    decreases |ls|
  {
    if |ls| > 0 {
      assert JoinLines(ls) == ls[0] + "\n" + JoinLines(ls[1..]);
      LinesCons(ls[0], JoinLines(ls[1..]));
      LinesOfJoinLines(ls[1..]);
      assert ls == [ls[0]] + ls[1..];
    }
  }

  lemma {:induction false} TokenLengthBeforeSpace(a: string, c: char, b: string)
    requires IsWhitespace(c)
    ensures TokenLength(a + [c] + b) == TokenLength(a)
    decreases |a|
  {
    if |a| > 0 && !IsWhitespace(a[0]) {
      assert (a + [c] + b)[1..] == a[1..] + [c] + b;
      TokenLengthBeforeSpace(a[1..], c, b);
    }
  }

  /** The step of `SplitAroundWhitespace` past a leading whitespace character of `a`. */
  lemma AroundSpaceStep(a: string, c: char, b: string)
    requires IsWhitespace(c) && |a| > 0 && IsWhitespace(a[0])
    requires SplitWhitespace(a[1..] + [c] + b) == SplitWhitespace(a[1..]) + SplitWhitespace(b)
    ensures SplitWhitespace(a + [c] + b) == SplitWhitespace(a) + SplitWhitespace(b)
  {
    var s := a + [c] + b;
    assert s[1..] == a[1..] + [c] + b;
  }

  /** The step of `SplitAroundWhitespace` past the leading token of `a`. */
  lemma AroundTokenStep(a: string, c: char, b: string)
    requires IsWhitespace(c) && |a| > 0 && !IsWhitespace(a[0])
    requires SplitWhitespace(a[TokenLength(a)..] + [c] + b) == SplitWhitespace(a[TokenLength(a)..]) + SplitWhitespace(b)
    ensures SplitWhitespace(a + [c] + b) == SplitWhitespace(a) + SplitWhitespace(b)
  {
    var s := a + [c] + b;
    var n := TokenLength(a);
    TokenLengthBeforeSpace(a, c, b);
    assert s[..n] == a[..n];
    assert s[n..] == a[n..] + [c] + b;
  }

  /** A whitespace character always separates tokens. */
  lemma {:induction false} SplitAroundWhitespace(a: string, c: char, b: string)
    requires IsWhitespace(c)
    ensures SplitWhitespace(a + [c] + b) == SplitWhitespace(a) + SplitWhitespace(b)
    decreases |a|
  {
    if |a| == 0 {
      assert a + [c] + b == [c] + b;
      assert ([c] + b)[1..] == b;
    } else if IsWhitespace(a[0]) {
      SplitAroundWhitespace(a[1..], c, b);
      AroundSpaceStep(a, c, b);
    } else {
      SplitAroundWhitespace(a[TokenLength(a)..], c, b);
      AroundTokenStep(a, c, b);
    }
  }

  /** A line of whitespace only has no tokens. */
  lemma {:induction false} SplitBlank(s: string)
    requires forall i :: 0 <= i < |s| ==> IsWhitespace(s[i])
    ensures SplitWhitespace(s) == []
    decreases |s|
  {
    if |s| > 0 {
      SplitBlank(s[1..]);
    }
  }

  /** A non-empty run without whitespace is one token. */
  lemma SplitWord(w: string)
    requires |w| > 0 && forall i :: 0 <= i < |w| ==> !IsWhitespace(w[i])
    ensures SplitWhitespace(w) == [w]
  {
    var n := TokenLength(w);
    assert n == |w|;
    assert w[..n] == w;
    assert w[n..] == [];
  }

  /** A suffix of normalized text that starts at a non-whitespace character is normalized. */
  lemma NormalizedSuffix(s: string, k: nat)
    requires Normalized(s) && k <= |s| && (k < |s| ==> !IsWhitespace(s[k]))
    ensures Normalized(s[k..])
  {
    var rest := s[k..];
    forall i | 0 <= i < |rest| && IsWhitespace(rest[i])
      ensures rest[i] == ' ' && 0 < i < |rest| - 1 && !IsWhitespace(rest[i + 1])
    {
      assert rest[i] == s[k + i];
    }
  }

  /** The first token ends at the first whitespace character, which is dropped. */
  lemma SplitFirstToken(s: string)
    requires 0 < TokenLength(s) < |s|
    ensures SplitWhitespace(s) == [s[..TokenLength(s)]] + SplitWhitespace(s[TokenLength(s) + 1..])
  {
    var n := TokenLength(s);
    assert s[n..][1..] == s[n + 1..];
  }

  /** Rebuilding text from its first token, one space and the rebuilt rest. */
  lemma JoinFirstToken(s: string, n: nat)
    requires 0 < n < |s| - 1 && s[n] == ' '
    requires SplitWhitespace(s) == [s[..n]] + SplitWhitespace(s[n + 1..])
    requires |SplitWhitespace(s[n + 1..])| > 0 && Join(SplitWhitespace(s[n + 1..])) == s[n + 1..]
    ensures Join(SplitWhitespace(s)) == s
  {
    var ts := SplitWhitespace(s[n + 1..]);
    assert ([s[..n]] + ts)[1..] == ts;
    assert s == s[..n] + [s[n]] + s[n + 1..];
  }

  /** Normalized text is what `join(" ")` rebuilds from its tokens. */
  lemma {:induction false} JoinSplitNormalized(s: string)
    requires Normalized(s)
    ensures Join(SplitWhitespace(s)) == s
    decreases |s|
  {
    if |s| > 0 {
      assert !IsWhitespace(s[0]);
      var n := TokenLength(s);
      if n == |s| {
        SplitWord(s);
      } else {
        assert s[n] == ' ' && n < |s| - 1 && !IsWhitespace(s[n + 1]);
        NormalizedSuffix(s, n + 1);
        JoinSplitNormalized(s[n + 1..]);
        SplitFirstToken(s);
        assert |SplitWhitespace(s[n + 1..])| > 0 by {
          var rest := s[n + 1..];
          assert rest[0] == s[n + 1];
          assert rest[..TokenLength(rest)] != [];
        }
        JoinFirstToken(s, n);
      }
    }
  }

  /** Normalized text holds no line break and does not end in `'\r'`. */
  lemma NormalizedIsPlain(s: string)
    requires Normalized(s)
    ensures PlainLine(s)
    ensures forall i :: 0 <= i < |s| ==> s[i] != '\r'
  {
    assert forall i :: 0 <= i < |s| && s[i] == '\n' ==> IsWhitespace(s[i]);
    assert forall i :: 0 <= i < |s| && s[i] == '\r' ==> IsWhitespace(s[i]);
  }
}
