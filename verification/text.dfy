/** The three string operations the extractor relies on, with Python's
    semantics: `str.strip()`, `str.split()` with no argument (runs of
    whitespace) and `str.split('\n')`. */
module Text {

  /** Python's `str.isspace()` for a single character: the set `strip()`
      and argument-less `split()` treat as whitespace. */
  predicate IsSpace(c: char) {
    || c == ' '
    || ('\t' <= c <= '\r')
    || ('\U{1C}' <= c <= '\U{1F}')
    || c == '\U{85}'
    || c == '\U{A0}'
    || c == '\U{1680}'
    || ('\U{2000}' <= c <= '\U{200A}')
    || c == '\U{2028}'
    || c == '\U{2029}'
    || c == '\U{202F}'
    || c == '\U{205F}'
    || c == '\U{3000}'
  }

  predicate AllSpace(s: string) {
    forall i :: 0 <= i < |s| ==> IsSpace(s[i])
  }

  predicate NoSpace(s: string) {
    forall i :: 0 <= i < |s| ==> !IsSpace(s[i])
  }

  /** Neither starts nor ends with whitespace. */
  predicate Trimmed(s: string) {
    s == [] || (!IsSpace(s[0]) && !IsSpace(s[|s| - 1]))
  }

  // ---------------------------------------------------------------- strip

  /** Length of the leading whitespace run. */
  function LeadingSpace(s: string): (n: nat)
    ensures n <= |s|
    ensures AllSpace(s[..n])
    ensures n < |s| ==> !IsSpace(s[n])
  {
    if |s| == 0 || !IsSpace(s[0]) then 0 else 1 + LeadingSpace(s[1..])
  }

  /** Length of the trailing whitespace run. */
  function TrailingSpace(s: string): (n: nat)
    ensures n <= |s|
    ensures AllSpace(s[|s| - n..])
    ensures n < |s| ==> !IsSpace(s[|s| - n - 1])
  {
    if |s| == 0 || !IsSpace(s[|s| - 1]) then 0
    else
      var p := s[..|s| - 1];
      var n := TrailingSpace(p);
      assert s[|s| - n - 1..] == p[|p| - n..] + [s[|s| - 1]];
      assert n + 1 < |s| ==> s[|s| - n - 2] == p[|p| - n - 1];
      1 + n
  }

  /** `s.strip()`: the result is a trimmed slice of `s` with only whitespace
      cut off either side. */
  function Strip(s: string): (r: string)
    ensures Trimmed(r)
    ensures exists i :: 0 <= i <= |s| - |r| && s[i..i + |r|] == r
                        && AllSpace(s[..i]) && AllSpace(s[i + |r|..])
  {
    var a := LeadingSpace(s);
    var t := s[a..];
    var b := TrailingSpace(t);
    assert s[a + |t| - b..] == t[|t| - b..];
    t[..|t| - b]
  }

  /** The leading whitespace run is determined by its first non-space. */
  lemma {:induction false} LeadingSpaceAt(s: string, k: nat)
    requires k <= |s| && AllSpace(s[..k])
    requires k < |s| ==> !IsSpace(s[k])
    ensures LeadingSpace(s) == k
    decreases k
  {
    if k > 0 {
      assert s[..k][0] == s[0];
      var t := s[1..][..k - 1];
      forall i | 0 <= i < |t| ensures IsSpace(t[i]) {
        assert t[i] == s[..k][i + 1];
      }
      assert k - 1 < |s| - 1 ==> s[1..][k - 1] == s[k];
      LeadingSpaceAt(s[1..], k - 1);
    }
  }

  /** Likewise for the trailing run. */
  lemma {:induction false} TrailingSpaceAt(s: string, k: nat)
    requires k <= |s| && AllSpace(s[|s| - k..])
    requires k < |s| ==> !IsSpace(s[|s| - k - 1])
    ensures TrailingSpace(s) == k
    decreases k
  {
    if k > 0 {
      var p := s[..|s| - 1];
      assert s[|s| - k..][k - 1] == s[|s| - 1];
      var t := p[|p| - (k - 1)..];
      forall i | 0 <= i < |t| ensures IsSpace(t[i]) {
        assert t[i] == s[|s| - k..][i];
      }
      assert k - 1 < |p| ==> p[|p| - (k - 1) - 1] == s[|s| - k - 1];
      TrailingSpaceAt(p, k - 1);
    }
  }

  /** Strip is exactly "cut the whitespace either side of a trimmed core". */
  lemma {:induction false} StripUnique(u: string, m: string, v: string)
    requires AllSpace(u) && AllSpace(v) && Trimmed(m)
    ensures Strip(u + m + v) == m
  {
    var s := u + m + v;
    if m == [] {
      assert AllSpace(s) by {
        forall i | 0 <= i < |s| ensures IsSpace(s[i]) {
          if i < |u| { assert s[i] == u[i]; } else { assert s[i] == v[i - |u|]; }
        }
      }
      assert s[..|s|] == s;
      LeadingSpaceAt(s, |s|);
    } else {
      assert s[..|u|] == u;
      assert s[|u|] == m[0];
      LeadingSpaceAt(s, |u|);
      var t := s[|u|..];
      assert t == m + v;
      assert t[|t| - |v|..] == v;
      assert t[|t| - |v| - 1] == m[|m| - 1];
      TrailingSpaceAt(t, |v|);
      assert t[..|t| - |v|] == m;
    }
  }

  /** Stripping twice equals stripping once. */
  lemma StripIdempotent(s: string)
    ensures Strip(Strip(s)) == Strip(s)
  {
    var m := Strip(s);
    assert [] + m + [] == m;
    StripUnique([], m, []);
  }

  /** `s.strip()` is falsy exactly when `s` is all whitespace. */
  lemma StripEmptyIff(s: string)
    ensures Strip(s) == [] <==> AllSpace(s)
  {
    if AllSpace(s) {
      assert s == s + [] + [];
      StripUnique(s, [], []);
    } else {
      var r := Strip(s);
      if r == [] {
        var i :| 0 <= i <= |s| && AllSpace(s[..i]) && AllSpace(s[i..]);
        forall k | 0 <= k < |s| ensures IsSpace(s[k]) {
          if k < i { assert s[..i][k] == s[k]; } else { assert s[i..][k - i] == s[k]; }
        }
      }
    }
  }

  // ---------------------------------------------------------------- split()

  /** Length of the leading non-whitespace run. */
  function WordLen(s: string): (n: nat)
    ensures n <= |s|
    ensures NoSpace(s[..n])
    ensures n < |s| ==> IsSpace(s[n])
    ensures |s| > 0 && !IsSpace(s[0]) ==> n > 0
  {
    if |s| == 0 || IsSpace(s[0]) then 0 else 1 + WordLen(s[1..])
  }

  /** `s.split()`: the maximal non-whitespace runs of `s`, in order. */
  function Tokens(s: string): (ts: seq<string>)
    ensures forall k :: 0 <= k < |ts| ==> ts[k] != [] && NoSpace(ts[k])
    decreases |s|
  {
    if |s| == 0 then []
    else if IsSpace(s[0]) then Tokens(s[1..])
    else
      var n := WordLen(s);
      [s[..n]] + Tokens(s[n..])
  }

  /** The characters of `s` that are not whitespace, in order. */
  function RemoveSpace(s: string): string {
    if |s| == 0 then []
    else (if IsSpace(s[0]) then [] else [s[0]]) + RemoveSpace(s[1..])
  }

  function Concat(ts: seq<string>): string {
    if |ts| == 0 then [] else ts[0] + Concat(ts[1..])
  }

  /** Tokens joined by single spaces, the inverse of `Tokens`: the case of
      `Spaced` where every separator is one space and nothing surrounds the
      tokens, kept for its short direct proof. */
  function JoinWords(ts: seq<string>): string {
    if |ts| == 0 then []
    else if |ts| == 1 then ts[0]
    else ts[0] + " " + JoinWords(ts[1..])
  }

  lemma {:induction false} RemoveSpaceAppend(a: string, b: string)
    ensures RemoveSpace(a + b) == RemoveSpace(a) + RemoveSpace(b)
    decreases |a|
  {
    if |a| > 0 {
      assert (a + b)[1..] == a[1..] + b;
      RemoveSpaceAppend(a[1..], b);
    } else {
      assert a + b == b;
    }
  }

  lemma {:induction false} RemoveSpaceOfWord(w: string)
    requires NoSpace(w)
    ensures RemoveSpace(w) == w
    decreases |w|
  {
    if |w| > 0 {
      RemoveSpaceOfWord(w[1..]);
    }
  }

  /** Concatenating the tokens of `s` gives `s` with all whitespace removed. */
  lemma {:induction false} ConcatTokens(s: string)
    ensures Concat(Tokens(s)) == RemoveSpace(s)
    decreases |s|
  {
    if |s| > 0 {
      if IsSpace(s[0]) {
        ConcatTokens(s[1..]);
      } else {
        var n := WordLen(s);
        var ts := Tokens(s[n..]);
        assert ([s[..n]] + ts)[1..] == ts;
        ConcatTokens(s[n..]);
        assert s == s[..n] + s[n..];
        RemoveSpaceAppend(s[..n], s[n..]);
        RemoveSpaceOfWord(s[..n]);
      }
    }
  }

  /** `s.split()` is empty exactly when `s` is all whitespace. */
  lemma {:induction false} TokensEmptyIff(s: string)
    ensures Tokens(s) == [] <==> AllSpace(s)
    decreases |s|
  {
    if |s| > 0 && IsSpace(s[0]) {
      TokensEmptyIff(s[1..]);
      if AllSpace(s[1..]) {
        forall i | 0 <= i < |s| ensures IsSpace(s[i]) {
          if i > 0 { assert s[1..][i - 1] == s[i]; }
        }
      }
    }
  }

  /** The leading word is determined by the first whitespace after it. */
  lemma {:induction false} WordLenAt(s: string, k: nat)
    requires k <= |s| && NoSpace(s[..k])
    requires k < |s| ==> IsSpace(s[k])
    ensures WordLen(s) == k
    decreases k
  {
    if k > 0 {
      assert s[..k][0] == s[0];
      var t := s[1..][..k - 1];
      forall i | 0 <= i < |t| ensures !IsSpace(t[i]) {
        assert t[i] == s[..k][i + 1];
      }
      assert k - 1 < |s| - 1 ==> s[1..][k - 1] == s[k];
      WordLenAt(s[1..], k - 1);
    }
  }

  /** A word followed by nothing or by whitespace is the first token. */
  lemma TokensOfWord(w: string, rest: string)
    requires w != [] && NoSpace(w)
    requires rest == [] || IsSpace(rest[0])
    ensures Tokens(w + rest) == [w] + Tokens(rest)
  {
    var s := w + rest;
    assert s[..|w|] == w;
    assert |w| < |s| ==> s[|w|] == rest[0];
    WordLenAt(s, |w|);
    assert s[|w|..] == rest;
  }

  /** Joining valid tokens with spaces and splitting again gives them back;
      the single-space case of `TokensOfSpaced`. */
  lemma {:induction false} TokensOfJoinWords(ts: seq<string>)
    requires forall k :: 0 <= k < |ts| ==> ts[k] != [] && NoSpace(ts[k])
    ensures Tokens(JoinWords(ts)) == ts
  {
    if |ts| == 1 {
      assert ts[0] + [] == ts[0];
      TokensOfWord(ts[0], []);
    } else if |ts| > 1 {
      var rest := JoinWords(ts[1..]);
      TokensOfJoinWords(ts[1..]);
      assert ts[0] + " " + rest == ts[0] + (" " + rest);
      TokensOfWord(ts[0], " " + rest);
      assert (" " + rest)[1..] == rest;
      assert ts == [ts[0]] + ts[1..];
    }
  }

  /** Tokens separated by whitespace runs: `ts[0] + seps[0] + ts[1] + ...`. */
  function Spaced(ts: seq<string>, seps: seq<string>): string
    requires |ts| >= 1 && |seps| == |ts| - 1
  {
    if |ts| == 1 then ts[0] else ts[0] + seps[0] + Spaced(ts[1..], seps[1..])
  }

  /** Leading whitespace of any length contributes no token. */
  lemma {:induction false} TokensSkipSpace(u: string, s: string)
    requires AllSpace(u)
    ensures Tokens(u + s) == Tokens(s)
    decreases |u|
  {
    if |u| > 0 {
      assert (u + s)[0] == u[0];
      assert (u + s)[1..] == u[1..] + s;
      TokensSkipSpace(u[1..], s);
    } else {
      assert u + s == s;
    }
  }

  /** `split()` splits on runs of whitespace: tokens separated by non-empty
      whitespace runs, with any whitespace before and after, split back into
      exactly those tokens. */
  lemma {:induction false} TokensOfSpaced(u: string, ts: seq<string>, seps: seq<string>, v: string)
    requires AllSpace(u) && AllSpace(v)
    requires |ts| >= 1 && |seps| == |ts| - 1
    requires forall k :: 0 <= k < |ts| ==> ts[k] != [] && NoSpace(ts[k])
    requires forall k :: 0 <= k < |seps| ==> seps[k] != [] && AllSpace(seps[k])
    ensures Tokens(u + Spaced(ts, seps) + v) == ts
    decreases |ts|
  {
    var x := Spaced(ts, seps) + v;
    assert u + Spaced(ts, seps) + v == u + x;
    TokensSkipSpace(u, x);
    if |ts| == 1 {
      TokensOfWord(ts[0], v);
      TokensEmptyIff(v);
    } else {
      var rest := Spaced(ts[1..], seps[1..]);
      var tail := seps[0] + rest + v;
      assert x == ts[0] + tail by {
        assert Spaced(ts, seps) == ts[0] + seps[0] + rest;
      }
      assert IsSpace(tail[0]) by {
        assert tail[0] == seps[0][0];
      }
      TokensOfWord(ts[0], tail);
      assert forall k :: 0 <= k < |ts| - 1 ==> ts[1..][k] == ts[k + 1];
      assert forall k :: 0 <= k < |seps| - 1 ==> seps[1..][k] == seps[k + 1];
      TokensOfSpaced(seps[0], ts[1..], seps[1..], v);
      assert ts == [ts[0]] + ts[1..];
    }
  }

  // ---------------------------------------------------------------- split('\n')

  /** `s.split('\n')`: always at least one piece, none holds a newline. */
  function Lines(s: string): (ls: seq<string>)
    ensures |ls| >= 1
    ensures forall k :: 0 <= k < |ls| ==> '\n' !in ls[k]
  {
    if |s| == 0 then [""]
    else
      var rest := Lines(s[1..]);
      if s[0] == '\n' then [""] + rest
      else [[s[0]] + rest[0]] + rest[1..]
  }

  /** `'\n'.join(ls)`. */
  function JoinLines(ls: seq<string>): string
    requires |ls| >= 1
  {
    if |ls| == 1 then ls[0] else ls[0] + "\n" + JoinLines(ls[1..])
  }

  /** Joining the pieces with newlines gives back the original text. */
  lemma {:induction false} JoinLinesOfLines(s: string)
    ensures JoinLines(Lines(s)) == s
    decreases |s|
  {
    if |s| > 0 {
      var rest := Lines(s[1..]);
      JoinLinesOfLines(s[1..]);
      if s[0] == '\n' {
        assert ([""] + rest)[1..] == rest;
      } else {
        var ls := [[s[0]] + rest[0]] + rest[1..];
        if |rest| == 1 {
        } else {
          assert ls[1..] == rest[1..];
          assert JoinLines(rest) == rest[0] + "\n" + JoinLines(rest[1..]);
        }
      }
    }
  }

  lemma {:induction false} LinesOfPrefix(l: string, t: string)
    requires '\n' !in l
    ensures Lines(l + t) == [l + Lines(t)[0]] + Lines(t)[1..]
    decreases |l|
  {
    if |l| > 0 {
      assert (l + t)[1..] == l[1..] + t;
      LinesOfPrefix(l[1..], t);
      assert [l[0]] + (l[1..] + Lines(t)[0]) == l + Lines(t)[0];
    } else {
      assert l + t == t;
      assert l + Lines(t)[0] == Lines(t)[0];
      assert Lines(t) == [Lines(t)[0]] + Lines(t)[1..];
    }
  }

  /** Splitting newline-free pieces joined with newlines gives them back. */
  lemma {:induction false} LinesOfJoinLines(ls: seq<string>)
    requires |ls| >= 1
    requires forall k :: 0 <= k < |ls| ==> '\n' !in ls[k]
    ensures Lines(JoinLines(ls)) == ls
  {
    if |ls| == 1 {
      LinesOfPrefix(ls[0], []);
      assert ls[0] + [] == ls[0];
    } else {
      var j := JoinLines(ls[1..]);
      LinesOfJoinLines(ls[1..]);
      assert ls[0] + "\n" + j == ls[0] + ("\n" + j);
      LinesOfPrefix(ls[0], "\n" + j);
      assert ("\n" + j)[1..] == j;
      assert ("\n" + j)[0] == '\n';
      assert Lines("\n" + j) == [""] + Lines(j);
      assert ls[0] + "" == ls[0];
      assert ls == [ls[0]] + ls[1..];
    }
  }
}
