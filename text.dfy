/**
 * The parts of Rust's `str` API that the truth-table pipeline uses:
 * `to_lowercase` (restricted to ASCII), `replace` and `trim`, together with
 * the substring predicates needed to state what they do.
 */
module Text {

  predicate IsLower(c: char) { 'a' <= c <= 'z' }

  predicate IsUpper(c: char) { 'A' <= c <= 'Z' }

  /** True when every character of `s` is a lower-case ASCII letter. */
  predicate AllLower(s: string) { forall i :: 0 <= i < |s| ==> IsLower(s[i]) }

  /** True when no character of `s` is a lower-case ASCII letter. */
  predicate NoLower(s: string) { forall i :: 0 <= i < |s| ==> !IsLower(s[i]) }

  /** True when no character of `s` is an upper-case ASCII letter. */
  predicate NoUpper(s: string) { forall i :: 0 <= i < |s| ==> !IsUpper(s[i]) }

  function LowerChar(c: char): char
  {
    if IsUpper(c) then (c as int + 32) as char else c
  }

  /** `str::to_lowercase`, on the ASCII letters. */
  function ToLower(s: string): (r: string)
    ensures |r| == |s| && NoUpper(r)
    ensures forall i :: 0 <= i < |s| ==> (IsUpper(s[i]) ==> IsLower(r[i])) && (!IsUpper(s[i]) ==> r[i] == s[i])
    ensures forall i :: 0 <= i < |s| && IsUpper(s[i]) ==> r[i] as int - 'a' as int == s[i] as int - 'A' as int
  {
    seq(|s|, i requires 0 <= i < |s| => LowerChar(s[i]))
  }

  predicate StartsWith(s: string, p: string)
  {
    |p| <= |s| && s[..|p|] == p
  }

  /** True when `q` occurs in `s` as a contiguous substring. */
  predicate Contains(s: string, q: string)
    decreases |s|
  {
    StartsWith(s, q) || (s != [] && Contains(s[1..], q))
  }

  /**
   * `str::replace`: scans `s` from left to right and replaces every
   * non-overlapping occurrence of `pat` by `rep`; after a replacement the
   * scan resumes behind the matched text.
   */
  function Replace(s: string, pat: string, rep: string): string
    requires pat != []
    decreases |s|
  {
    if s == [] then []
    else if StartsWith(s, pat) then rep + Replace(s[|pat|..], pat, rep)
    else [s[0]] + Replace(s[1..], pat, rep)
  }

  /** One step of a single-character `replace`: the head is rewritten or kept, the tail is replaced on its own. */
  lemma ReplaceCharHead(c: char, t: string, p: char, rep: string)
    ensures Replace([c] + t, [p], rep) == (if c == p then rep else [c]) + Replace(t, [p], rep)
  {
    assert ([c] + t)[1..] == t;
  }

  /** A single-character pattern cannot straddle two parts, so `replace` works on each part alone. */
  lemma {:induction false} ReplaceCharConcat(a: string, b: string, p: char, rep: string)
    ensures Replace(a + b, [p], rep) == Replace(a, [p], rep) + Replace(b, [p], rep)
    decreases |a|
  {
    if a != [] {
      ReplaceCharConcat(a[1..], b, p, rep);
      ReplaceCharHead(a[0], a[1..] + b, p, rep);
      ReplaceCharHead(a[0], a[1..], p, rep);
      assert a + b == [a[0]] + (a[1..] + b);
      assert a == [a[0]] + a[1..];
    } else {
      assert a + b == b;
    }
  }

  /** Every character of a replacement's result comes from the input or from `rep`. */
  lemma {:induction false} ReplaceChars(s: string, pat: string, rep: string, c: char)
    requires pat != []
    requires c in Replace(s, pat, rep)
    ensures c in s || c in rep
    decreases |s|
  {
    if s == [] {
    } else if StartsWith(s, pat) {
      if c !in rep {
        ReplaceChars(s[|pat|..], pat, rep, c);
        assert s[|pat|..] == s[|pat|..|s|];
      }
    } else if c != s[0] {
      ReplaceChars(s[1..], pat, rep, c);
    }
  }

  /** Replacing a single character by text that lacks it removes that character. */
  lemma {:induction false} ReplaceRemovesChar(s: string, c: char, rep: string)
    requires c !in rep
    ensures c !in Replace(s, [c], rep)
    decreases |s|
  {
    if s != [] {
      ReplaceRemovesChar(s[1..], c, rep);
      if StartsWith(s, [c]) {
        assert Replace(s, [c], rep) == rep + Replace(s[1..], [c], rep);
      } else {
        assert s[0] != c;
      }
    }
  }

  /** A character absent from both the input and `rep` is absent from the result. */
  lemma ReplaceKeepsCharAbsent(s: string, pat: string, rep: string, c: char)
    requires pat != [] && c !in s && c !in rep
    ensures c !in Replace(s, pat, rep)
  {
    if c in Replace(s, pat, rep) {
      ReplaceChars(s, pat, rep, c);
    }
  }

  /** When `pat` does not occur, `replace` returns its input unchanged. */
  lemma {:induction false} ReplaceAbsent(s: string, pat: string, rep: string)
    requires pat != [] && !Contains(s, pat)
    ensures Replace(s, pat, rep) == s
    decreases |s|
  {
    if s != [] {
      ReplaceAbsent(s[1..], pat, rep);
      assert [s[0]] + s[1..] == s;
    }
  }

  /** An occurrence in a suffix is an occurrence in the whole. */
  lemma {:induction false} ContainsSuffix(s: string, j: nat, q: string)
    requires j <= |s| && Contains(s[j..], q)
    ensures Contains(s, q)
    decreases j
  {
    if j > 0 {
      assert s[1..][j - 1..] == s[j..];
      ContainsSuffix(s[1..], j - 1, q);
    }
  }

  /** A word that starts with a letter cannot start inside a letter-free prefix. */
  lemma {:induction false} ContainsPastNonLetters(a: string, b: string, q: string)
    requires NoLower(a) && q != [] && IsLower(q[0])
    requires Contains(a + b, q)
    ensures Contains(b, q)
    decreases |a|
  {
    if a == [] {
      assert a + b == b;
    } else {
      assert (a + b)[0] == a[0];
      assert !StartsWith(a + b, q);
      assert (a + b)[1..] == a[1..] + b;
      ContainsPastNonLetters(a[1..], b, q);
    }
  }

  /**
   * When `rep` is non-empty and letter-free, any run of letters at the head
   * of the result was copied unchanged from the head of the input.
   */
  lemma {:induction false} ReplaceLetterPrefix(s: string, pat: string, rep: string, k: nat)
    requires pat != [] && rep != [] && NoLower(rep)
    requires k <= |Replace(s, pat, rep)| && AllLower(Replace(s, pat, rep)[..k])
    ensures k <= |s| && Replace(s, pat, rep)[..k] == s[..k]
    decreases |s|
  {
    var r := Replace(s, pat, rep);
    if k > 0 {
      assert IsLower(r[..k][0]);
      assert !StartsWith(s, pat);
      var tail := Replace(s[1..], pat, rep);
      assert r == [s[0]] + tail;
      assert r[..k][1..] == tail[..k - 1];
      ReplaceLetterPrefix(s[1..], pat, rep, k - 1);
      assert r[..k] == [s[0]] + tail[..k - 1];
    }
  }

  /**
   * Replacing a lower-case word by non-empty, letter-free text leaves no
   * occurrence of that word.
   */
  lemma {:induction false} ReplaceRemovesWord(s: string, pat: string, rep: string)
    requires pat != [] && AllLower(pat) && rep != [] && NoLower(rep)
    ensures !Contains(Replace(s, pat, rep), pat)
    decreases |s|
  {
    if s != [] {
      var r := Replace(s, pat, rep);
      if StartsWith(s, pat) {
        ReplaceRemovesWord(s[|pat|..], pat, rep);
        if Contains(r, pat) {
          ContainsPastNonLetters(rep, Replace(s[|pat|..], pat, rep), pat);
        }
      } else {
        ReplaceRemovesWord(s[1..], pat, rep);
        if StartsWith(r, pat) {
          ReplaceLetterPrefix(s, pat, rep, |pat|);
        }
      }
    }
  }

  /**
   * Replacing anything by non-empty, letter-free text creates no new
   * occurrence of a lower-case word.
   */
  lemma {:induction false} ReplaceCreatesNoWord(s: string, pat: string, rep: string, q: string)
    requires pat != [] && rep != [] && NoLower(rep)
    requires q != [] && AllLower(q)
    requires Contains(Replace(s, pat, rep), q)
    ensures Contains(s, q)
    decreases |s|
  {
    var r := Replace(s, pat, rep);
    if s == [] {
    } else if StartsWith(s, pat) {
      var tail := Replace(s[|pat|..], pat, rep);
      ContainsPastNonLetters(rep, tail, q);
      ReplaceCreatesNoWord(s[|pat|..], pat, rep, q);
      ContainsSuffix(s, |pat|, q);
    } else if StartsWith(r, q) {
      ReplaceLetterPrefix(s, pat, rep, |q|);
    } else {
      ReplaceCreatesNoWord(s[1..], pat, rep, q);
    }
  }

  /** `char::is_whitespace`: the Unicode White_Space property. */
  predicate IsWhitespace(c: char)
  {
    c == ' ' || ('\t' <= c <= '\r') || c == '\U{0085}' || c == '\U{00A0}' || c == '\U{1680}'
    || ('\U{2000}' <= c <= '\U{200A}') || c == '\U{2028}' || c == '\U{2029}'
    || c == '\U{202F}' || c == '\U{205F}' || c == '\U{3000}'
  }

  /** `str::trim_start`: drops the leading whitespace and nothing else. */
  function TrimStart(s: string): (r: string)
    ensures |r| <= |s| && r == s[|s| - |r|..]
    ensures r == [] || !IsWhitespace(r[0])
    ensures forall i :: 0 <= i < |s| - |r| ==> IsWhitespace(s[i])
    decreases |s|
  {
    if s != [] && IsWhitespace(s[0]) then TrimStart(s[1..]) else s
  }

  /** `str::trim_end`: drops the trailing whitespace and nothing else. */
  function TrimEnd(s: string): (r: string)
    ensures |r| <= |s| && r == s[..|r|]
    ensures r == [] || !IsWhitespace(r[|r| - 1])
    ensures forall i :: |r| <= i < |s| ==> IsWhitespace(s[i])
    decreases |s|
  {
    if s != [] && IsWhitespace(s[|s| - 1]) then TrimEnd(s[..|s| - 1]) else s
  }

  /** `str::trim`: whitespace removed at both ends. */
  function Trim(s: string): (r: string)
    ensures |r| <= |s|
    ensures r == [] || (!IsWhitespace(r[0]) && !IsWhitespace(r[|r| - 1]))
    ensures var a := |s| - |TrimStart(s)|;
      && a + |r| <= |s|
      && r == s[a..][..|r|]
      && (forall i :: 0 <= i < a ==> IsWhitespace(s[i]))
      && (forall i :: a + |r| <= i < |s| ==> IsWhitespace(s[i]))
  {
    var front := TrimStart(s);
    assert TrimEnd(front) != [] ==> TrimEnd(front)[0] == front[0];
    TrailingWhitespace(s, front, TrimEnd(front));
    TrimEnd(front)
  }

  /** Whitespace trailing a prefix of a suffix of `s` is whitespace trailing it in `s`. */
  lemma TrailingWhitespace(s: string, front: string, both: string)
    requires |front| <= |s| && front == s[|s| - |front|..]
    requires |both| <= |front|
    requires forall i :: |both| <= i < |front| ==> IsWhitespace(front[i])
    ensures forall i :: |s| - |front| + |both| <= i < |s| ==> IsWhitespace(s[i])
  {
    var a := |s| - |front|;
    forall i | a + |both| <= i < |s|
      ensures IsWhitespace(s[i])
    {
      assert s[i] == front[i - a];
    }
  }

  /** A string without leading or trailing whitespace is its own trim. */
  lemma TrimUnchanged(s: string)
    requires s == [] || (!IsWhitespace(s[0]) && !IsWhitespace(s[|s| - 1]))
    ensures Trim(s) == s
  {
    var t := TrimStart(s);
    assert t == s;
    var e := TrimEnd(t);
    assert |e| == |s|;
  }
}
