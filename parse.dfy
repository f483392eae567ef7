/**
 * `parse` from src/main.rs: normalise the formula text, collect its
 * variables, enumerate every assignment, substitute each one into the text
 * and hand the result to `eval`. The `eval` module is foreign code and is a
 * parameter here.
 */
module Parse {
  import opened Text
  import opened Assignments

  /** The first step of the normalisation: lower-case, then drop every ' '. */
  function Squeeze(text: string): string
  {
    Replace(ToLower(text), " ", "")
  }

  /** The English keywords, rewritten in this order. */
  function RewriteEnglish(s: string): string
  {
    Replace(Replace(Replace(s, "and", "&&"), "or", "||"), "not", "!")
  }

  /** The French keywords, rewritten in this order after the English ones. */
  function RewriteFrench(s: string): string
  {
    Replace(Replace(Replace(s, "et", "&&"), "ou", "||"), "non", "!")
  }

  /** The normalisation block of `parse`. */
  function Normalize(text: string): string
  {
    RewriteFrench(RewriteEnglish(Squeeze(text)))
  }

  /** No word of `words` occurs in `s`. */
  predicate ContainsNone(s: string, words: seq<string>)
  {
    forall k :: 0 <= k < |words| ==> !Contains(s, words[k])
  }

  predicate AllWords(words: seq<string>)
  {
    forall k :: 0 <= k < |words| ==> words[k] != [] && AllLower(words[k])
  }

  /**
   * One keyword rewrite removes its own keyword and brings back none that an
   * earlier rewrite removed, because the operator it writes has no letters.
   */
  lemma ReplaceExtendsContainsNone(s: string, words: seq<string>, pat: string, rep: string)
    requires AllWords(words) && ContainsNone(s, words)
    requires pat != [] && AllLower(pat) && rep != [] && NoLower(rep)
    ensures ContainsNone(Replace(s, pat, rep), words + [pat])
  {
    var r := Replace(s, pat, rep);
    ReplaceRemovesWord(s, pat, rep);
    forall k | 0 <= k < |words|
      ensures !Contains(r, words[k])
    {
      if Contains(r, words[k]) {
        ReplaceCreatesNoWord(s, pat, rep, words[k]);
      }
    }
  }

  /** The normalised text contains none of the six keywords. */
  lemma NormalizeRemovesKeywords(text: string)
    ensures ContainsNone(Normalize(text), ["and", "or", "not", "et", "ou", "non"])
  {
    var s0 := Squeeze(text);
    var s1 := Replace(s0, "and", "&&");
    var s2 := Replace(s1, "or", "||");
    var s3 := Replace(s2, "not", "!");
    assert s3 == RewriteEnglish(s0);
    ReplaceExtendsContainsNone(s0, [], "and", "&&");
    assert [] + ["and"] == ["and"];
    ReplaceExtendsContainsNone(s1, ["and"], "or", "||");
    assert ["and"] + ["or"] == ["and", "or"];
    ReplaceExtendsContainsNone(s2, ["and", "or"], "not", "!");
    var english := ["and", "or", "not"];
    assert ["and", "or"] + ["not"] == english;
    FrenchKeepsEnglishOut(s3, english);
    assert english + ["et", "ou", "non"] == ["and", "or", "not", "et", "ou", "non"];
  }

  lemma FrenchKeepsEnglishOut(s3: string, english: seq<string>)
    requires english == ["and", "or", "not"] && ContainsNone(s3, english)
    ensures ContainsNone(RewriteFrench(s3), english + ["et", "ou", "non"])
  {
    var s4 := Replace(s3, "et", "&&");
    var s5 := Replace(s4, "ou", "||");
    ReplaceExtendsContainsNone(s3, english, "et", "&&");
    ReplaceExtendsContainsNone(s4, english + ["et"], "ou", "||");
    ReplaceExtendsContainsNone(s5, english + ["et"] + ["ou"], "non", "!");
    assert english + ["et"] + ["ou"] + ["non"] == english + ["et", "ou", "non"];
  }

  /** No space and no upper-case letter in `s`. */
  predicate Squeezed(s: string)
  {
    ' ' !in s && NoUpper(s)
  }

  lemma ReplaceKeepsSqueezed(s: string, pat: string, rep: string)
    requires pat != [] && Squeezed(s) && Squeezed(rep)
    ensures Squeezed(Replace(s, pat, rep))
  {
    var r := Replace(s, pat, rep);
    ReplaceKeepsCharAbsent(s, pat, rep, ' ');
    forall i | 0 <= i < |r|
      ensures !IsUpper(r[i])
    {
      ReplaceChars(s, pat, rep, r[i]);
    }
  }

  /** The normalised text has no space and no upper-case ASCII letter. */
  lemma NormalizeSqueezes(text: string)
    ensures Squeezed(Normalize(text))
  {
    var lowered := ToLower(text);
    var s0 := Squeeze(text);
    ReplaceRemovesChar(lowered, ' ', "");
    forall i | 0 <= i < |s0|
      ensures !IsUpper(s0[i])
    {
      ReplaceChars(lowered, " ", "", s0[i]);
    }
    var s1 := Replace(s0, "and", "&&");
    ReplaceKeepsSqueezed(s0, "and", "&&");
    var s2 := Replace(s1, "or", "||");
    ReplaceKeepsSqueezed(s1, "or", "||");
    var s3 := Replace(s2, "not", "!");
    ReplaceKeepsSqueezed(s2, "not", "!");
    var s4 := Replace(s3, "et", "&&");
    ReplaceKeepsSqueezed(s3, "et", "&&");
    var s5 := Replace(s4, "ou", "||");
    ReplaceKeepsSqueezed(s4, "ou", "||");
    ReplaceKeepsSqueezed(s5, "non", "!");
  }

  predicate NoDuplicates<T(==)>(s: seq<T>)
  {
    forall i, j :: 0 <= i < j < |s| ==> s[i] != s[j]
  }

  /** `AddIfNotExists::add_if_not_exists` on a `Vec`: push `e` unless it is already there. */
  method AddIfNotExists<T(==)>(v: seq<T>, e: T) returns (r: seq<T>)
    ensures e in v ==> r == v
    ensures e !in v ==> r == v + [e]
    ensures e in r && forall x :: x in r <==> x in v || x == e
    ensures NoDuplicates(v) ==> NoDuplicates(r)
  {
    r := v;
    if e !in v {
      r := r + [e];
    }
  }

  /** Index of the first occurrence of `c` in `s`. */
  function FirstIndex(s: string, c: char): (k: nat)
    requires c in s
    ensures k < |s| && s[k] == c && c !in s[..k]
  {
    if s[0] == c then 0 else 1 + FirstIndex(s[1..], c)
  }

  /** An occurrence with none before it is the first one. */
  lemma {:induction false} FirstIndexAt(s: string, c: char, k: nat)
    requires k < |s| && s[k] == c && c !in s[..k]
    ensures FirstIndex(s, c) == k
    decreases k
  {
    if k > 0 {
      assert s[0] in s[..k];
      assert s[1..][..k - 1] == s[1..k];
      assert s[..k] == [s[0]] + s[1..k];
      FirstIndexAt(s[1..], c, k - 1);
    }
  }

  /**
   * `vars` lists the letters 'a'..'z' of `text`, each once, in the order of
   * their first occurrence.
   */
  predicate IsVariableList(text: string, vars: seq<char>)
  {
    && NoDuplicates(vars)
    && (forall i :: 0 <= i < |vars| ==> IsLower(vars[i]) && vars[i] in text)
    && (forall k :: 0 <= k < |text| && IsLower(text[k]) ==> text[k] in vars)
    && (forall i, j :: 0 <= i < j < |vars| ==> FirstIndex(text, vars[i]) < FirstIndex(text, vars[j]))
  }

  /** What the variable-finding loop has collected after the first `k` characters of `text`. */
  predicate Collected(text: string, vars: seq<char>, k: nat)
  {
    && NoDuplicates(vars)
    && (forall i :: 0 <= i < |vars| ==> IsLower(vars[i]) && vars[i] in text && FirstIndex(text, vars[i]) < k)
    && (forall m :: 0 <= m < k <= |text| && IsLower(text[m]) ==> text[m] in vars)
    && (forall i, j :: 0 <= i < j < |vars| ==> FirstIndex(text, vars[i]) < FirstIndex(text, vars[j]))
  }

  /** A character that is no letter, or one already collected, leaves the list as it is. */
  lemma CollectKeep(text: string, vars: seq<char>, k: nat)
    requires k < |text| && Collected(text, vars, k)
    requires IsLower(text[k]) ==> text[k] in vars
    ensures Collected(text, vars, k + 1)
  {
  }

  /** A letter seen for the first time at `k` is appended, after every letter seen before it. */
  lemma CollectAdd(text: string, vars: seq<char>, k: nat)
    requires k < |text| && Collected(text, vars, k)
    requires IsLower(text[k]) && text[k] !in vars
    ensures Collected(text, vars + [text[k]], k + 1)
  {
    var ch := text[k];
    var next := vars + [ch];
    FirstIndexAt(text, ch, k);
    assert NoDuplicates(next);
    forall i | 0 <= i < |next|
      ensures IsLower(next[i]) && next[i] in text && FirstIndex(text, next[i]) < k + 1
    {
      if i < |vars| {
        assert next[i] == vars[i];
      }
    }
    forall i, j | 0 <= i < j < |next|
      ensures FirstIndex(text, next[i]) < FirstIndex(text, next[j])
    {
      assert next[i] == vars[i];
      if j < |vars| {
        assert next[j] == vars[j];
      }
    }
  }

  /** The variable-finding loop of `parse`: one left-to-right pass over the characters. */
  method FindVariables(text: string) returns (vars: seq<char>)
    ensures IsVariableList(text, vars)
  {
    vars := [];
    for k := 0 to |text|
      invariant Collected(text, vars, k)
    {
      var ch := text[k];
      if IsLower(ch) && ch !in vars {
        CollectAdd(text, vars, k);
      } else {
        CollectKeep(text, vars, k);
      }
      if IsLower(ch) {
        vars := AddIfNotExists(vars, ch);
      }
    }
  }

  /**
   * If two variable lists agree before position `i`, the `i`-th entry of `b`
   * also occurs in `a` at `i` or later, so `a` has an `i`-th entry and it
   * occurs no later in the text.
   */
  lemma ListedNoLater(text: string, a: seq<char>, b: seq<char>, i: nat)
    requires IsVariableList(text, a) && IsVariableList(text, b)
    requires i < |b| && i <= |a| && forall m :: 0 <= m < i ==> a[m] == b[m]
    ensures i < |a| && FirstIndex(text, a[i]) <= FirstIndex(text, b[i])
  {
    var kb := FirstIndex(text, b[i]);
    assert text[kb] in a;
    var jb :| 0 <= jb < |a| && a[jb] == b[i];
    assert jb >= i by {
      assert forall m :: 0 <= m < i ==> a[m] == b[m] && b[m] != b[i];
    }
    if jb > i {
      assert FirstIndex(text, a[i]) < FirstIndex(text, a[jb]);
    }
  }

  /**
   * Two lists that both satisfy `IsVariableList` agree up to position `i`;
   * in particular the first is at least as long as the second.
   */
  lemma {:induction false} VariableListsAgree(text: string, a: seq<char>, b: seq<char>, i: nat)
    requires IsVariableList(text, a) && IsVariableList(text, b)
    requires i < |b|
    ensures i < |a| && forall m :: 0 <= m <= i ==> a[m] == b[m]
    decreases i
  {
    if i > 0 {
      VariableListsAgree(text, a, b, i - 1);
    }
    ListedNoLater(text, a, b, i);
    ListedNoLater(text, b, a, i);
    assert text[FirstIndex(text, a[i])] == a[i];
  }

  /** `IsVariableList` determines the list: there is exactly one per text. */
  lemma VariableListUnique(text: string, a: seq<char>, b: seq<char>)
    requires IsVariableList(text, a) && IsVariableList(text, b)
    ensures a == b
  {
    if |b| > 0 {
      VariableListsAgree(text, a, b, |b| - 1);
    }
    if |a| > 0 {
      VariableListsAgree(text, b, a, |a| - 1);
    }
  }

  /** The text after substituting the first |vars| variables, one after another, into `text`. */
  function SubstituteAll(text: string, vars: seq<char>, poss: seq<string>): string
    requires |vars| == |poss|
    decreases |vars|
  {
    if vars == [] then text
    else
      var n := |vars| - 1;
      Replace(SubstituteAll(text, vars[..n], poss[..n]), [vars[n]], poss[n])
  }

  /** The substitution loop of `parse`: replace each variable in turn by its value. */
  method Substitute(text: string, vars: seq<char>, poss: seq<string>) returns (formula: string)
    requires |vars| == |poss|
    ensures formula == SubstituteAll(text, vars, poss)
  {
    formula := text;
    var counter := 0;
    while counter < |vars|
      invariant counter <= |vars|
      invariant formula == SubstituteAll(text, vars[..counter], poss[..counter])
    {
      assert vars[..counter + 1][..counter] == vars[..counter];
      assert poss[..counter + 1][..counter] == poss[..counter];
      formula := Replace(formula, [vars[counter]], poss[counter]);
      counter := counter + 1;
    }
    assert vars[..counter] == vars && poss[..counter] == poss;
  }

  /**
   * When no variable letter occurs in any substituted value, the
   * substitution leaves no variable letter behind.
   */
  lemma {:induction false} SubstituteAllRemovesVariables(text: string, vars: seq<char>, poss: seq<string>)
    requires |vars| == |poss|
    requires forall i, j :: 0 <= i < |vars| && 0 <= j < |poss| ==> vars[i] !in poss[j]
    ensures forall i :: 0 <= i < |vars| ==> vars[i] !in SubstituteAll(text, vars, poss)
    decreases |vars|
  {
    if vars != [] {
      var n := |vars| - 1;
      var inner := SubstituteAll(text, vars[..n], poss[..n]);
      SubstituteAllRemovesVariables(text, vars[..n], poss[..n]);
      ReplaceRemovesChar(inner, vars[n], poss[n]);
      forall i | 0 <= i < n
        ensures vars[i] !in SubstituteAll(text, vars, poss)
      {
        assert vars[..n][i] == vars[i];
        ReplaceKeepsCharAbsent(inner, [vars[n]], poss[n], vars[i]);
      }
    }
  }

  /**
   * The substitution is textual: substituting `x` and then `e` with "true"
   * rewrites the `e` inside the first "true" as well.
   */
  lemma SubstituteAllCorrupts()
    ensures SubstituteAll("x||e", ['x', 'e'], ["true", "true"]) == "trutrue||true"
  {
    assert ['x', 'e'][..1] == ['x'] && ["true", "true"][..1] == ["true"];
    assert ['x'][..0] == [] && ["true"][..0] == [];
    SubstituteX();
    SubstituteE();
  }

  /** The first substitution of the example: `x` becomes "true". */
  lemma SubstituteX()
    ensures Replace("x||e", "x", "true") == "true||e"
  {
    ReplaceCharHead('e', "", 'x', "true");
    ReplaceCharHead('|', "e", 'x', "true");
    ReplaceCharHead('|', "|e", 'x', "true");
    ReplaceCharHead('x', "||e", 'x', "true");
  }

  /** The second substitution of the example: every `e` becomes "true", the one inside "true" too. */
  lemma SubstituteE()
    ensures Replace("true||e", "e", "true") == "trutrue||true"
  {
    assert "true||e" == "true" + "||e";
    ReplaceCharConcat("true", "||e", 'e', "true");
    SubstituteEHead();
    SubstituteETail();
    assert "trutrue" + "||true" == "trutrue||true";
  }

  lemma SubstituteEHead()
    ensures Replace("true", "e", "true") == "trutrue"
  {
    ReplaceCharHead('e', "", 'e', "true");
    ReplaceCharHead('u', "e", 'e', "true");
    ReplaceCharHead('r', "ue", 'e', "true");
    ReplaceCharHead('t', "rue", 'e', "true");
  }

  lemma SubstituteETail()
    ensures Replace("||e", "e", "true") == "||true"
  {
    ReplaceCharHead('e', "", 'e', "true");
    ReplaceCharHead('|', "e", 'e', "true");
    ReplaceCharHead('|', "|e", 'e', "true");
  }

  /** The digit rewrite before `eval`: "0" becomes "false", then "1" becomes "true". */
  function DigitsToWords(s: string): (r: string)
    ensures '0' !in r && '1' !in r
  {
    var noZero := Replace(s, "0", "false");
    ReplaceRemovesChar(s, '0', "false");
    ReplaceRemovesChar(noZero, '1', "true");
    ReplaceKeepsCharAbsent(noZero, "1", "true", '0');
    Replace(noZero, "1", "true")
  }

  /** One row of `parse`'s result: an assignment and what `eval` returned for it. */
  type Row = (seq<string>, string)

  /**
   * The loop of `parse` over the enumerated assignments: substitute each one
   * into the normalised text, rewrite the digits and evaluate.
   */
  method EvaluateRows(formula: string, vars: seq<char>, all: seq<seq<string>>, eval: string -> string)
    returns (results: seq<Row>)
    requires forall i :: 0 <= i < |all| ==> |all[i]| == |vars|
    ensures |results| == |all|
    ensures forall i :: 0 <= i < |all| ==>
      && results[i].0 == all[i]
      && results[i].1 == eval(DigitsToWords(SubstituteAll(formula, vars, all[i])))
  {
    results := [];
    for k := 0 to |all|
      invariant |results| == k
      invariant forall i :: 0 <= i < k ==>
        && results[i].0 == all[i]
        && results[i].1 == eval(DigitsToWords(SubstituteAll(formula, vars, all[i])))
    {
      var poss := all[k];
      var substituted := Substitute(formula, vars, poss);
      results := results + [(poss, eval(DigitsToWords(substituted)))];
    }
  }

  /**
   * `parse`: the variables of the normalised text, and one row per
   * assignment, in enumeration order.
   */
  method Parse(text: string, eval: string -> string) returns (vars: seq<char>, results: seq<Row>)
    ensures IsVariableList(Normalize(text), vars)
    ensures vars == [] ==> results == [([], eval(DigitsToWords(Normalize(text))))]
    ensures forall i :: 0 <= i < |results| ==> IsAssignment(|vars|, results[i].0)
    ensures vars != [] ==> |results| == Pow2(|vars|)
    ensures vars != [] ==> forall i :: 0 <= i < |results| ==>
      && |results[i].0| == |vars|
      && results[i].0 == Product(|vars|)[i]
      && results[i].1 == eval(DigitsToWords(SubstituteAll(Normalize(text), vars, results[i].0)))
  {
    var normalized := Normalize(text);
    vars := FindVariables(normalized);
    if vars != [] {
      results := EvaluateRows(normalized, vars, Product(|vars|), eval);
    } else {
      var fixedText := DigitsToWords(normalized);
      results := [([], eval(fixedText))];
    }
  }
}
