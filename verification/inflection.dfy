/** The chatbot's heuristic English singulariser, `_normalize_word`. */
module Inflection {
  import opened Text

  /** A word whose last character is `c`. */
  predicate LastIs(w: string, c: char) {
    |w| > 0 && w[|w| - 1] == c
  }

  lemma EndsWithLast(w: string, suffix: string)
    requires EndsWith(w, suffix) && |suffix| > 0
    ensures LastIs(w, suffix[|suffix| - 1])
  {
    assert w[|w| - 1] == w[|w| - |suffix|..][|suffix| - 1];
  }

  /** The plural rules on a word that is already lowercased and stripped.
      The rules are tried in a fixed order and the first that applies wins;
      only a word ending in "s" is changed, and it never grows. */
  function Singular(w: string): (r: string)
    ensures |r| <= |w|
    ensures !LastIs(w, 's') ==> r == w
  {
    if EndsWith(w, "ies") && |w| > 4 then
      EndsWithLast(w, "ies");
      w[..|w| - 3] + "y"
    else if EndsWith(w, "oes") && |w| > 4 then
      EndsWithLast(w, "oes");
      w[..|w| - 2]
    else if EndsWith(w, "ches") || EndsWith(w, "shes") || EndsWith(w, "xes") then
      if EndsWith(w, "ches") then EndsWithLast(w, "ches"); w[..|w| - 2]
      else if EndsWith(w, "shes") then EndsWithLast(w, "shes"); w[..|w| - 2]
      else EndsWithLast(w, "xes"); w[..|w| - 2]
    else if EndsWith(w, "ses") && |w| > 4 then
      EndsWithLast(w, "ses");
      w[..|w| - 2]
    else if EndsWith(w, "s") && |w| > 3 then
      w[..|w| - 1]
    else w
  }

  /** `_normalize_word`: lowercase, strip, then singularise. */
  function NormalizeWord(word: string): (r: string)
    ensures |r| <= |Strip(Lower(word))|
    ensures !LastIs(Strip(Lower(word)), 's') ==> r == Strip(Lower(word))
  {
    Singular(Strip(Lower(word)))
  }

  /** One suffix rule: a word that ends with `suffix` and is longer than
      `longerThan` loses `drop` characters and gains `append`. */
  datatype Rule = Rule(suffix: string, longerThan: nat, drop: nat, append: string)

  /** The plural rules in priority order, as a table. */
  const PluralRules: seq<Rule> := [
    Rule("ies", 4, 3, "y"),
    Rule("oes", 4, 2, ""),
    Rule("ches", 0, 2, ""),
    Rule("shes", 0, 2, ""),
    Rule("xes", 0, 2, ""),
    Rule("ses", 4, 2, ""),
    Rule("s", 3, 1, "")
  ]

  predicate Applies(rule: Rule, w: string) {
    EndsWith(w, rule.suffix) && |w| > rule.longerThan && rule.drop <= |w|
  }

  /** Applies the first rule of `rules` that applies to `w`; `w` itself
      when none does. */
  function FirstRule(rules: seq<Rule>, w: string): string
    decreases |rules|
  {
    if |rules| == 0 then w
    else if Applies(rules[0], w) then w[..|w| - rules[0].drop] + rules[0].append
    else FirstRule(rules[1..], w)
  }

  /** The singulariser is the first-match-wins application of the rule
      table. */
  lemma SingularIsFirstRule(w: string)
    ensures Singular(w) == FirstRule(PluralRules, w)
  {
    var r0 := PluralRules;
    var r1 := r0[1..];
    var r2 := r1[1..];
    var r3 := r2[1..];
    var r4 := r3[1..];
    var r5 := r4[1..];
    var r6 := r5[1..];
    assert r6 == [Rule("s", 3, 1, "")] && r6[1..] == [];
    assert FirstRule(r6, w) == if Applies(r6[0], w) then w[..|w| - 1] else w;
    assert FirstRule(r5, w) == if Applies(r5[0], w) then w[..|w| - 2] else FirstRule(r6, w);
    assert FirstRule(r4, w) == if Applies(r4[0], w) then w[..|w| - 2] else FirstRule(r5, w);
    assert FirstRule(r3, w) == if Applies(r3[0], w) then w[..|w| - 2] else FirstRule(r4, w);
    assert FirstRule(r2, w) == if Applies(r2[0], w) then w[..|w| - 2] else FirstRule(r3, w);
    assert FirstRule(r1, w) == if Applies(r1[0], w) then w[..|w| - 2] else FirstRule(r2, w);
    assert FirstRule(r0, w) == if Applies(r0[0], w) then w[..|w| - 3] + "y" else FirstRule(r1, w);
  }

  /** A character of a suffix is the character at the same place from the
      end of the word. */
  lemma SuffixChar(w: string, suffix: string, k: nat)
    requires EndsWith(w, suffix) && k < |suffix|
    ensures w[|w| - |suffix| + k] == suffix[k]
  {
    assert w[|w| - |suffix|..][k] == w[|w| - |suffix| + k];
  }

  /** A word of four or more letters ending in "s" but not in "es" only
      loses the "s". */
  lemma PlainPlural(w: string)
    requires |w| > 3 && LastIs(w, 's') && w[|w| - 2] != 'e'
    ensures Singular(w) == w[..|w| - 1]
  {
    forall suffix | suffix in ["ies", "oes", "ches", "shes", "xes", "ses"] ensures !EndsWith(w, suffix) {
      if EndsWith(w, suffix) {
        SuffixChar(w, suffix, |suffix| - 2);
      }
    }
    assert EndsWith(w, "s") by {
      assert w[|w| - 1..] == [w[|w| - 1]];
    }
  }

  /** A word of five or more letters ending in "ses" loses the "es". */
  lemma SesPlural(w: string)
    requires |w| > 4 && EndsWith(w, "ses")
    ensures Singular(w) == w[..|w| - 2]
  {
    SuffixChar(w, "ses", 0);
    forall suffix | suffix in ["ies", "oes", "ches", "shes", "xes"] ensures !EndsWith(w, suffix) {
      if EndsWith(w, suffix) {
        SuffixChar(w, suffix, |suffix| - 3);
      }
    }
  }

  /** Singularising twice can strip twice: the normaliser is not
      idempotent ("glasses" -> "glass" -> "glas"). */
  lemma {:induction false} SingularNotIdempotent()
    ensures Singular("glasses") == "glass"
    ensures Singular(Singular("glasses")) == "glas"
  {
    assert EndsWith("glasses", "ses");
    SesPlural("glasses");
    assert "glasses"[..5] == "glass";
    PlainPlural("glass");
    assert "glass"[..4] == "glas";
  }

  /** Worked examples of the rules, one per ending. */
  lemma IesExample()
    ensures Singular("categories") == "category"
  {
    assert "categories"[7..] == "ies";
  }

  lemma OesExample()
    ensures Singular("potatoes") == "potato"
  {
    assert "potatoes"[5..] == "oes" && "potatoes"[6..] != "ies";
  }

  lemma XesExample()
    ensures Singular("boxes") == "box"
  {
    assert "boxes"[2..] == "xes" && "boxes"[1..] != "ches" && "boxes"[1..] != "shes";
  }

  lemma SExample()
    ensures Singular("kiwis") == "kiwi"
  {
    PlainPlural("kiwis");
    assert "kiwis"[..4] == "kiwi";
  }
}
