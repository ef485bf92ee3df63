/** The simplifier of `AIService`: the prompt sent to the outside language
    model, and the rule-based fallback used when that call fails. The model
    itself is not modelled: its outcome is a parameter. */
module Simplifier {
  import opened Wrappers
  import opened PyStr
  import opened Replace

  /** What the outside model call produced: its reply text, or the message
      of the exception it raised. */
  datatype ModelOutcome = Reply(content: string) | Failed(message: string)

  // ---------------------------------------------------------------------
  // Prompt assembly

  /** The language framings, keyed by language code. */
  const LanguagePrompts: map<string, string> := map[
    "en" := "Simplify this legal document into plain English",
    "hi" := "इस कानूनी दस्तावेज़ को सरल हिंदी में समझाएं",
    "mr" := "या कायदेशीर कागदपत्राचे मराठीत सोप्या भाषेत स्पष्टीकरण द्या"
  ]

  /** The reading-level registers, keyed by complexity tier. */
  const ComplexityLevels: map<string, string> := map[
    "simple" := "Use very simple language that a 12-year-old could understand",
    "intermediate" := "Use clear language suitable for high school graduates",
    "advanced" := "Use professional but clear language suitable for college graduates"
  ]

  /** How many characters of the input reach the simplification prompt. */
  const SimplifyExcerptLength: nat := 4000

  /** Python's `table.get(key, table[fallbackKey])`: a key the table holds
      gets its own entry, any other key the fallback's. */
  function GetOr(table: map<string, string>, key: string, fallbackKey: string): (r: string)
    requires fallbackKey in table
    ensures r in table.Values
    ensures key in table ==> r == table[key]
    ensures key !in table ==> r == table[fallbackKey]
  {
    if key in table then table[key] else table[fallbackKey]
  }

  /** The framing for `language`, English for a code the table lacks. */
  function LanguageFraming(language: string): string {
    GetOr(LanguagePrompts, language, "en")
  }

  /** The register for `complexity`, the simple one for an unknown tier. */
  function ComplexityRegister(complexity: string): string {
    GetOr(ComplexityLevels, complexity, "simple")
  }

  /** One line of the prompt template, with the template's indentation. */
  function PromptLine(content: string): string {
    "        " + content + "\n"
  }

  /** The prompt text before the excerpt of the document, for a given
      framing and register. */
  function PromptHead(framing: string, register: string): string {
    "\n"
    + PromptLine(framing + ".")
    + PromptLine("")
    + PromptLine(register + ".")
    + PromptInstructions
  }

  /** The fixed lines between the register and the excerpt. */
  const PromptInstructions: string :=
    PromptLine("")
    + PromptLine("Please:")
    + PromptLine("1. Break down complex legal terms into simple explanations")
    + PromptLine("2. Explain what each clause means in practical terms")
    + PromptLine("3. Highlight key rights and obligations")
    + PromptLine("4. Use bullet points for clarity")
    + PromptLine("5. Maintain the document structure but make it readable")
    + PromptLine("")
    + PromptLine("Original legal text:")
    + "        "

  /** The prompt text after the excerpt. The source comment on that line
      sits inside the template string, so it is sent to the model too. */
  const SimplifyPromptTail: string := "  # Limit text to avoid token limits\n        "

  /** The user message of the simplification request: the framing for the
      language and the register for the complexity (each with its default),
      five fixed instructions, and the first 4000 characters of the text. */
  function SimplifyPrompt(text: string, language: string, complexity: string): (r: string)
    ensures Contains(r, Take(text, SimplifyExcerptLength))
  {
    var head := PromptHead(LanguageFraming(language), ComplexityRegister(complexity));
    ContainsMiddle(head, Take(text, SimplifyExcerptLength), SimplifyPromptTail);
    head + Take(text, SimplifyExcerptLength) + SimplifyPromptTail
  }

  /** The framing and register slots of the simplification prompt: the
      contents of the first and third lines of the head (each between the
      indentation and a full stop) appear in any text the head begins. */
  lemma FramingAndRegisterSlots(nl: string, ind: string, dot: string, empty: string,
                       framing: string, register: string, rest: string)
    ensures var x := nl + (ind + (framing + dot) + nl) + (ind + empty + nl) + (ind + (register + dot) + nl) + rest;
      Contains(x, framing) && Contains(x, register)
  {
    var x := nl + (ind + (framing + dot) + nl) + (ind + empty + nl) + (ind + (register + dot) + nl) + rest;
    var between := dot + nl + (ind + empty + nl) + ind;
    var tail := dot + nl + rest;
    assert x == (nl + ind) + framing + (between + register + tail);
    ContainsMiddle(nl + ind, framing, between + register + tail);
    assert x == (nl + ind + framing + between) + register + tail;
    ContainsMiddle(nl + ind + framing + between, register, tail);
  }

  /** The framing and the register both appear in the head of the prompt. */
  lemma PromptHeadEmbeds(framing: string, register: string, rest: string)
    ensures Contains(PromptHead(framing, register) + rest, framing)
    ensures Contains(PromptHead(framing, register) + rest, register)
  {
    var lines := "\n" + PromptLine(framing + ".") + PromptLine("") + PromptLine(register + ".");
    var after := PromptInstructions + rest;
    assert PromptHead(framing, register) + rest == lines + after;
    FramingAndRegisterSlots("\n", "        ", ".", "", framing, register, after);
  }

  /** A language code the table holds is framed with its own entry, and
      a complexity tier the table holds gets its own register: `"hi"`
      asks for Hindi, `"advanced"` for the college-graduate register. */
  lemma KnownSettingsArePrompted(text: string, language: string, complexity: string)
    ensures language in LanguagePrompts ==> Contains(SimplifyPrompt(text, language, complexity), LanguagePrompts[language])
    ensures complexity in ComplexityLevels ==> Contains(SimplifyPrompt(text, language, complexity), ComplexityLevels[complexity])
  {
    var framing := LanguageFraming(language);
    var register := ComplexityRegister(complexity);
    PromptHeadEmbeds(framing, register, Take(text, SimplifyExcerptLength) + SimplifyPromptTail);
    assert SimplifyPrompt(text, language, complexity)
        == PromptHead(framing, register) + (Take(text, SimplifyExcerptLength) + SimplifyPromptTail);
  }

  /** Nothing past the first 4000 characters reaches the model: two texts
      that agree on their first 4000 characters give the same prompt. */
  lemma SimplifyPromptSeesOnlyExcerpt(t1: string, t2: string, language: string, complexity: string)
    requires Take(t1, SimplifyExcerptLength) == Take(t2, SimplifyExcerptLength)
    ensures SimplifyPrompt(t1, language, complexity) == SimplifyPrompt(t2, language, complexity)
  {
  }

  /** An unknown language code is prompted exactly as English. */
  lemma UnknownLanguageIsEnglish(text: string, language: string, complexity: string)
    requires language !in LanguagePrompts
    ensures SimplifyPrompt(text, language, complexity) == SimplifyPrompt(text, "en", complexity)
  {
    assert LanguageFraming(language) == LanguageFraming("en");
  }

  /** An unknown complexity tier is prompted exactly as "simple". */
  lemma UnknownComplexityIsSimple(text: string, language: string, complexity: string)
    requires complexity !in ComplexityLevels
    ensures SimplifyPrompt(text, language, complexity) == SimplifyPrompt(text, language, "simple")
  {
    assert ComplexityRegister(complexity) == ComplexityRegister("simple");
  }

  // ---------------------------------------------------------------------
  // Rule-based fallback

  /** The legal-jargon rewrite table, in the order the dictionary literal
      lists it (Python dictionaries iterate in insertion order). */
  const Replacements: seq<(string, string)> := [
    ("whereas", "given that"),
    ("heretofore", "before this"),
    ("hereinafter", "from now on"),
    ("aforementioned", "mentioned above"),
    ("pursuant to", "according to"),
    ("notwithstanding", "despite"),
    ("ipso facto", "by that very fact"),
    ("party of the first part", "first party"),
    ("party of the second part", "second party"),
    ("shall", "will"),
    ("hereby", "by this"),
    ("herein", "in this document"),
    ("thereof", "of that"),
    ("witnesseth", "shows that")
  ]

  /** The marker the fallback puts in front of its output. */
  const FallbackMarker: string := "Simplified version: "

  /** No rule of `table` finds its pattern in `text`. */
  predicate NoRuleApplies(table: seq<(string, string)>, text: string) {
    table == [] || (table[0].0 != [] && !Contains(text, table[0].0) && NoRuleApplies(table[1..], text))
  }

  /** Every rule of `table`, in order, each applied with `str.replace` to
      the output of the one before. Rules whose patterns do not occur leave
      the text as it is. */
  function ApplyRules(table: seq<(string, string)>, text: string): (r: string)
    ensures NoRuleApplies(table, text) ==> r == text
  {
    if table == [] then text
    else
      var next := ReplaceAll(text, table[0].0, table[0].1);
      assert NoRuleApplies(table, text) ==> next == text by {
        if NoRuleApplies(table, text) {
          ReplaceAbsent(text, table[0].0, table[0].1);
        }
      }
      ApplyRules(table[1..], next)
  }

  /** `rule_based_simplification`: the jargon table applied to the whole
      text, behind the fallback marker. The language is not consulted. */
  function RuleBasedSimplification(text: string, language: string): (r: string)
    ensures |FallbackMarker| <= |r| && r[..|FallbackMarker|] == FallbackMarker
  {
    FallbackMarker + ApplyRules(Replacements, text)
  }

  /** Rules run in table order: a table split in two runs the first part
      to completion, then the second part on its output. */
  lemma {:induction false} ApplyRulesInOrder(first: seq<(string, string)>, second: seq<(string, string)>, text: string)
    ensures ApplyRules(first + second, text) == ApplyRules(second, ApplyRules(first, text))
    decreases |first|
  {
    if first == [] {
      assert first + second == second;
    } else {
      assert (first + second)[1..] == first[1..] + second;
      ApplyRulesInOrder(first[1..], second, ReplaceAll(text, first[0].0, first[0].1));
    }
  }

  /** A text with none of the jargon is returned whole behind the marker. */
  lemma FallbackWithoutJargon(text: string, language: string)
    requires NoRuleApplies(Replacements, text)
    ensures RuleBasedSimplification(text, language) == FallbackMarker + text
  {
  }

  /** `simplify_legal_text`: the model's reply when the call succeeds;
      otherwise the rule-based rewrite of the whole (untruncated) text. */
  function SimplifyLegalText(text: string, language: string, complexity: string, outcome: ModelOutcome): (r: string)
    ensures outcome.Reply? ==> r == outcome.content
    ensures outcome.Failed? ==> |FallbackMarker| <= |r| && r[..|FallbackMarker|] == FallbackMarker
  {
    match outcome
    case Reply(content) => content
    case Failed(_) => RuleBasedSimplification(text, language)
  }

  /** A failed model call never surfaces: the caller gets marked fallback
      text, built from the whole input rather than the prompt's excerpt. */
  lemma FailedCallFallsBack(text: string, language: string, complexity: string, message: string)
    ensures var r := SimplifyLegalText(text, language, complexity, Failed(message));
      && |FallbackMarker| <= |r| && r[..|FallbackMarker|] == FallbackMarker
      && (NoRuleApplies(Replacements, text) ==> r == FallbackMarker + text)
  {
    if NoRuleApplies(Replacements, text) {
      FallbackWithoutJargon(text, language);
    }
  }

  lemma LongerPatternAbsent(s: string, sub: string)
    requires |s| < |sub|
    ensures !Contains(s, sub)
  {
  }

  /** One rule of a table, by position: the rules from `k` on find nothing
      when rule `k` finds nothing and the rules after it find nothing. */
  lemma NoRuleAppliesFrom(table: seq<(string, string)>, k: nat, text: string)
    requires k < |table| && table[k].0 != [] && !Contains(text, table[k].0)
    requires NoRuleApplies(table[k + 1..], text)
    ensures NoRuleApplies(table[k..], text)
  {
    assert table[k..][1..] == table[k + 1..];
  }

  /** Running the rules from `k` on runs rule `k`, then the rest. */
  lemma ApplyRulesFrom(table: seq<(string, string)>, k: nat, text: string)
    requires k < |table|
    ensures ApplyRules(table[k..], text) == ApplyRules(table[k + 1..], ReplaceAll(text, table[k].0, table[k].1))
  {
    assert table[k..][1..] == table[k + 1..];
  }

  /** Every pattern but "shall" is longer than "Shall". */
  lemma PatternsLongerThanShall()
    ensures forall k :: 0 <= k < |Replacements| && k != 9 ==> |"Shall"| < |Replacements[k].0|
  {
  }

  lemma ShallMatchesNoRule(k: nat)
    requires k < |Replacements|
    ensures Replacements[k].0 != [] && !Contains("Shall", Replacements[k].0)
  {
    if k == 9 {
      NoStartPosition("Shall", "shall");
    } else {
      PatternsLongerThanShall();
      LongerPatternAbsent("Shall", Replacements[k].0);
    }
  }

  lemma NoRuleMatchesCapitalShall()
    ensures NoRuleApplies(Replacements, "Shall")
  {
    var s := "Shall";
    var k := |Replacements|;
    while k > 0
      invariant 0 <= k <= |Replacements| && NoRuleApplies(Replacements[k..], s)
    {
      k := k - 1;
      ShallMatchesNoRule(k);
      NoRuleAppliesFrom(Replacements, k, s);
    }
  }

  /** Matching is case-sensitive: "Shall" is not "shall", and no other
      pattern fits in it, so it passes through untouched. */
  lemma CapitalShallUntouched(language: string)
    ensures RuleBasedSimplification("Shall", language) == FallbackMarker + "Shall"
  {
    NoRuleMatchesCapitalShall();
    FallbackWithoutJargon("Shall", language);
  }

  lemma HereinafterLacksWhereas()
    ensures !Contains("hereinafter", "whereas")
  {
    NoStartPosition("hereinafter", "whereas");
  }

  lemma HereinafterLacksHeretofore()
    ensures !Contains("hereinafter", "heretofore")
  {
    var s := "hereinafter";
    assert s[..10][4] != "heretofore"[4];
    assert s[1..][..10][0] != "heretofore"[0];
    LongerPatternAbsent(s[2..], "heretofore");
  }

  lemma HereinafterRuleFires()
    ensures ReplaceAll("hereinafter", "hereinafter", "from now on") == "from now on"
  {
    var s := "hereinafter";
    assert StartsWith(s, s);
    assert s[|s|..] == [];
  }

  /** The first two rules find nothing in "hereinafter"; the third rewrites
      all of it. */
  lemma HereinafterFirstRules()
    ensures ApplyRules(Replacements, "hereinafter") == ApplyRules(Replacements[3..], "from now on")
  {
    var s := "hereinafter";
    HereinafterLacksWhereas();
    HereinafterLacksHeretofore();
    HereinafterRuleFires();
    ReplaceAbsent(s, Replacements[0].0, Replacements[0].1);
    ApplyRulesFrom(Replacements, 0, s);
    ReplaceAbsent(s, Replacements[1].0, Replacements[1].1);
    ApplyRulesFrom(Replacements, 1, s);
    ApplyRulesFrom(Replacements, 2, s);
  }

  lemma FromNowOnMatchesNoLaterRule(k: nat)
    requires 3 <= k < |Replacements|
    ensures Replacements[k].0 != [] && !Contains("from now on", Replacements[k].0)
  {
    var out := "from now on";
    if k == 3 || k == 5 || k == 7 || k == 8 {
      LongerPatternAbsent(out, Replacements[k].0);
    } else {
      NoStartPosition(out, Replacements[k].0);
    }
  }

  /** None of the rules from `k` on, for `k` at least 3, finds its
      pattern in "from now on". */
  lemma {:induction false} LaterRulesMissFromNowOn(k: nat)
    requires 3 <= k <= |Replacements|
    ensures NoRuleApplies(Replacements[k..], "from now on")
    decreases |Replacements| - k
  {
    if k < |Replacements| {
      LaterRulesMissFromNowOn(k + 1);
      FromNowOnMatchesNoLaterRule(k);
      NoRuleAppliesFrom(Replacements, k, "from now on");
    } else {
      assert Replacements[k..] == [];
    }
  }

  /** Rules run in table order, each over the whole text it is given:
      "hereinafter" becomes "from now on" before the later rule for "herein"
      is tried, and that rule then finds nothing. */
  lemma HereinafterBeforeHerein(language: string)
    ensures RuleBasedSimplification("hereinafter", language) == FallbackMarker + "from now on"
  {
    HereinafterFirstRules();
    LaterRulesMissFromNowOn(3);
  }
}
