/** Prompt assembly (`runner/src/prompt/build.rs`), and why the assembled text fixes the fact set. */
module PromptText {
  import opened Arith
  import opened Bytes
  import opened Options
  import opened FactOrder
  import Canonical

  datatype CategoricalOption = CategoricalOption(index: u8, text: Option<bytes>)

  datatype CategoricalOptions = CategoricalOptions(count: u8, labels: Option<seq<CategoricalOption>>)

  datatype AssembledPrompt = AssembledPrompt(system: bytes, user: bytes)

  datatype CompletionRequest = CompletionRequest(
    system: bytes, user: bytes, options: CategoricalOptions, config: Canonical.ModelConfig)

  /** Decimal digits, as `{}` prints an unsigned integer. */
  function Decimal(n: nat): bytes {
    if n < 10 then [48 + n] else Decimal(n / 10) + [48 + n % 10]
  }

  function Join(parts: seq<bytes>, sep: bytes): bytes {
    if parts == [] then [] else if |parts| == 1 then parts[0] else parts[0] + (sep + Join(parts[1..], sep))
  }

  const BLANK_LINE: bytes := Ascii("\n\n")
  const NEWLINE: bytes := Ascii("\n")
  const SYSTEM_PREAMBLE: bytes := Ascii(
    "You are an impartial oracle resolver for a categorical prediction market. "
    + "Your task is to determine the single correct outcome by applying the resolution rules to the provided facts. "
    + "Decide based ONLY on the resolution rules and the facts given to you; do not use outside knowledge, "
    + "assumptions, or information not present below. You must choose exactly one option by its integer index.")
  const RULES_HEADER: bytes := Ascii("\n\n# Resolution rules\n\n")
  const FACTS_HEADER: bytes := Ascii("# Facts\n\n")
  const NO_FACTS: bytes := Ascii("(no facts provided)")
  const OPTIONS_TITLE: bytes := Ascii("# Options\n\n")
  const OPTIONS_HEADER: bytes :=
    OPTIONS_TITLE + Ascii("You must choose exactly one of the following options by its integer index:\n\n")
  const ANSWER_HEAD: bytes := Ascii(
    "# Answer\n\nRespond with the structured JSON output { \"option_index\": <index> }, "
    + "where <index> is the integer index (0 to ")
  const ANSWER_TAIL: bytes := Ascii(
    " inclusive) of the single correct option. Base your choice ONLY on the resolution rules and the facts above.")

  /** `label_for`: the label of the first listed option with index `i`. */
  function LabelFor(options: CategoricalOptions, i: nat): Option<bytes> {
    match options.labels
    case None => None
    case Some(ls) => FirstLabel(ls, i)
  }

  function FirstLabel(ls: seq<CategoricalOption>, i: nat): Option<bytes> {
    if ls == [] then None else if ls[0].index == i then ls[0].text else FirstLabel(ls[1..], i)
  }

  function FactHead(number: nat, h: Hash): bytes {
    Ascii("## Fact ") + Decimal(number) + Ascii(" (sha256: ") + Hex(h) + Ascii(")\n")
  }

  /** The entries of an ordered fact list, numbered from `first`. */
  function Entries(ordered: seq<Fact>, first: nat): seq<bytes> {
    if ordered == [] then []
    else [FactHead(first, ordered[0].contentHash) + ordered[0].content] + Entries(ordered[1..], first + 1)
  }

  function FactsBlock(ordered: seq<Fact>): bytes {
    if ordered == [] then FACTS_HEADER + NO_FACTS else FACTS_HEADER + Join(Entries(ordered, 1), BLANK_LINE)
  }

  function OptionLines(options: CategoricalOptions, i: nat): seq<bytes>
    decreases options.count - i
  {
    if i >= options.count then []
    else
      var shown := match LabelFor(options, i) case Some(l) => l case None => Ascii("(no label)");
      [Ascii("[") + Decimal(i) + Ascii("] ") + shown] + OptionLines(options, i + 1)
  }

  function OptionsBlock(options: CategoricalOptions): bytes {
    OPTIONS_HEADER + Join(OptionLines(options, 0), NEWLINE)
  }

  function AnswerBlock(options: CategoricalOptions): bytes {
    var maxIndex := if options.count == 0 then 0 else options.count - 1;
    ANSWER_HEAD + Decimal(maxIndex) + ANSWER_TAIL
  }

  /** `assemble`. */
  function Assemble(interpretation: bytes, facts: seq<Fact>, options: CategoricalOptions): AssembledPrompt {
    AssembledPrompt(
      SYSTEM_PREAMBLE + RULES_HEADER + interpretation,
      Join([FactsBlock(SortByHash(facts)), OptionsBlock(options), AnswerBlock(options)], BLANK_LINE))
  }

  /** `build_request`. */
  function BuildRequest(
    interpretation: bytes, facts: seq<Fact>, options: CategoricalOptions, config: Canonical.ModelConfig
  ): CompletionRequest {
    var p := Assemble(interpretation, facts, options);
    CompletionRequest(p.system, p.user, options, config)
  }

  // ---- any order of the facts gives the same bytes ----

  /** Under one hash-to-content map, a permutation of the facts changes no byte of the prompt. */
  lemma AssembleIgnoresFactOrder(
    interpretation: bytes, facts: seq<Fact>, shuffled: seq<Fact>, options: CategoricalOptions)
    requires Agree(facts) && multiset(facts) == multiset(shuffled)
    ensures Assemble(interpretation, facts, options) == Assemble(interpretation, shuffled, options)
  {
    SortIsStable(facts);
    SortIsStable(shuffled);
    var s := SortByHash(facts);
    assert Agree(s) by {
      forall f | f in s ensures f in facts {
        assert f in multiset(s);
      }
    }
    SortedUnique(s, SortByHash(shuffled));
  }

  // ---- the text fixes the facts ----

  /** What follows the entry of a fact: the next entry, or the options block and whatever comes after it. */
  function AfterEntry(rest: seq<Fact>, number: nat, after: bytes): bytes
    decreases |rest|, 1
  {
    BLANK_LINE + if rest == [] then OPTIONS_HEADER + after else EntriesThen(rest, number, after)
  }

  /** The entries of a non-empty list, followed by the options block. */
  function EntriesThen(ordered: seq<Fact>, number: nat, after: bytes): bytes
    requires ordered != []
    decreases |ordered|, 0
  {
    FactHead(number, ordered[0].contentHash) + (ordered[0].content + AfterEntry(ordered[1..], number + 1, after))
  }

  lemma {:induction false} EntriesThenIsJoin(ordered: seq<Fact>, number: nat, after: bytes)
    requires ordered != []
    ensures Join(Entries(ordered, number), BLANK_LINE) + (BLANK_LINE + (OPTIONS_HEADER + after))
         == EntriesThen(ordered, number, after)
  {
    var head, content := FactHead(number, ordered[0].contentHash), ordered[0].content;
    var es, end := Entries(ordered, number), BLANK_LINE + (OPTIONS_HEADER + after);
    if |ordered| == 1 {
      assert ordered[1..] == [];
      assert Entries(ordered[1..], number + 1) == [];
      assert es == [head + content];
      Assoc(head, content, end);
    } else {
      EntriesThenIsJoin(ordered[1..], number + 1, after);
      assert es[1..] == Entries(ordered[1..], number + 1) != [];
      var tail := Join(es[1..], BLANK_LINE);
      Assoc(head + content, BLANK_LINE + tail, end);
      Assoc(BLANK_LINE, tail, end);
      Assoc(head, content, BLANK_LINE + (tail + end));
    }
  }

  /** The header of an entry starts differently from the options block. */
  lemma HeadersDiffer(h: Hash, number: nat, x: bytes, y: bytes)
    ensures OPTIONS_HEADER + x != FactHead(number, h) + y
  {
    var head := FactHead(number, h);
    assert head[1] == 35 by {
      assert Ascii("## Fact ")[1] == 35;
      assert head[1] == (Ascii("## Fact ") + Decimal(number))[1];
    }
    assert OPTIONS_HEADER[1] == OPTIONS_TITLE[1] == 32;
    assert (OPTIONS_HEADER + x)[1] == OPTIONS_HEADER[1];
    assert (head + y)[1] == head[1];
  }

  /** Entry headers with the same number give their hashes away. */
  lemma HeadsEqual(number: nat, g: Hash, h: Hash, x: bytes, y: bytes)
    requires FactHead(number, g) + x == FactHead(number, h) + y
    ensures g == h && x == y
  {
    var p, q := Ascii("## Fact ") + Decimal(number) + Ascii(" (sha256: "), Ascii(")\n");
    SplitEqual(FactHead(number, g), FactHead(number, h), x, y);
    SplitEqual(p + Hex(g), p + Hex(h), q, q);
    SplitEqual(p, p, Hex(g), Hex(h));
    HexInjective(g, h);
  }

  /**
    Reading two entry lists side by side: equal texts come from equal lists. A content is not parsed: its hash, read
    before it, says which content it is, so a content that looks like a header cannot confuse two fact sets.
   */
  lemma {:induction false} EntriesThenInjective(fs: seq<Fact>, gs: seq<Fact>, number: nat, x: bytes, y: bytes)
    requires fs != [] && gs != [] && Agree(fs + gs)
    requires EntriesThen(fs, number, x) == EntriesThen(gs, number, y)
    ensures fs == gs && x == y
  {
    var f, g, ft, gt := fs[0], gs[0], fs[1..], gs[1..];
    var fRest, gRest := AfterEntry(ft, number + 1, x), AfterEntry(gt, number + 1, y);
    HeadsEqual(number, f.contentHash, g.contentHash, f.content + fRest, g.content + gRest);
    assert f in fs + gs && g in fs + gs;
    SplitEqual(f.content, g.content, fRest, gRest);
    var fEnd := if ft == [] then OPTIONS_HEADER + x else EntriesThen(ft, number + 1, x);
    var gEnd := if gt == [] then OPTIONS_HEADER + y else EntriesThen(gt, number + 1, y);
    SplitEqual(BLANK_LINE, BLANK_LINE, fEnd, gEnd);
    assert fs == [f] + ft && gs == [g] + gt;
    if ft == [] && gt == [] {
      SplitEqual(OPTIONS_HEADER, OPTIONS_HEADER, x, y);
    } else if ft == [] {
      HeadersDiffer(gt[0].contentHash, number + 1, x, gt[0].content + AfterEntry(gt[1..], number + 2, y));
    } else if gt == [] {
      HeadersDiffer(ft[0].contentHash, number + 1, y, ft[0].content + AfterEntry(ft[1..], number + 2, x));
    } else {
      assert Agree(ft + gt) by {
        forall e | e in ft + gt ensures e in fs + gs {
        }
      }
      EntriesThenInjective(ft, gt, number + 1, x, y);
    }
  }

  /** The user text from its facts block on, with the options block split after its header. */
  function UserText(ordered: seq<Fact>, after: bytes): bytes {
    FACTS_HEADER
    + if ordered == [] then NO_FACTS + (BLANK_LINE + (OPTIONS_HEADER + after)) else EntriesThen(ordered, 1, after)
  }

  /** What follows the header of the options block. */
  function AfterOptionsHeader(options: CategoricalOptions): bytes {
    Join(OptionLines(options, 0), NEWLINE) + (BLANK_LINE + AnswerBlock(options))
  }

  lemma UserTextIsAssembled(interpretation: bytes, facts: seq<Fact>, options: CategoricalOptions)
    ensures Assemble(interpretation, facts, options).user == UserText(SortByHash(facts), AfterOptionsHeader(options))
  {
    var ordered := SortByHash(facts);
    var f, o, a := FactsBlock(ordered), OptionsBlock(options), AnswerBlock(options);
    assert [f, o, a][1..] == [o, a] && [o, a][1..] == [a];
    assert Join([a], BLANK_LINE) == a;
    assert Join([o, a], BLANK_LINE) == o + (BLANK_LINE + a);
    assert Join([f, o, a], BLANK_LINE) == f + (BLANK_LINE + (o + (BLANK_LINE + a)));
    Assoc(OPTIONS_HEADER, Join(OptionLines(options, 0), NEWLINE), BLANK_LINE + a);
    var end := BLANK_LINE + (OPTIONS_HEADER + AfterOptionsHeader(options));
    if ordered == [] {
      Assoc(FACTS_HEADER, NO_FACTS, end);
    } else {
      Assoc(FACTS_HEADER, Join(Entries(ordered, 1), BLANK_LINE), end);
      EntriesThenIsJoin(ordered, 1, AfterOptionsHeader(options));
    }
  }

  /** The placeholder for an empty fact list is no entry. */
  lemma NoFactsIsNoEntry(fs: seq<Fact>, x: bytes, y: bytes)
    requires fs != []
    ensures NO_FACTS + x != EntriesThen(fs, 1, y)
  {
    var head := FactHead(1, fs[0].contentHash);
    assert head[0] == 35 by {
      assert Ascii("## Fact ")[0] == 35;
      assert head[0] == (Ascii("## Fact ") + Decimal(1))[0];
    }
    assert EntriesThen(fs, 1, y)[0] == head[0];
    assert NO_FACTS[0] == 40;
    assert (NO_FACTS + x)[0] == NO_FACTS[0];
  }

  /**
    The user text determines the fact set. For two fact lists that agree with one hash-to-content map, whatever their
    rules and options, equal user texts come from equal multisets of facts, and carry the same options text.
   */
  lemma UserTextFixesFacts(
    rules1: bytes, facts1: seq<Fact>, options1: CategoricalOptions,
    rules2: bytes, facts2: seq<Fact>, options2: CategoricalOptions)
    requires Agree(facts1 + facts2)
    requires Assemble(rules1, facts1, options1).user == Assemble(rules2, facts2, options2).user
    ensures multiset(facts1) == multiset(facts2)
    ensures AfterOptionsHeader(options1) == AfterOptionsHeader(options2)
  {
    var s1, s2 := SortByHash(facts1), SortByHash(facts2);
    var x, y := AfterOptionsHeader(options1), AfterOptionsHeader(options2);
    UserTextIsAssembled(rules1, facts1, options1);
    UserTextIsAssembled(rules2, facts2, options2);
    SortIsStable(facts1);
    SortIsStable(facts2);
    var end1, end2 := BLANK_LINE + (OPTIONS_HEADER + x), BLANK_LINE + (OPTIONS_HEADER + y);
    var t1 := if s1 == [] then NO_FACTS + end1 else EntriesThen(s1, 1, x);
    var t2 := if s2 == [] then NO_FACTS + end2 else EntriesThen(s2, 1, y);
    SplitEqual(FACTS_HEADER, FACTS_HEADER, t1, t2);
    if s1 == [] && s2 == [] {
      SplitEqual(NO_FACTS, NO_FACTS, end1, end2);
      SplitEqual(BLANK_LINE, BLANK_LINE, OPTIONS_HEADER + x, OPTIONS_HEADER + y);
      SplitEqual(OPTIONS_HEADER, OPTIONS_HEADER, x, y);
    } else if s1 == [] {
      NoFactsIsNoEntry(s2, end1, y);
    } else if s2 == [] {
      NoFactsIsNoEntry(s1, end2, x);
    } else {
      SortedAgree(facts1, facts2);
      EntriesThenInjective(s1, s2, 1, x, y);
    }
  }

  lemma SortedAgree(facts1: seq<Fact>, facts2: seq<Fact>)
    requires Agree(facts1 + facts2)
    ensures Agree(SortByHash(facts1) + SortByHash(facts2))
  {
    SortIsStable(facts1);
    SortIsStable(facts2);
    forall f | f in SortByHash(facts1) + SortByHash(facts2) ensures f in facts1 + facts2 {
      assert f in multiset(SortByHash(facts1)) || f in multiset(SortByHash(facts2));
      assert f in multiset(facts1) || f in multiset(facts2);
    }
  }

  /** With the same rules and options, agreeing fact lists give the same prompt exactly when they are permutations. */
  lemma SamePromptIffSameFacts(rules: bytes, facts1: seq<Fact>, facts2: seq<Fact>, options: CategoricalOptions)
    requires Agree(facts1 + facts2)
    ensures Assemble(rules, facts1, options) == Assemble(rules, facts2, options)
            <==> multiset(facts1) == multiset(facts2)
  {
    if Assemble(rules, facts1, options) == Assemble(rules, facts2, options) {
      UserTextFixesFacts(rules, facts1, options, rules, facts2, options);
    }
    if multiset(facts1) == multiset(facts2) {
      assert Agree(facts1) by {
        forall f | f in facts1 ensures f in facts1 + facts2 {
        }
      }
      AssembleIgnoresFactOrder(rules, facts1, facts2, options);
    }
  }

  /** Two agreeing requests are the same exactly when all their inputs are, the facts in any order. */
  lemma SameRequestIffSameInputs(
    rules1: bytes, facts1: seq<Fact>, options1: CategoricalOptions, config1: Canonical.ModelConfig,
    rules2: bytes, facts2: seq<Fact>, options2: CategoricalOptions, config2: Canonical.ModelConfig)
    requires Agree(facts1 + facts2)
    ensures
      BuildRequest(rules1, facts1, options1, config1) == BuildRequest(rules2, facts2, options2, config2)
      <==> rules1 == rules2 && multiset(facts1) == multiset(facts2) && options1 == options2 && config1 == config2
  {
    if BuildRequest(rules1, facts1, options1, config1) == BuildRequest(rules2, facts2, options2, config2) {
      SplitEqual(SYSTEM_PREAMBLE + RULES_HEADER, SYSTEM_PREAMBLE + RULES_HEADER, rules1, rules2);
      UserTextFixesFacts(rules1, facts1, options1, rules2, facts2, options2);
    }
    if rules1 == rules2 && options1 == options2 {
      SamePromptIffSameFacts(rules1, facts1, facts2, options1);
    }
  }

  // ---- why the hash-to-content map is needed ----

  lemma SingleText(f: Fact, after: bytes)
    ensures SortByHash([f]) == [f]
    ensures EntriesThen([f], 1, after)
            == FactHead(1, f.contentHash) + (f.content + (BLANK_LINE + (OPTIONS_HEADER + after)))
  {
    assert [f][1..] == [];
    assert SortByHash([]) == [];
  }

  lemma PairText(f: Fact, g: Fact, after: bytes)
    requires LexLeq(f.contentHash, g.contentHash)
    ensures SortByHash([f, g]) == [f, g]
    ensures EntriesThen([f, g], 1, after)
         == FactHead(1, f.contentHash) + (f.content + (BLANK_LINE + (FactHead(2, g.contentHash)
            + (g.content + (BLANK_LINE + (OPTIONS_HEADER + after))))))
  {
    assert [f, g][1..] == [g] && [g][1..] == [];
    assert SortByHash([g]) == [g] by { assert SortByHash([]) == []; }
    assert EntriesThen([g], 2, after) == FactHead(2, g.contentHash) + (g.content + AfterEntry([], 3, after));
    assert AfterEntry([g], 2, after) == BLANK_LINE + EntriesThen([g], 2, after);
  }

  /**
    Without the map the text does not determine the facts: one fact whose content spells out a second entry renders
    like two facts. Verified contents rule it out, because the two lists give one hash two contents.
   */
  lemma ForgedEntryRendersLikeTwoFacts(rules: bytes, f: Fact, g: Fact, options: CategoricalOptions)
    requires LexLeq(f.contentHash, g.contentHash)
    ensures
      var forged := Fact(f.contentHash, f.content + (BLANK_LINE + (FactHead(2, g.contentHash) + g.content)));
      && multiset([forged]) != multiset([f, g])
      && Assemble(rules, [forged], options) == Assemble(rules, [f, g], options)
  {
    var second := FactHead(2, g.contentHash) + g.content;
    var forged := Fact(f.contentHash, f.content + (BLANK_LINE + second));
    var after := AfterOptionsHeader(options);
    var end := BLANK_LINE + (OPTIONS_HEADER + after);
    assert |multiset([forged])| == 1 && |multiset([f, g])| == 2;
    UserTextIsAssembled(rules, [forged], options);
    UserTextIsAssembled(rules, [f, g], options);
    SingleText(forged, after);
    assert forged.content + end == f.content + (BLANK_LINE + (FactHead(2, g.contentHash) + (g.content + end))) by {
      Assoc(f.content, BLANK_LINE + second, end);
      Assoc(BLANK_LINE, second, end);
      Assoc(FactHead(2, g.contentHash), g.content, end);
    }
    PairText(f, g, after);
    assert EntriesThen([forged], 1, after) == EntriesThen([f, g], 1, after);
  }

  /** Without the map the order can show: two facts with one hash keep their list order, because the sort is stable. */
  lemma EqualHashesShowListOrder(rules: bytes, h: Hash, a: bytes, b: bytes, options: CategoricalOptions)
    requires a != [] && b != [] && a[0] != b[0]
    ensures Assemble(rules, [Fact(h, a), Fact(h, b)], options) != Assemble(rules, [Fact(h, b), Fact(h, a)], options)
  {
    var f, g, after := Fact(h, a), Fact(h, b), AfterOptionsHeader(options);
    LexTotal(h, h);
    UserTextIsAssembled(rules, [f, g], options);
    UserTextIsAssembled(rules, [g, f], options);
    PairText(f, g, after);
    PairText(g, f, after);
    if Assemble(rules, [f, g], options) == Assemble(rules, [g, f], options) {
      var x := a + AfterEntry([g], 2, after);
      var y := b + AfterEntry([f], 2, after);
      assert [f, g][1..] == [g] && [g, f][1..] == [f];
      assert x[0] == a[0] && y[0] == b[0];
      SplitEqual(FACTS_HEADER, FACTS_HEADER, EntriesThen([f, g], 1, after), EntriesThen([g, f], 1, after));
      HeadsEqual(1, h, h, x, y);
    }
  }

  /** The io preimage of an assembled prompt fixes the rules, the fact set and the response. */
  lemma IoPreimageFixesFacts(
    rules1: bytes, facts1: seq<Fact>, options1: CategoricalOptions, response1: bytes,
    rules2: bytes, facts2: seq<Fact>, options2: CategoricalOptions, response2: bytes)
    requires Agree(facts1 + facts2)
    requires
      var p1, p2 := Assemble(rules1, facts1, options1), Assemble(rules2, facts2, options2);
      && Canonical.Short(p1.system) && Canonical.Short(p1.user)
      && Canonical.Short(p2.system) && Canonical.Short(p2.user)
      && Canonical.IoPreimage(p1.system, p1.user, response1) == Canonical.IoPreimage(p2.system, p2.user, response2)
    ensures rules1 == rules2 && multiset(facts1) == multiset(facts2) && response1 == response2
  {
    var p1, p2 := Assemble(rules1, facts1, options1), Assemble(rules2, facts2, options2);
    Canonical.IoPreimageInjective(p1.system, p1.user, response1, p2.system, p2.user, response2);
    SplitEqual(SYSTEM_PREAMBLE + RULES_HEADER, SYSTEM_PREAMBLE + RULES_HEADER, rules1, rules2);
    UserTextFixesFacts(rules1, facts1, options1, rules2, facts2, options2);
  }
}
