/** What the assembled prompt says, part by part (`runner/src/prompt/build.rs`, lines 46-152). */
module PromptLayout {
  import opened Arith
  import opened Bytes
  import opened Options
  import opened FactOrder
  import opened PromptText

  // ---- numbers and joined lists ----

  /** The number that decimal digits stand for. */
  function Value(digits: bytes): int {
    if digits == [] then 0
    else 10 * Value(digits[..|digits| - 1]) + (digits[|digits| - 1] as int - 48)
  }

  /** A number is printed in decimal digits, without leading zeros, and stands for itself. */
  lemma {:induction false} DecimalIs(n: nat)
    ensures Decimal(n) != [] && Value(Decimal(n)) == n
    ensures forall i :: 0 <= i < |Decimal(n)| ==> 48 <= Decimal(n)[i] <= 57
    ensures |Decimal(n)| > 1 ==> Decimal(n)[0] != 48
    ensures n > 0 ==> Decimal(n)[0] != 48
  {
    if n >= 10 {
      DecimalIs(n / 10);
      var d := Decimal(n);
      assert d[..|d| - 1] == Decimal(n / 10);
    } else {
      assert Decimal(n)[..0] == [];
    }
  }

  /** A list is joined by putting the separator between its parts. */
  lemma {:induction false} JoinIs(parts: seq<bytes>, last: bytes, sep: bytes)
    ensures Join([], sep) == [] && Join([last], sep) == last
    ensures parts != [] ==> Join(parts + [last], sep) == Join(parts, sep) + sep + last
  {
    if |parts| == 1 {
      assert (parts + [last])[1..] == [last];
      Assoc(parts[0], sep, last);
    } else if |parts| > 1 {
      var tail := Join(parts[1..], sep);
      JoinIs(parts[1..], last, sep);
      assert (parts + [last])[1..] == parts[1..] + [last];
      assert parts[0] + (sep + (tail + sep + last)) == parts[0] + (sep + tail) + sep + last by {
        RegroupFive(parts[0], sep, tail, last);
      }
    }
  }

  lemma RegroupFive(a: bytes, sep: bytes, b: bytes, c: bytes)
    ensures a + (sep + (b + sep + c)) == a + (sep + b) + sep + c
  {
  }

  // ---- labels ----

  /** The first listed option with index `i` is at position `j`. */
  ghost predicate FirstListedAt(ls: seq<CategoricalOption>, i: nat, j: nat) {
    j < |ls| && ls[j].index == i && forall k :: 0 <= k < j ==> ls[k].index != i
  }

  lemma {:induction false} FirstLabelIs(ls: seq<CategoricalOption>, i: nat)
    ensures forall j: nat :: FirstListedAt(ls, i, j) ==> FirstLabel(ls, i) == ls[j].text
    ensures (forall j :: 0 <= j < |ls| ==> ls[j].index != i) ==> FirstLabel(ls, i) == None
  {
    if ls != [] {
      FirstLabelIs(ls[1..], i);
      forall j: nat | FirstListedAt(ls, i, j) ensures FirstLabel(ls, i) == ls[j].text {
        if j > 0 {
          assert ls[0].index != i;
          assert FirstListedAt(ls[1..], i, j - 1);
        }
      }
    }
  }

  /** What stands for option `i`: the text of the first listed option with that index, if there is one with a text. */
  ghost predicate Shows(options: CategoricalOptions, i: nat, shown: bytes) {
    match options.labels
    case None => shown == Ascii("(no label)")
    case Some(ls) =>
      && (forall j: nat :: FirstListedAt(ls, i, j) ==>
            shown == match ls[j].text case Some(text) => text case None => Ascii("(no label)"))
      && ((forall j :: 0 <= j < |ls| ==> ls[j].index != i) ==> shown == Ascii("(no label)"))
  }

  lemma LabelIsShown(options: CategoricalOptions, i: nat)
    ensures Shows(options, i, match LabelFor(options, i) case Some(l) => l case None => Ascii("(no label)"))
  {
    if options.labels.Some? {
      FirstLabelIs(options.labels.value, i);
    }
  }

  /** There is one line for each option from `i` on, with its own index in front. */
  lemma {:induction false} OptionLinesAre(options: CategoricalOptions, i: nat)
    requires i <= options.count
    ensures |OptionLines(options, i)| == options.count - i
    ensures forall n :: 0 <= n < options.count - i ==>
      IsOptionLine(options, i + n, OptionLines(options, i)[n])
    decreases options.count - i
  {
    if i < options.count {
      OptionLinesAre(options, i + 1);
      LabelIsShown(options, i);
      var lines := OptionLines(options, i);
      var shown := match LabelFor(options, i) case Some(l) => l case None => Ascii("(no label)");
      assert lines[0] == Ascii("[") + Decimal(i) + Ascii("] ") + shown;
      forall n | 0 <= n < options.count - i ensures IsOptionLine(options, i + n, lines[n]) {
        if n > 0 {
          assert lines[n] == OptionLines(options, i + 1)[n - 1];
          assert i + n == (i + 1) + (n - 1);
        }
      }
    }
  }

  ghost predicate IsOptionLine(options: CategoricalOptions, i: nat, line: bytes) {
    exists shown :: line == Ascii("[") + Decimal(i) + Ascii("] ") + shown && Shows(options, i, shown)
  }

  // ---- facts ----

  /** A fact under its number, with its hash in hex and its content. */
  function EntryText(number: nat, f: Fact): bytes {
    Ascii("## Fact ") + Decimal(number) + Ascii(" (sha256: ") + Hex(f.contentHash) + Ascii(")\n") + f.content
  }

  lemma EntriesGrow(ordered: seq<Fact>, first: nat)
    requires ordered != []
    ensures Entries(ordered, first) == [EntryText(first, ordered[0])] + Entries(ordered[1..], first + 1)
  {
  }

  lemma {:induction false} EntriesAre(ordered: seq<Fact>, first: nat)
    ensures |Entries(ordered, first)| == |ordered|
    ensures forall n :: 0 <= n < |ordered| ==> Entries(ordered, first)[n] == EntryText(first + n, ordered[n])
  {
    if ordered != [] {
      var tail := Entries(ordered[1..], first + 1);
      EntriesGrow(ordered, first);
      EntriesAre(ordered[1..], first + 1);
      forall n | 0 <= n < |ordered| ensures Entries(ordered, first)[n] == EntryText(first + n, ordered[n]) {
        if n > 0 {
          EntryShifts(ordered, first, tail, n);
        }
      }
    }
  }

  lemma EntryShifts(ordered: seq<Fact>, first: nat, tail: seq<bytes>, n: nat)
    requires 0 < n < |ordered| && |tail| == |ordered| - 1
    requires tail[n - 1] == EntryText(first + 1 + (n - 1), ordered[1..][n - 1])
    ensures tail[n - 1] == EntryText(first + n, ordered[n])
  {
    assert ordered[1..][n - 1] == ordered[n];
  }

  /** The facts in ascending order of hash, each once, with their entries. */
  ghost predicate FactsAreListed(facts: seq<Fact>, ordered: seq<Fact>, entries: seq<bytes>) {
    && multiset(ordered) == multiset(facts) && |entries| == |ordered| == |facts|
    && (forall i, j :: 0 <= i < j < |ordered| ==> HashAscends(ordered[i].contentHash, ordered[j].contentHash))
    && forall n :: 0 <= n < |ordered| ==> entries[n] == EntryText(1 + n, ordered[n])
  }

  /** The same hash, or a smaller byte where they first differ. */
  ghost predicate HashAscends(g: Hash, h: Hash) {
    g == h || exists d :: 0 <= d < 32 && g[..d] == h[..d] && g[d] < h[d]
  }

  lemma SortedFactsAreListed(facts: seq<Fact>)
    ensures FactsAreListed(facts, SortByHash(facts), Entries(SortByHash(facts), 1))
  {
    var ordered := SortByHash(facts);
    SortIsStable(facts);
    assert |multiset(ordered)| == |ordered| && |multiset(facts)| == |facts|;
    forall i, j | 0 <= i < j < |ordered| ensures HashAscends(ordered[i].contentHash, ordered[j].contentHash) {
      HashesAscend(facts, i, j);
    }
    EntriesAre(ordered, 1);
  }

  /** Exactly one line for each option, under its index. */
  ghost predicate OptionsAreListed(options: CategoricalOptions, lines: seq<bytes>) {
    |lines| == options.count && forall n :: 0 <= n < |lines| ==> IsOptionLine(options, n, lines[n])
  }

  lemma LinesAreListed(options: CategoricalOptions)
    ensures OptionsAreListed(options, OptionLines(options, 0))
  {
    OptionLinesAre(options, 0);
    forall n | 0 <= n < options.count ensures IsOptionLine(options, n, OptionLines(options, 0)[n]) {
      assert IsOptionLine(options, 0 + n, OptionLines(options, 0)[n]);
    }
  }

  function FactsPart(entries: seq<bytes>): bytes {
    Ascii("# Facts\n\n") + if entries == [] then Ascii("(no facts provided)") else Join(entries, Ascii("\n\n"))
  }

  function OptionsPart(lines: seq<bytes>): bytes {
    Ascii("# Options\n\n")
    + Ascii("You must choose exactly one of the following options by its integer index:\n\n")
    + Join(lines, Ascii("\n"))
  }

  /** The range of indices to answer with. */
  function AnswerPart(count: nat): bytes {
    Ascii(
      "# Answer\n\nRespond with the structured JSON output { \"option_index\": <index> }, "
      + "where <index> is the integer index (0 to ")
    + Decimal(if count == 0 then 0 else count - 1)
    + Ascii(
      " inclusive) of the single correct option. Base your choice ONLY on the resolution rules and the facts above.")
  }

  /** The preamble and the resolution rules. */
  function SystemPart(rules: bytes): bytes {
    Ascii(
      "You are an impartial oracle resolver for a categorical prediction market. "
      + "Your task is to determine the single correct outcome by applying the resolution rules to the provided facts. "
      + "Decide based ONLY on the resolution rules and the facts given to you; do not use outside knowledge, "
      + "assumptions, or information not present below. You must choose exactly one option by its integer index.")
    + Ascii("\n\n# Resolution rules\n\n") + rules
  }

  /** The three parts, a blank line between them. */
  function Layout(facts: bytes, options: bytes, answer: bytes): bytes {
    facts + (Ascii("\n\n") + (options + (Ascii("\n\n") + answer)))
  }

  lemma JoinThree(f: bytes, o: bytes, a: bytes, sep: bytes)
    ensures Join([f, o, a], sep) == f + (sep + (o + (sep + a)))
  {
    assert [f, o, a][1..] == [o, a] && [o, a][1..] == [a];
    assert Join([a], sep) == a;
    assert Join([o, a], sep) == o + (sep + a);
  }

  /**
    The assembled text in full: the facts in ascending order of hash under their numbers, exactly one line for each
    option under its index, and the range of indices to answer with.
   */
  lemma AssembledLayout(rules: bytes, facts: seq<Fact>, options: CategoricalOptions)
    returns (ordered: seq<Fact>, entries: seq<bytes>, lines: seq<bytes>)
    ensures FactsAreListed(facts, ordered, entries)
    ensures OptionsAreListed(options, lines)
    ensures Assemble(rules, facts, options).user
            == Layout(FactsPart(entries), OptionsPart(lines), AnswerPart(options.count))
    ensures Assemble(rules, facts, options).system == SystemPart(rules)
  {
    ordered := SortByHash(facts);
    entries := Entries(ordered, 1);
    lines := OptionLines(options, 0);
    SortedFactsAreListed(facts);
    LinesAreListed(options);
    TextIsLaidOut(rules, facts, options, ordered, entries, lines);
  }

  lemma TextIsLaidOut(
    rules: bytes, facts: seq<Fact>, options: CategoricalOptions, ordered: seq<Fact>, entries: seq<bytes>,
    lines: seq<bytes>)
    requires ordered == SortByHash(facts) && entries == Entries(ordered, 1) && lines == OptionLines(options, 0)
    requires |entries| == |ordered| && |lines| == options.count
    ensures Assemble(rules, facts, options).user
            == Layout(FactsPart(entries), OptionsPart(lines), AnswerPart(options.count))
  {
    FactsBlockIs(ordered, entries);
    assert OptionsBlock(options) == OptionsPart(lines) && AnswerBlock(options) == AnswerPart(options.count);
    JoinThree(FactsPart(entries), OptionsPart(lines), AnswerPart(options.count), BLANK_LINE);
  }

  lemma FactsBlockIs(ordered: seq<Fact>, entries: seq<bytes>)
    requires entries == Entries(ordered, 1) && |entries| == |ordered|
    ensures FactsBlock(ordered) == FactsPart(entries)
  {
  }
}
