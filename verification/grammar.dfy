/** The grammar of one condition clause: `[AND |OR ][if_present ]ColumnName Operator ArgName`. */
module Grammar {
  import opened Wrappers
  import opened Text
  import opened Expr

  /** The clause did not split into exactly three space-separated parts. */
  datatype GrammarError = Malformed

  /** Strips at most one leading `AND ` or `OR `; yields the link operator it sets and the rest. */
  function StripLink(s: string): (string, string) {
    if HasPrefix(s, "AND ") then ("AND", s[4..])
    else if HasPrefix(s, "OR ") then ("OR", s[3..])
    else ("", s)
  }

  /** Strips at most one leading `if_present `; yields the modality it sets and the rest. */
  function StripModality(s: string): (string, string) {
    if HasPrefix(s, "if_present ") then (IfPresent, s[11..])
    else (Must, s)
  }

  /** What is left of a clause once both optional prefixes are stripped. */
  function Remainder(s: string): string {
    StripModality(StripLink(s).1).1
  }

  /**
   * `ParseCondition`: strips the optional prefixes, then requires the
   * remainder to split on single spaces into exactly three parts.
   */
  function ParseCondition(s: string): (r: Result<Condition, GrammarError>)
    ensures r.Success? <==> Occurrences(Remainder(s), ' ') == 2
    ensures r.Success? ==> r.value.modality == Must || r.value.modality == IfPresent
    ensures r.Success? ==> (r.value.modality == IfPresent <==> HasPrefix(StripLink(s).1, "if_present "))
    ensures r.Success? ==> (r.value.linkOperator == "AND" <==> HasPrefix(s, "AND "))
    ensures r.Success? ==> (r.value.linkOperator == "OR" <==> HasPrefix(s, "OR "))
    ensures r.Success? ==> (r.value.linkOperator == "" <==> !HasPrefix(s, "AND ") && !HasPrefix(s, "OR "))
    ensures r.Success? ==> ClauseText(r.value) == Remainder(s)
    ensures r.Success? ==>
      ' ' !in r.value.columnName && ' ' !in r.value.operator && ' ' !in r.value.argName
  {
    var (link, rest) := StripLink(s);
    var (modality, clause) := StripModality(rest);
    var parts := Split(clause, ' ');
    if |parts| != 3 then Failure(Malformed)
    else
      assert HasPrefix(s, "AND ") ==> s[0] == 'A';
      assert HasPrefix(s, "OR ") ==> s[0] == 'O';
      assert parts == [parts[0], parts[1], parts[2]];
      JoinThree(parts[0], parts[1], parts[2], ' ');
      Success(Condition(modality, link, parts[0], parts[1], parts[2]))
  }

  /** The text a condition is written as in the configuration. */
  function Source(c: Condition): string {
    LinkPrefix(c.linkOperator) + ModalityPrefix(c.modality) + ClauseText(c)
  }

  function LinkPrefix(link: string): string {
    if link == "" then "" else link + " "
  }

  function ModalityPrefix(modality: string): string {
    if modality == IfPresent then "if_present " else ""
  }

  /**
   * The conditions the grammar can produce: a known link operator and
   * modality, three space-free parts, and a first part that cannot be
   * mistaken for a prefix the grammar would have stripped.
   */
  predicate Grammatical(c: Condition) {
    && (c.linkOperator == "" || c.linkOperator == "AND" || c.linkOperator == "OR")
    && (c.modality == Must || c.modality == IfPresent)
    && ' ' !in c.columnName && ' ' !in c.operator && ' ' !in c.argName
    && (c.modality == Must ==> c.columnName != "if_present")
    && (c.modality == Must && c.linkOperator == "" ==> c.columnName != "AND" && c.columnName != "OR")
  }

  /** A clause starts with `w + " "` exactly when its column name is `w`. */
  lemma PrefixOfClause(c: Condition, w: string)
    requires ' ' !in c.columnName && ' ' !in w
    ensures HasPrefix(ClauseText(c), w + " ") <==> c.columnName == w
  {
    var t := ClauseText(c);
    var p := w + " ";
    if c.columnName == w {
      assert t[..|p|] == p;
    } else if |w| < |c.columnName| {
      assert t[|w|] == c.columnName[|w|] != p[|w|];
    } else if |w| > |c.columnName| {
      assert t[|c.columnName|] == ' ' != p[|c.columnName|];
    } else {
      assert t[..|w|] == c.columnName != p[..|w|];
    }
  }

  lemma PrefixSplit(s: string, p: string)
    requires HasPrefix(s, p)
    ensures s == p + s[|p|..]
  {
  }

  lemma StripModalityOfSource(c: Condition)
    requires Grammatical(c)
    ensures StripModality(ModalityPrefix(c.modality) + ClauseText(c)) == (c.modality, ClauseText(c))
  {
    var body := ClauseText(c);
    var rest := ModalityPrefix(c.modality) + body;
    if c.modality == IfPresent {
      assert rest[..11] == "if_present ";
      assert rest[11..] == body;
    } else {
      assert rest == body;
      assert "if_present" + " " == "if_present ";
      PrefixOfClause(c, "if_present");
    }
  }

  /** A text written after a link operator strips back to that operator and the text. */
  lemma StripLinkOfLinked(link: string, rest: string)
    requires link == "AND" || link == "OR"
    ensures StripLink(LinkPrefix(link) + rest) == (link, rest)
  {
    var s := LinkPrefix(link) + rest;
    if link == "AND" {
      assert s[..4] == "AND ";
    } else {
      assert s[..3] == "OR ";
      assert s[0] == 'O';
    }
  }

  /** A text starting with a letter other than `A` and `O` has no link prefix to strip. */
  lemma StripLinkOfUnlinked(s: string)
    requires s != [] && s[0] != 'A' && s[0] != 'O'
    ensures StripLink(s) == ("", s)
  {
  }

  lemma StripLinkOfSource(c: Condition)
    requires Grammatical(c)
    ensures StripLink(Source(c)) == (c.linkOperator, ModalityPrefix(c.modality) + ClauseText(c))
  {
    var rest := ModalityPrefix(c.modality) + ClauseText(c);
    assert Source(c) == LinkPrefix(c.linkOperator) + rest;
    if c.linkOperator != "" {
      StripLinkOfLinked(c.linkOperator, rest);
    } else if c.modality == IfPresent {
      assert Source(c) == rest;
      assert rest == "if_present " + ClauseText(c);
      assert rest[0] == 'i';
      StripLinkOfUnlinked(rest);
    } else {
      assert Source(c) == ClauseText(c);
      assert "AND" + " " == "AND " && "OR" + " " == "OR ";
      PrefixOfClause(c, "AND");
      PrefixOfClause(c, "OR");
    }
  }

  /** A grammatical condition parses back from its source text. */
  lemma ParseSource(c: Condition)
    requires Grammatical(c)
    ensures ParseCondition(Source(c)) == Success(c)
  {
    StripLinkOfSource(c);
    StripModalityOfSource(c);
    SplitThree(c.columnName, c.operator, c.argName);
  }

  lemma StripLinkRecombines(s: string)
    ensures LinkPrefix(StripLink(s).0) + StripLink(s).1 == s
  {
    if HasPrefix(s, "AND ") {
      PrefixSplit(s, "AND ");
    } else if HasPrefix(s, "OR ") {
      PrefixSplit(s, "OR ");
    }
  }

  lemma StripModalityRecombines(s: string)
    ensures ModalityPrefix(StripModality(s).0) + StripModality(s).1 == s
  {
    if HasPrefix(s, "if_present ") {
      PrefixSplit(s, "if_present ");
    }
  }

  /** Every successful parse is of a grammatical condition. */
  lemma ParseIsGrammatical(s: string)
    requires ParseCondition(s).Success?
    ensures Grammatical(ParseCondition(s).value)
  {
    var c := ParseCondition(s).value;
    var rest := StripLink(s).1;
    if c.modality == Must {
      assert StripModality(rest) == (Must, rest);
      assert rest == ClauseText(c);
      assert !HasPrefix(ClauseText(c), "if_present ");
      assert "if_present" + " " == "if_present ";
      PrefixOfClause(c, "if_present");
      assert c.columnName != "if_present";
      if c.linkOperator == "" {
        assert StripLink(s) == ("", s);
        assert !HasPrefix(ClauseText(c), "AND ") && !HasPrefix(ClauseText(c), "OR ");
        assert "AND" + " " == "AND " && "OR" + " " == "OR ";
        PrefixOfClause(c, "AND");
        PrefixOfClause(c, "OR");
        assert c.columnName != "AND" && c.columnName != "OR";
      }
    }
  }

  /** A successful parse recovers the whole input from the condition's source form. */
  lemma SourceOfParse(s: string)
    requires ParseCondition(s).Success?
    ensures Source(ParseCondition(s).value) == s
  {
    var c := ParseCondition(s).value;
    var (link, rest) := StripLink(s);
    var (modality, clause) := StripModality(rest);
    assert c.linkOperator == link && c.modality == modality && ClauseText(c) == clause;
    assert ModalityPrefix(modality) + clause == rest by { StripModalityRecombines(rest); }
    assert LinkPrefix(link) + rest == s by { StripLinkRecombines(s); }
  }

  /**
   * The grammar in one statement: `s` parses to `c` exactly when `c` is
   * grammatical and `s` is its source text.
   */
  lemma ParseConditionExactly(s: string, c: Condition)
    ensures ParseCondition(s) == Success(c) <==> Grammatical(c) && Source(c) == s
  {
    if ParseCondition(s) == Success(c) {
      ParseIsGrammatical(s);
      SourceOfParse(s);
    }
    if Grammatical(c) && Source(c) == s {
      ParseSource(c);
    }
  }
}
