/**
 * Whole-pipeline examples: token lists parsed and rendered against a given
 * set of supplied arguments.
 */
module Scenarios {
  import opened Wrappers
  import opened Text
  import opened Expr
  import opened Grammar
  import opened Tokens
  import opened Render

  /** The last element: rendering it alone. */
  lemma RenderLast(e: Elt, h: ParseHint, args: FilterArgs)
    ensures RenderFrom([e], h, args) == EltToSQL(e, h, args)
  {
    RenderUnfold([e], h, args);
    var first := EltToSQL(e, h, args);
    if first.Success? {
      assert first.value + "" == first.value;
    }
  }

  /** Rendering one element in front of others, from a given state. */
  lemma RenderCons(e: Elt, rest: CondExpr, h: ParseHint, args: FilterArgs)
    ensures RenderFrom([e] + rest, h, args) == Then(EltToSQL(e, h, args), RenderFrom(rest, Next(e, h, args), args))
  {
    RenderUnfold([e] + rest, h, args);
    assert ([e] + rest)[1..] == rest;
  }

  /** A condition that renders sets the state for what follows it. */
  lemma EmittingCondition(c: Condition, rest: CondExpr, h: ParseHint, args: FilterArgs)
    requires Emits(Cond(c), args)
    ensures RenderFrom([Cond(c)] + rest, h, args)
      == Then(ConditionToSQL(c, h, args), RenderFrom(rest, ParseHint(true), args))
  {
    RenderCons(Cond(c), rest, h, args);
  }

  /** A parenthesis token parses to the separator it spells. */
  lemma ParenthesisToken(v: string)
    requires v == "(" || v == ")"
    ensures ParseTokens([Str(v)]) == Success([Sep(v)])
  {
    SingleStringToken(v);
  }

  /** Three flat tokens parse one after another. */
  lemma ThreeTokens(a: Token, b: Token, c: Token)
    ensures ParseTokens([a, b, c]) == Splice(ParseTokens([a]), Splice(ParseTokens([b]), ParseTokens([c])))
  {
    ParseDistributes([b], [c]);
    assert [b] + [c] == [b, c];
    ParseDistributes([a], [b, c]);
    assert [a] + [b, c] == [a, b, c];
  }

  /** A condition token between parenthesis tokens parses to the condition between separators. */
  lemma ParenthesisedParse(c: Condition)
    requires Grammatical(c) && !IsOperatorWord(Source(c))
    ensures ParseTokens([Str("("), Str(Source(c)), Str(")")]) == Success([Sep("("), Cond(c), Sep(")")])
  {
    assert [Sep("(")] + ([Cond(c)] + [Sep(")")]) == [Sep("("), Cond(c), Sep(")")];
    var open := ParseTokens([Str("(")]);
    var middle := ParseTokens([Str(Source(c))]);
    var close := ParseTokens([Str(")")]);
    assert open == Success([Sep("(")]) by { ParenthesisToken("("); }
    assert close == Success([Sep(")")]) by { ParenthesisToken(")"); }
    assert middle == Success([Cond(c)]) by { ConditionTokenRoundTrip(c); }
    assert ParseTokens([Str("("), Str(Source(c)), Str(")")]) == Splice(open, Splice(middle, close)) by {
      ThreeTokens(Str("("), Str(Source(c)), Str(")"));
    }
  }

  /** A rendering condition between parentheses, first in its expression, renders as its clause between them. */
  lemma ParenthesisedRender(c: Condition, args: FilterArgs)
    requires Emits(Cond(c), args)
    ensures ToSQL([Sep("("), Cond(c), Sep(")")], args) == Success("(" + ClauseText(c) + ")")
  {
    var r2 := RenderFrom([Sep(")")], ParseHint(true), args);
    assert r2 == Success(")") by { RenderLast(Sep(")"), ParseHint(true), args); }
    var r1 := RenderFrom([Cond(c), Sep(")")], ParseHint(false), args);
    assert r1 == Success(ClauseText(c) + ")") by {
      EmittingCondition(c, [Sep(")")], ParseHint(false), args);
    }
    SeparatorKeepsState("(", [Cond(c), Sep(")")], ParseHint(false), args);
    assert [Sep("(")] + [Cond(c), Sep(")")] == [Sep("("), Cond(c), Sep(")")];
    assert "(" + (ClauseText(c) + ")") == "(" + ClauseText(c) + ")";
  }

  /**
   * A condition that is not `if_present` is never gated: in parentheses it
   * renders as its clause whatever keys are supplied.
   */
  lemma MustRendersAlways(c: Condition, keys: set<string>)
    requires c.modality != IfPresent && |c.argName| >= 2
    ensures ToSQL([Sep("("), Cond(c), Sep(")")], Args(keys)) == Success("(" + ClauseText(c) + ")")
  {
    assert Emits(Cond(c), Args(keys));
    ParenthesisedRender(c, Args(keys));
  }

  /** Five flat tokens parse one after another. */
  lemma FiveTokens(t0: Token, t1: Token, t2: Token, t3: Token, t4: Token)
    ensures ParseTokens([t0, t1, t2, t3, t4])
      == Splice(Splice(ParseTokens([t0]), ParseTokens([t1])), Splice(ParseTokens([t2]), Splice(ParseTokens([t3]), ParseTokens([t4]))))
  {
    assert [t0] + [t1] == [t0, t1] && [t0, t1] + [t2, t3, t4] == [t0, t1, t2, t3, t4];
    ParseDistributes([t0], [t1]);
    ThreeTokens(t2, t3, t4);
    ParseDistributes([t0, t1], [t2, t3, t4]);
  }

  /** Five one-element parses spliced together. */
  lemma SpliceFive(x0: Result<CondExpr, ParseError>, x1: Result<CondExpr, ParseError>, x2: Result<CondExpr, ParseError>,
                   x3: Result<CondExpr, ParseError>, x4: Result<CondExpr, ParseError>, e0: Elt, e1: Elt, e2: Elt, e3: Elt, e4: Elt)
    requires x0 == Success([e0]) && x1 == Success([e1]) && x2 == Success([e2]) && x3 == Success([e3]) && x4 == Success([e4])
    ensures Splice(Splice(x0, x1), Splice(x2, Splice(x3, x4))) == Success([e0, e1, e2, e3, e4])
  {
    assert [e0] + [e1] + ([e2] + ([e3] + [e4])) == [e0, e1, e2, e3, e4];
  }

  /** Three condition tokens between parenthesis tokens parse to the three conditions between separators. */
  lemma AlternativesParse(a: Condition, b: Condition, c: Condition)
    requires Grammatical(a) && !IsOperatorWord(Source(a))
    requires Grammatical(b) && !IsOperatorWord(Source(b))
    requires Grammatical(c) && !IsOperatorWord(Source(c))
    ensures ParseTokens([Str("("), Str(Source(a)), Str(Source(b)), Str(Source(c)), Str(")")])
      == Success([Sep("("), Cond(a), Cond(b), Cond(c), Sep(")")])
  {
    var x0 := ParseTokens([Str("(")]);
    var x1 := ParseTokens([Str(Source(a))]);
    var x2 := ParseTokens([Str(Source(b))]);
    var x3 := ParseTokens([Str(Source(c))]);
    var x4 := ParseTokens([Str(")")]);
    assert x0 == Success([Sep("(")]) by { ParenthesisToken("("); }
    assert x4 == Success([Sep(")")]) by { ParenthesisToken(")"); }
    assert x1 == Success([Cond(a)]) by { ConditionTokenRoundTrip(a); }
    assert x2 == Success([Cond(b)]) by { ConditionTokenRoundTrip(b); }
    assert x3 == Success([Cond(c)]) by { ConditionTokenRoundTrip(c); }
    assert ParseTokens([Str("("), Str(Source(a)), Str(Source(b)), Str(Source(c)), Str(")")])
      == Splice(Splice(x0, x1), Splice(x2, Splice(x3, x4))) by {
      FiveTokens(Str("("), Str(Source(a)), Str(Source(b)), Str(Source(c)), Str(")"));
    }
    SpliceFive(x0, x1, x2, x3, x4, Sep("("), Cond(a), Cond(b), Cond(c), Sep(")"));
  }

  /** A condition that renders nothing, in front of the rest, from the set state. */
  lemma SkipAfterRendered(c: Condition, rest: CondExpr, args: FilterArgs)
    requires !Faulty(Cond(c), args) && !Emits(Cond(c), args)
    ensures RenderFrom([Cond(c)] + rest, ParseHint(true), args) == RenderFrom(rest, ParseHint(true), args)
  {
    SilentConditionSkipped(Cond(c), rest, ParseHint(true), args);
  }

  /**
   * A group of three conditions, none of which fails, of which exactly
   * one renders: the group renders as that one clause between parentheses,
   * with no link operator, since no condition rendered before it.
   */
  lemma OneOfThree(a: Condition, b: Condition, c: Condition, i: nat, args: FilterArgs)
    requires i < 3
    requires !Faulty(Cond(a), args) && !Faulty(Cond(b), args) && !Faulty(Cond(c), args)
    requires Emits(Cond(a), args) <==> i == 0
    requires Emits(Cond(b), args) <==> i == 1
    requires Emits(Cond(c), args) <==> i == 2
    ensures ToSQL([Sep("("), Cond(a), Cond(b), Cond(c), Sep(")")], args)
      == Success("(" + ClauseText([a, b, c][i]) + ")")
  {
    var f := ParseHint(false);
    var t := ParseHint(true);
    var x := ClauseText([a, b, c][i]);
    var close := [Sep(")")];
    var fromC := [Cond(c)] + close;
    var fromB := [Cond(b)] + fromC;
    var fromA := [Cond(a)] + fromB;
    assert RenderFrom(close, t, args) == Success(")") by {
      RenderLast(Sep(")"), t, args);
    }
    assert RenderFrom(fromA, f, args) == Success(x + ")") by {
      if i == 0 {
        assert RenderFrom(fromB, t, args) == Success(")") by {
          SkipAfterRendered(c, close, args);
          SkipAfterRendered(b, fromC, args);
        }
        EmittingCondition(a, fromB, f, args);
      } else if i == 1 {
        assert RenderFrom(fromC, t, args) == Success(")") by {
          SkipAfterRendered(c, close, args);
        }
        EmittingCondition(b, fromC, f, args);
        SilentConditionSkipped(Cond(a), fromB, f, args);
      } else {
        EmittingCondition(c, close, f, args);
        SilentConditionSkipped(Cond(b), fromC, f, args);
        SilentConditionSkipped(Cond(a), fromB, f, args);
      }
    }
    SeparatorKeepsState("(", fromA, f, args);
    assert [Sep("(")] + fromA == [Sep("("), Cond(a), Cond(b), Cond(c), Sep(")")];
    assert "(" + (x + ")") == "(" + x + ")";
  }

  /** `if_present client_id = @clientID`. */
  function ClientIdIfPresent(): Condition {
    Condition(IfPresent, "", "client_id", "=", "@clientID")
  }

  /** `OR if_present consumer_org_id = @orgID`. */
  function OrgId(): Condition {
    Condition(IfPresent, "OR", "consumer_org_id", "=", "@orgID")
  }

  /** `OR if_present consumer_id = @userID`. */
  function UserId(): Condition {
    Condition(IfPresent, "OR", "consumer_id", "=", "@userID")
  }

  /**
   * A configuration consistent with every expectation of the `basic_00`
   * test file: three optional alternatives in one group, the tokens `(`,
   * `if_present client_id = @clientID`,
   * `OR if_present consumer_org_id = @orgID`,
   * `OR if_present consumer_id = @userID` and `)`, each condition token
   * being the written form of its condition.
   */
  function BasicTokens(): seq<Token> {
    [Str("("), Str(Source(ClientIdIfPresent())), Str(Source(OrgId())), Str(Source(UserId())), Str(")")]
  }

  /** The parsed form of `BasicTokens`. */
  function BasicExpr(): CondExpr {
    [Sep("("), Cond(ClientIdIfPresent()), Cond(OrgId()), Cond(UserId()), Sep(")")]
  }

  /** A linked condition is written from its link's first character to its argument's last. */
  lemma LinkedSourceEnds(c: Condition)
    requires c.linkOperator != "" && c.argName != ""
    ensures |Source(c)| > 0
    ensures Source(c)[0] == c.linkOperator[0]
    ensures Source(c)[|Source(c)| - 1] == c.argName[|c.argName| - 1]
  {
    var front := LinkPrefix(c.linkOperator) + ModalityPrefix(c.modality) + c.columnName + " " + c.operator + " ";
    assert Source(c) == front + c.argName;
    assert front[0] == c.linkOperator[0];
  }

  /** An unlinked `if_present` condition is written starting with the `i` of `if_present`. */
  lemma OptionalSourceStart(c: Condition)
    requires c.linkOperator == "" && c.modality == IfPresent
    ensures |Source(c)| > 0 && Source(c)[0] == 'i'
  {
    assert Source(c) == "if_present " + ClauseText(c);
  }

  /** An `OR`-linked condition whose argument ends in `D` is not written as a bare link operator. */
  lemma LinkedNotOperatorWord(c: Condition)
    requires c.linkOperator == "OR" && c.argName != "" && c.argName[|c.argName| - 1] == 'D'
    ensures !IsOperatorWord(Source(c))
  {
    LinkedSourceEnds(c);
    assert !IsSpace('O') && !IsSpace('D');
    NotOperatorWordAtEnds(Source(c));
  }

  /** An unlinked `if_present` condition is not written as a bare link operator. */
  lemma OptionalNotOperatorWord(c: Condition)
    requires c.linkOperator == "" && c.modality == IfPresent
    ensures !IsOperatorWord(Source(c))
  {
    OptionalSourceStart(c);
    assert !IsSpace('i');
    NotOperatorWord(Source(c));
  }

  /**
   * An `if_present` condition with three space-free parts, unlinked or
   * `OR`-linked with an argument ending in `D`, is a condition token: the
   * grammar reads it back, and it is no bare link operator.
   */
  lemma OptionalConditionToken(c: Condition)
    requires c.modality == IfPresent && (c.linkOperator == "" || c.linkOperator == "OR")
    requires ' ' !in c.columnName && ' ' !in c.operator && ' ' !in c.argName
    requires c.linkOperator == "OR" ==> c.argName != "" && c.argName[|c.argName| - 1] == 'D'
    ensures Grammatical(c) && !IsOperatorWord(Source(c))
  {
    if c.linkOperator == "" {
      OptionalNotOperatorWord(c);
    } else {
      LinkedNotOperatorWord(c);
    }
  }

  /** The `basic_00` token list parses to its three alternatives between separators. */
  lemma BasicParse()
    ensures ParseTokens(BasicTokens()) == Success(BasicExpr())
  {
    var a, b, c := ClientIdIfPresent(), OrgId(), UserId();
    assert ' ' !in "client_id" && ' ' !in "consumer_org_id" && ' ' !in "consumer_id" && ' ' !in "=";
    assert ' ' !in "@clientID" && ' ' !in "@orgID" && ' ' !in "@userID";
    assert "@orgID"[5] == 'D' && "@userID"[6] == 'D';
    OptionalConditionToken(a);
    OptionalConditionToken(b);
    OptionalConditionToken(c);
    AlternativesParse(a, b, c);
  }

  /** The alternatives of `BasicExpr`, which never fail against a non-nil map. */
  lemma BasicGroup(keys: set<string>)
    ensures !Faulty(Cond(ClientIdIfPresent()), Args(keys)) && !Faulty(Cond(OrgId()), Args(keys))
      && !Faulty(Cond(UserId()), Args(keys))
    ensures Emits(Cond(ClientIdIfPresent()), Args(keys)) <==> "clientID" in keys
    ensures Emits(Cond(OrgId()), Args(keys)) <==> "orgID" in keys
    ensures Emits(Cond(UserId()), Args(keys)) <==> "userID" in keys
  {
    assert "@clientID"[1..] == "clientID";
    assert "@orgID"[1..] == "orgID";
    assert "@userID"[1..] == "userID";
  }

  /**
   * The first and third `basic_00` cases, and any key set that supplies
   * `clientID` but neither `orgID` nor `userID`: the client clause alone
   * renders.
   */
  lemma BasicClientCase(keys: set<string>)
    requires "clientID" in keys && "orgID" !in keys && "userID" !in keys
    ensures ParseTokens(BasicTokens()).Success?
    ensures ToSQL(ParseTokens(BasicTokens()).value, Args(keys)) == Success("(client_id = @clientID)")
  {
    assert "(" + ClauseText(ClientIdIfPresent()) + ")" == "(client_id = @clientID)" by {
      assert ClauseText(ClientIdIfPresent()) == "client_id = @clientID";
    }
    assert ParseTokens(BasicTokens()) == Success(BasicExpr()) by { BasicParse(); }
    assert ToSQL(BasicExpr(), Args(keys)) == Success("(" + ClauseText(ClientIdIfPresent()) + ")") by {
      BasicGroup(keys);
      OneOfThree(ClientIdIfPresent(), OrgId(), UserId(), 0, Args(keys));
    }
  }

  /**
   * The second `basic_00` case, and any key set that supplies `orgID` but
   * neither `clientID` nor `userID`: the organisation clause alone renders,
   * without its `OR`.
   */
  lemma BasicOrgCase(keys: set<string>)
    requires "clientID" !in keys && "orgID" in keys && "userID" !in keys
    ensures ParseTokens(BasicTokens()).Success?
    ensures ToSQL(ParseTokens(BasicTokens()).value, Args(keys)) == Success("(consumer_org_id = @orgID)")
  {
    assert "(" + ClauseText(OrgId()) + ")" == "(consumer_org_id = @orgID)" by {
      assert ClauseText(OrgId()) == "consumer_org_id = @orgID";
    }
    assert ParseTokens(BasicTokens()) == Success(BasicExpr()) by { BasicParse(); }
    assert ToSQL(BasicExpr(), Args(keys)) == Success("(" + ClauseText(OrgId()) + ")") by {
      BasicGroup(keys);
      OneOfThree(ClientIdIfPresent(), OrgId(), UserId(), 1, Args(keys));
    }
  }

  /**
   * The fourth `basic_00` case, and any key set that supplies `userID` but
   * neither `clientID` nor `orgID`: the user clause alone renders, without
   * its `OR`.
   */
  lemma BasicUserCase(keys: set<string>)
    requires "clientID" !in keys && "orgID" !in keys && "userID" in keys
    ensures ParseTokens(BasicTokens()).Success?
    ensures ToSQL(ParseTokens(BasicTokens()).value, Args(keys)) == Success("(consumer_id = @userID)")
  {
    assert "(" + ClauseText(UserId()) + ")" == "(consumer_id = @userID)" by {
      assert ClauseText(UserId()) == "consumer_id = @userID";
    }
    assert ParseTokens(BasicTokens()) == Success(BasicExpr()) by { BasicParse(); }
    assert ToSQL(BasicExpr(), Args(keys)) == Success("(" + ClauseText(UserId()) + ")") by {
      BasicGroup(keys);
      OneOfThree(ClientIdIfPresent(), OrgId(), UserId(), 2, Args(keys));
    }
  }

  /**
   * A leading `if_present` condition whose argument is missing leaves no
   * stray link operator: the next condition, though written with `AND`, is
   * the first one rendered and is written without it.
   */
  lemma MissingLeadingOptional()
    ensures ToSQL([Cond(Condition(IfPresent, "", "a", "=", "@x")), Cond(Condition(Must, "AND", "b", "=", "@y"))],
                  Args({"y"}))
      == Success("b = @y")
  {
    var ca := Condition(IfPresent, "", "a", "=", "@x");
    var cb := Condition(Must, "AND", "b", "=", "@y");
    var args := Args({"y"});
    var r1 := RenderFrom([Cond(cb)], ParseHint(false), args);
    assert r1 == Success("b = @y") by {
      assert Emits(Cond(cb), args);
      RenderLast(Cond(cb), ParseHint(false), args);
      assert ClauseText(cb) == "b = @y";
    }
    assert RenderFrom([Cond(ca), Cond(cb)], ParseHint(false), args) == r1 by {
      assert "@x"[1..] == "x";
      assert !Faulty(Cond(ca), args) && !Emits(Cond(ca), args);
      SilentConditionSkipped(Cond(ca), [Cond(cb)], ParseHint(false), args);
      assert [Cond(ca)] + [Cond(cb)] == [Cond(ca), Cond(cb)];
    }
  }

  /** Three texts rendered in front of a render are one text rendered in front of it. */
  lemma ThenThree(a: string, b: string, c: string, r: Result<string, RenderError>)
    ensures Then(Success(a), Then(Success(b), Then(Success(c), r))) == Then(Success(a + b + c), r)
  {
    if r.Success? {
      assert a + (b + (c + r.value)) == (a + b + c) + r.value;
    }
  }

  /** A parenthesised rendering condition in front of other elements: the group's text, then the rest with the state set. */
  lemma GroupThen(c: Condition, rest: CondExpr, h: ParseHint, args: FilterArgs)
    requires Emits(Cond(c), args)
    ensures ConditionToSQL(c, h, args).Success?
    ensures RenderFrom([Sep("("), Cond(c), Sep(")")] + rest, h, args)
      == Then(Success("(" + ConditionToSQL(c, h, args).value + ")"), RenderFrom(rest, ParseHint(true), args))
  {
    var tail := [Sep(")")] + rest;
    var mid := [Cond(c)] + tail;
    var whole := [Sep("(")] + mid;
    assert whole == [Sep("("), Cond(c), Sep(")")] + rest;
    var x := ConditionToSQL(c, h, args);
    var r := RenderFrom(rest, ParseHint(true), args);
    assert RenderFrom(tail, ParseHint(true), args) == Then(Success(")"), r) by {
      SeparatorKeepsState(")", rest, ParseHint(true), args);
    }
    assert RenderFrom(mid, h, args) == Then(x, Then(Success(")"), r)) by {
      EmittingCondition(c, tail, h, args);
    }
    assert RenderFrom(whole, h, args) == Then(Success("("), Then(x, Then(Success(")"), r))) by {
      SeparatorKeepsState("(", mid, h, args);
    }
    ThenThree("(", x.value, ")", r);
  }

  /**
   * The state survives parentheses: a condition opening a group after a
   * group whose condition rendered keeps its link operator, so `(a = @x)`
   * then `(OR b = @y)` renders as `(a = @x)( OR b = @y)`.
   */
  lemma GroupDoesNotResetState(ca: Condition, cb: Condition, args: FilterArgs)
    requires Emits(Cond(ca), args) && Emits(Cond(cb), args) && cb.linkOperator != ""
    ensures ToSQL([Sep("("), Cond(ca), Sep(")"), Sep("("), Cond(cb), Sep(")")], args)
      == Success("(" + ClauseText(ca) + ")(" + " " + cb.linkOperator + " " + ClauseText(cb) + ")")
  {
    var f := ParseHint(false);
    var t := ParseHint(true);
    var first := [Sep("("), Cond(ca), Sep(")")];
    var second := [Sep("("), Cond(cb), Sep(")")];
    assert first + second == [Sep("("), Cond(ca), Sep(")"), Sep("("), Cond(cb), Sep(")")];
    assert second + [] == second;
    var a := ClauseText(ca);
    var linked := " " + cb.linkOperator + " " + ClauseText(cb);
    assert ("(" + linked + ")") + "" == "(" + linked + ")";
    assert ("(" + a + ")") + ("(" + linked + ")")
      == "(" + a + ")(" + " " + cb.linkOperator + " " + ClauseText(cb) + ")";
    assert RenderFrom(second, t, args) == Success("(" + linked + ")") by {
      GroupThen(cb, [], t, args);
    }
    GroupThen(ca, second, f, args);
  }

  /** A bare link operator token, then a group whose condition is the first to render. */
  lemma OperatorThenGroup(v: string, cb: Condition, args: FilterArgs)
    requires Emits(Cond(cb), args)
    ensures RenderFrom([Op(v), Sep("("), Cond(cb), Sep(")")], ParseHint(false), args)
      == Success(" " + v + " " + "(" + ClauseText(cb) + ")")
  {
    var f := ParseHint(false);
    var group := [Sep("("), Cond(cb), Sep(")")];
    assert [Op(v)] + group == [Op(v), Sep("("), Cond(cb), Sep(")")];
    var b := "(" + ClauseText(cb) + ")";
    assert (" " + v + " ") + b == " " + v + " " + "(" + ClauseText(cb) + ")";
    assert RenderFrom(group, f, args) == Success(b) by {
      GroupThen(cb, [], f, args);
      assert group + [] == group;
      assert b + "" == b;
    }
    RenderCons(Op(v), group, f, args);
  }

  /**
   * A bare link operator token is not tied to any condition: when the group
   * before it renders nothing, the operator is still written, after an
   * empty pair of parentheses.
   */
  lemma StrayOperator(ca: Condition, v: string, cb: Condition, args: FilterArgs)
    requires !Faulty(Cond(ca), args) && !Emits(Cond(ca), args) && Emits(Cond(cb), args)
    ensures ToSQL([Sep("("), Cond(ca), Sep(")"), Op(v), Sep("("), Cond(cb), Sep(")")], args)
      == Success("()" + " " + v + " " + "(" + ClauseText(cb) + ")")
  {
    var f := ParseHint(false);
    var after := [Op(v), Sep("("), Cond(cb), Sep(")")];
    var tail := [Sep(")")] + after;
    var skipped := [Cond(ca)] + tail;
    var whole := [Sep("(")] + skipped;
    assert whole == [Sep("("), Cond(ca), Sep(")"), Op(v), Sep("("), Cond(cb), Sep(")")];
    var text := " " + v + " " + "(" + ClauseText(cb) + ")";
    assert "(" + (")" + text) == "()" + " " + v + " " + "(" + ClauseText(cb) + ")";
    assert RenderFrom(after, f, args) == Success(text) by {
      OperatorThenGroup(v, cb, args);
    }
    assert RenderFrom(tail, f, args) == Success(")" + text) by {
      SeparatorKeepsState(")", after, f, args);
    }
    assert RenderFrom(skipped, f, args) == Success(")" + text) by {
      SilentConditionSkipped(Cond(ca), tail, f, args);
    }
    SeparatorKeepsState("(", skipped, f, args);
  }
}
