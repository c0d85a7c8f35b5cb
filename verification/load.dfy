/** `Config.Parse`: the one-time pass that parses every variant's tokens and stores the result. */
module Load {
  import opened Wrappers
  import opened Expr
  import opened Tokens
  import opened Variants

  /** Why a configuration fails to parse, naming the operation and variant where the source does. */
  datatype ConfigError =
    | NilVariantDef(opName: string, variantName: string)
    | NilTokens(opName: string, variantName: string)
    | TokensParseFailed(cause: ParseError, tokens: seq<Token>)

  /** The parse of one variant: it must exist and hold a token list, which must parse. */
  function ParseVariant(opName: string, variantName: string, v: Option<Variant>): (r: Result<Variant, ConfigError>)
    ensures r.Success? <==> v.Some? && v.value.tokens.Some? && ParseTokens(v.value.tokens.value).Success?
    ensures v.None? ==> r == Failure(NilVariantDef(opName, variantName))
    ensures v.Some? && v.value.tokens.None? ==> r == Failure(NilTokens(opName, variantName))
    ensures r.Success? ==>
      && r.value.joins == v.value.joins
      && r.value.tokens == v.value.tokens
      && Success(r.value.condExpr) == ParseTokens(v.value.tokens.value)
  {
    match v
    case None => Failure(NilVariantDef(opName, variantName))
    case Some(p) =>
      match p.tokens
      case None => Failure(NilTokens(opName, variantName))
      case Some(ts) =>
        match ParseTokens(ts)
        case Failure(e) => Failure(TokensParseFailed(e, ts))
        case Success(es) => Success(p.(condExpr := es))
  }

  /** Every variant of the operation parses. */
  predicate VariantsParse(opName: string, vs: map<string, Option<Variant>>) {
    forall name :: name in vs ==> ParseVariant(opName, name, vs[name]).Success?
  }

  /** Every variant of every operation parses. */
  predicate AllParse(c: Config) {
    forall opName :: opName in c.operations ==> VariantsParse(opName, c.operations[opName].variantsByTag)
  }

  /** The operation's variants with their parsed expressions stored. */
  function ParsedVariants(opName: string, vs: map<string, Option<Variant>>): (r: map<string, Option<Variant>>)
    requires VariantsParse(opName, vs)
    ensures r.Keys == vs.Keys
    ensures forall name :: name in r ==>
      r[name].Some? && vs[name].Some?
      && r[name].value.joins == vs[name].value.joins
      && r[name].value.tokens == vs[name].value.tokens
      && Success(r[name].value.condExpr) == ParseTokens(vs[name].value.tokens.value)
  {
    map name | name in vs :: Some(ParseVariant(opName, name, vs[name]).value)
  }

  /**
   * The configuration after a successful parse: the same version, operations
   * and variant keys, each variant keeping its joins and tokens and holding
   * the parse of those tokens as its expression.
   */
  function Parsed(c: Config): (r: Config)
    requires AllParse(c)
    ensures r.version == c.version
    ensures r.operations.Keys == c.operations.Keys
    ensures forall opName :: opName in r.operations ==>
      r.operations[opName].variantsByTag.Keys == c.operations[opName].variantsByTag.Keys
  {
    Config(c.version, map opName | opName in c.operations ::
      OperationConfig(ParsedVariants(opName, c.operations[opName].variantsByTag)))
  }

  /** The inner loop of `Config.Parse`: every variant of one operation, in an unspecified order. */
  method ParseOperation(opName: string, vs: map<string, Option<Variant>>)
    returns (r: Result<map<string, Option<Variant>>, ConfigError>)
    ensures r.Success? <==> VariantsParse(opName, vs)
    ensures r.Success? ==> VariantsParse(opName, vs) && r.value == ParsedVariants(opName, vs)
    ensures r.Failure? ==>
      exists name :: name in vs && ParseVariant(opName, name, vs[name]) == Failure(r.error)
  {
    var remaining := vs.Keys;
    var done: map<string, Option<Variant>> := map[];
    while remaining != {}
      invariant remaining <= vs.Keys
      invariant done.Keys == vs.Keys - remaining
      invariant forall name :: name in done ==>
        ParseVariant(opName, name, vs[name]).Success?
        && done[name] == Some(ParseVariant(opName, name, vs[name]).value)
      decreases remaining
    {
      var name :| name in remaining;
      var parsed := ParseVariant(opName, name, vs[name]);
      if parsed.Failure? {
        return Failure(parsed.error);
      }
      done := done[name := Some(parsed.value)];
      remaining := remaining - {name};
    }
    return Success(done);
  }

  /**
   * `Config.Parse`. The source walks two Go maps in unspecified order and
   * stops at the first failing variant; the model picks the next key
   * arbitrarily. It succeeds exactly when every variant parses, and then
   * yields `Parsed(c)`; otherwise the error is that of some failing variant.
   */
  method Parse(c: Config) returns (r: Result<Config, ConfigError>)
    ensures r.Success? <==> AllParse(c)
    ensures r.Success? ==> AllParse(c) && r.value == Parsed(c)
    ensures r.Failure? ==>
      exists opName, name :: opName in c.operations && name in c.operations[opName].variantsByTag
        && ParseVariant(opName, name, c.operations[opName].variantsByTag[name]) == Failure(r.error)
  {
    var remaining := c.operations.Keys;
    var done: map<string, OperationConfig> := map[];
    while remaining != {}
      invariant remaining <= c.operations.Keys
      invariant done.Keys == c.operations.Keys - remaining
      invariant forall opName :: opName in done ==>
        VariantsParse(opName, c.operations[opName].variantsByTag)
        && done[opName] == OperationConfig(ParsedVariants(opName, c.operations[opName].variantsByTag))
      decreases remaining
    {
      var opName :| opName in remaining;
      var variants := ParseOperation(opName, c.operations[opName].variantsByTag);
      if variants.Failure? {
        return Failure(variants.error);
      }
      done := done[opName := OperationConfig(variants.value)];
      remaining := remaining - {opName};
    }
    return Success(Config(c.version, done));
  }

  /** A parsed variant parses again to itself: its tokens, and so its parse, are unchanged. */
  lemma ParseVariantIdempotent(opName: string, name: string, v: Option<Variant>)
    requires ParseVariant(opName, name, v).Success?
    ensures ParseVariant(opName, name, Some(ParseVariant(opName, name, v).value))
      == ParseVariant(opName, name, v)
  {
  }

  /**
   * Parsing a configuration twice gives the configuration parsed once: the
   * second pass finds every variant well formed and stores the same
   * expressions again.
   */
  lemma ParseIdempotent(c: Config)
    requires AllParse(c)
    ensures AllParse(Parsed(c))
    ensures Parsed(Parsed(c)) == Parsed(c)
  {
    var p := Parsed(c);
    forall opName | opName in p.operations
      ensures VariantsParse(opName, p.operations[opName].variantsByTag)
      ensures ParsedVariants(opName, p.operations[opName].variantsByTag)
        == p.operations[opName].variantsByTag
    {
      var vs := c.operations[opName].variantsByTag;
      var pvs := p.operations[opName].variantsByTag;
      assert pvs == ParsedVariants(opName, vs);
      forall name | name in pvs
        ensures ParseVariant(opName, name, pvs[name]) == ParseVariant(opName, name, vs[name])
      {
        ParseVariantIdempotent(opName, name, vs[name]);
      }
    }
  }

  /** After a successful parse no variant pointer is nil, so resolving a variant cannot panic. */
  lemma ParsedHasNoNilVariant(c: Config)
    requires AllParse(c)
    ensures forall opName, name ::
      (opName in Parsed(c).operations && name in Parsed(c).operations[opName].variantsByTag) ==>
        Parsed(c).operations[opName].variantsByTag[name].Some?
  {
  }
}
