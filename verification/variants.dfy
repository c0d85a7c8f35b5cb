/**
 * The configuration container and variant resolution: operations map to
 * variants keyed by a space-separated list of tags.
 */
module Variants {
  import opened Wrappers
  import opened Text
  import opened Expr

  /**
   * One variant of an operation (`OperationParams`): opaque joins, the raw
   * condition tokens (`None` for a nil token list) and the parsed expression.
   */
  datatype Variant = Variant(joins: seq<string>, tokens: Option<seq<Token>>, condExpr: CondExpr)

  /** An operation's variants by tag key; `None` stands for a nil variant pointer. */
  datatype OperationConfig = OperationConfig(variantsByTag: map<string, Option<Variant>>)

  /** The whole configuration. */
  datatype Config = Config(version: nat, operations: map<string, OperationConfig>)

  /**
   * `ErrNotFound`, and the run-time panic of dereferencing a matching but
   * nil variant pointer.
   */
  datatype LookupError = ErrNotFound | NilVariantDeref

  /** `StrSliceContains`: whether `searched` is one of `ss`. */
  function StrSliceContains(ss: seq<string>, searched: string): (r: bool)
    ensures r <==> searched in ss
  {
    if ss == [] then false
    else ss[0] == searched || StrSliceContains(ss[1..], searched)
  }

  /** The tags requested: a nil tag list stands for `["default"]`. */
  function RequestedTags(searchedTagNames: Option<seq<string>>): seq<string> {
    match searchedTagNames
    case None => ["default"]
    case Some(tags) => tags
  }

  /** A variant key matches when one of its space-separated tags is requested. */
  predicate KeyMatches(key: string, searched: seq<string>) {
    exists i :: 0 <= i < |searched| && searched[i] in Split(key, ' ')
  }

  /**
   * `Config.GetOperation`. The source scans a Go map, whose iteration order
   * is unspecified; the model picks the next key to try arbitrarily, so its
   * contract holds for every order. The result is some matching variant;
   * `ErrNotFound` comes back exactly when the operation is unknown or no
   * key matches.
   */
  method GetOperation(c: Config, opName: string, searchedTagNames: Option<seq<string>>)
    returns (r: Result<Variant, LookupError>)
    ensures opName !in c.operations ==> r == Failure(ErrNotFound)
    ensures r == Failure(ErrNotFound) <==>
      opName !in c.operations
      || forall key :: key in c.operations[opName].variantsByTag ==> !KeyMatches(key, RequestedTags(searchedTagNames))
    ensures r.Success? ==>
      opName in c.operations
      && (exists key :: key in c.operations[opName].variantsByTag
            && KeyMatches(key, RequestedTags(searchedTagNames))
            && c.operations[opName].variantsByTag[key] == Some(r.value))
    ensures r == Failure(NilVariantDeref) ==>
      opName in c.operations
      && (exists key :: key in c.operations[opName].variantsByTag
            && KeyMatches(key, RequestedTags(searchedTagNames))
            && c.operations[opName].variantsByTag[key] == None)
    ensures searchedTagNames == None && r.Success? ==>
      exists key :: key in c.operations[opName].variantsByTag
        && "default" in Split(key, ' ')
        && c.operations[opName].variantsByTag[key] == Some(r.value)
  {
    if opName !in c.operations {
      return Failure(ErrNotFound);
    }
    var variants := c.operations[opName].variantsByTag;
    var searched := RequestedTags(searchedTagNames);
    var remaining := variants.Keys;
    while remaining != {}
      invariant remaining <= variants.Keys
      invariant forall key :: key in variants && key !in remaining ==> !KeyMatches(key, searched)
      decreases remaining
    {
      var key :| key in remaining;
      var i := FirstRequested(Split(key, ' '), searched);
      if i < |searched| {
        assert KeyMatches(key, searched);
        assert searchedTagNames == None ==> "default" in Split(key, ' ') by {
          if searchedTagNames == None {
            assert searched == ["default"] && searched[i] == "default";
          }
        }
        match variants[key]
        case None =>
          return Failure(NilVariantDeref);
        case Some(v) =>
          return Success(v);
      }
      remaining := remaining - {key};
    }
    return Failure(ErrNotFound);
  }

  /**
   * The inner scan of `Config.GetOperation`: the position of the first
   * requested tag that is one of a key's tags, or `|searched|` when there is
   * none.
   */
  method FirstRequested(opTags: seq<string>, searched: seq<string>) returns (i: nat)
    ensures i <= |searched|
    ensures i < |searched| ==> searched[i] in opTags
    ensures forall j :: 0 <= j < i ==> searched[j] !in opTags
  {
    i := 0;
    while i < |searched|
      invariant i <= |searched|
      invariant forall j :: 0 <= j < i ==> searched[j] !in opTags
    {
      if StrSliceContains(opTags, searched[i]) {
        return;
      }
      i := i + 1;
    }
  }
}
