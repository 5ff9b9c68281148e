/** The statement `searchProducts` prepares: a fixed base query with one
    `AND ... ?` clause per search criterion given, and the list of values to
    bind to the placeholders, built in step. */
module ProductSearch {
  import opened JavaLang

  /** A value bound to a placeholder: `Integer`, `String` or `Double`. */
  datatype SqlParam = IntParam(i: int32) | StringParam(s: string) | DoubleParam(d: real)

  const SELECT_ALL: string := "SELECT * FROM products WHERE 1=1"
  const ID_CLAUSE: string := " AND product_id = ?"
  const NAME_CLAUSE: string := " AND name LIKE ?"
  const PRICE_LT_CLAUSE: string := " AND price < ?"
  const PRICE_GT_CLAUSE: string := " AND price > ?"

  /** A name keyword counts only when it is not `null` and not blank after trimming. */
  predicate HasKeyword(name: Option<string>)
  {
    name.Some? && Trim(name.value) != ""
  }

  /** The pattern bound for a name keyword: the trimmed name between `%` wildcards. */
  function LikePattern(name: string): string
  {
    "%" + Trim(name) + "%"
  }

  /** The pattern is `%`, the trimmed name, `%`: a non-blank name gives a pattern
      that matches more than the bare wildcards. A lemma rather than an `ensures`
      of `LikePattern`, so that proofs about the whole statement do not carry it. */
  lemma LikePatternWrapsTrimmedName(name: string)
    ensures var p := LikePattern(name);
      |p| >= 2 && p[0] == '%' && p[|p| - 1] == '%' && p[1..|p| - 1] == Trim(name)
    ensures |LikePattern(name)| == 2 <==> forall i :: 0 <= i < |name| ==> IsTrimmable(name[i])
  {
  }

  /** The parameters of one optional criterion, in clause order. */
  function IdParams(productId: Option<int32>): seq<SqlParam>
  {
    if productId.Some? then [IntParam(productId.value)] else []
  }

  function NameParams(name: Option<string>): seq<SqlParam>
  {
    if HasKeyword(name) then [StringParam(LikePattern(name.value))] else []
  }

  function PriceParams(price: Option<real>): seq<SqlParam>
  {
    if price.Some? then [DoubleParam(price.value)] else []
  }

  /** The clause each optional criterion appends. */
  function IdClause(productId: Option<int32>): string
  {
    if productId.Some? then ID_CLAUSE else ""
  }

  function NameClause(name: Option<string>): string
  {
    if HasKeyword(name) then NAME_CLAUSE else ""
  }

  function PriceLtClause(price: Option<real>): string
  {
    if price.Some? then PRICE_LT_CLAUSE else ""
  }

  function PriceGtClause(price: Option<real>): string
  {
    if price.Some? then PRICE_GT_CLAUSE else ""
  }

  lemma BaseHasNoPlaceholder()
    ensures CountChar(SELECT_ALL, '?') == 0
  {
    NoCharNoCount(SELECT_ALL, '?');
  }

  lemma IdClausePlaceholder()
    ensures CountChar(ID_CLAUSE, '?') == 1
  {
    var text := " AND product_id = ";
    assert ID_CLAUSE == text + ['?'];
    OneTrailing(text, '?');
  }

  lemma NameClausePlaceholder()
    ensures CountChar(NAME_CLAUSE, '?') == 1
  {
    var text := " AND name LIKE ";
    assert NAME_CLAUSE == text + ['?'];
    OneTrailing(text, '?');
  }

  lemma PriceLtClausePlaceholder()
    ensures CountChar(PRICE_LT_CLAUSE, '?') == 1
  {
    var text := " AND price < ";
    assert PRICE_LT_CLAUSE == text + ['?'];
    OneTrailing(text, '?');
  }

  lemma PriceGtClausePlaceholder()
    ensures CountChar(PRICE_GT_CLAUSE, '?') == 1
  {
    var text := " AND price > ";
    assert PRICE_GT_CLAUSE == text + ['?'];
    OneTrailing(text, '?');
  }

  lemma {:induction false} NoCharNoCount(s: string, c: char)
    requires c !in s
    ensures CountChar(s, c) == 0
    decreases |s|
  {
    if s != [] {
      assert s[0] != c;
      assert forall k :: 0 <= k < |s[1..]| ==> s[1..][k] == s[k + 1];
      NoCharNoCount(s[1..], c);
    }
  }

  lemma OneTrailing(s: string, c: char)
    requires c !in s
    ensures CountChar(s + [c], c) == 1
  {
    NoCharNoCount(s, c);
    CountCharConcat(s, [c], c);
    assert [c][1..] == [];
  }

  /** A statement of five pieces has one `?` per value when the base has none and
      each clause has one per value it binds. */
  lemma {:induction false} CountFive(q: string, ps: seq<SqlParam>, a: string, b: string, c: string, d: string, e: string,
                  pb: seq<SqlParam>, pc: seq<SqlParam>, pd: seq<SqlParam>, pe: seq<SqlParam>)
    requires q == a + b + c + d + e && ps == pb + pc + pd + pe
    requires CountChar(a, '?') == 0 && CountChar(b, '?') == |pb| && CountChar(c, '?') == |pc|
    requires CountChar(d, '?') == |pd| && CountChar(e, '?') == |pe|
    ensures CountChar(q, '?') == |ps|
  {
    CountCharConcat(a, b, '?');
    CountCharConcat(a + b, c, '?');
    CountCharConcat(a + b + c, d, '?');
    CountCharConcat(a + b + c + d, e, '?');
  }

  /** Each optional clause holds one `?` per value it binds. */
  lemma IdClauseCount(productId: Option<int32>)
    ensures CountChar(IdClause(productId), '?') == |IdParams(productId)|
  {
    if productId.Some? { IdClausePlaceholder(); }
  }

  lemma NameClauseCount(name: Option<string>)
    ensures CountChar(NameClause(name), '?') == |NameParams(name)|
  {
    if HasKeyword(name) { NameClausePlaceholder(); }
  }

  lemma PriceLtClauseCount(price: Option<real>)
    ensures CountChar(PriceLtClause(price), '?') == |PriceParams(price)|
  {
    if price.Some? { PriceLtClausePlaceholder(); }
  }

  lemma PriceGtClauseCount(price: Option<real>)
    ensures CountChar(PriceGtClause(price), '?') == |PriceParams(price)|
  {
    if price.Some? { PriceGtClausePlaceholder(); }
  }

  /** The statement text for the given criteria: the base query, then one clause
      per criterion given, in the order id, name, upper price, lower price. */
  function SearchQuery(productId: Option<int32>, name: Option<string>,
                       priceLessThan: Option<real>, priceGreaterThan: Option<real>): string
  {
    SELECT_ALL + IdClause(productId) + NameClause(name) + PriceLtClause(priceLessThan) + PriceGtClause(priceGreaterThan)
  }

  /** The values bound for the given criteria, in the same order as their clauses. */
  function SearchParameters(productId: Option<int32>, name: Option<string>,
                            priceLessThan: Option<real>, priceGreaterThan: Option<real>): seq<SqlParam>
  {
    IdParams(productId) + NameParams(name) + PriceParams(priceLessThan) + PriceParams(priceGreaterThan)
  }

  /** One `?` per bound value, whichever criteria are given. */
  lemma PlaceholdersMatchParameters(productId: Option<int32>, name: Option<string>,
                                    priceLessThan: Option<real>, priceGreaterThan: Option<real>)
    ensures CountChar(SearchQuery(productId, name, priceLessThan, priceGreaterThan), '?')
            == |SearchParameters(productId, name, priceLessThan, priceGreaterThan)|
  {
    BaseHasNoPlaceholder();
    IdClauseCount(productId);
    NameClauseCount(name);
    PriceLtClauseCount(priceLessThan);
    PriceGtClauseCount(priceGreaterThan);
    CountFive(SearchQuery(productId, name, priceLessThan, priceGreaterThan),
              SearchParameters(productId, name, priceLessThan, priceGreaterThan),
              SELECT_ALL, IdClause(productId), NameClause(name), PriceLtClause(priceLessThan), PriceGtClause(priceGreaterThan),
              IdParams(productId), NameParams(name), PriceParams(priceLessThan), PriceParams(priceGreaterThan));
  }

  /** searchProducts, up to `queryBuilder.toString()`: the statement text and the
      values to bind, in the order the clauses were appended; by
      `PlaceholdersMatchParameters` there is one `?` per value. */
  method SearchProductsQuery(productId: Option<int32>, name: Option<string>,
                             priceLessThan: Option<real>, priceGreaterThan: Option<real>)
    returns (query: string, parameters: seq<SqlParam>)
    ensures query == SearchQuery(productId, name, priceLessThan, priceGreaterThan)
    ensures parameters == SearchParameters(productId, name, priceLessThan, priceGreaterThan)
  {
    query := SELECT_ALL;
    parameters := [];
    if productId.Some? {
      query := query + ID_CLAUSE;
      parameters := parameters + [IntParam(productId.value)];
    }
    ghost var q1, p1 := query, parameters;
    assert q1 == SELECT_ALL + IdClause(productId);
    assert p1 == IdParams(productId);
    if name.Some? && Trim(name.value) != "" {
      query := query + NAME_CLAUSE;
      parameters := parameters + [StringParam(LikePattern(name.value))];
    }
    ghost var q2, p2 := query, parameters;
    assert q2 == q1 + NameClause(name);
    assert p2 == p1 + NameParams(name);
    if priceLessThan.Some? {
      query := query + PRICE_LT_CLAUSE;
      parameters := parameters + [DoubleParam(priceLessThan.value)];
    }
    ghost var q3, p3 := query, parameters;
    assert q3 == q2 + PriceLtClause(priceLessThan);
    assert p3 == p2 + PriceParams(priceLessThan);
    if priceGreaterThan.Some? {
      query := query + PRICE_GT_CLAUSE;
      parameters := parameters + [DoubleParam(priceGreaterThan.value)];
    }
    assert query == q3 + PriceGtClause(priceGreaterThan);
    assert parameters == p3 + PriceParams(priceGreaterThan);
  }

  /** A `null` or blank name adds neither a clause nor a value: the statement is
      the one built without a name. */
  lemma BlankNameIsIgnored(productId: Option<int32>, name: Option<string>,
                           priceLessThan: Option<real>, priceGreaterThan: Option<real>)
    requires name.None? || forall i :: 0 <= i < |name.value| ==> IsTrimmable(name.value[i])
    ensures SearchQuery(productId, name, priceLessThan, priceGreaterThan) == SearchQuery(productId, None, priceLessThan, priceGreaterThan)
    ensures SearchParameters(productId, name, priceLessThan, priceGreaterThan) == SearchParameters(productId, None, priceLessThan, priceGreaterThan)
  {
  }

  /** The only string value bound is the `LIKE` pattern of a non-blank name. */
  lemma StringParameterIsLikePattern(productId: Option<int32>, name: Option<string>,
                                     priceLessThan: Option<real>, priceGreaterThan: Option<real>, p: string)
    ensures StringParam(p) in SearchParameters(productId, name, priceLessThan, priceGreaterThan)
            <==> HasKeyword(name) && p == LikePattern(name.value)
  {
    var x := StringParam(p);
    assert x !in IdParams(productId) && x !in PriceParams(priceLessThan) && x !in PriceParams(priceGreaterThan);
    assert x in SearchParameters(productId, name, priceLessThan, priceGreaterThan) <==> x in NameParams(name);
  }

  /** The statement is the bare base query exactly when no criterion is given. */
  lemma NoCriteriaSelectsAll(productId: Option<int32>, name: Option<string>,
                             priceLessThan: Option<real>, priceGreaterThan: Option<real>)
    ensures SearchQuery(productId, name, priceLessThan, priceGreaterThan) == SELECT_ALL
            <==> productId.None? && !HasKeyword(name) && priceLessThan.None? && priceGreaterThan.None?
  {
    var q := SearchQuery(productId, name, priceLessThan, priceGreaterThan);
    assert |q| == |SELECT_ALL| + |IdClause(productId)| + |NameClause(name)| + |PriceLtClause(priceLessThan)| + |PriceGtClause(priceGreaterThan)|;
  }
}
