/**
 * The matching core of the `/query` endpoint: the query ingredients are
 * preprocessed into one token list, every catalogue product is indexed with
 * default-filled metadata, a product is returned when its preprocessed title
 * shares a token with the query, and the matched titles are deduplicated.
 *
 * The catalogue is an input sequence (the documents of the products
 * collection, in the order the collection yields them), and the Porter
 * stemmer is the parameter `stem`.
 */
module QueryServer {
  import opened Text
  import opened Filtering
  import opened Preprocessing

  datatype Option<T> = None | Some(value: T) {
    /** `dict.get(key, default)` on a field that may be missing. */
    function GetOr(default: T): T {
      if Some? then value else default
    }
  }

  /** A JSON number as a product document may hold it. */
  datatype Number = IntNumber(i: int) | RealNumber(r: real)

  /**
   * A product document. `idText` is `str(product["_id"])`; the other fields
   * may be missing from the document.
   */
  datatype Product = Product(
    idText: string,
    title: Option<string>,
    description: Option<string>,
    price: Option<Number>,
    category: Option<string>,
    imageUrl: Option<string>)

  datatype Metadata = Metadata(id: string, description: string, price: Number, category: string, imageUrl: string)

  /** An entry of `indexed_titles`. */
  datatype IndexedTitle = IndexedTitle(title: string, metadata: Metadata)

  /** An entry of `results`. */
  datatype Hit = Hit(text: string, metadata: Metadata)

  /** The JSON body the endpoint answers with, and its status. */
  datatype Response =
    | Found(results: seq<Hit>, matchedTitles: seq<string>)
    | ServerError(status: nat, error: string)

  const InternalServerError: nat := 500

  /** `str(KeyError("title"))`, the error of a document without a title. */
  const MissingTitleError: string := "'title'"

  /** The metadata of a product: its id as text, and defaults for missing fields. */
  function MetadataOf(p: Product): (m: Metadata)
    ensures m.id == p.idText
    ensures p.description.Some? ==> m.description == p.description.value
    ensures p.description.None? ==> m.description == ""
    ensures p.price.Some? ==> m.price == p.price.value
    ensures p.price.None? ==> m.price == IntNumber(0)
    ensures p.category.Some? ==> m.category == p.category.value
    ensures p.category.None? ==> m.category == ""
    ensures p.imageUrl.Some? ==> m.imageUrl == p.imageUrl.value
    ensures p.imageUrl.None? ==> m.imageUrl == ""
  {
    Metadata(p.idText, p.description.GetOr(""), p.price.GetOr(IntNumber(0)),
             p.category.GetOr(""), p.imageUrl.GetOr(""))
  }

  /**
   * `indexed_titles`: one entry per product, in catalogue order. A product
   * without a title raises `KeyError`, which fails the whole request.
   */
  function IndexCatalogue(products: seq<Product>): (indexed: Option<seq<IndexedTitle>>)
    ensures indexed.None? <==> exists i :: 0 <= i < |products| && products[i].title.None?
    ensures indexed.Some? ==>
              && |indexed.value| == |products|
              && forall i :: 0 <= i < |products| ==>
                   && products[i].title.Some?
                   && indexed.value[i] == IndexedTitle(products[i].title.value, MetadataOf(products[i]))
  {
    if products == [] then Some([])
    else
      match products[0].title
      case None => None
      case Some(title) =>
        match IndexCatalogue(products[1..])
        case None => None
        case Some(rest) => Some([IndexedTitle(title, MetadataOf(products[0]))] + rest)
  }

  /** `preprocess_ingredient` as a value, for a fixed stemmer. */
  function Tokenizer(stem: string -> string): string -> seq<string> {
    (ingredient: string) => Preprocess(stem, ingredient)
  }

  /** `processed_ingredients`: the tokens of every ingredient, in order. */
  function QueryTokens(stem: string -> string, ingredients: seq<string>): seq<string> {
    Concat(ingredients, Tokenizer(stem))
  }

  /** The loop that extends `processed_ingredients` ingredient by ingredient. */
  method ProcessQuery(stem: string -> string, ingredients: seq<string>) returns (tokens: seq<string>)
    ensures tokens == QueryTokens(stem, ingredients)
  {
    tokens := [];
    for i := 0 to |ingredients|
      invariant tokens == QueryTokens(stem, ingredients[..i])
    {
      assert ingredients[..i + 1][..i] == ingredients[..i];
      tokens := tokens + Preprocess(stem, ingredients[i]);
    }
    assert ingredients[..|ingredients|] == ingredients;
  }

  /** `len(set(queryTokens).intersection(set(titleTokens))) > 0`. */
  predicate SharesToken(queryTokens: seq<string>, titleTokens: seq<string>) {
    |(set t | t in queryTokens) * (set t | t in titleTokens)| > 0
  }

  /** The filter of the matching loop, for a given list of query tokens. */
  function TitleMatches(stem: string -> string, queryTokens: seq<string>): IndexedTitle -> bool {
    (entry: IndexedTitle) => SharesToken(queryTokens, Preprocess(stem, entry.title))
  }

  function ToHit(entry: IndexedTitle): Hit {
    Hit(entry.title, entry.metadata)
  }

  /**
   * The loop over `indexed_titles` that appends to `results` and
   * `matched_titles`, followed by the deduplication of `matched_titles`.
   */
  method MatchProducts(stem: string -> string, queryTokens: seq<string>, indexed: seq<IndexedTitle>)
    returns (results: seq<Hit>, matchedTitles: seq<string>)
    ensures results == FilterMap(indexed, TitleMatches(stem, queryTokens), ToHit)
    ensures NoDuplicates(matchedTitles)
    ensures forall t :: t in matchedTitles <==> exists k :: 0 <= k < |results| && results[k].text == t
  {
    var titles := [];
    results := [];
    for i := 0 to |indexed|
      invariant results == FilterMap(indexed[..i], TitleMatches(stem, queryTokens), ToHit)
      invariant |titles| == |results|
      invariant forall k :: 0 <= k < |titles| ==> titles[k] == results[k].text
    {
      assert indexed[..i + 1][..i] == indexed[..i];
      var titleTokens := Preprocess(stem, indexed[i].title);
      if SharesToken(queryTokens, titleTokens) {
        titles := titles + [indexed[i].title];
        results := results + [Hit(indexed[i].title, indexed[i].metadata)];
      }
    }
    assert indexed[..|indexed|] == indexed;
    matchedTitles := Deduplicate(titles);
  }

  /**
   * `/query` on a request body whose `query` field is `query` (missing
   * means no ingredients), against the catalogue `products`.
   */
  method QueryIndex(stem: string -> string, query: Option<seq<string>>, products: seq<Product>)
    returns (response: Response)
    ensures response.ServerError? <==> exists i :: 0 <= i < |products| && products[i].title.None?
    ensures response.ServerError? ==> response == ServerError(InternalServerError, MissingTitleError)
    ensures response.Found? ==>
              && IndexCatalogue(products).Some?
              && response.results ==
                   FilterMap(IndexCatalogue(products).value,
                             TitleMatches(stem, QueryTokens(stem, query.GetOr([]))), ToHit)
              && NoDuplicates(response.matchedTitles)
              && forall t :: t in response.matchedTitles <==>
                   exists k :: 0 <= k < |response.results| && response.results[k].text == t
  {
    var ingredients := query.GetOr([]);
    var tokens := ProcessQuery(stem, ingredients);
    var catalogue := IndexCatalogue(products);
    if catalogue.None? {
      return ServerError(InternalServerError, MissingTitleError);
    }
    var results, matchedTitles := MatchProducts(stem, tokens, catalogue.value);
    response := Found(results, matchedTitles);
  }

  /** The intersection test holds exactly when some title token is a query token. */
  lemma SharesTokenIff(queryTokens: seq<string>, titleTokens: seq<string>)
    ensures SharesToken(queryTokens, titleTokens) <==> exists t :: t in queryTokens && t in titleTokens
  {
    var common := (set t | t in queryTokens) * (set t | t in titleTokens);
    if exists t :: t in queryTokens && t in titleTokens {
      var t :| t in queryTokens && t in titleTokens;
      assert t in common;
    }
    if |common| > 0 {
      var t :| t in common;
    }
  }

  /** A token is a query token exactly when some ingredient yields it. */
  lemma QueryTokensMembership(stem: string -> string, ingredients: seq<string>, t: string)
    ensures t in QueryTokens(stem, ingredients) <==>
              exists j :: 0 <= j < |ingredients| && t in Preprocess(stem, ingredients[j])
  {
    ConcatMembership(ingredients, Tokenizer(stem), t);
  }

  /** No ingredients, no query tokens, and so no product matches. */
  lemma EmptyQueryMatchesNothing(stem: string -> string, indexed: seq<IndexedTitle>)
    ensures QueryTokens(stem, []) == []
    ensures FilterMap(indexed, TitleMatches(stem, QueryTokens(stem, [])), ToHit) == []
  {
    var keep := TitleMatches(stem, []);
    forall i | 0 <= i < |indexed| ensures !keep(indexed[i]) {
      SharesTokenIff([], Preprocess(stem, indexed[i].title));
    }
    FilterMapNoneKept(indexed, keep, ToHit);
  }

  /**
   * The results are the matching entries, as a subsequence in catalogue
   * order: the k-th hit is the entry at the k-th position of `matched`,
   * with its title as text and its metadata unchanged, and an entry is
   * among them exactly when its title shares a token with the query.
   */
  lemma MatchedEntries(stem: string -> string, queryTokens: seq<string>, indexed: seq<IndexedTitle>)
    ensures var matched := Positions(indexed, TitleMatches(stem, queryTokens));
            var results := FilterMap(indexed, TitleMatches(stem, queryTokens), ToHit);
            && |results| == |matched| <= |indexed|
            && (forall k, l :: 0 <= k < l < |matched| ==> matched[k] < matched[l])
            && (forall k :: 0 <= k < |matched| ==>
                  && matched[k] < |indexed|
                  && results[k].text == indexed[matched[k]].title
                  && results[k].metadata == indexed[matched[k]].metadata)
            && (forall i :: 0 <= i < |indexed| ==>
                  (i in matched <==> exists t :: t in queryTokens && t in Preprocess(stem, indexed[i].title)))
  {
    var keep := TitleMatches(stem, queryTokens);
    FilterMapAtPositions(indexed, keep, ToHit);
    forall i | 0 <= i < |indexed|
      ensures i in Positions(indexed, keep) <==>
                exists t :: t in queryTokens && t in Preprocess(stem, indexed[i].title)
    {
      PositionsMembership(indexed, keep, i);
      SharesTokenIff(queryTokens, Preprocess(stem, indexed[i].title));
    }
  }

  /**
   * End to end: a successful response lists, in catalogue order, exactly the
   * products whose title has a token that some query ingredient has, each
   * with its title and its default-filled metadata.
   */
  lemma CatalogueResults(stem: string -> string, ingredients: seq<string>, products: seq<Product>)
    requires IndexCatalogue(products).Some?
    ensures var indexed := IndexCatalogue(products).value;
            var keep := TitleMatches(stem, QueryTokens(stem, ingredients));
            var matched := Positions(indexed, keep);
            var results := FilterMap(indexed, keep, ToHit);
            && |results| == |matched| <= |products|
            && (forall k, l :: 0 <= k < l < |matched| ==> matched[k] < matched[l])
            && (forall k :: 0 <= k < |matched| ==>
                  && matched[k] < |products|
                  && products[matched[k]].title == Some(results[k].text)
                  && results[k].metadata == MetadataOf(products[matched[k]]))
            && (forall i :: 0 <= i < |products| ==>
                  (i in matched <==>
                     exists t, j :: 0 <= j < |ingredients| && t in Preprocess(stem, ingredients[j])
                                    && t in Preprocess(stem, products[i].title.value)))
  {
    var indexed := IndexCatalogue(products).value;
    var tokens := QueryTokens(stem, ingredients);
    MatchedEntries(stem, tokens, indexed);
    forall t ensures t in tokens <==> exists j :: 0 <= j < |ingredients| && t in Preprocess(stem, ingredients[j]) {
      QueryTokensMembership(stem, ingredients, t);
    }
  }

  /**
   * The empty token makes punctuation match punctuation: when a query
   * ingredient and a title both end with a separator, both yield
   * `stem("")`, so the title matches whatever else either says.
   */
  lemma TrailingSeparatorsMatch(stem: string -> string, ingredients: seq<string>, j: int, entry: IndexedTitle)
    requires 0 <= j < |ingredients|
    requires ingredients[j] != [] && !IsWordChar(ingredients[j][|ingredients[j]| - 1])
    requires entry.title != [] && !IsWordChar(entry.title[|entry.title| - 1])
    ensures TitleMatches(stem, QueryTokens(stem, ingredients))(entry)
  {
    var tokens := QueryTokens(stem, ingredients);
    TrailingSeparatorKeepsEmptyToken(stem, ingredients[j]);
    TrailingSeparatorKeepsEmptyToken(stem, entry.title);
    QueryTokensMembership(stem, ingredients, stem(""));
    SharesTokenIff(tokens, Preprocess(stem, entry.title));
  }

  /**
   * Two catalogue entries with the same title are both returned when that
   * title matches: `results` may repeat a title, unlike `matched_titles`.
   */
  lemma SameTitleBothReturned(stem: string -> string, queryTokens: seq<string>, indexed: seq<IndexedTitle>, a: int, b: int)
    requires 0 <= a < b < |indexed| && indexed[a].title == indexed[b].title
    requires TitleMatches(stem, queryTokens)(indexed[a])
    ensures var results := FilterMap(indexed, TitleMatches(stem, queryTokens), ToHit);
            exists k, l :: 0 <= k < l < |results| && results[k] == ToHit(indexed[a]) && results[l] == ToHit(indexed[b])
  {
    var keep := TitleMatches(stem, queryTokens);
    assert keep(indexed[b]) == keep(indexed[a]);
    FilterMapKeepsOrder(indexed, keep, ToHit, a, b);
  }
}
