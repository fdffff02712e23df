# Ingredient-to-product keyword matcher

This project models the keyword matcher behind the `/query` endpoint of the
LlamaIndex product server (`backend/llama_index/llama_server.py`). It proves
properties of that model.

The endpoint receives a list of ingredient strings. Each ingredient is
*preprocessed* (`preprocess_ingredient`):

1. lower-case it;
2. split it on runs of non-word characters, as `re.split(r'\W+', ...)` does;
3. drop the seven stopwords `green fresh for with on in and`;
4. stem every piece that is left.

The tokens of all ingredients are concatenated, in order, into the query
tokens. Every product document of the catalogue becomes an indexed entry. The
entry holds the product's title and its metadata: the id as text, plus
`description`, `price`, `category` and `imageUrl`, each defaulting to `""`,
`0`, `""` and `""` when missing. A product is returned when the preprocessed
tokens of its title share at least one token with the query tokens. The
response lists the returned entries as `results`, in catalogue order, and
their titles, deduplicated, as `matched_titles`.

The project has four modules:

- `Text` (`text.dfy`): ASCII lower-casing, the `\w` character class and the
  `re.split(r'\W+', ...)` tokenizer. The tokenizer is `Split`, plus
  `SeparatorRuns` for the separators it cuts out. Both are characterised by a
  round trip: joining the pieces with the runs gives back the input.
- `Filtering` (`filtering.dfy`): the filtering list comprehension
  `[f(x) for x in s if keep(x)]` as `FilterMap`, specified through `Positions`
  (the ascending indices of the kept elements), and `list(set(xs))` as the
  method `Deduplicate`.
- `Preprocessing` (`preprocessing.dfy`): the stopword set and `Preprocess`.
- `QueryServer` (`query_server.dfy`): the product and response data, the
  metadata defaults, the catalogue index, and the two loops of the handler
  as methods proved against the functions that specify them
  (`ProcessQuery`, `MatchProducts`). `QueryIndex` composes them.

The Porter stemmer is a library whose code is not part of this model.
Every operation takes it as a parameter `stem: string -> string`, and
nothing is assumed about it: all results hold for every stemmer.

The empty token deserves a note. `re.split(r'\W+', ...)` yields an empty
piece when the text starts or ends with a separator, so `"apple,"` gives
`apple` and `""`. The empty piece is no stopword, so `stem("")` becomes a
token. Any ingredient and any title that both end in punctuation therefore
match each other (`QueryServer.TrailingSeparatorsMatch`).

## Model

| member | source | states |
|---|---|---|
| `Text.IsWordChar` | backend/llama_index/llama_server.py:75 | the `\w` class on ASCII: letters, digits and `_` (a definition; its consequences for the split are stated by `Text.Split` and `Text.SplitJoin`) |
| `Text.LowerChar` | backend/llama_index/llama_server.py:75 | each capital becomes its own lower-case letter, every other character stays as it is, and each character stays inside or outside the `\w` class |
| `Text.LowerCharAlike` | backend/llama_index/llama_server.py:75 | two characters lower-case alike exactly when they are equal or are one letter in its two cases |
| `Text.LowerStr` | backend/llama_index/llama_server.py:75 | `.lower()` keeps the length, turns each capital into its own lower-case letter, leaves every other character, and leaves no capital |
| `Text.LowerStrIdempotent` | backend/llama_index/llama_server.py:75 | lower-casing twice is lower-casing once |
| `Text.LowerCaseUnchanged` | backend/llama_index/llama_server.py:75 | text without upper-case letters is its own lower-cased form |
| `Text.LowerKeepsClasses` | backend/llama_index/llama_server.py:75 | lower-casing keeps the length and the word/non-word class of every character |
| `Text.LeadingRun` | backend/llama_index/llama_server.py:75 | the run cut at the start of the text is a prefix of separators that is maximal: the next character is a word character |
| `Text.SeparatorRuns` | backend/llama_index/llama_server.py:75 | every separator run that `\W+` cuts out is non-empty and holds only non-word characters |
| `Text.Split` | backend/llama_index/llama_server.py:75 | the split yields one piece more than there are separator runs; every piece holds only word characters, possibly none; the first piece is empty exactly when the text is empty or starts with a separator |
| `Text.SplitJoin` | backend/llama_index/llama_server.py:75 | round trip: the pieces joined with the separator runs give back the text, so only separators are dropped |
| `Text.InteriorPiecesNonEmpty` | backend/llama_index/llama_server.py:75 | only the first and the last piece can be empty, because `\W+` takes maximal runs |
| `Text.SeparatorGivesRun` | backend/llama_index/llama_server.py:75 | text holding a separator has at least one separator run |
| `Text.LastPieceEmpty` | backend/llama_index/llama_server.py:75 | the last piece is empty exactly when the text is empty or ends with a separator |
| `Text.SplitOfWord` | backend/llama_index/llama_server.py:75 | text of word characters only is one piece, itself |
| `Text.SplitWordThenSeparator` | backend/llama_index/llama_server.py:75 | a non-empty word followed by one separator splits into the word and an empty piece |
| `Filtering.FilterMap` | backend/llama_index/llama_server.py:76 | the comprehension yields at most one entry per element, each `f` of a kept element; with `Filtering.FilterMapAtPositions`, exactly those and in order |
| `Filtering.Positions` | backend/llama_index/llama_server.py:76 | the positions of the kept elements are ascending, in range, all kept, and include every kept element |
| `Filtering.FilterMapAtPositions` | backend/llama_index/llama_server.py:76 | the comprehension yields, in order, `f` of exactly the kept elements: its k-th entry is `f` of the k-th kept element |
| `Filtering.PositionsMembership` | backend/llama_index/llama_server.py:76 | an index is among the positions exactly when its element is kept |
| `Filtering.FilterMapNoneKept` | backend/llama_index/llama_server.py:113-121 | a filter that keeps nothing yields the empty list |
| `Filtering.FilterMapKeepsOrder` | backend/llama_index/llama_server.py:113-121 | two accepted elements both appear in the filtered output, in their original order |
| `Filtering.Deduplicate` | backend/llama_index/llama_server.py:123 | `list(set(xs))` has no duplicates and holds exactly the elements of `xs`; its order is not promised |
| `Filtering.ConcatMembership` | backend/llama_index/llama_server.py:89-91 | a value is in the concatenation of the parts of a list exactly when some element's part holds it (the flattening `processed_ingredients.extend(...)` builds) |
| `Preprocessing.IsKept` | backend/llama_index/llama_server.py:74-76 | a piece is kept exactly when it is not one of the seven stopwords `green fresh for with on in and` (a definition; used by `Preprocessing.PreprocessSpec` and `Preprocessing.WordPreprocess`) |
| `Preprocessing.Preprocess` | backend/llama_index/llama_server.py:72-76 | `preprocess_ingredient` gives at most one token per split piece of the lower-cased ingredient, each the stem of a piece that is no stopword; `Preprocessing.PreprocessSpec` states exactly which and in what order |
| `Preprocessing.PreprocessSpec` | backend/llama_index/llama_server.py:72-76 | the tokens are, in order, the stems of exactly those pieces of the lower-cased ingredient that are not stopwords; their number is the number of such pieces |
| `Preprocessing.CaseInsensitive` | backend/llama_index/llama_server.py:75-76 | ingredients that differ only in letter case give the same tokens |
| `Preprocessing.LowerCasedAlike` | backend/llama_index/llama_server.py:75-76 | an ingredient and its lower-cased form give the same tokens |
| `Preprocessing.WordPreprocess` | backend/llama_index/llama_server.py:74-76 | a single word gives no token if its lower-cased form is a stopword, and its stem otherwise: the stopword test runs after lower-casing and before stemming |
| `Preprocessing.StopwordsInAnyCase` | backend/llama_index/llama_server.py:74-76 | `Fresh` and `AND` give no tokens |
| `Preprocessing.TrailingSeparatorKeepsEmptyToken` | backend/llama_index/llama_server.py:75-76 | an ingredient ending with a separator has `stem("")` as its last token |
| `Preprocessing.LeadingSeparatorKeepsEmptyToken` | backend/llama_index/llama_server.py:75-76 | an ingredient starting with a separator has `stem("")` as its first token |
| `Preprocessing.WordThenSeparator` | backend/llama_index/llama_server.py:74-76 | a word followed by one separator (`apple,`) gives the word's token, unless it is a stopword, and then `stem("")` |
| `QueryServer.MetadataOf` | backend/llama_index/llama_server.py:99-105 | the metadata carries the product's id as text and each present field unchanged; a missing description, category or image URL becomes `""`, a missing price `0` |
| `QueryServer.IndexCatalogue` | backend/llama_index/llama_server.py:95-108 | indexing fails exactly when some product has no title; otherwise it gives one entry per product, in catalogue order, with the product's title and metadata |
| `QueryServer.QueryTokens` | backend/llama_index/llama_server.py:89-91 | the concatenation (`Filtering.Concat`), in order, of the tokens of every ingredient (a definition; specified by `QueryServer.QueryTokensMembership` and computed by `QueryServer.ProcessQuery`) |
| `QueryServer.ProcessQuery` | backend/llama_index/llama_server.py:89-91 | the loop that extends the token list leaves it equal to the in-order concatenation of the preprocessed ingredients |
| `QueryServer.MatchProducts` | backend/llama_index/llama_server.py:110-123 | the loop over the entries leaves `results` equal to the matching entries as hits, in order; `matched_titles` has no duplicates and holds exactly the texts of the results |
| `QueryServer.QueryIndex` | backend/llama_index/llama_server.py:85-132 | the handler answers error 500 with `'title'` exactly when some product has no title; otherwise its results are the matching entries for the tokens of the `query` ingredients (none when the field is missing), and its matched titles are the distinct result texts |
| `QueryServer.SharesToken` | backend/llama_index/llama_server.py:115-116 | the intersection test on the two token sets (a definition; specified by `QueryServer.SharesTokenIff`) |
| `QueryServer.ToHit` | backend/llama_index/llama_server.py:118-121 | a result entry takes the product title as `text` and the metadata unchanged (specified through `QueryServer.MatchedEntries`) |
| `QueryServer.SharesTokenIff` | backend/llama_index/llama_server.py:115-116 | the intersection of the token sets is non-empty exactly when some title token is a query token |
| `QueryServer.QueryTokensMembership` | backend/llama_index/llama_server.py:89-91 | a token is a query token exactly when some ingredient yields it |
| `QueryServer.EmptyQueryMatchesNothing` | backend/llama_index/llama_server.py:85-116 | an empty ingredient list gives no query tokens and no results |
| `QueryServer.MatchedEntries` | backend/llama_index/llama_server.py:113-121 | the results are a subsequence of the entries in catalogue order, at most as many; each has its entry's title as text and its metadata unchanged; an entry is included exactly when its title tokens and the query tokens share a token |
| `QueryServer.CatalogueResults` | backend/llama_index/llama_server.py:89-121 | end to end: the results are, in catalogue order, exactly the products whose title shares a token with some query ingredient, each with its title and its default-filled metadata |
| `QueryServer.TrailingSeparatorsMatch` | backend/llama_index/llama_server.py:72-116 | an entry whose title ends with a separator matches any query with an ingredient that ends with a separator, through the shared token `stem("")` |
| `QueryServer.SameTitleBothReturned` | backend/llama_index/llama_server.py:113-121 | two entries with the same matching title are both returned, in catalogue order, so `results` may repeat a title |

## Left out

- The Porter stemmer (`nltk`'s `PorterStemmer`) is not modelled. It is a parameter, and nothing is assumed about it.
- `str.lower()` and `\w` are modelled for ASCII only. Upper-case `A`-`Z` become `a`-`z`, and the word characters are letters, digits and `_`. Every non-ASCII character is treated as a separator and left unchanged by lower-casing. Python's Unicode rules for both are not modelled.
- The `_id` of a product is taken as its text form `str(_id)`. The conversion of a MongoDB ObjectId to text is not modelled.
- Product fields are typed: a title, description, category or image URL is text, and a price is a JSON number. A document whose `title` holds a non-text value, and a `query` field that is not a list of strings, fail differently in the server (a raised exception, or iteration over characters); these cases are not modelled.
- The MongoDB connection and `products_collection.find()` are I/O. The catalogue is an input sequence, in the order the collection yields it.
- The Flask application, CORS, routing, `request.json`, `jsonify`, the `/` health endpoint and `app.run` are HTTP plumbing. The response is a datatype. Of the `try`/`except`, only the one exception the modelled code can raise is kept: the `KeyError` of a missing title, answered with status 500 and `'title'`.
- `print` logging is left out.
- Building, persisting and loading the LlamaIndex vector index, and `query_engine`, are foreign-library calls and file I/O. `/query` does not use them.
- `QueryServer.MatchProducts`: does not fix the order of `matched_titles`. Python's `list(set(...))` does not fix it either, so the model promises only that the list has no duplicates and holds the right titles.
- The unit-price parsing, retailer winner selection, caching and cart synchronisation of the wider shopping system are in other parts of the repository. They are not part of this model.
