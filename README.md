# Same-category product recommender: a Dafny model

The system recommends products from a catalog. It computes, once, a matrix of
pairwise similarities between product descriptions. For a chosen product it
returns the most similar other products of the same category. A Streamlit front
end (`app.py`) lets the user search the catalog, filter it by a cleaned
category name, pick a product and see its neighbours. It also keeps a small
browsing history in the session.

This project models and proves the logic of that system:

- `similarity_engine.dfy` (module `Similarity`) models the neighbour query
  `SimilarityEngine.get_similar_products`.
  - The class `SimilarityEngine` holds the catalog and the score matrix.
  - The method `GetSimilarProducts` has the source's two loops. The first
    pairs each same-category row with its score. The second builds the result
    records.
  - The steps in between are pure functions: the stable sort by score, the
    removal of the query row and the `top_n` slice.
  - The answer is specified without reference to the pipeline, by `IsTopN`:
    the `n` best other rows of the category. Better means a higher score, and
    among equal scores the lower catalog index.
  - `Ranking` is proved to satisfy `IsTopN`, and `TopNUnique` proves that
    only one list does. The tie-break the stable sort produces is therefore
    the whole story.
- `cleaning.dfy` (module `Cleaning`) models the value-cleaning helpers of the
  front end: `clean_val`, `clean_category` and `clean_image`.
  - The regular expressions of `clean_category` are written out by hand.
  - The quote-cutting pattern follows Python's semantics: `.` stops at a line
    break, and `$` holds only at the end or before a final line break.
- `cleaning_examples.dfy` (module `CleaningExamples`) works `clean_category`
  through literal inputs.
- `text.dfy` (module `Text`) supplies the Python string operations the helpers
  use:
  - `str.strip`, with its full whitespace set;
  - `lower` for ASCII;
  - `startswith`;
  - the code-point order that `sorted` uses.
- `category_index.dfy` (module `CategoryIndex`) models the category filter,
  which has three parts:
  - the distinct raw categories;
  - the sorted list of cleaned names offered in the filter box;
  - the map `cat_to_raw` from a cleaned name back to its raw categories. It
    is built by a loop, as in the source.
- `session.dfy` (module `Session`) models the browsing history.
  - The class `SessionState` has the two session fields `cat_history` and
    `last_tracked`.
  - Its methods are the "track only a new product" rule and the
    clear-history button.
- `options.dfy` supplies the `Option` type that stands for Python's `None`.

A missing catalog cell reaches the helpers as the text `str(val)` makes of it
("nan"); `None` stands for Python's `None`. `Dash` is the fallback "—",
U+2014 EM DASH.

## Model

| member | source | states |
|---|---|---|
| Text.StripStartFacts | app.py:25 | `lstrip`: the result is a suffix of the input, everything dropped is in the strip set, and the result does not start with a character of the set |
| Text.StripEndFacts | app.py:25 | `rstrip`: the result is a prefix of the input, everything dropped is in the strip set, and the result does not end with a character of the set |
| Text.Strip | app.py:25 | Python's `strip`: the result is no longer than the input and neither starts nor ends with a character of the strip set |
| Text.StripFacts | app.py:25 | the result of `strip` is the infix of the input that starts after the leading strippable characters, and every character dropped at either end is in the strip set |
| Text.StripOfStripped | app.py:33 | stripping a text that has no strippable character at either end leaves it unchanged |
| Cleaning.CleanVal | app.py:23-26 | `None` gives the fallback; a text whose trimmed, lower-cased form is "nan", "none", "" or "n/a" gives the fallback; any other text gives its trimmed form, which is non-empty and has no surrounding whitespace. The fallback defaults to "—" |
| Cleaning.CleanValIdempotent | app.py:23-26 | cleaning an already cleaned value again gives the same value, for any fallback without surrounding whitespace |
| Cleaning.DropListOpening | app.py:31 | `re.sub(r"^\[[\"\']?", "", s)`: a text not starting with `[` is left as it is; otherwise the removed prefix is a match of the pattern and no longer prefix matches, so a quote right after the `[` is always removed with it |
| Cleaning.FirstQuoteMatch | app.py:32 | finds the first position where `["'].*$` matches, and the pattern matches nowhere before it |
| Cleaning.CutAtQuote | app.py:32 | on text without a line break, the result is a prefix of the input with no quote, and it is either the whole input or stops exactly at a quote |
| Cleaning.FirstSegment | app.py:33 | `split(">>")[0]`: a prefix of the input at none of whose positions a `>>` of the input starts, and which is either the whole input or ends right before a `>>`, so the cut is at the first `>>` |
| Cleaning.StripSegment | app.py:33 | the three final strips never create a `>>`, and on quote-free text they amount to trimming whitespace |
| Cleaning.CategoryText | app.py:31-33 | the category text has no `>>`; for input without a line break it has no quote and no surrounding whitespace |
| Cleaning.CleanCategory | app.py:28-34 | never empty; "—" whenever `clean_val` gives "—"; never contains `>>` |
| Cleaning.CleanCategoryQuoteFree | app.py:32-34 | for a value without a line break, the cleaned category has no `"` or `'` and no surrounding whitespace |
| Cleaning.CleanCategoryOfPlainPath | app.py:29-34 | a quote-free value that does not open with `[` and is not a missing marker gives its first `>>` segment with whitespace trimmed, or "—" when that segment is blank |
| Cleaning.CutOfQuoteFree | app.py:32 | text without quotes passes the quote-cutting step unchanged |
| Cleaning.LinkIsNotMissing | app.py:43-45 | a text starting with `http` is neither a missing marker nor "—", so `clean_image`'s test for "—" never decides anything |
| Cleaning.CleanImage | app.py:43-45 | returns a value exactly when the input is present and its trimmed text starts with `http`; that value is the trimmed text |
| CleaningExamples.CleanCategoryOfPath | app.py:28-34 | `clean_category("A >> B >> C")` is "A" |
| CleaningExamples.CleanCategoryOfListSegment | app.py:28-34 | `clean_category('["Clothing ')` is "Clothing": the `[` and the quote after it go together |
| CleaningExamples.CleanCategoryOfDash | app.py:29-30 | `clean_category("—")` is "—" |
| CleaningExamples.DashIsKept | app.py:23-26 | `clean_val("—")` is "—" |
| CleaningExamples.QuoteBeforeLineBreakSurvives | app.py:32 | for `a"b` + line break + `c`, the quote survives: the pattern cannot match at a quote that a later line break follows |
| CleaningExamples.CleanCategoryOfCleanText | app.py:28-34 | a trimmed, non-missing value other than "—" goes straight to the category-text steps |
| CategoryIndex.RawCategories | app.py:261 | `dropna().unique()`: every present category exactly once, and nothing else |
| CategoryIndex.FirstIndex | app.py:261 | the position of the first occurrence of a value: it holds the value and no earlier position does |
| CategoryIndex.FirstIndexAppend | app.py:261 | appending a cell leaves the first occurrence of every earlier value in place and puts that of a new value at the end |
| CategoryIndex.RawCategoriesInOrder | app.py:261 | `unique()` keeps the order of first appearance: of two listed categories, the one listed first occurs first in the column |
| CategoryIndex.InsertSorted | app.py:262 | insertion into a strictly ascending list keeps it strictly ascending and adds exactly the new name |
| CategoryIndex.SortedIsDistinct | app.py:262 | a strictly ascending list has no repeated name |
| CategoryIndex.CleanedCats | app.py:262 | `cleaned_cats` is strictly ascending and free of duplicates, and it holds exactly the names other than "—" that some raw category is cleaned to |
| CategoryIndex.SortedListUnique | app.py:262 | two strictly ascending lists with the same names are equal, so `cleaned_cats` is the only list with these properties |
| CategoryIndex.RawsNamed | app.py:263-265 | the raw categories, in input order, whose cleaned name is the given one: a raw category is listed exactly when it is present and has that name |
| CategoryIndex.RawsNamedAppend | app.py:263-265 | one more raw category extends exactly the group of its own name |
| CategoryIndex.GroupsStep | app.py:264-265 | one `setdefault(...).append` step turns the map for the first `i` raw categories into the map for the first `i + 1`: every name looks up its raw categories in input order, and no key holds an empty list |
| CategoryIndex.CatToRaw | app.py:263-265 | `cat_to_raw` has a key exactly for each name some raw category is cleaned to ("—" included); each key maps to the list of the raw categories with that name, in input order |
| CategoryIndex.FilterNamesHaveRaws | app.py:262-265 | every raw category whose cleaned name is not "—" has that name offered in the filter box, and every offered name has at least one raw category |
| Session.Tracked | app.py:295-298 | the history grows by at most one entry, and by exactly one when the product differs from the last tracked one and the category is neither empty nor "—" |
| Session.TrackedRepeatIsIgnored | app.py:295-298 | tracking the same product twice in a row changes nothing the second time, whatever category is passed |
| Session.TrackedCleanCategory | app.py:292-297 | with the category from `clean_category`, the emptiness test never matters: a new product is recorded exactly when its category is not "—" |
| Session.TrackedKeepsHistoryClean | app.py:295-297 | tracking keeps every recorded category non-empty and not "—" |
| Session.SessionState.constructor | app.py:155-158 | a new session starts with an empty history and nothing tracked |
| Session.SessionState.Track | app.py:295-298 | the new history is `Tracked` of the old state, `last_tracked` becomes the chosen product, and recorded categories stay clean |
| Session.SessionState.ClearHistory | app.py:174-176 | the history is empty and nothing is tracked afterwards |
| Similarity.Neighbours | similarity_engine.py:17-24 | the candidates: every row other than the query that has the query's category, paired with its matrix entry |
| Similarity.FirstIsBest | similarity_engine.py:27-32 | the first entry of a top-n list ranks at or before every candidate |
| Similarity.TailIsTopN | similarity_engine.py:27-32 | after the first entry, a top-n list is the top-(n-1) list of the remaining candidates |
| Similarity.TopNUnique | similarity_engine.py:27-32 | two top-n lists of the same candidates are equal: the answer is fully determined by the candidates, their scores and the tie-break on catalog order |
| Similarity.SameCategory | similarity_engine.py:20 | the indices of the rows of the given category, each once, ascending, and no others |
| Similarity.Paired | similarity_engine.py:22-24 | each index paired with its entry in the query's matrix row; ascending indices give a list ordered by index |
| Similarity.InsertByScore | similarity_engine.py:27 | insertion adds exactly the new element: the result is a permutation of the list plus that element |
| Similarity.ConsRanked | similarity_engine.py:27-30 | a list is in ranking order exactly when its tail is and its head ranks before every later element |
| Similarity.ConsDescending | similarity_engine.py:27 | the same for the order by score alone |
| Similarity.InsertKeepsDescending | similarity_engine.py:27 | insertion keeps a list sorted by descending score |
| Similarity.InsertKeepsRanked | similarity_engine.py:27 | an element that precedes all others in catalog order is inserted after the higher scores and before the equal ones, so a ranked list stays ranked |
| Similarity.SortByScore | similarity_engine.py:27 | the sorted list is a permutation of the input |
| Similarity.SortKeepsOrder | similarity_engine.py:27 | the sort gives descending scores, and it is stable: on index-ordered input, equal scores stay in catalog order |
| Similarity.Without | similarity_engine.py:30 | an entry is kept exactly when it was present and is not the query row |
| Similarity.WithoutKeepsRanked | similarity_engine.py:30 | dropping the query keeps the ranking order |
| Similarity.Prefix | similarity_engine.py:32 | `scores[:n]`: the first `min(n, len)` entries |
| Similarity.RankedCard | similarity_engine.py:30-32 | a list in ranking order has no repetition, so it is as long as its set of elements |
| Similarity.PrefixIsTopN | similarity_engine.py:32 | the first `n` entries of a ranked list of all candidates form the top-n list |
| Similarity.NeighboursListed | similarity_engine.py:20-30 | after sorting and dropping the query, exactly the candidates remain |
| Similarity.OthersRanked | similarity_engine.py:20-30 | after sorting and dropping the query, the list holds exactly the candidates, in ranking order |
| Similarity.Ranking | similarity_engine.py:17-32 | the filter-pair-sort-drop-slice pipeline returns the top-`n` list of the candidates. It has `min(n, number of candidates)` entries and never the query row. Its entries share the query's category, have non-increasing scores and break ties by catalog order. Every candidate left out scores no higher than any returned one |
| Similarity.RankingNeighbours | similarity_engine.py:17-24 | every ranked entry is a valid row other than the query, of the query's category, carrying its matrix entry |
| Similarity.RankingOfScores | similarity_engine.py:22-32 | sorting the paired scores, dropping the query and slicing gives `Ranking`; every entry is a valid row of the query's category carrying its matrix entry |
| Similarity.ScoreCandidates | similarity_engine.py:22-24 | the loop pairs each candidate index with its entry in the query's matrix row, in order |
| Similarity.Records | similarity_engine.py:34-48 | the loop builds one record per ranked entry, in order, each the description of that entry's row with its score |
| Similarity.Describe | similarity_engine.py:36-47 | the record copies the row's name, image, brand, prices, rating and category and carries the given score; the description is the row's description trimmed, and empty when absent |
| Similarity.SimilarityEngine.constructor | similarity_engine.py:6-14 | the engine holds the given catalog and a square score matrix over it |
| Similarity.SimilarityEngine.GetSimilarProducts | similarity_engine.py:16-50 | the records are those of `Ranking`, in order. There are `min(top_n, number of candidates)` of them, each with the query's category and its unrounded matrix entry as score; `top_n` defaults to 5. The method has no `modifies` clause, so it changes nothing |

## Left out

- Matrix construction (similarity_engine.py:7-14) is left out: reading the CSV, TF-IDF vectorisation and cosine similarity are library calls on floating point. The constructor takes the catalog and the score matrix as given.
- Similarity.SimilarityEngine.GetSimilarProducts: the score in each record is the unrounded matrix entry, because `round(score, 3)` is floating-point rounding. Scores are modelled as exact reals.
- Similarity.SimilarityEngine.GetSimilarProducts: requires `0 <= index < N` and `top_n >= 0`. Python would wrap a negative index, slice from the end for a negative `top_n`, and raise `IndexError` for an index past the end. These are out of scope.
- Similarity: categories are plain strings. A NaN category, which is unequal to itself in pandas, is not modelled.
- Similarity.Describe: a NaN description cell is not modelled. pandas would turn it into the text "nan". An absent description column gives the empty text.
- Cleaning.CleanCategoryQuoteFree: the no-quote guarantee is stated only for values without a line break. With a line break after a quote, the pattern `["'].*$` does not match at that quote and the quote survives (`CleaningExamples.QuoteBeforeLineBreakSurvives`).
- Cleaning.CutAtQuote: its contract describes the result only for text without a line break. For other text the function still computes Python's result, but no property of it is stated.
- Text.Lower: lower-cases ASCII only. Python's `lower` covers all of Unicode, but this cannot change the comparison with "nan", "none", "" and "n/a": the only non-ASCII characters that lower-case to ASCII letters are U+212A (to "k") and U+0130 (to "i" and a combining dot), and neither can form one of those words.
- `clean_price`, `format_price`, the price and star formatting, `img_box`, the HTML and CSS, and all charts (app.py:36-59, 61-256, 333-368, 380-539) are left out: they are float parsing and presentation.
- The Streamlit widgets, the `st.session_state` plumbing, the cached engine singleton (app.py:146-151) and the `Counter` analytics of the sidebar (app.py:164-173) are left out as UI and library code. Only the two-field tracking rule and its reset are modelled.
- The text search on product names (app.py:277-278) and the catalog filtering by `isin` (app.py:276) are left out as pandas queries. `CategoryIndex.FilterNamesHaveRaws` states what the filter relies on.
- `clean_data.py` is not part of this model. It is an ETL script, and its one piece of logic, the first `>>` segment, is covered by `Cleaning.FirstSegment`.
- Python's `dict` and `set` iteration order is not modelled. `cat_to_raw` is a map, and `cleaned_cats` is defined by its sorted order, which does not depend on iteration order.
