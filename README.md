# Open Food Facts product scraper — a verified model

`scraping_OFF_dict.py` harvests product records from the French Open Food Facts
site. Each listing page `https://fr.openfoodfacts.org/<n>` links to products. For
each product page the script builds one record, a Python `dict`, from six
sections of `div#main_column`:

- the identity block: name, barcode and eco-score;
- the characteristics rows, whose labels are mapped to column names;
- the ingredients block: a tokenized ingredient list, additives, palm oil,
  allergens, analysis badges and the NOVA group;
- four nutrient label pairs;
- the twelve comparison rows of the nutrition table;
- the environmental impact table.

A batch loop hands consecutive ranges of listing pages to worker threads. Each
worker saves its records to its own CSV file when it has any.

The model has one module per part of the script:

- `Text`: Python's `strip`, `split`, `replace` and `str()`.
- `Records`: the record type, `dict.update` and `get_list_of_items`.
- `Columns`, `Identity`, `Characteristics`, `Tokenizer`, `Ingredients`,
  `Nutrition`, `Comparison`, `Impact`: the extractors.
- `Assembly`: `get_product`.
- `Harvest`: the page and range loops.
- `Scheduler`: the batch loop and the worker threads.

The HTML tree is replaced by datatypes that hold what each extractor reads. Every
BeautifulSoup lookup that can fail (a missing tag, a missing attribute, a `None`
sibling) is an `Option` or a small sum type. The source catches such exceptions
in each extractor's `try` and returns the dict built so far; the model does the
same, so an extraction stops there with what it has stored.

Each extractor is written twice:

- a specification function on values (`Identity`, `Characteristics`,
  `Ingredients`, `Nutrition`, `PercentDifference`, `Impact`, `Product`,
  `AllProducts`);
- a method that fills the dict one assignment at a time, as the source does,
  proved equal to that function.

The properties are lemmas about the functions. They cover which keys can appear,
when each key appears, the value it holds, last-write-wins merging, early stops,
the tokenizer round trip, the page order of the harvest, and the disjointness and
coverage of the workers' page ranges.

## Model

| member | source | states |
|---|---|---|
| Text.Strip | scraping_OFF_dict.py:155 | `str.strip()`: the result has no leading or trailing whitespace, a text already trimmed is returned unchanged, and every character of the result is in the input |
| Text.StripIsSlice | scraping_OFF_dict.py:155 | the stripped text is a contiguous slice of the input, with only whitespace cut before and after it |
| Text.IndexOf | scraping_OFF_dict.py:113 | the search behind `split`: the first position where the separator occurs, with no occurrence before it, or none anywhere |
| Text.SplitOn | scraping_OFF_dict.py:113 | `str.split(sep)`: at least one piece; exactly `[s]` when `s` holds no separator; at least two pieces otherwise |
| Text.SplitJoin | scraping_OFF_dict.py:113 | joining the pieces of `split(sep)` with `sep` gives the text back |
| Text.SplitPiecesFree | scraping_OFF_dict.py:113 | no piece of `split(sep)` contains the separator |
| Text.SplitFirstField | scraping_OFF_dict.py:192 | `split(sep)[0]` is the prefix before the first separator, or the whole text when there is none |
| Text.SplitSecondField | scraping_OFF_dict.py:113 | when the separator occurs, `split(sep)[1]` starts just after its first occurrence and ends at the next one or at the end |
| Text.RemoveAll | scraping_OFF_dict.py:305-306 | `str.replace(pat, '')`: no longer than the input, no new characters, a one-character pattern is gone, and a text without the pattern is unchanged |
| Text.RemoveAllSplit | scraping_OFF_dict.py:305-306 | `s.replace(pat, '')` equals `''.join(s.split(pat))`: the text between the occurrences of `pat` is kept, in order, and only the occurrences are removed |
| Text.IntToString | scraping_OFF_dict.py:34 | `str(n)`: non-empty, starts with a digit for `n >= 0` and with `-` otherwise |
| Text.ParseNatToString | scraping_OFF_dict.py:34 | reading the digits of `str(n)` back gives `n` |
| Text.IntToStringInjective | scraping_OFF_dict.py:34 | different integers have different decimal texts |
| Records.Cleaned | scraping_OFF_dict.py:105 | `strip().replace('\xa0', '')` leaves no non-breaking space and adds no characters |
| Records.ListOfItems | scraping_OFF_dict.py:151-159 | one stripped text per tag, in order |
| Records.MergeAll | scraping_OFF_dict.py:54-88 | successive `update`s keep every key of every part |
| Records.MergeAllPrefix | scraping_OFF_dict.py:54-88 | merging one more part is one more `update` |
| Records.MergeAllKeys | scraping_OFF_dict.py:54-88 | every key of the merge comes from some part |
| Records.MergeAllLatest | scraping_OFF_dict.py:54-88 | last write wins: a key holds the value of the last part that has it |
| Columns.ColumnName | scraping_OFF_dict.py:339-386 | each of the fifteen recognised labels becomes its column name, and any other label is kept as it is |
| Columns.LinkColumn | scraping_OFF_dict.py:339-386 | only the manufacturer-link label, or a label that is literally `link`, becomes the `link` column |
| Identity.EcoScore | scraping_OFF_dict.py:111-113 | an eco-score exists exactly when there are more than two badges and the third has an `alt` holding a space |
| Identity.Identity | scraping_OFF_dict.py:99-120 | only `name`, `bar_code` and `eco_score`; each key is present exactly when its tag is; name cleaned, barcode as read, and the eco-score is the badge rule's value |
| Identity.EcoScoreIsSecondWord | scraping_OFF_dict.py:113 | the eco-score is the word after the first space of the `alt`: it holds no space and ends at the next space or at the end |
| Identity.ExtractIdentity | scraping_OFF_dict.py:99-120 | the assignments of the source build exactly `Identity` |
| Characteristics.LinkTexts | scraping_OFF_dict.py:140 | the texts of the row's links, in order |
| Characteristics.FieldNames | scraping_OFF_dict.py:133 | each row's column is its label without `"\xa0:"`, stripped and mapped by `get_column_name` |
| Characteristics.RowValue | scraping_OFF_dict.py:134-140 | a row without links stores its stripped sibling text, or raises when there is none; the `link` row stores its first link's `href`, or raises; any other row stores its links' stripped texts |
| Characteristics.DescriptionPart | scraping_OFF_dict.py:127-129 | `generic_name` is present exactly when the description span is, and holds its cleaned text |
| Characteristics.StoreRowsStep | scraping_OFF_dict.py:132-140 | a readable first row is stored and the loop goes on; an unreadable one ends it |
| Characteristics.StopsAtUnreadableRow | scraping_OFF_dict.py:132-143 | an unreadable row ends the loop: the result is that of the rows before it |
| Characteristics.StoredKeys | scraping_OFF_dict.py:132-140 | every column is `generic_name` or the column of some row |
| Characteristics.StoredWhenReadable | scraping_OFF_dict.py:132-140 | when every row is readable, every row's column is present |
| Characteristics.KeptAfter | scraping_OFF_dict.py:132-140 | a stored column stays stored: later rows only overwrite it |
| Characteristics.LastRowWins | scraping_OFF_dict.py:132-140 | when every row is readable, a column holds the value of the last row with that column |
| Characteristics.Untouched | scraping_OFF_dict.py:132-140 | a column that no row has keeps its earlier value |
| Characteristics.CharacteristicsKeys | scraping_OFF_dict.py:123-147 | the record's keys are among `generic_name` and the rows' columns |
| Characteristics.ReadRow | scraping_OFF_dict.py:134-140 | the branches of one row compute `RowValue` |
| Characteristics.ExtractCharacteristics | scraping_OFF_dict.py:123-147 | the loop with one dict assignment per row builds exactly `Characteristics` |
| Tokenizer.SepLen | scraping_OFF_dict.py:168 | a match of the pattern is one character, or two for `", "`, and lies inside the text |
| Tokenizer.NextSep | scraping_OFF_dict.py:168 | the leftmost match of the pattern, with none before it, or the end of the text |
| Tokenizer.Pieces | scraping_OFF_dict.py:168 | `re.split` gives at least one piece |
| Tokenizer.PiecesCount | scraping_OFF_dict.py:168 | `re.split` gives one piece more than there are matches |
| Tokenizer.SeparatorsShape | scraping_OFF_dict.py:168 | every consumed separator is `", "`, `.`, `(`, `)` or `;` |
| Tokenizer.PiecesRebuild | scraping_OFF_dict.py:168 | the pieces interleaved with the matched separators spell the text again |
| Tokenizer.PiecesSepFree | scraping_OFF_dict.py:168 | no piece holds a match of the pattern |
| Tokenizer.SepFreeChars | scraping_OFF_dict.py:168 | a piece without a match has no `.`, `(`, `)`, `;` and no `", "` |
| Tokenizer.NonEmpty | scraping_OFF_dict.py:168-169 | `filter(lambda s: s, ...)`: a text is kept exactly when it is a non-empty piece, and all pieces are kept when none is empty |
| Tokenizer.NonEmptySingle | scraping_OFF_dict.py:168-169 | a single piece is kept exactly when it is non-empty |
| Tokenizer.NonEmptyConcat | scraping_OFF_dict.py:168-169 | the filter keeps order: filtering two runs of pieces one after the other gives the two filtered runs in the same order |
| Tokenizer.TokenShape | scraping_OFF_dict.py:168-169 | every ingredient token is non-empty and holds no separator |
| Tokenizer.PiecesOfJoin | scraping_OFF_dict.py:168 | splitting separator-free pieces joined by `", "` gives the same pieces |
| Tokenizer.TokenizeIdempotent | scraping_OFF_dict.py:168-169 | tokenizing the tokens joined by `", "` gives the same tokens, provided the joined text is already trimmed |
| Tokenizer.TokenizeNotIdempotent | scraping_OFF_dict.py:168-169 | without that proviso the round trip fails: `". b"` gives `[" b"]`, whose join gives `["b"]` |
| Ingredients.NovaScore | scraping_OFF_dict.py:190-193 | a NOVA group exists exactly when there are more than one badge and the second has an `alt` |
| Ingredients.NovaIsFirstField | scraping_OFF_dict.py:192-193 | the NOVA group is the prefix of the `alt` before its first `" - "`, or the whole `alt` when there is none |
| Ingredients.WithList | scraping_OFF_dict.py:171-178 | a labelled list is stored under its key when the label is there, and nothing changes otherwise |
| Ingredients.Ingredients | scraping_OFF_dict.py:162-200 | only the six ingredient keys; each is present exactly when its tag is there and no earlier step raised |
| Ingredients.IngredientValues | scraping_OFF_dict.py:166-193 | each stored key holds its value: the list holds the tokens of its text, the labelled lists, the allergens and the analysis hold their stripped link texts, and `nova_score` holds the badge rule's value |
| Ingredients.IngredientListTokens | scraping_OFF_dict.py:166-169 | whenever the list text is there, the stored list is its tokens (possibly none), and every ingredient is non-empty and separator-free |
| Ingredients.AnalysisStored | scraping_OFF_dict.py:187-188 | once both labelled lists were read, the analysis badges are stored, one stripped text per badge, in order |
| Ingredients.ExtractIngredients | scraping_OFF_dict.py:162-200 | the assignments of the source build exactly `Ingredients` |
| Nutrition.FindBold | scraping_OFF_dict.py:208 | `find('b', text=...)` finds a bold exactly when one has that text, and returns the first one in document order |
| Nutrition.ReadNutrient | scraping_OFF_dict.py:208-211 | an absent label adds nothing; the extraction goes on exactly when the label is absent or both its siblings can be read; only the nutrient's two columns are added |
| Nutrition.NutritionKeysBound | scraping_OFF_dict.py:203-233 | only the eight nutrient columns appear |
| Nutrition.ReadNutrientFrame | scraping_OFF_dict.py:208-211 | a nutrient block leaves every other column as it was |
| Nutrition.ReadNutrientOwn | scraping_OFF_dict.py:208-211 | a block read in full stores both of its columns exactly when its label is there |
| Nutrition.PairKept | scraping_OFF_dict.py:208-226 | a later block keeps the pair an earlier block stored |
| Nutrition.NutritionPairs | scraping_OFF_dict.py:203-233 | when every label found can be read, each nutrient's quantity and comment are stored exactly when its label is there |
| Nutrition.UnreadableQuantityStops | scraping_OFF_dict.py:208-210 | a fat label without a readable quantity leaves the record empty: the later nutrients are not read |
| Nutrition.OnlySalt | scraping_OFF_dict.py:223-226 | a block holding only `Sel` gives exactly the two salt columns |
| Nutrition.ExtractNutrient | scraping_OFF_dict.py:208-211 | one block as written computes `ReadNutrient` |
| Nutrition.ExtractNutrition | scraping_OFF_dict.py:203-233 | the four blocks in order build exactly `Nutrition` |
| Comparison.FindRow | scraping_OFF_dict.py:300 | `find('tr', attrs={'id': id})` returns the first row with that id, or none when no row has it |
| Comparison.FindCell | scraping_OFF_dict.py:302-308 | `find('td', attrs={'class': c})` returns the first cell whose classes match, or none when no cell matches |
| Comparison.ValueText | scraping_OFF_dict.py:305-306 | the value has no `\xa0`, is trimmed, and has no trace of a one-character unit |
| Comparison.DiffText | scraping_OFF_dict.py:311 | the difference has no `\xa0` and is trimmed |
| Comparison.ItemFromTable | scraping_OFF_dict.py:297-316 | only the row id and its `_diff` key can appear |
| Comparison.ItemFromTableCases | scraping_OFF_dict.py:297-316 | nothing for an absent row; the value exactly when the value cell is there; the difference exactly when the compare cell and its first child are there |
| Comparison.GramValueClean | scraping_OFF_dict.py:305-306 | with the default unit `g`, a stored value holds no `g` and no `\xa0` and is trimmed |
| Comparison.GramValueExamples | scraping_OFF_dict.py:302-306 | `"12 g"` and `"12\xa0g"` with unit `g` are both read as `"12"` |
| Comparison.Items | scraping_OFF_dict.py:241-285 | the contributions of the rows, one per row id, in the source's order and with its units |
| Comparison.PercentDifferenceKeys | scraping_OFF_dict.py:236-292 | every key is one of the twelve ids or its `_diff` key |
| Comparison.RowKeysDistinct | scraping_OFF_dict.py:241-285 | no key of one row is a key of another row |
| Comparison.PercentDifferenceInitial | scraping_OFF_dict.py:236-292 | every comparison key starts with `n` |
| Comparison.RowKept | scraping_OFF_dict.py:236-292 | each row keeps what `get_item_from_table` read for it: no other row overwrites it |
| Comparison.AbsentRowAddsNothing | scraping_OFF_dict.py:300-301 | a row id absent from the table contributes neither of its keys |
| Comparison.ItemFromTableMethod | scraping_OFF_dict.py:297-316 | the assignments of the source build exactly `ItemFromTable` |
| Comparison.GetPercentDifference | scraping_OFF_dict.py:236-292 | the twelve updates build exactly `PercentDifference` |
| Impact.ScoreAcv | scraping_OFF_dict.py:329 | a score exists exactly when the text after the table holds a colon; it is trimmed and has no colon |
| Impact.ScoreIsSecondField | scraping_OFF_dict.py:329 | the score is the stripped text between the first colon and the next colon or the end of the text |
| Impact.Impact | scraping_OFF_dict.py:319-336 | once every row was read, `Score_ACV` is added exactly when the text after the table has a colon; a row that stops the loop means no score |
| Impact.HeaderIgnored | scraping_OFF_dict.py:324 | the header row never contributes, whatever its cells |
| Impact.ShortRowStops | scraping_OFF_dict.py:324-326 | a row with fewer than two cells ends the loop with the rows before it |
| Impact.ShortRowLosesScore | scraping_OFF_dict.py:324-329 | a short row after the header means the record is the earlier rows only, without `Score_ACV` |
| Impact.Untouched | scraping_OFF_dict.py:324-326 | a key that no later row stores keeps its value |
| Impact.LastRowWins | scraping_OFF_dict.py:324-326 | with no short row, each row's first cell maps to its second cell, and a later row with the same first cell wins |
| Impact.AllLongGoes | scraping_OFF_dict.py:324-326 | with no short row the loop reaches the score |
| Impact.ExtractImpact | scraping_OFF_dict.py:319-336 | the loop over the row indices, then the score, builds exactly `Impact` |
| Assembly.Sections | scraping_OFF_dict.py:62-88 | the section records in merge order; a broken nutrition heading keeps only the first three |
| Assembly.BrokenHeadingKeys | scraping_OFF_dict.py:75-78 | with a broken nutrition heading, every key comes from identity, characteristics or ingredients |
| Assembly.ProductKeys | scraping_OFF_dict.py:51-96 | every key of a product comes from one of its sections |
| Assembly.NutritionNotComparison | scraping_OFF_dict.py:77-83 | no nutrition column is a comparison key |
| Assembly.NutritionSurvives | scraping_OFF_dict.py:77-88 | a nutrition column reaches the product unchanged unless the impact table has a row with the same name |
| Assembly.CharacteristicsOf | scraping_OFF_dict.py:65-67 | the characteristics part, when its heading is there |
| Assembly.IngredientsOf | scraping_OFF_dict.py:70-72 | the ingredients part, when its heading is there |
| Assembly.NutritionOf | scraping_OFF_dict.py:75-78 | the nutrition part, when its block can be searched |
| Assembly.ComparisonOf | scraping_OFF_dict.py:81-83 | the comparison part, when its table is there |
| Assembly.ImpactOf | scraping_OFF_dict.py:86-88 | the impact part, when its table is there |
| Assembly.GetProduct | scraping_OFF_dict.py:51-96 | the updates in order build exactly `Product`, stopping at a broken nutrition heading |
| Harvest.ItemUrl | scraping_OFF_dict.py:39 | the product URL starts with the host and ends with the relative link, with nothing in between |
| Harvest.ListingUrlInjective | scraping_OFF_dict.py:34 | different pages are fetched from different URLs |
| Harvest.LinkRecords | scraping_OFF_dict.py:38-42 | at most one record per link; record `i` is the product of link `i`, which has an `href` |
| Harvest.LinkRecordsStop | scraping_OFF_dict.py:38-44 | a link without `href` ends the page with exactly the records of the links before it |
| Harvest.LinkRecordsStep | scraping_OFF_dict.py:38-40 | a link with an `href` contributes its record before those of the later links |
| Harvest.LinkRecordsAll | scraping_OFF_dict.py:38-42 | when every link has an `href`, there is one record per link |
| Harvest.AllProductsStep | scraping_OFF_dict.py:17-19 | one more page appends that page's records |
| Harvest.AllProductsSplit | scraping_OFF_dict.py:17-19 | the records of pages `[a, c)` are those of `[a, b)` followed by those of `[b, c)` |
| Harvest.SinglePage | scraping_OFF_dict.py:17-19 | a range of one page gives exactly that page's records |
| Harvest.ProductsFromPage | scraping_OFF_dict.py:27-48 | the loop over the links builds exactly `PageProducts` |
| Harvest.GetAllProducts | scraping_OFF_dict.py:14-23 | the loop over the pages builds exactly `AllProducts` |
| Scheduler.WorkerFor | scraping_OFF_dict.py:420 | every worker covers `count` pages |
| Scheduler.NextChunk | scraping_OFF_dict.py:420-421 | the next worker of a batch starts where the previous one ends |
| Scheduler.NextBatch | scraping_OFF_dict.py:417-421 | a batch's first worker starts where the previous batch ends |
| Scheduler.SlotInjective | scraping_OFF_dict.py:417-421 | two scheduled workers share a slot only when they are the same worker |
| Scheduler.ChunksDisjoint | scraping_OFF_dict.py:417-421 | the page ranges of two different workers do not overlap |
| Scheduler.ChunksCover | scraping_OFF_dict.py:417-421 | every page from `first` to `first + batches * threads * count` belongs to some worker |
| Scheduler.IdsDistinct | scraping_OFF_dict.py:420 | the worker ids `nb_iter * th + i` are pairwise distinct |
| Scheduler.Worker163 | scraping_OFF_dict.py:413-421 | with the script's values, worker 163 is worker 3 of batch 7 and harvests pages 1021 to 1040 |
| Scheduler.Schedule | scraping_OFF_dict.py:413-421 | `nb_iter - 1` batches of `nb_threads` workers, worker `th` of batch `i` as the inner loop creates it, and the final cursor past every range |
| Scheduler.LastCursor | scraping_OFF_dict.py:417-421 | after the last batch the cursor stands past all handed-out ranges |
| Scheduler.OutputPathInjective | scraping_OFF_dict.py:405 | different workers write different files |
| Scheduler.RunWorker | scraping_OFF_dict.py:399-407 | a worker saves its range's records to its own file exactly when there is at least one record |

## Left out

- HTTP requests and HTML parsing are left out. `Harvest.Site` gives, for each URL, what the extractors read from that page.
- The pre-parse `.replace("\n", "").replace("\t", "")` clean-up of the page text is left out. The datatypes hold texts as the extractors receive them.
- Timing, `print` and the `nb_pdt` counter are left out. They do not affect any record.
- The "unknown label" message of `get_column_name` is not modelled.
- `Text.Strip` uses a fixed set of whitespace characters: space, `\t`, `\n`, `\r`, `\x0b`, `\x0c` and `\xa0`. Python's `strip` removes every Unicode whitespace character.
- Threads are left out, including start, join and any concurrency. `Scheduler.Schedule` gives the workers of each batch in creation order, and `Scheduler.RunWorker` gives one worker's run.
- Writing the CSV (`pandas.DataFrame.to_csv`) is left out. `Scheduler.RunWorker` returns the file path and the records it would write.
- BeautifulSoup's `find` by `class` is modelled as: a cell matches when the class is one of its classes, or when it equals all of its classes joined by spaces.
- Comparison.GetPercentDifference: the source spells out twelve `update` calls. The model runs one loop over the twelve row ids and units.
- Tokenizer.TokenizeIdempotent: the round trip holds only when the joined tokens are already trimmed. `Tokenizer.TokenizeNotIdempotent` shows that the unconditional form is false.
- Text.RemoveAll: its own contract gives bounds only. The exact text is stated by `Text.RemoveAllSplit`.
- Impact.ScoreAcv: its own contract gives the shape of the score only. Which text it is is stated by `Impact.ScoreIsSecondField`.
- Text.SplitOn: for a text that contains the separator, the contract states only "at least two pieces". The exact pieces are stated by `Text.SplitJoin`, `Text.SplitPiecesFree`, `Text.SplitFirstField` and `Text.SplitSecondField`.

Two counts the code fixes:

- The comparison reads twelve row ids (lines 241-285).
- The batch loop `range(1, nb_iter)` runs `nb_iter - 1` batches (line 417), so the ranges cover `(nb_iter - 1) * nb_threads * count` pages.
