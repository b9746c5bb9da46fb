# Crosswalk matching engine

This project is a model of the matching engine of the EnableNSW-to-NDIS crosswalk analyser, the class `CrosswalkAnalyzer` of `crosswalk.py`. The analyser maps each source row (an EnableNSW category, subcategory and optional description of assistive-technology equipment) onto an item of the NDIS support catalog. It works in these steps:

- It validates the catalog table. Column roles are resolved by alias, or by content heuristics when no alias is present. Rows without an item number or name are dropped, and defaults are filled in.
- It tries the keyword rules in declaration order. The first rule with a keyword present in the row's text binds the row to the first catalog item whose category or name that rule's filter accepts.
- When no rule binds the row, it falls back to approximate matching. Every catalog text is scored against the cleaned row text, and the best of the top three that reach the confidence threshold is bound.
- It classifies each match into one of three confidence tiers.
- Optionally, it attaches a repair/maintenance code.
- It rolls the records up into a per-category pivot summary.

The modules follow the source's components:

| module | file | contents |
|---|---|---|
| `Base` | `base.dfy` | `Option`, `Result`, cells (a value or NaN), and sequence lemmas |
| `Text` | `text.dfy` | `clean_text` and `extract_keywords` |
| `Rules` | `rules.dfy` | the rule table, `rule_based_matching`, `determine_confidence_level` |
| `Catalog` | `catalog.dfy` | `validate_ndis_data` and `identify_columns_by_content`; the functions specify them and the methods carry out their loops |
| `Fuzzy` | `fuzzy.dfy` | `fuzzy_matching`; the similarity scorer is a parameter |
| `Records` | `records.dfy` | the record of one row, the lookups by position and by label, and `find_repair_code` |
| `Summary` | `summary.dfy` | `generate_pivot_summary` |
| `Crosswalk` | `analyzer.dfy` | `run_crosswalk` as a function with its properties, and the class `Analyzer` |

The class `Analyzer` holds the analyser's settings as fields and carries its loops as methods. Each method is proved to compute the function that specifies it.

## Model

| member | source | states |
|---|---|---|
| Text.CleanText | crosswalk.py:88-102 | defines `clean_text`: NaN gives the empty text; otherwise lower-case, replace every character other than a word character, whitespace or hyphen by a space, collapse whitespace runs to one space, strip |
| Text.Scrub | crosswalk.py:97 | defines `re.sub(r'[^\w\s\-]', ' ', ...)`: every character other than a word character, whitespace or hyphen becomes a space |
| Text.Collapse | crosswalk.py:100 | defines `re.sub(r'\s+', ' ', ...)`: every maximal whitespace run becomes one space |
| Text.Strip | crosswalk.py:102 | defines `str.strip()`: the text without leading and trailing whitespace |
| Text.CleanTextIsClean | crosswalk.py:88-102 | every output of `clean_text` is clean: lower case, only word characters, spaces and hyphens, with no leading, trailing or doubled space; a NaN input gives the empty text |
| Text.CleanTextFixpoints | crosswalk.py:88-102 | `clean_text` leaves a text unchanged exactly when the text is already clean |
| Text.CleanTextIdempotent | crosswalk.py:88-102 | cleaning a cleaned text changes nothing |
| Text.CleanFixed | crosswalk.py:94-102 | each step (lower, scrub, collapse, strip) leaves a clean text as it is |
| Text.CollapseNoRuns | crosswalk.py:100 | collapsing whitespace leaves no run of two spaces; the result is empty only for empty input, and starts with a space exactly when the input starts with whitespace |
| Text.CollapseFixed | crosswalk.py:100 | a text without whitespace runs is unchanged by the collapse |
| Text.StripTrimmed | crosswalk.py:102 | `strip()` yields a text with no whitespace at either end, and a trimmed text is its own strip |
| Text.DropSpaces | crosswalk.py:102 | the left strip removes exactly the leading whitespace run: the result is a suffix that does not start with whitespace |
| Text.TrimEnd | crosswalk.py:102 | the right strip removes exactly the trailing whitespace run |
| Text.TakeToken | crosswalk.py:111 | a token is the longest prefix without whitespace, and it is non-empty when the text starts with a non-space |
| Text.Words | crosswalk.py:111 | every word `split()` returns is a non-empty token without whitespace |
| Text.WordsOfJoin | crosswalk.py:111 | splitting the space-join of tokens gives the tokens back |
| Text.JoinOfWords | crosswalk.py:111 | joining the words of a clean text with single spaces gives the text back |
| Text.WordsCons | crosswalk.py:111 | a token followed by whitespace or the end of the text is the first word |
| Text.ExtractKeywords | crosswalk.py:104-114 | defines `extract_keywords`: the words of the cleaned text, filtered by `Text.KeepKeywords` |
| Text.KeepKeywords | crosswalk.py:112 | defines the list comprehension: the words not among the stop words and longer than two characters, in order |
| Text.KeepKeywordsSpec | crosswalk.py:109-112 | the filter keeps, in order, exactly the tokens longer than two characters that are not stop words, each as often as it occurs |
| Text.ExtractKeywordsSpec | crosswalk.py:104-114 | the keywords are an in-order sub-list of the cleaned text's words, each is a keyword token, and each keyword occurs as often as in the words |
| Rules.DefaultRules | crosswalk.py:21-86 | defines the rule table: each rule's name, keywords, target category and tier, in declaration order |
| Rules.MatchText | crosswalk.py:232 | defines the text the rules test: the subcategory, a space and the description, lower-cased |
| Rules.TierLabelsDistinct | crosswalk.py:292-298 | the three tier labels are pairwise different |
| Rules.ContainsOccurs | crosswalk.py:238 | `in` on strings holds exactly when the keyword occurs at some position |
| Rules.Contains | crosswalk.py:238 | defines Python's `keyword in text`: raw substring containment |
| Rules.FoundKeywords | crosswalk.py:236-239 | defines the keywords of one rule present in the text, in declared order |
| Rules.MatchOf | crosswalk.py:242-249 | defines the match a firing rule returns: its name, category, tier, found keywords and score 95 |
| Rules.FoundKeywordsSpec | crosswalk.py:236-239 | the keywords found are the rule's keywords present in the text, in declared order; some are found exactly when some keyword is present |
| Rules.FirstRuleMatch | crosswalk.py:229-251 | defines `rule_based_matching`: the match of the first rule, in table order, with some keyword in the text, or none |
| Rules.FirstRuleMatchSpec | crosswalk.py:229-251 | no match exactly when no rule fires; otherwise the match of the earliest-declared firing rule, with a non-empty list of keywords all present, and score 95 |
| Rules.MatchOfFiring | crosswalk.py:243-249 | a firing rule's match keeps the rule's tier and an in-order non-empty sub-list of its keywords, and scores 95 |
| Rules.PrefixKeywordExample | crosswalk.py:232-238 | an illustration of `Rules.ContainsOccurs`: containment is by raw substring, so the keyword "power" fires on "Powered chairs" |
| Rules.ConfidenceMonotone | crosswalk.py:288-298 | a higher score never gives a lower tier, and a rule-based origin never gives a lower tier than an approximate one |
| Rules.ConfidenceLevel | crosswalk.py:288-298 | defines `determine_confidence_level`: High for a rule-based match; otherwise High from 90, Best-fit from 75, Review below |
| Rules.ConfidenceBands | crosswalk.py:288-298 | rule-based is always High; otherwise High iff score ≥ 90, Best-fit iff 75 ≤ score < 90, Review iff score < 75 |
| Catalog.IndexFrom | crosswalk.py:116-193 | finds the first column carrying a name, or reports that none does |
| Catalog.AliasFrom | crosswalk.py:150-153 | finds the first column whose stripped name is an alias, and no earlier one is |
| Catalog.AliasFromFirst | crosswalk.py:150-153 | the search stops at the first aliased column |
| Catalog.AliasStep | crosswalk.py:149-153 | defines one role of the renaming loop: the first column whose stripped name is an alias is renamed to the canonical name |
| Catalog.AliasedHeader | crosswalk.py:149-153 | defines the header after every role's renaming step, in the declared role order |
| Catalog.RenameAll | crosswalk.py:152 | `rename` renames every column with the old name and no other |
| Catalog.AliasStepSpec | crosswalk.py:150-153 | one role's step renames the first aliased column, and only columns sharing its name, to the role's name |
| Catalog.AliasStepNone | crosswalk.py:150-153 | without an alias of the role in the header, the step changes nothing |
| Catalog.ResolveStep | crosswalk.py:149-153 | the renaming loop handles the roles one after another, in dict order |
| Catalog.RolesInOrder | crosswalk.py:120-138 | the five roles in their declared order |
| Catalog.NumberColFacts | crosswalk.py:120-138 | "Support_Item_Number" is an item-number alias and no alias of a later role |
| Catalog.NameColFacts | crosswalk.py:125-138 | "Support_Item_Name" is an item-name alias and no alias of a later role |
| Catalog.CanonicalFacts | crosswalk.py:120-138 | both canonical names resolve to their own roles only |
| Catalog.NameAliasesDisjoint | crosswalk.py:121-128 | no item-name alias is an item-number alias |
| Catalog.LastStepsKeep | crosswalk.py:149-153 | the category, description and price steps keep an item-number or item-name column |
| Catalog.LastStepsAbsent | crosswalk.py:149-153 | those steps never introduce an item-number or item-name column |
| Catalog.AliasResolvesRequired | crosswalk.py:149-157 | after renaming, there is an item-number column iff some column's stripped name is an item-number alias, and likewise for the item name |
| Catalog.NumberResolves | crosswalk.py:149-157 | the item-number half of the previous row |
| Catalog.NameResolves | crosswalk.py:149-157 | the item-name half of the previous row |
| Catalog.DescriptionClaimedByName | crosswalk.py:126-134 | a column named "Description" becomes the item-name column when no earlier column has an item-name alias |
| Catalog.AliasedCatalogValidates | crosswalk.py:156-166 | with aliases for both required roles, the content fallback is skipped and validation succeeds, under either guard of the name search |
| Catalog.Sample | crosswalk.py:204 | the sample holds at most ten values |
| Catalog.LeadingDigits | crosswalk.py:206-207 | counts exactly the leading ASCII digits |
| Catalog.CodeLike | crosswalk.py:206-207 | defines the code pattern: digits, an underscore and digits, or at least two leading digits |
| Catalog.Descriptive | crosswalk.py:217-221 | defines a descriptive column: its sampled values average more than ten characters |
| Catalog.MissingRequired | crosswalk.py:156-157 | defines the required columns absent from the header, item number first |
| Catalog.CodeColumnFrom | crosswalk.py:203-211 | finds the first column whose sample is more than half code-like, and no earlier one is |
| Catalog.Considered | crosswalk.py:216 | defines the name-search guard: as written (`skipCode` false) it skips no column; the intended guard skips the item-number column |
| Catalog.NameColumnFrom | crosswalk.py:213-222 | finds the first considered descriptive column, with every earlier considered column having values and not being descriptive; an empty sample on the way is a division-by-zero error naming that column |
| Catalog.NameSearchReaches | crosswalk.py:213-222 | the name search stops at the first considered descriptive column |
| Catalog.RenameFound | crosswalk.py:224-225 | a column is renamed only when one was found under a truthy name, and then every column with that name |
| Catalog.RenameFoundRemoves | crosswalk.py:224-225 | after the rename, no column keeps the found column's old name |
| Catalog.ContentFallback | crosswalk.py:195-227 | keeps the header's width; its only failure is the empty-sample error |
| Catalog.FallbackNumber | crosswalk.py:198-211 | a missing item number alone is searched by code pattern, and the column found is renamed |
| Catalog.FallbackName | crosswalk.py:213-225 | a missing item name alone is searched by text length, and the column found is renamed |
| Catalog.FallbackBoth | crosswalk.py:198-225 | with both missing, the item number is searched first, on the original header |
| Catalog.Resolve | crosswalk.py:156-161 | defines the header after the content fallback for the missing required roles, under a given name-search guard; unchanged when none is missing |
| Catalog.ResolvedHeader | crosswalk.py:149-161 | defines the header after alias resolution and then the content fallback |
| Catalog.NumberReclaimed | crosswalk.py:213-225 | defines the case where the name search renames a column holding the item number: the item name is missing and the first descriptive column considered is the item-number column |
| Catalog.NameSearchReclaimsCodeColumn | crosswalk.py:216 | as written, the name search can rename the just-found code column again, leaving no item-number column |
| Catalog.AliasedNumberReclaimed | crosswalk.py:213-225 | as written, when the item name is missing and the first descriptive column is the item-number column found by its alias, the fallback renames it and no item-number column is left |
| Catalog.ReclaimedExample | crosswalk.py:213-225 | as written, the catalog with header `Support_Item_Number`, `Title` and the one row `05_122203151_0103_1_2`, `Wheelchair seat cushion` fails validation for a missing item number |
| Catalog.ProbeIntended | crosswalk.py:213-225 | with the intended guard, the same catalog resolves to the item-number and item-name columns |
| Catalog.NumberKeptNameFound | crosswalk.py:213-225 | with the intended guard, an item-number column and a descriptive second column resolve to the item number and the item name |
| Catalog.PlainPairResolved | crosswalk.py:149-153 | a step of `Catalog.ReclaimedExample`: alias resolution leaves the item-number column and a column no role knows as they are |
| Catalog.TitleNoAlias | crosswalk.py:120-138 | a step of `Catalog.ReclaimedExample`: "Title" is no alias of any role |
| Catalog.SingleRowDescriptive | crosswalk.py:218-221 | a step of `Catalog.ReclaimedExample`: a column whose one row holds more than ten characters is descriptive |
| Catalog.CodeColumnKept | crosswalk.py:216 | with the intended guard, the code column found stays the item-number column |
| Catalog.ResolveKeepsNumber | crosswalk.py:213-225 | with the intended guard, an existing item-number column survives the content fallback |
| Catalog.ResolveFindsNumber | crosswalk.py:213-225 | with the intended guard, a named code-like column found by the fallback becomes, and stays, the item-number column |
| Catalog.ResolveWithoutNumber | crosswalk.py:156-161 | under either guard, without an item-number column or a named code-like column, the fallback produces none |
| Catalog.WithNumber | crosswalk.py:201-211 | the header once the code-pattern search has run: its width is the header's |
| Catalog.ResolveNameMissing | crosswalk.py:156-225 | as written, with the item name missing, the fallback runs the name search on the header once it has its item-number column |
| Catalog.ResolveNamePresent | crosswalk.py:156-211 | as written, with the item name present, the fallback only runs the code-pattern search |
| Catalog.NameStepAsWritten | crosswalk.py:213-225 | as written, after the item-number search, the item-number column is lost exactly when the item name is missing and the name search picks that column |
| Catalog.ResolveLosesNumber | crosswalk.py:156-161 | as written, a successful fallback leaves no item-number column only when none could be had or the name search reclaimed it, and always when it reclaimed it |
| Catalog.NoItemNumberIff | crosswalk.py:149-211 | no item-number column can be had exactly when neither an alias nor the code-pattern search provides one |
| Catalog.MissingNumberCauses | crosswalk.py:156-166 | as written, validation reports a missing item number only when none can be had or the name search reclaimed it, and always when it reclaimed it |
| Catalog.MissingNumberOnlyWhenNone | crosswalk.py:213-225 | with the intended guard, validation reports a missing item number only when no item-number column can be had |
| Catalog.NoneFails | crosswalk.py:164-166 | under either guard, when no item-number column can be had, validation fails |
| Catalog.ValidatedMissingNumber | crosswalk.py:164-166 | validation reports a missing item number exactly when the resolution succeeds without an item-number column |
| Catalog.RowItem | crosswalk.py:169-191 | defines one raw row after cleaning: dropped when the trimmed item number or name is empty or "nan"; otherwise the item with its row label, the trimmed values, and the `Category`, `Description` and `Unit_Price` cells or their defaults "Unknown", the item name and "0" |
| Catalog.RowItemSpec | crosswalk.py:169-191 | a row survives iff its trimmed number and name are non-empty and not "nan"; the item carries those values, its row label, and the optional columns or their defaults "Unknown", the name and "0" |
| Catalog.MissingIsInvalid | crosswalk.py:169-179 | a NaN cell reads "nan" and is filtered, so the `dropna` adds nothing |
| Catalog.TrimIsTrimmed | crosswalk.py:172-173 | trimmed cell text has no whitespace at either end |
| Catalog.CleanedRows | crosswalk.py:169-191 | one cleaned entry per raw row |
| Catalog.Survivors | crosswalk.py:169-179 | defines the rows the filters keep, in their original order |
| Catalog.SurvivorsNext | crosswalk.py:176-179 | a kept row's item is appended, and a dropped row adds nothing |
| Catalog.SurvivorsOrdered | crosswalk.py:176-179 | the survivors keep row order, and each is the cleaned row its label names |
| Catalog.SurvivorsComplete | crosswalk.py:176-179 | a row is among the survivors exactly when cleaning keeps it |
| Catalog.CleanedCatalog | crosswalk.py:169-191 | cleaning lists, in row order and each once, exactly the rows passing the filters, with their trimmed values and labels |
| Catalog.ValidatedWith | crosswalk.py:116-193 | defines validation under a given name-search guard: alias resolution, the content fallback, the required-column check, then cleaning |
| Catalog.Validated | crosswalk.py:116-193 | defines `validate_ndis_data` as written: `Catalog.ValidatedWith` with the guard that skips nothing |
| Catalog.ValidatedIntended | crosswalk.py:216 | defines validation with the intended guard |
| Catalog.ValidatedRows | crosswalk.py:116-193 | under either guard, a validated catalog is that cleaned list under the resolved header |
| Catalog.ValidatedIsCleaned | crosswalk.py:116-193 | under either guard, validation is resolution followed by cleaning |
| Catalog.RenameFirstAlias | crosswalk.py:150-153 | the inner loop computes one role's renaming step |
| Catalog.StandardizeColumns | crosswalk.py:149-153 | the outer loop computes the aliased header |
| Catalog.FindCodeColumn | crosswalk.py:203-211 | the loop computes the code-pattern search |
| Catalog.FindNameColumn | crosswalk.py:213-222 | the loop computes the descriptive-text search, including its error |
| Catalog.IdentifyColumnsByContent | crosswalk.py:195-227 | the loop over the missing roles computes the content fallback under the given guard |
| Catalog.CategoryText | crosswalk.py:182-183 | defines whether pandas reads the `Category` column as text: absent (validation adds "Unknown"), no rows, or text in some raw row |
| Catalog.CatalogCategoryText | crosswalk.py:182-183 | defines `Catalog.CategoryText` of the header that validation as written resolves |
| Catalog.CategoryNotTextItems | crosswalk.py:169-183 | when the `Category` column has no text type, every validated item's category is NaN |
| Catalog.SurvivorsBlankCategory | crosswalk.py:169-183 | the same for the cleaned rows under a header: a `Category` column blank in every raw row leaves every survivor's category NaN |
| Catalog.RowItemCategory | crosswalk.py:182-183 | a kept row's item carries the row's `Category` cell, or "Unknown" when the column is absent |
| Catalog.ValidateCatalog | crosswalk.py:116-193 | computes validation as written, with the guard that skips nothing, including each error |
| Fuzzy.ItemText | crosswalk.py:259-262 | defines the text an item is compared by: the cleaned `f"{name} {description}"` |
| Fuzzy.QueryText | crosswalk.py:256-268 | defines the query: the cleaned `f"{subcategory} {description}"` |
| Fuzzy.Texts | crosswalk.py:259-262 | one text per catalog item, in catalog order |
| Fuzzy.ScoresOf | crosswalk.py:268-273 | one score per choice, the scorer's |
| Fuzzy.Insert | crosswalk.py:268-273 | insertion adds exactly the new choice |
| Fuzzy.Ranking | crosswalk.py:268-273 | the ranking lists each of the first n choices once |
| Fuzzy.InsertRanked | crosswalk.py:268-273 | insertion keeps the list ranked: higher score first, ties in choice order |
| Fuzzy.RankingRanked | crosswalk.py:268-273 | the full ranking is ranked |
| Fuzzy.Extract | crosswalk.py:266-271 | defines `process.extract(..., limit=3)`: the first three choices of the stable descending ranking |
| Fuzzy.ExtractSpec | crosswalk.py:268-273 | `extract(limit=3)` gives the min(3, n) best-ranked choices in ranking order, each ranking before every choice left out |
| Fuzzy.ExtractDescending | crosswalk.py:268-273 | the extracted scores do not increase |
| Fuzzy.ExtractBest | crosswalk.py:268-273 | the first extracted choice scores the highest of all |
| Fuzzy.CandidateAt | crosswalk.py:277-283 | defines one entry of `best_matches`: the row label of the first item with the matched text, the score and the text |
| Fuzzy.FirstWithText | crosswalk.py:279 | the position of the first item with the matched text |
| Fuzzy.CandidateAtSpec | crosswalk.py:279-284 | a candidate carries the choice's score and text, and the label of the first item with that text |
| Fuzzy.CandidateOfItem | crosswalk.py:259-284 | the same, stated for the catalog's texts and the scorer |
| Fuzzy.Passing | crosswalk.py:275-284 | defines `best_matches`: the extracted choices whose score reaches the threshold, in extraction order |
| Fuzzy.PassingPrefix | crosswalk.py:275-284 | over descending scores, the passing candidates are those before the first one below the threshold |
| Fuzzy.PassingCount | crosswalk.py:275-284 | a higher threshold never lets more through |
| Fuzzy.PassingExtracted | crosswalk.py:268-284 | at most three candidates, each at least the threshold, descending, the first the best of all |
| Fuzzy.FuzzyMatches | crosswalk.py:286 | a result that is not `None` is non-empty |
| Fuzzy.FuzzyNone | crosswalk.py:264-286 | `None` exactly when no item text scores at least the threshold, which includes the empty catalog |
| Fuzzy.FuzzyRanked | crosswalk.py:253-286 | one to three candidates, each at least the threshold, descending, the first scoring the highest of all items |
| Fuzzy.FuzzyCandidates | crosswalk.py:259-284 | each candidate names the row label of the first item with its text, and carries that text's score |
| Fuzzy.FuzzyBest | crosswalk.py:253-286 | the best candidate reaches the threshold, outscores or ties every item, and names the first item with its text |
| Fuzzy.FuzzyThresholdMonotone | crosswalk.py:277 | what passes a higher threshold is a prefix of what passes a lower one |
| Records.Unmapped | crosswalk.py:326-341 | defines the record a row starts from: the row's fields, nothing bound, tier Review, score 0, method "None" |
| Records.RuleCandidate | crosswalk.py:348-351 | defines the rule's catalog filter: the item's category contains the rule's category, or its name contains one of the found keywords, ignoring case |
| Records.NameHas | crosswalk.py:430-432 | defines the repair filter: the item's name contains the pattern, ignoring case |
| Records.RepairFrom | crosswalk.py:429-437 | defines the pattern loop: the code of the first item named by the earliest pattern that any name contains, or none |
| Records.RepairCode | crosswalk.py:421-439 | defines `find_repair_code`: none for a NaN item number; otherwise the pattern loop over "repair", "maintenance", "service" |
| Records.WithRepair | crosswalk.py:370-373 | defines the repair code attached to a bound record when the analyser is asked for one |
| Records.RuleRecord | crosswalk.py:353-371 | defines the record bound through a rule: the item's fields, the rule's tier, score 95, the found keywords joined by ", ", and the repair code when asked |
| Records.FuzzyRecord | crosswalk.py:384-400 | defines the record bound approximately: the item's fields, the tier the score decides, the score, the first three keywords of the subcategory, and the repair code when asked |
| Records.AfterRules | crosswalk.py:343-373 | defines the record after the rule stage: bound to the first item the firing rule's filter keeps, or the initial record |
| Records.BindCandidate | crosswalk.py:381-400 | defines the intended approximate binding: the item carrying the best candidate's row label |
| Records.FirstRuleItem | crosswalk.py:348-355 | the first catalog item the rule's filter keeps, and none before it is kept; the filter's failure on a `Category` column without text is `Records.RulesAsWritten` |
| Records.FirstNamed | crosswalk.py:430-437 | the first item whose name contains the pattern, ignoring case |
| Records.Iloc | crosswalk.py:382 | defines `iloc`: the item at a position, or none past the end (where pandas raises) |
| Records.Loc | crosswalk.py:382 | defines `loc`: the first item from a position on that carries the row label |
| Records.LocSpec | crosswalk.py:382 | label lookup finds an item iff one carries the label, and then the first one |
| Records.LocFinds | crosswalk.py:382 | with increasing labels, every item is found by its own label |
| Records.IlocMisbinds | crosswalk.py:382 | positional lookup by a label misses the item whenever label and position differ |
| Records.DroppedFirstRowShiftsLabels | crosswalk.py:382 | when validation drops row 0 and keeps row 1, positional lookup of the first item's label misses it |
| Records.IlocAgreesWhenNoneDropped | crosswalk.py:382 | when no row was dropped, positional and label lookup agree |
| Records.RepairFromSpec | crosswalk.py:428-439 | no code iff no pattern occurs in any name; otherwise the code of the first item named by the earliest pattern that occurs |
| Records.RepairFromNone | crosswalk.py:428-439 | the no-code half of the previous row |
| Records.RepairFromChoice | crosswalk.py:428-439 | the chosen-code half of the previous row |
| Records.RepairCodeSpec | crosswalk.py:421-439 | none for a NaN item number or when no name contains "repair", "maintenance" or "service"; otherwise the earliest pattern's first item; which non-NaN item number was given does not matter |
| Records.RepairPreferred | crosswalk.py:428-437 | a "repair" item wins over every "maintenance" or "service" item |
| Records.Bind | crosswalk.py:357-363 | defines the fields a binding copies from the item: number, name, category, description, price, and the source table or "Unknown" |
| Records.RuleRecordFields | crosswalk.py:353-373 | a rule-bound record keeps the row's fields, copies the item's, and carries the rule's tier, score 95, the found keywords joined by ", " and the repair code when asked |
| Records.FuzzyRecordFields | crosswalk.py:376-400 | an approximately bound record copies the item's fields, and carries the score, the tier the score decides, the first three keywords of the subcategory, and the repair code when asked |
| Records.RecordFor | crosswalk.py:326-402 | defines the intended record of one row: the rule stage, then for an unbound record the best approximate candidate looked up by label |
| Records.RecordForCases | crosswalk.py:343-402 | the rule stage first; the approximate stage only for a record the rules left unbound |
| Records.AfterRulesUnbound | crosswalk.py:343-373 | the rule stage leaves the record unbound iff no rule fires or the rule's filter keeps no item, and then the record is the initial one |
| Records.BindCandidateFound | crosswalk.py:381-400 | the best candidate binds the item carrying its label |
| Records.RuleMatchScore | crosswalk.py:243-249 | a rule-based match scores 95 |
| Records.RecordRuleBound | crosswalk.py:343-373 | a row whose first firing rule keeps an item is bound to the first such item, with the rule's tier, score 95, its keywords and the repair code when asked |
| Records.RecordFuzzyBound | crosswalk.py:375-400 | a row the rules leave unbound, with some text reaching the threshold, is bound approximately to a top-scoring item, with the tier its score decides |
| Records.RecordUnbound | crosswalk.py:326-402 | a row stays unmapped iff the rules bind nothing and no text reaches the threshold; it is then the initial record |
| Records.RecordShape | crosswalk.py:326-402 | every record keeps its row's fields; it is unmatched iff it names no item, and then has no catalog category or source table; a repair code only on a bound record when asked; rule-based scores 95; approximate scores at least the threshold, with its tier |
| Records.RecordThresholdAntitone | crosswalk.py:375-400 | lowering the threshold never unbinds or rebinds a row that was bound |
| Records.RulesAsWritten | crosswalk.py:343-373 | defines the rule stage as written: raises when a rule fires and the catalog's `Category` column has no text type; otherwise the record after the rule stage |
| Records.BindAtPosition | crosswalk.py:381-400 | defines the approximate binding as written: the item at the position given by the candidate's row label, or `IndexError` past the last item |
| Records.RowRecord | crosswalk.py:320-402 | defines the record of one row as `run_crosswalk` computes it, or the error it raises |
| Records.RowRecordAgrees | crosswalk.py:343-402 | with a text `Category` column and row labels equal to positions, the record as written is the record bound by label |
| Records.RowRecordFails | crosswalk.py:343-382 | a row raises on the `Category` filter iff the column has no text type and some rule fires; it raises `IndexError` iff it reaches the positional lookup unbound and the best candidate's label is no position of the catalog |
| Records.RowRecordShape | crosswalk.py:326-402 | every record as written keeps its row's fields; it is unmatched iff it names no item; a repair code only on a bound record when asked; rule-based scores 95; approximate scores at least the threshold, with its tier |
| Records.RowRecordNotApproximate | crosswalk.py:326-373 | a record as written that is not bound approximately equals the intended record, whatever the labels: bound through a rule with the rule's tier (`Records.RecordRuleBound`), or the initial record (tier Review, score 0) when it names no item |
| Records.LabelsAbovePositions | crosswalk.py:169-179 | with increasing labels and the first raw row dropped, every item's label exceeds its position, so the last item's label is past the end |
| Records.RowRecordLabelPastEnd | crosswalk.py:381-382 | a row reaching the positional lookup with a label past the end raises `IndexError` naming that label |
| Summary.Distinct | crosswalk.py:447 | defines `unique()`: each value once, in order of first occurrence |
| Summary.DistinctSpec | crosswalk.py:447 | `unique()` lists each value of the column once, and nothing else |
| Summary.DistinctOrder | crosswalk.py:447 | the values follow the order in which they first occur |
| Summary.CategoryColumn | crosswalk.py:447 | the category column holds each record's category |
| Summary.InCategory | crosswalk.py:448 | defines the boolean selection of one category's records, in order |
| Summary.InCategorySpec | crosswalk.py:448 | the selection holds exactly the records of the category |
| Summary.Rate | crosswalk.py:466 | defines `Mapping_Rate` as the exact rational `mapped / total * 100` |
| Summary.RateSpec | crosswalk.py:466 | the rate times the total is a hundred times the mapped count, and lies within 0 to 100 |
| Summary.RowOf | crosswalk.py:449-472 | defines one category's row: its category, total, bound count, rate, catalog categories and tier counts, from one tally |
| Summary.RowsOfAt | crosswalk.py:447-472 | one row per category, each the row of its category |
| Summary.RowsOfSnoc | crosswalk.py:462 | appending a category appends its row |
| Summary.RowsOfCategories | crosswalk.py:463 | each row names its category |
| Summary.MappedBound | crosswalk.py:454 | the bound records are exactly those with an item number, and no more than all records |
| Summary.TallyOf | crosswalk.py:448-467 | defines the one-pass count of a category's records: total, mapped, each tier, and the distinct non-null catalog categories |
| Summary.TallyCounts | crosswalk.py:451-470 | mapped ≤ total, the three tier counts sum to the total, and a present category counts at least one |
| Summary.TallyCountsFilter | crosswalk.py:448-470 | the one-pass counts equal the counts on the filtered selection |
| Summary.TallyNamesFilter | crosswalk.py:460 | the one-pass catalog categories are the selection's distinct non-null ones |
| Summary.CatalogCategoriesSpec | crosswalk.py:460 | the listed catalog categories are exactly the non-null ones the records carry |
| Summary.TallyNames | crosswalk.py:460 | a category's catalog categories are listed once each, and are exactly those its records carry |
| Summary.TallyMapped | crosswalk.py:454 | a category's mapped count is its count among the bound records |
| Summary.SumCountSnoc | crosswalk.py:447-451 | one more record adds one to the count of its category |
| Summary.SumCountAll | crosswalk.py:447-451 | over categories covering every record once, the counts add up to all the records |
| Summary.TotalsOfRows | crosswalk.py:451-454 | the rows' totals and mapped counts add up to the categories' counts |
| Summary.PivotSummary | crosswalk.py:441-474 | defines `generate_pivot_summary`: no records fail, a NaN category fails, otherwise one row per distinct category in order |
| Summary.PivotErrors | crosswalk.py:447-466 | the summary fails with no records (no category column) exactly when there are none, and on a division by zero exactly when some category is NaN |
| Summary.RowsCategorySet | crosswalk.py:447 | rows naming the distinct categories name exactly the records' categories |
| Summary.RowsInOrder | crosswalk.py:447 | no category has two rows, and rows follow first appearance |
| Summary.PivotCategories | crosswalk.py:441-474 | one row per source category: exactly the records' categories, none twice |
| Summary.PivotOrder | crosswalk.py:441-474 | rows come in the order their categories first appear |
| Summary.RowCounts | crosswalk.py:449-472 | a present category's row counts at least one record, mapped ≤ total, tiers sum to the total, and the rate is the bound share |
| Summary.RowCatalogCategories | crosswalk.py:467 | "None" is listed when no record carries a catalog category, and otherwise only if every category carried is itself named "None" |
| Summary.JoinNone | crosswalk.py:467 | a comma-join equals "None" only for the single name "None" |
| Summary.PivotRowCounts | crosswalk.py:441-474 | every summary row counts at least one record, its counts are consistent, its rate is the bound share, and it lists "None" when no record carries a catalog category |
| Summary.PivotRowOf | crosswalk.py:441-474 | every summary row is the row of a category that some record has |
| Summary.PivotPartition | crosswalk.py:441-474 | the rows partition the records: the totals sum to the number of records, and the mapped counts to the number of bound records |
| Crosswalk.ReadRow | crosswalk.py:312-323 | defines one source row as the loop reads it: category, subcategory and description, the last empty when the column was absent |
| Crosswalk.SourceRows | crosswalk.py:312-324 | defines the source rows as the loop reads them: none when a row is read without a category or subcategory column; an absent description reads empty |
| Crosswalk.RecordsFor | crosswalk.py:319-402 | defines the intended records, bound by label, one per row, appended in order |
| Crosswalk.Crosswalk | crosswalk.py:300-419 | defines `run_crosswalk` as written: validation, reading the rows, the loop with its `AttributeError` and `IndexError`, the summary and the metadata, each failure in that order |
| Crosswalk.RecordsForSpec | crosswalk.py:319-402 | one record per source row, in order, each the record of its row |
| Crosswalk.RecordsForAt | crosswalk.py:319-402 | the same, for one position |
| Crosswalk.Collect | crosswalk.py:319-402 | defines the loop's accumulation: each row's result appended in order, stopping at the first error |
| Crosswalk.RowRecords | crosswalk.py:319-402 | defines `crosswalk_results` as the loop builds it, or the error of the first row that raises |
| Crosswalk.CollectSpec | crosswalk.py:319-402 | the loop gives one record per row, each its own row's, exactly when no row raises |
| Crosswalk.CollectAt | crosswalk.py:319-402 | the same, for one position |
| Crosswalk.CollectFirstError | crosswalk.py:319-402 | when the loop raises, it raises the error of the first failing row, every earlier row having succeeded |
| Crosswalk.CollectPrefixErr | crosswalk.py:319-402 | once a prefix of the rows raises, the whole loop raises the same error |
| Crosswalk.CollectSnoc | crosswalk.py:319-402 | one more row extends the records by that row's result, or raises |
| Crosswalk.RowRecordsAgree | crosswalk.py:319-402 | with a text `Category` column and row labels equal to positions, the loop as written gives the records bound by label |
| Crosswalk.RowRecordsCategories | crosswalk.py:320-327 | each record keeps its row's category |
| Crosswalk.CrosswalkErrors | crosswalk.py:300-419 | fails with the validation error when validation fails, among them the missing item number when the name search reclaims the item-number column; with a missing column when the source lacks a category or subcategory column; and with no records when there are no rows |
| Crosswalk.CrosswalkMatchingErrors | crosswalk.py:319-402 | past validation, fails in the loop exactly when some row raises, and then with the first such row's error |
| Crosswalk.CrosswalkCategoryNotText | crosswalk.py:343-351 | with a `Category` column of no text type, fails in the loop as soon as a rule fires on some row |
| Crosswalk.CrosswalkSummaryErrors | crosswalk.py:404-466 | when every row gets its record, fails on the summary exactly when some category is NaN, and succeeds when none is |
| Crosswalk.CrosswalkReport | crosswalk.py:300-419 | one record per source row, each its row's record as the loop computes it; the metadata counts all and bound records and carries the threshold; the summary's totals match those counts |
| Crosswalk.Analyzer.constructor | crosswalk.py:16-86 | threshold 80, repair codes on, the declared rule table |
| Crosswalk.Analyzer.Configure | app.py:85-86 | sets the threshold and the repair setting; the rules stay as they are |
| Crosswalk.Analyzer.FindKeywords | crosswalk.py:236-239 | the loop collects the rule's keywords present in the text |
| Crosswalk.Analyzer.RuleBasedMatching | crosswalk.py:229-251 | the loop returns the first firing rule's match |
| Crosswalk.Analyzer.FirstMatchingItem | crosswalk.py:348-355 | the position of the first item the rule's filter keeps |
| Crosswalk.Analyzer.FirstWithName | crosswalk.py:430-437 | the position of the first item whose name contains the pattern |
| Crosswalk.Analyzer.FindRepairCode | crosswalk.py:421-439 | computes the repair lookup |
| Crosswalk.Analyzer.FirstIndexWithText | crosswalk.py:279 | the position of the first text equal to the matched text |
| Crosswalk.Analyzer.ItemTexts | crosswalk.py:259-262 | one text per item, in order |
| Crosswalk.Analyzer.KeepPassing | crosswalk.py:275-284 | the loop keeps the extracted candidates reaching the threshold, in order |
| Crosswalk.Analyzer.FuzzyMatching | crosswalk.py:253-286 | computes the approximate matcher under the analyser's threshold |
| Crosswalk.Analyzer.RuleStage | crosswalk.py:326-373 | computes the rule stage as written, raising when a rule fires and the `Category` column has no text type |
| Crosswalk.Analyzer.FuzzyBind | crosswalk.py:384-400 | computes the approximately bound record |
| Crosswalk.Analyzer.AttachRepair | crosswalk.py:370-373 | attaches the repair code only when the analyser is asked for one |
| Crosswalk.Analyzer.FuzzyStage | crosswalk.py:375-400 | binds the best candidate by position, or leaves the record as it is when there is none |
| Crosswalk.Analyzer.BindAt | crosswalk.py:381-400 | computes the positional binding, raising `IndexError` past the last item |
| Crosswalk.Analyzer.MatchRow | crosswalk.py:320-402 | computes the record of one row as written, or the error it raises |
| Crosswalk.Analyzer.MatchRows | crosswalk.py:319-402 | the loop appends one record per row, in order, and stops with the first row's error |
| Crosswalk.Analyzer.UniqueCategories | crosswalk.py:447 | computes the distinct categories in order of first appearance |
| Crosswalk.Analyzer.CategoryRow | crosswalk.py:448-472 | computes one category's row in a single pass |
| Crosswalk.Analyzer.GeneratePivotSummary | crosswalk.py:441-474 | computes the summary, including its errors |
| Crosswalk.Analyzer.RunCrosswalk | crosswalk.py:300-419 | computes the crosswalk report as written, including its errors |

## Left out

- Character handling: `str.lower()`, the regex classes `\w` and `\d` (crosswalk.py:206-207, `Text.IsDigit` and `Catalog.LeadingDigits`) and the `case=False` matching of crosswalk.py:349-350 and 432 (`Text.LowerStr` in `Records.RuleCandidate` and `Records.NameHas`) are modelled on ASCII only. Whitespace is Python's `str.isspace` set.
- Duplicate column names: pandas gives a frame where the model reads the first column of that name.
- Records.RuleCandidate: cells are text or NaN, so a numeric cell (an integer item number, a float price, a number in `Category`) appears as the text pandas gives for it. A `Category` column whose cells are all numbers has no text type, so `.str` at crosswalk.py:349 raises, and a numeric category of a bound item makes `', '.join` at crosswalk.py:467 raise a TypeError. Neither failure is modelled. A `Category` column blank in every row is modelled (`Catalog.CatalogCategoryText`, `Records.RulesAsWritten`).
- `Unit_Price` is kept as a cell. The float conversion and the integer default 0 are modelled as the text "0".
- The Excel report and its sheets (`generate_excel_report` and the `create_*_sheet` functions, crosswalk.py:475-637) are output formatting and are not modelled.
- `analysis_date` in the metadata reads the clock, so it is not modelled.
- `fuzz.WRatio` is external code. The scorer is a parameter: any function giving a score.
- The ranking of `process.extract` is modelled as a stable sort by descending score. The options of `process.extract` that crosswalk.py:268-273 leaves at their defaults are taken as part of the scorer.
- `Mapping_Rate` is formatted with one decimal and a percent sign. The model keeps the exact rational rate.
- Regular-expression metacharacters: the filter of crosswalk.py:348-351 uses `str.contains` with regular expressions. The model reads the rule category and the `'|'`-joined keywords as literal alternatives, which agrees because the rule table holds no metacharacters.
- app.py is not part of this model, apart from the two assignments modelled by `Crosswalk.Analyzer.Configure`.
- Crosswalk.Analyzer.CategoryRow: this method counts a category's records in one pass, where the source filters once per count. `Summary.TallyCountsFilter` and `Summary.TallyNamesFilter` prove that the two give the same counts.
- Records.RecordFor: this function binds the best approximate candidate by its row label (`loc`), the corrected behaviour of the first finding. The crosswalk uses `Records.RowRecord`, which looks the label up by position (`Records.Iloc`) as written; `Records.RowRecordAgrees` and `Crosswalk.RowRecordsAgree` say when the two agree.
- Catalog.Resolve: this function takes the name-search guard as a parameter. `Catalog.Validated`, `Catalog.ValidateCatalog`, `Crosswalk.Crosswalk` and `Crosswalk.Analyzer.RunCrosswalk` use the guard as written. The corrected pipeline of the second finding is `Catalog.ValidatedIntended`.
- Division by zero in the name search: the average of crosswalk.py:218 over an empty sample raises a ZeroDivisionError, modelled as `Catalog.SchemaError.EmptySample`. The `except ValueError` of crosswalk.py:309 does not wrap it, so `Crosswalk.CrosswalkError.ValidationFailed` carries it only to name its reason.
- Records.RecordFuzzyBound: this lemma requires increasing row labels, which every validated catalog has (`Catalog.SurvivorsOrdered`).

## Findings

| source | as written | input that shows it | evidently intended | confidence | as-written member | corrected member |
|---|---|---|---|---|---|---|
| crosswalk.py:382 | `fuzzy_matching` returns the row label it got from `iterrows` (crosswalk.py:260-262), and `run_crosswalk` looks that label up by position with `iloc` | a catalog whose first raw row has an empty item number: validation drops row 0, and the item at position 0 carries label 1, so `iloc[1]` binds the next item, or raises when there is none | look the item up by label with `loc` | not executed | Records.IlocMisbinds, Records.DroppedFirstRowShiftsLabels, Records.RowRecordFails, Records.LabelsAbovePositions | Records.LocFinds, Records.RowRecordAgrees, Crosswalk.RowRecordsAgree |
| crosswalk.py:216 | the guard `col not in [best_match_col]` runs while `best_match_col` is still `None`, so it excludes no column | the catalog with header `Support_Item_Number`, `Title` and the one row `05_122203151_0103_1_2`, `Wheelchair seat cushion`: the item name is missing, the name search considers the item-number column first, its 21-character codes count as descriptive, so it is renamed to the item name and validation raises "Could not identify required column: Support_Item_Number" | skip the column already identified as the item number | not executed | Catalog.ReclaimedExample, Catalog.MissingNumberCauses, Catalog.NameSearchReclaimsCodeColumn | Catalog.ProbeIntended, Catalog.MissingNumberOnlyWhenNone, Catalog.CodeColumnKept |
