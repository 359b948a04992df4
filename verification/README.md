# IIT faculty mailing bot — a Dafny model of its core

The system collects faculty records from the websites of several IITs and loads them into a recommender. A Streamlit app searches and groups the records. The app also drafts an e-mail to a chosen professor and logs each drafted mail with a follow-up date. This project models the logic of that pipeline in Dafny and proves what each step guarantees.

Modules, one per source file of the core, plus shared helpers:

- `Recommender` (`recommender.py`):
  - the institute label inferred from a file name;
  - the memoised loading of the JSON files, with the per-record defaults;
  - the DataFrame clean-up: duplicates dropped on (name, department), interests tagged in order of first appearance, one document text per row;
  - the retrieval that maps ranked document texts back to tagged rows.
- `ProfScraper` and `Html` (the general `prof_scraper.py`):
  - identity keys for de-duplication (e-mail first, then a similar name with a contained department);
  - the field-merge rules;
  - `clean_html`;
  - the `</div>`-aware chunker for prompts;
  - `merge_professor_lists`.
- `App` (`app.py`):
  - the image-proxy URL;
  - the per-file record normalisation of `load_data`;
  - interest splitting;
  - the search filter and its 200-record cap;
  - trimming and encoding of the mail body;
  - the professor selection;
  - grouping by department and the department options.
- `DeptLinks` (IIT Indore `dept_links.py`): department URLs, the candidate links, the keyword and domain filter, the score, the best-link choice, and the checks on a URL proposed by the language model.
- `Serp` (`serp.py`): the links of the search results, URL extraction and cleaning from the model's reply, and the incremental JSON result file.
- `Iitr`, `Iitgn`, `Iith`, `ProfDetail` (the IIT Roorkee, Gandhinagar, Hyderabad and Indore scrapers): department names from URLs, profile-link blacklists, e-mail clean-up and de-obfuscation, and URL-keyed de-duplication. The Indore scraper's own `clean_html` (iitgn_faculty/scrapers/spiders/iiti/prof_detail_scraper.py, lines 9-14) is the same code as the general scraper's and is modelled by the same `Html.CleanHtml`.
- `EmailDrafter` and `InteractionLogger` (`email_drafter.py`, `interaction_logger.py`): the next sending window, the five-day follow-up, and the append-only log.
- Shared helpers:
  - `Wrappers` (Option) and `Json` (JSON values);
  - `Strings`: Python `str` methods;
  - `Sorting`: Python's ordering of strings, `sorted` and `set`;
  - `Url`: `quote`, `unquote`, `urlsplit`, `urlparse`, and UTF-8;
  - `UrlScan`: the `https?://[^...]+` regular expressions;
  - `Clock`: a naive `datetime` as an ordinal day and microseconds.

Most state the source updates in place is updated in place in the model too:
- `Recommender.FacultyData` holds the global record list.
- `InteractionLogger.LogFile` and `Serp.ResultFile` hold the content of the log file and of the result file.
- `ProfDetail.DeobfuscateEmails` and `App.NormaliseFile` rewrite arrays of records.

One in-place update is modelled by value: the `seen` dict of `deduplicate_professors` and the merge of a duplicate into its kept record. `ProfScraper.MergeRecord` returns the merged record, specified by `ProfScraper.Merge`. `ProfScraper.FileRecord` returns the new list of entries, and the loop of `ProfScraper.DeduplicateProfessors` reassigns it. Aliasing between a kept record and the input list is not modelled.

Loops that build a result or update state are methods with loop invariants. Each is proved equal to a specification function, and the properties are proved about those functions. The anchor loop of `find_faculty_page_ai` is one of them: `DeptLinks.CollectCandidates` is proved equal to `DeptLinks.Candidates`. Loops that only search for a first match are recursive functions instead:
- the key search of `infer_college_name` (`Recommender.InferCollegeName`);
- the `~` segment search of the IIT Roorkee scraper (`Iitr.FirstTilde`);
- the e-mail segment search of the IIT Gandhinagar scraper (`Iitgn.FirstEmailPart`).

The loop over the required columns of `load_and_prepare_data` works on whole pandas columns. It is the function `Recommender.Frame`, which builds all rows at once.

Two behaviours of the code look like guarantees but are not. The model follows the code:
- Professor de-duplication is not idempotent. `ProfScraper.DedupNotIdempotent` shows three records that give two, and those two give one.
- The merged interest list can hold duplicates, because the union is taken before trimming. `ProfScraper.InterestsKeepDuplicates` shows "A, B" and "B, C" merging to "A, B, B, C".

## Model

| member | source | states |
|---|---|---|
| Recommender.InferCollegeName | iitgn_faculty/recommender.py:32-46 | The label of the first key of the table, in table order, that occurs in the lower-cased file name; "Unknown" when no key occurs. |
| Recommender.GandhinagarBeforeGuwahati | iitgn_faculty/recommender.py:33-45 | A file name containing "iitgn" is labelled IIT Gandhinagar, never IIT Guwahati, although it also contains "iitg". |
| Recommender.GuwahatiFile | iitgn_faculty/recommender.py:34-45 | A name containing "iitg" but neither "iitgn" nor "iitj" is labelled IIT Guwahati. |
| Recommender.NormalizeRecord | iitgn_faculty/recommender.py:71-80 | The record gains `college_name` and every missing default key with its default; every other key keeps its value. |
| Recommender.ItemRecords | iitgn_faculty/recommender.py:67-82 | Items that are not objects are skipped; every kept record carries the file's college label and all the default keys. |
| Recommender.FacultyData.constructor | iitgn_faculty/recommender.py:28 | The global list starts empty. |
| Recommender.FacultyData.LoadAllFacultyData | iitgn_faculty/recommender.py:48-87 | Loading is memoised: a non-empty list is returned unchanged. A missing folder gives [] and loads nothing. Otherwise the list becomes the records of all files, in listing order. |
| Recommender.FacultyData.AppendItems | iitgn_faculty/recommender.py:67-82 | Exactly the normalised object items of one file are appended, in order. |
| Recommender.LoadedRecordsAppend | iitgn_faculty/recommender.py:57-85 | Loading a listing is the concatenation of loading its parts: files are independent and keep their order. |
| Recommender.SkippedFileLeavesOthers | iitgn_faculty/recommender.py:57-85 | A file that fails to parse, or is not `.json`, contributes nothing and leaves the other files' records as they are. |
| Recommender.SingleObjectFile | iitgn_faculty/recommender.py:63-64 | A file holding one object, not a list, gives exactly that one normalised record. |
| Recommender.DropDuplicates | iitgn_faculty/recommender.py:114 | Dropping duplicates never lengthens the table. |
| Recommender.KeptIndicesAreFirstOccurrences | iitgn_faculty/recommender.py:114 | The kept positions are ascending, are first occurrences of their (name, department) key, and include every first occurrence. |
| Recommender.DropDuplicatesKeepsFirst | iitgn_faculty/recommender.py:114 | The result is the rows at the kept positions, in order, and no two of its rows share a (name, department) key. |
| Recommender.DropDuplicatesCoversKeys | iitgn_faculty/recommender.py:114 | Every input row's key is represented in the result. |
| Recommender.Cleaned | iitgn_faculty/recommender.py:127 | The cleaned interest text is never empty: empty interests become the placeholder text. |
| Recommender.Tags | iitgn_faculty/recommender.py:130 | There is one tag per row. |
| Recommender.FactorizeCovers | iitgn_faculty/recommender.py:130 | Each row's tag indexes the unique value equal to its text, and every unique value has a row with that tag. |
| Recommender.FactorizeSameTag | iitgn_faculty/recommender.py:130 | Two rows share a tag exactly when their cleaned texts are equal. |
| Recommender.FactorizeFirstAppearance | iitgn_faculty/recommender.py:130 | A value's first occurrence gets the number of distinct values seen before it as its tag (tags follow first appearance). |
| Recommender.DocumentTextShape | iitgn_faculty/recommender.py:133-134 | A document text is the decimal tag, a space, then the cleaned text with every `\,` replaced by `,`. |
| Recommender.Documents | iitgn_faculty/recommender.py:149-157 | There is one document per row, or the single placeholder document when there are no rows. |
| Recommender.BuildCorpus | iitgn_faculty/recommender.py:93-157 | The corpus is well formed (texts, tags, uniques and documents agree) over the rows left after duplicate removal. |
| Recommender.OneDocumentPerRow | iitgn_faculty/recommender.py:149-157 | No rows give exactly the placeholder document; otherwise document i is row i's tag, a space and its cleaned text. |
| Recommender.NoInterestsShareTag | iitgn_faculty/recommender.py:127-130 | All rows without research interests share one tag. |
| Recommender.TakeWord | iitgn_faculty/recommender.py:226 | The first word is a prefix of the text and holds no whitespace. |
| Recommender.DocumentTagRoundTrip | iitgn_faculty/recommender.py:222-230 | Reading the tag back from any document text gives the tag it was written with. |
| Recommender.CollectTags | iitgn_faculty/recommender.py:216-236 | The collecting loop, with its early break, computes the specified tag list. |
| Recommender.CollectTakesFirst | iitgn_faculty/recommender.py:231-236 | Breaking at `top_k` keeps exactly the first `top_k` distinct valid tags in ranked order. |
| Recommender.DistinctValidTagsFacts | iitgn_faculty/recommender.py:231-233 | The collected tags are distinct, are corpus tags, and each occurs among the parsed hits. |
| Recommender.CollectContract | iitgn_faculty/recommender.py:231-236 | At most `top_k` tags are collected; they are distinct, valid and taken from the hits. |
| Recommender.Public | iitgn_faculty/recommender.py:250-251 | The returned records hold none of the three bookkeeping columns. |
| Recommender.SelectRows | iitgn_faculty/recommender.py:247-253 | The selection loop gives the specified rows. |
| Recommender.ExpandSelects | iitgn_faculty/recommender.py:247-253 | A row is returned exactly when its tag was collected, in its public form. |
| Recommender.RetrievedTagsContract | iitgn_faculty/recommender.py:204-244 | Retrieval collects at most `top_k` distinct tags, each a corpus tag found among the hits of a search that succeeded. |
| Recommender.RetrieveSemanticRecommendations | iitgn_faculty/recommender.py:200-257 | The retrieval method returns the specified records. |
| Recommender.RetrieveSelectsTaggedRows | iitgn_faculty/recommender.py:247-253 | The result is exactly the public form of every row whose tag was collected. |
| Recommender.Retrieve | iitgn_faculty/recommender.py:200-257 | `retrieve_symantic_recommendations` as a value. Its behaviour is stated by RetrieveSelectsTaggedRows, RetrieveIsExpand, RetrieveInCorpusOrder, EmptyCorpusRetrievesNothing and FailuresRetrieveNothing. |
| Recommender.ExpandIdsAsSet | iitgn_faculty/recommender.py:247-253 | Only which tags were collected matters. Two tag lists with the same members select the same rows, whatever their order or repetitions. |
| Recommender.ExpandAppend | iitgn_faculty/recommender.py:247-253 | The row selection distributes over concatenation: each part of the corpus is selected on its own, and the parts keep corpus order. |
| Recommender.ExpandSplit | iitgn_faculty/recommender.py:247-253 | The row selection splits at any row boundary. |
| Recommender.RetrieveIsExpand | iitgn_faculty/recommender.py:247-253 | The retrieval is the row selection by the collected tags, also when no tag was collected. |
| Recommender.RetrieveInCorpusOrder | iitgn_faculty/recommender.py:247-253 | The result is in corpus order, not rank order. It equals the selection by any tag list with the collected members, split at any row boundary. |
| Recommender.EmptyCorpusRetrievesNothing | iitgn_faculty/recommender.py:231-244 | Over an empty corpus the placeholder's tag 0 belongs to no row, so nothing is returned. |
| Recommender.FailuresRetrieveNothing | iitgn_faculty/recommender.py:204-257 | A missing store, a store that raises, a non-positive `top_k` or an empty hit list all give []. |
| ProfScraper.FirstTrue | iitgn_faculty/scrapers/spiders/general_scraper_model/prof_scraper.py:32-37 | The first true flag, or none when every flag is false. |
| ProfScraper.FindKey | iitgn_faculty/scrapers/spiders/general_scraper_model/prof_scraper.py:42-45 | The position of the entry with the key, or none when no entry has it. |
| ProfScraper.FindSimilar | iitgn_faculty/scrapers/spiders/general_scraper_model/prof_scraper.py:31-37 | The scan stops at the first matching seen entry, in insertion order, and returns its key. |
| ProfScraper.ChooseKey | iitgn_faculty/scrapers/spiders/general_scraper_model/prof_scraper.py:24-40 | The key chosen by the loop is the specified identity key. |
| ProfScraper.KeyForEmail | iitgn_faculty/scrapers/spiders/general_scraper_model/prof_scraper.py:28-29 | A record with a non-empty normalised e-mail is keyed `email:<email>`. |
| ProfScraper.NoEmailJoinsFirstMatch | iitgn_faculty/scrapers/spiders/general_scraper_model/prof_scraper.py:30-37 | A record without e-mail takes the key of the first seen entry it matches. |
| ProfScraper.NoEmailNoMatch | iitgn_faculty/scrapers/spiders/general_scraper_model/prof_scraper.py:39-40 | A record without e-mail and without a match is keyed by "name:" and its normalised name, then "dept:" and its normalised department. |
| ProfScraper.MergeScalarFields | iitgn_faculty/scrapers/spiders/general_scraper_model/prof_scraper.py:47-51 | The field loop gives the specified merge of the seven scalar fields. |
| ProfScraper.MergeFieldsKeepsLonger | iitgn_faculty/scrapers/spiders/general_scraper_model/prof_scraper.py:47-51 | Each listed field keeps whichever value is strictly longer, with the existing value kept on a tie; other keys are untouched. |
| ProfScraper.MergeFieldsNothingIncoming | iitgn_faculty/scrapers/spiders/general_scraper_model/prof_scraper.py:47-51 | Fields the incoming record leaves empty stay as they are. |
| ProfScraper.StrippedNonEmpty | iitgn_faculty/scrapers/spiders/general_scraper_model/prof_scraper.py:55 | Every kept fragment is non-empty. |
| ProfScraper.InterestPartsSorted | iitgn_faculty/scrapers/spiders/general_scraper_model/prof_scraper.py:53-56 | The merged interest fragments are sorted and non-empty. |
| ProfScraper.InterestsOrderIrrelevant | iitgn_faculty/scrapers/spiders/general_scraper_model/prof_scraper.py:53-56 | Whatever order the set union is iterated in, the merged fragments are the same. |
| ProfScraper.InterestsKeepDuplicates | iitgn_faculty/scrapers/spiders/general_scraper_model/prof_scraper.py:53-56 | The union is taken before trimming, so "A, B" merged with "B, C" gives "A, B, B, C". |
| ProfScraper.DepartmentPartsFacts | iitgn_faculty/scrapers/spiders/general_scraper_model/prof_scraper.py:58-60 | The merged department lists every non-empty part of either department once, in strictly ascending order. |
| ProfScraper.MergeRecord | iitgn_faculty/scrapers/spiders/general_scraper_model/prof_scraper.py:45-60 | The merge step gives the specified merged record. |
| ProfScraper.MergeKeepsOthers | iitgn_faculty/scrapers/spiders/general_scraper_model/prof_scraper.py:45-60 | Keys outside the merged fields are unchanged, and interests and department are always set. |
| ProfScraper.FileRecord | iitgn_faculty/scrapers/spiders/general_scraper_model/prof_scraper.py:42-60 | Filing a record adds a new entry or merges into the entry with its key. |
| ProfScraper.DeduplicateProfessors | iitgn_faculty/scrapers/spiders/general_scraper_model/prof_scraper.py:14-62 | The loop gives the specified list of de-duplicated records. |
| ProfScraper.PlaceKeys | iitgn_faculty/scrapers/spiders/general_scraper_model/prof_scraper.py:42-45 | A new key is appended to the key order; a known key leaves the order unchanged. |
| ProfScraper.PlaceValues | iitgn_faculty/scrapers/spiders/general_scraper_model/prof_scraper.py:42-45 | A new key stores the incoming record; other entries are untouched except the merged one. |
| ProfScraper.DedupKeysDistinct | iitgn_faculty/scrapers/spiders/general_scraper_model/prof_scraper.py:15-62 | The output has distinct identity keys and is never longer than the input. |
| ProfScraper.DedupKeysGrow | iitgn_faculty/scrapers/spiders/general_scraper_model/prof_scraper.py:23-45 | The key order only grows as records are processed: earlier keys stay in place. |
| ProfScraper.KeyFiled | iitgn_faculty/scrapers/spiders/general_scraper_model/prof_scraper.py:23-45 | Every record's chosen key ends up among the output keys. |
| ProfScraper.EmailsCollapse | iitgn_faculty/scrapers/spiders/general_scraper_model/prof_scraper.py:24-45 | Every record with a non-empty e-mail is represented under `email:<email>`. |
| ProfScraper.DedupWithKeepsFirstRecord | iitgn_faculty/scrapers/spiders/general_scraper_model/prof_scraper.py:42-51 | With a merge that only touches the merged fields, output record k agrees, outside those fields, with the first input record filed under its key, and no earlier record was filed under that key. |
| ProfScraper.DedupKeepsFirstRecord | iitgn_faculty/scrapers/spiders/general_scraper_model/prof_scraper.py:42-62 | Each output record is, outside the merged fields, the first input record filed under its identity key. |
| ProfScraper.DeduplicatedKeys | iitgn_faculty/scrapers/spiders/general_scraper_model/prof_scraper.py:15-62 | The output keys are distinct and the output is never longer than the input. |
| ProfScraper.DedupNotIdempotent | iitgn_faculty/scrapers/spiders/general_scraper_model/prof_scraper.py:30-60 | Running the de-duplication again can merge further: three records give two, and those two give one. |
| ProfScraper.MergeProfessorLists | iitgn_faculty/scrapers/spiders/general_scraper_model/prof_scraper.py:133-137 | The loop's result is the in-order concatenation of the lists. |
| ProfScraper.FlattenAppend | iitgn_faculty/scrapers/spiders/general_scraper_model/prof_scraper.py:133-137 | Concatenating the lists of a concatenation is the concatenation of the parts. |
| ProfScraper.FlattenIndex | iitgn_faculty/scrapers/spiders/general_scraper_model/prof_scraper.py:133-137 | Element j of list i is found at the offset of list i plus j. |
| Html.RemoveBlocks | iitgn_faculty/scrapers/spiders/general_scraper_model/prof_scraper.py:66-68 | Removing script, style or comment blocks never lengthens the text. |
| Html.RemoveBlocksChangesIffBlock | iitgn_faculty/scrapers/spiders/general_scraper_model/prof_scraper.py:66-68 | A substitution changes the text exactly when the text holds a complete block (the opener, for script and style a `>`, then the closer). |
| Html.FirstBlockIffBlock | iitgn_faculty/scrapers/spiders/general_scraper_model/prof_scraper.py:66-68 | The leftmost match is found exactly when some complete block exists. |
| Html.RemoveBlocksKeepsPrefix | iitgn_faculty/scrapers/spiders/general_scraper_model/prof_scraper.py:66-68 | The text before the first opener is kept unchanged at the front of the result. |
| Html.RemoveBlocksCanJoinBlocks | iitgn_faculty/scrapers/spiders/general_scraper_model/prof_scraper.py:68 | The substitution does not rescan its output: removing `<!---->` from `<!<!---->--a-->` leaves the complete comment `<!--a-->`. |
| Html.CollapseWhitespace | iitgn_faculty/scrapers/spiders/general_scraper_model/prof_scraper.py:69 | Collapsing leaves no two neighbouring whitespace characters, keeps whether the text starts with whitespace, and never lengthens the text. |
| Html.CleanHtml | iitgn_faculty/scrapers/spiders/general_scraper_model/prof_scraper.py:65-70 | Cleaning never lengthens the page. |
| Html.CleanHtmlNormalisesWhitespace | iitgn_faculty/scrapers/spiders/general_scraper_model/prof_scraper.py:65-70 | The cleaned page has no whitespace at either end and no two neighbouring whitespace characters. |
| Html.CollapseWhitespaceKeepsClean | iitgn_faculty/scrapers/spiders/general_scraper_model/prof_scraper.py:69 | Text whose only whitespace is single spaces comes out unchanged. |
| Html.LastIndexOf | iitgn_faculty/scrapers/spiders/general_scraper_model/prof_scraper.py:78 | The last index at which the pattern occurs wholly inside the text, or none when it does not occur. |
| Html.CutPoint | iitgn_faculty/scrapers/spiders/general_scraper_model/prof_scraper.py:78-80 | The cut never lies past the window. |
| Html.SplitHtmlForPrompt | iitgn_faculty/scrapers/spiders/general_scraper_model/prof_scraper.py:72-84 | The chunking loop computes the specified chunking, including the case where it never ends. |
| Html.SplitHtmlChunks | iitgn_faculty/scrapers/spiders/general_scraper_model/prof_scraper.py:76-84 | When the loop ends, the chunks rebuild the page, none is longer than the window, and every cut is at a `</div>` or after a full window. |
| Html.SplitHtmlConcat | iitgn_faculty/scrapers/spiders/general_scraper_model/prof_scraper.py:76-84 | When the loop ends there is at least one chunk, and the chunks rebuild the page. |
| Html.SplitHtmlBounded | iitgn_faculty/scrapers/spiders/general_scraper_model/prof_scraper.py:76-84 | When the loop ends, no chunk is longer than the window. |
| Html.SplitHtmlCuts | iitgn_faculty/scrapers/spiders/general_scraper_model/prof_scraper.py:76-84 | When the loop ends, every chunk but the last fills the window or is followed by `</div>`. |
| Html.SplitHtmlDivergesAfterCut | iitgn_faculty/scrapers/spiders/general_scraper_model/prof_scraper.py:77-82 | As written, "ab</div>cdefgh" with a window of 8 makes the loop run forever: after the first cut the text starts with `</div>`, so the cut becomes 0 for good. |
| Html.CutAfterDiv | iitgn_faculty/scrapers/spiders/general_scraper_model/prof_scraper.py:78-80 | The corrected cut is positive and within the window; a cut short of the window ends with `</div>`. |
| Html.SplitHtmlAfterDivChunks | iitgn_faculty/scrapers/spiders/general_scraper_model/prof_scraper.py:72-84 | The corrected chunker always ends. Its chunks rebuild the page, none exceeds the window, and each but the last ends with `</div>` or fills the window. |
| App.ProxyUrlParameter | iitgn_faculty/app.py:17-20 | A non-empty URL gives the proxy prefix, then the URL quoted with no safe character up to the first `&`, which unquotes back to the URL. |
| App.ProxyImageUrl | iitgn_faculty/app.py:17-20 | The fall-back logo is returned exactly when the URL is missing or empty. Otherwise the result is the proxy prefix, then the encoded URL, then the `&w=300` suffix. The `url` parameter itself is stated by ProxyUrlParameter. |
| App.ProxyFallbackOnlyWhenEmpty | iitgn_faculty/app.py:17-19 | The fall-back image is returned exactly for a missing or empty URL. |
| App.FirstFacultyMatch | iitgn_faculty/app.py:45 | The leftmost position where `/faculty/` is followed by a non-slash character, or none. |
| App.SegmentLength | iitgn_faculty/app.py:45 | The length of the longest slash-free prefix. |
| App.FacultySegment | iitgn_faculty/app.py:45 | The matched segment is non-empty and slash-free; there is none exactly when the pattern matches nowhere. |
| App.NormaliseRowKeys | iitgn_faculty/app.py:44-106 | A normalised record gains exactly the keys its file's loop writes, carries its file's label, and keeps every other key. |
| App.NormaliseRow | iitgn_faculty/app.py:44-106 | A normalised record gains exactly the keys its file's loop writes, and carries its file's label and a department. Its values are stated by NormaliseRowKeys, NormaliseRowValues, GandhinagarDepartmentShape and RoorkeeUrlHasNoSpace. |
| App.NormaliseRowValues | iitgn_faculty/app.py:53-106 | A department outside Gandhinagar is trimmed, a missing one is "UNKNOWN", and a missing profile URL becomes "#". |
| App.GandhinagarDepartmentShape | iitgn_faculty/app.py:45-46 | A Gandhinagar department is "UNKNOWN" or a non-empty, slash-free segment with no lower-case letter. |
| App.RoorkeeUrlHasNoSpace | iitgn_faculty/app.py:72 | Roorkee profile URLs hold no space once normalised. |
| App.NormaliseFile | iitgn_faculty/app.py:53-57 | The in-place loop over one file rewrites every record to its normalised form. |
| App.LoadData | iitgn_faculty/app.py:38-108 | The loaded list is the eight files' normalised records, in the fixed file order. |
| App.LoadedRowsLabelled | iitgn_faculty/app.py:38-108 | Every loaded record has a department and the label of one of the files loaded so far. |
| App.KeepFragmentsAppend | iitgn_faculty/app.py:130 | Kept fragments of a concatenation are those of the parts, in order. |
| App.SplitOnClassAtDelimiter | iitgn_faculty/app.py:130 | Splitting at a delimiter splits the two sides independently. |
| App.SplitInterestsAtDelimiter | iitgn_faculty/app.py:130 | Interest splitting distributes over a delimiter. |
| App.KeepFragmentsClean | iitgn_faculty/app.py:130 | Kept fragments are non-empty, hold no delimiter, and neither start nor end with a trimmed character. |
| App.StripNonBlank | iitgn_faculty/app.py:130 | Trimming keeps only characters of the input; a non-empty result means the input held a non-space. |
| App.SplitInterestsClean | iitgn_faculty/app.py:129-130 | Every displayed interest is non-empty, holds no delimiter, and is trimmed of the strip set. |
| App.FilterRows | iitgn_faculty/app.py:265-271 | A record is kept exactly when it matches all four criteria; the result is never longer. |
| App.FilterRowsAppend | iitgn_faculty/app.py:265-271 | The filter keeps input order. |
| App.NoQueryKeepsAll | iitgn_faculty/app.py:265-271 | With no query ("All" and empty texts) every record is kept. |
| App.ShownIsCappedPrefix | iitgn_faculty/app.py:265-275 | At most 200 records are shown; they are a prefix of the filtered list, and all of it when it is short enough. |
| App.SafeBodyBounded | iitgn_faculty/app.py:315 | A body shorter than 1800 is kept; a longer one keeps its first 1800 characters followed by the marker. |
| App.SafeBodyUnchanged | iitgn_faculty/app.py:315 | Trimming changes nothing exactly when the body is short, or is already 1800 characters plus the marker. |
| App.SafeBodyIdempotent | iitgn_faculty/app.py:315 | Trimming twice is trimming once. |
| App.SafeBodyAtLimit | iitgn_faculty/app.py:315 | A body of exactly 1800 characters still gets the marker. |
| App.EncodedBodyUnbroken | iitgn_faculty/app.py:315-319 | The encoded body holds no `&`, `#`, `=` or `?`, so it cannot break the mail link's query. |
| App.EncodedBodyDecodes | iitgn_faculty/app.py:315-317 | The encoded body decodes back to the trimmed body. |
| App.NameIndex | iitgn_faculty/app.py:297 | The first record with the name, or none exactly when no record has it. |
| App.SelectionFromOptions | iitgn_faculty/app.py:287-297 | A name picked from the options always finds a record: the first one carrying that name. |
| App.UnnamedRecordRaises | iitgn_faculty/app.py:287-291 | A filtered record without a "name" makes building the options raise KeyError, whatever records surround it. |
| App.RowsOf | iitgn_faculty/app.py:343-345 | A department's group holds exactly the filtered records of that department. |
| App.GroupedByDepartment | iitgn_faculty/app.py:343-345 | There is a group exactly for each department present, holding that department's records in filter order. |
| App.GroupByDepartment | iitgn_faculty/app.py:343-345 | The grouping loop gives the specified groups. |
| App.DisplayOrderSorted | iitgn_faculty/app.py:347 | Groups are shown in strictly ascending department order, one per group. |
| App.NonEmpty | iitgn_faculty/app.py:230 | The non-empty departments. |
| App.DepartmentOptionsFacts | iitgn_faculty/app.py:230-231 | The options are "All" followed by every non-empty department once, in strictly ascending order. |
| DeptLinks.FullUrlFacts | iitgn_faculty/scrapers/spiders/iiti/dept_links.py:27-28 | A department link starts with "http"; a relative href becomes the site root followed by the href with its leading slashes dropped. |
| DeptLinks.FullUrlIdempotent | iitgn_faculty/scrapers/spiders/iiti/dept_links.py:28 | Resolving a department link again changes nothing. |
| DeptLinks.Candidates | iitgn_faculty/scrapers/spiders/iiti/dept_links.py:51-58 | Candidates are exactly the anchors with a usable href (present, non-empty, not starting with `#`), resolved, in page order. |
| DeptLinks.CollectCandidates | iitgn_faculty/scrapers/spiders/iiti/dept_links.py:51-58 | The loop over the anchors builds exactly the specified candidate list. |
| DeptLinks.CandidatesAppend | iitgn_faculty/scrapers/spiders/iiti/dept_links.py:51-58 | Candidates keep page order. |
| DeptLinks.Surviving | iitgn_faculty/scrapers/spiders/iiti/dept_links.py:64-80 | A link survives exactly when it passes all five checks. |
| DeptLinks.FilterLinks | iitgn_faculty/scrapers/spiders/iiti/dept_links.py:64-80 | The filtering loop gives exactly the surviving links. |
| DeptLinks.ProfessorsListingRejected | iitgn_faculty/scrapers/spiders/iiti/dept_links.py:75-76 | A URL ending in `/professors/` counts as a profile page and never survives. |
| DeptLinks.LowerProfLeaf | iitgn_faculty/scrapers/spiders/iiti/dept_links.py:75 | The profile-leaf test still fires after lower-casing. |
| DeptLinks.CountIn | iitgn_faculty/scrapers/spiders/iiti/dept_links.py:87-88 | A keyword count is bounded by the number of keywords. |
| DeptLinks.CountInPositive | iitgn_faculty/scrapers/spiders/iiti/dept_links.py:87-88 | The count is positive exactly when some keyword occurs. |
| DeptLinks.ScoreBounds | iitgn_faculty/scrapers/spiders/iiti/dept_links.py:83-95 | Scores lie in 0..1280; a keyword in the text gives at least 100; a surviving link scores at least 50. |
| DeptLinks.BestIndex | iitgn_faculty/scrapers/spiders/iiti/dept_links.py:97 | The chosen link has the highest score, and every earlier link scores strictly less (stable descending sort). |
| DeptLinks.AiChoice | iitgn_faculty/scrapers/spiders/iiti/dept_links.py:109-121 | The answer is the reply's first `https?://` match, and it is given exactly when the reply has one and that match passes every check (not the department URL, no professor leaf, no document suffix, an allowed domain). |
| DeptLinks.LinkIsTrimmed | iitgn_faculty/scrapers/spiders/iiti/dept_links.py:113 | A scanned link holds no outer whitespace, so trimming leaves it unchanged. |
| DeptLinks.FindFacultyPageScored | iitgn_faculty/scrapers/spiders/iiti/dept_links.py:82-99 | When a link survives, the answer is the first surviving link with the top score, whatever the model says. |
| DeptLinks.FindFacultyPageFallback | iitgn_faculty/scrapers/spiders/iiti/dept_links.py:101-128 | When nothing survives, the answer is the reply's first scanned URL, given exactly when that URL passes the checks; no reply gives none. |
| Serp.LinksOf | iitgn_faculty/serp.py:29-33 | The links are never more numerous than the results. |
| Serp.GetSearchResults | iitgn_faculty/serp.py:29-33 | The loop collects the specified links. |
| Serp.LinksOfAppend | iitgn_faculty/serp.py:30-32 | Links keep the order of the results. |
| Serp.LinksOfMembers | iitgn_faculty/serp.py:30-32 | The links are exactly the `link` values of the results that have one. |
| Serp.ExtractFacultyStructure | iitgn_faculty/serp.py:58-74 | The result map has exactly the institution's key; its value is "Not found" exactly when the call failed or `findall` finds no URL in the reply, and otherwise holds exactly the cleaned `findall` matches. |
| Serp.CleanLinks | iitgn_faculty/serp.py:69 | `sorted(set(...))` of the cleaned matches: strictly ascending, holding exactly the cleaned form of each match. |
| Serp.LinkIsTrimmed | iitgn_faculty/serp.py:68-69 | A found link is already trimmed. |
| Serp.CleanLinkKeepsScheme | iitgn_faculty/serp.py:69 | Cleaning drops only trailing dots and commas, and keeps the scheme. |
| Serp.CleanLinkTrimmed | iitgn_faculty/serp.py:69 | A cleaned link is trimmed. |
| Serp.CleanLinkShape | iitgn_faculty/serp.py:69 | A cleaned link starts with a scheme, ends in neither `.` nor `,`, and is trimmed. |
| Serp.ExtractFacultyStructureClean | iitgn_faculty/serp.py:68-70 | Every listed link is clean (scheme kept, no trailing `.` or `,`, trimmed) and the list is strictly ascending. |
| Serp.NoUrlNotFound | iitgn_faculty/serp.py:68-70 | A reply without any URL gives the "Not found" marker. |
| Serp.ResultFile.constructor | iitgn_faculty/serp.py:77-82 | The file starts with the given content. |
| Serp.ResultFile.WritePartialJson | iitgn_faculty/serp.py:77-85 | An absent file or an object file becomes the updated object; any other content is left as it was and reported. |
| Serp.MergedUpdates | iitgn_faculty/serp.py:83 | Keys of the update take its values, other keys keep theirs, and nothing else appears. |
| Serp.WriteOneInstitution | iitgn_faculty/serp.py:77-85 | Writing one institution's result sets its entry to a non-empty list and keeps every other institution. |
| UrlScan.SchemeAt | iitgn_faculty/serp.py:68 | A match may start at i exactly when "https://" or "http://" is followed by a non-stop character. |
| UrlScan.RunLength | iitgn_faculty/serp.py:68 | The longest run of non-stop characters. |
| UrlScan.MatchAtShape | iitgn_faculty/serp.py:68 | The match at a position is a link and cannot be extended. |
| UrlScan.Search | iitgn_faculty/scrapers/spiders/iiti/dept_links.py:111 | The leftmost match position, or none exactly when there is no match. |
| UrlScan.FirstLink | iitgn_faculty/scrapers/spiders/iiti/dept_links.py:111 | The first match is a link; there is none exactly when nothing matches. |
| UrlScan.FindAllFrom | iitgn_faculty/serp.py:68 | Every match found has the shape of a link; which matches, and in what order, is stated by the two lemmas below. |
| UrlScan.FindAllMaximal | iitgn_faculty/serp.py:68 | Every match found occurs in the text and is followed by its end or by a stop character. |
| UrlScan.FindAllStartsWithSearch | iitgn_faculty/serp.py:68 | `findall` is repeated `search`: it reports the leftmost match, then what the scan finds from the end of that match on. |
| UrlScan.FindAllEmptyWithoutSearch | iitgn_faculty/serp.py:68 | When `search` finds nothing, `findall` returns nothing. |
| Url.Quote | iitgn_faculty/app.py:20 | Quoting gives ASCII made only of `%`, unreserved and safe characters. |
| Url.UnquoteQuote | iitgn_faculty/app.py:316-317 | Unquoting a quoted string gives it back whenever `%` is not safe. |
| Url.Utf8DecodeEncodeString | iitgn_faculty/scrapers/spiders/iitr/iitr.py:9 | UTF-8 decoding undoes UTF-8 encoding. |
| Url.UnquoteNoPercent | iitgn_faculty/scrapers/spiders/iitr/iitr.py:9 | A text without `%` comes out of unquoting as it went in. |
| Url.UrlPath | iitgn_faculty/scrapers/spiders/iitr/iitr.py:8 | The path holds neither `#` nor `?`. |
| Url.UrlPathOfPlainUrl | iitgn_faculty/scrapers/spiders/iitr/iitr.py:8 | The path of a plain `https://host/path` URL is that path. |
| Iitr.IndexOfPart | iitgn_faculty/scrapers/spiders/iitr/iitr.py:12 | The first position holding the segment, or none exactly when the segment is absent. |
| Iitr.FirstTilde | iitgn_faculty/scrapers/spiders/iitr/iitr.py:16-18 | The first segment starting with `~`, or none. |
| Iitr.DepartmentAfterMarker | iitgn_faculty/scrapers/spiders/iitr/iitr.py:11-14 | The segment after the first "Departments" names the department, with " Department" removed and trimmed. |
| Iitr.MarkerLastFallsThrough | iitgn_faculty/scrapers/spiders/iitr/iitr.py:11-20 | When the only "Departments" is the last segment, the `~` scan decides. |
| Iitr.DepartmentFromTilde | iitgn_faculty/scrapers/spiders/iitr/iitr.py:16-18 | Without "Departments", the first `~user` segment gives "user". |
| Iitr.DepartmentUnknown | iitgn_faculty/scrapers/spiders/iitr/iitr.py:11-20 | With neither a usable "Departments" nor a `~` segment the result is "Unknown". |
| Iitr.PartsNoSlash | iitgn_faculty/scrapers/spiders/iitr/iitr.py:9-20 | A department read from slash-free segments is slash-free. |
| Iitr.DepartmentHasNoSlash | iitgn_faculty/scrapers/spiders/iitr/iitr.py:7-20 | A department never holds a `/`. |
| Iitr.PlainUrlDepartment | iitgn_faculty/scrapers/spiders/iitr/iitr.py:7-9 | For a plain URL without `%`, the department is read off the path's segments. |
| Iitr.ExtractDepartment | iitgn_faculty/scrapers/spiders/iitr/iitr.py:7-20 | `extract_department`. Its behaviour is stated by DepartmentHasNoSlash and PlainUrlDepartment. Over the path segments it is stated by DepartmentAfterMarker, MarkerLastFallsThrough, DepartmentFromTilde and DepartmentUnknown. |
| Iitr.FixEmailNoAt | iitgn_faculty/scrapers/spiders/iitr/iitr.py:46 | The fixed e-mail holds no "[at]" and is never longer. |
| Iitr.FixEmail | iitgn_faculty/scrapers/spiders/iitr/iitr.py:46 | The e-mail clean-up. Its behaviour is stated by FixEmailNoAt. |
| Iitgn.KeepResolved | iitgn_faculty/scrapers/spiders/iitgn/iitgn.py:18-22 | The resolved links are never more numerous than the hrefs. |
| Iitgn.KeepResolvedMembers | iitgn_faculty/scrapers/spiders/iitgn/iitgn.py:18-22 | A link is kept exactly when its href passes the test, and it is resolved. |
| Iitgn.KeepResolvedAppend | iitgn_faculty/scrapers/spiders/iitgn/iitgn.py:18-22 | Links keep page order. |
| Iitgn.DepartmentLinksExactly | iitgn_faculty/scrapers/spiders/iitgn/iitgn.py:10-11 | Department links are exactly the resolved hrefs holding "/faculty/". |
| Iitgn.ProfileLinksExactly | iitgn_faculty/scrapers/spiders/iitgn/iitgn.py:16-22 | Profile links are exactly the resolved hrefs whose last segment is not blacklisted, in page order. |
| Iitgn.DepartmentOfUrl | iitgn_faculty/scrapers/spiders/iitgn/iitgn.py:24 | The department is the URL's last segment, with or without a trailing slash. |
| Iitgn.Department | iitgn_faculty/scrapers/spiders/iitgn/iitgn.py:24 | The department label. Its behaviour is stated by DepartmentOfUrl. |
| Iitgn.DepartmentNoSlash | iitgn_faculty/scrapers/spiders/iitgn/iitgn.py:24 | A department never holds a `/`. |
| Iitgn.BlacklistedPageDropped | iitgn_faculty/scrapers/spiders/iitgn/iitgn.py:17-21 | A link ending in a blacklisted segment is dropped, with or without a trailing slash. |
| Iitgn.FirstEmailPart | iitgn_faculty/scrapers/spiders/iitgn/iitgn.py:33-36 | The first part holding the domain or "-AT-", or none exactly when no part does. |
| Iitgn.NormaliseEmail | iitgn_faculty/scrapers/spiders/iitgn/iitgn.py:37 | The normalised e-mail holds no space and does not start with `:`. |
| Iitgn.NormaliseSpelledAt | iitgn_faculty/scrapers/spiders/iitgn/iitgn.py:37 | "user -AT- domain" becomes "user@domain". |
| Iitgn.NormaliseCleanAddress | iitgn_faculty/scrapers/spiders/iitgn/iitgn.py:37 | A clean address is left as it is. |
| Iitgn.NormaliseDropsColon | iitgn_faculty/scrapers/spiders/iitgn/iitgn.py:37 | A leading colon is dropped. |
| Iitgn.JoinedItemsSplit | iitgn_faculty/scrapers/spiders/iitgn/iitgn.py:41-42 | Joined items split back into the items when none contains the separator. |
| Iitgn.Publication | iitgn_faculty/scrapers/spiders/iitgn/iitgn.py:45-48 | A publication text is trimmed. |
| Iitgn.Photo | iitgn_faculty/scrapers/spiders/iitgn/iitgn.py:50-51 | There is no photo exactly when the image source is missing or empty; otherwise it is the resolved source. |
| Iitgn.ProfileKeys | iitgn_faculty/scrapers/spiders/iitgn/iitgn.py:53-65 | The yielded profile has exactly the ten fields name, designation, email, website, research_interests, academic_background, selected_publications, department, photo and profile_url. |
| Iitgn.ProfileFields | iitgn_faculty/scrapers/spiders/iitgn/iitgn.py:53-65 | The yielded profile's e-mail holds no space, its department and profile URL are the ones given, it has one publication per scraped entry, and photo is null exactly when the image source is missing or empty. |
| Iitgn.Profile | iitgn_faculty/scrapers/spiders/iitgn/iitgn.py:27-65 | The yielded profile has exactly the ten fields. Its values are stated by ProfileFields. |
| Iith.ProfileUrl | iitgn_faculty/scrapers/spiders/iith/prof_pages_iith.py:21 | A profile URL starts with the site root and is no longer than the root plus the trimmed href. |
| Iith.ProfileUrlDropsUpLevels | iitgn_faculty/scrapers/spiders/iith/prof_pages_iith.py:21 | A leading "../../" is dropped. |
| Iith.CardEntry | iitgn_faculty/scrapers/spiders/iith/prof_pages_iith.py:19-30 | A card gives an entry exactly when its href and name are present; the entry's URL is the built profile URL. |
| Iith.Extracted | iitgn_faculty/scrapers/spiders/iith/prof_pages_iith.py:18-30 | The entries are never more numerous than the cards. |
| Iith.ExtractProfiles | iitgn_faculty/scrapers/spiders/iith/prof_pages_iith.py:18-30 | The card loop gives the specified entries. |
| Iith.ExtractedAppend | iitgn_faculty/scrapers/spiders/iith/prof_pages_iith.py:18-30 | Entries keep card order. |
| Iith.FailingCardSkipped | iitgn_faculty/scrapers/spiders/iith/prof_pages_iith.py:19-30 | A failing card is skipped without disturbing the others. |
| Iith.LastIndex | iitgn_faculty/scrapers/spiders/iith/prof_pages_iith.py:37-38 | The last entry with the URL, or none exactly when no entry has it. |
| Iith.Deduplicate | iitgn_faculty/scrapers/spiders/iith/prof_pages_iith.py:36-39 | The dictionary loop gives the specified list: one entry per distinct URL. |
| Iith.DedupedUrlsDistinct | iitgn_faculty/scrapers/spiders/iith/prof_pages_iith.py:36-39 | The de-duplicated URLs are the distinct URLs in order of first appearance. |
| Iith.DedupedDistinct | iitgn_faculty/scrapers/spiders/iith/prof_pages_iith.py:36-39 | No two de-duplicated entries share a URL. |
| Iith.DedupedUrls | iitgn_faculty/scrapers/spiders/iith/prof_pages_iith.py:36-39 | Exactly the input URLs remain, and the list is never longer. |
| Iith.Deduped | iitgn_faculty/scrapers/spiders/iith/prof_pages_iith.py:36-39 | The de-duplicated list is never longer than the input, and every kept entry is a collected one. Further properties are stated by DedupedUrlsDistinct, DedupedDistinct, DedupedUrls and DedupedKeepsLast. |
| Iith.DedupedKeepsLast | iitgn_faculty/scrapers/spiders/iith/prof_pages_iith.py:37-38 | Each kept entry is the last input entry with its URL. |
| Iith.DistinctFirstAppearance | iitgn_faculty/scrapers/spiders/iith/prof_pages_iith.py:36-39 | Distinct values keep their first-appearance order. |
| Iith.DedupedOrder | iitgn_faculty/scrapers/spiders/iith/prof_pages_iith.py:36-39 | Kept entries are ordered by their URL's first appearance (dictionary insertion order). |
| ProfDetail.DeobfuscateNoSpace | iitgn_faculty/scrapers/spiders/iiti/prof_detail_scraper.py:108 | The de-obfuscated e-mail holds no space. |
| ProfDetail.DeobfuscateNoDot | iitgn_faculty/scrapers/spiders/iiti/prof_detail_scraper.py:108 | The de-obfuscated e-mail holds no "[dot]". |
| ProfDetail.DeobfuscateShorter | iitgn_faculty/scrapers/spiders/iiti/prof_detail_scraper.py:108 | The e-mail never grows. |
| ProfDetail.SpacedAtSurvives | iitgn_faculty/scrapers/spiders/iiti/prof_detail_scraper.py:108 | "[at]" is replaced before spaces go, so "a[ at]b" becomes "a[at]b". |
| ProfDetail.DeobfuscateEntry | iitgn_faculty/scrapers/spiders/iiti/prof_detail_scraper.py:106-108 | An object whose "email" is a string always gets that field de-obfuscated, with every other field kept; any other object is returned unchanged; a list or string holding "email", or a scalar, raises. |
| ProfDetail.AtAddressRewritten | iitgn_faculty/scrapers/spiders/iiti/prof_detail_scraper.py:106-108 | `{"email": "a[at]b"}` comes back as `{"email": "a@b"}`. |
| ProfDetail.DeobfuscateEntryClean | iitgn_faculty/scrapers/spiders/iiti/prof_detail_scraper.py:106-108 | A record leaves the loop with a clean e-mail. |
| ProfDetail.DeobfuscatedList | iitgn_faculty/scrapers/spiders/iiti/prof_detail_scraper.py:106-108 | A list that goes through keeps its length. |
| ProfDetail.DeobfuscatedListIndex | iitgn_faculty/scrapers/spiders/iiti/prof_detail_scraper.py:106-108 | The list goes through exactly when no element raises, and element i is then element i's rewrite. |
| ProfDetail.DeobfuscateEmails | iitgn_faculty/scrapers/spiders/iiti/prof_detail_scraper.py:106-108 | The in-place loop reports success exactly when no element raises; each element is either unchanged or rewritten. |
| ProfDetail.DeobfuscatedListClean | iitgn_faculty/scrapers/spiders/iiti/prof_detail_scraper.py:106-108 | After the loop every record has a clean e-mail. |
| ProfDetail.ExtractProfessorInfo | iitgn_faculty/scrapers/spiders/iiti/prof_detail_scraper.py:63-75 | A failed or unparsable reply gives []; otherwise the parsed list. |
| ProfDetail.VisitDepartment | iitgn_faculty/scrapers/spiders/iiti/prof_detail_scraper.py:87-115 | One department visit adds the specified records. |
| ProfDetail.ScrapeDepartments | iitgn_faculty/scrapers/spiders/iiti/prof_detail_scraper.py:83-115 | `all_profs` is every department's records, in order. |
| ProfDetail.CollectedClean | iitgn_faculty/scrapers/spiders/iiti/prof_detail_scraper.py:83-115 | Every collected record has a clean e-mail. |
| ProfDetail.FailedVisitAddsNothing | iitgn_faculty/scrapers/spiders/iiti/prof_detail_scraper.py:94-115 | A page that fails to load adds nothing and leaves the other departments' records. |
| ProfDetail.FlatMapAppend | iitgn_faculty/scrapers/spiders/iiti/prof_detail_scraper.py:83-111 | Departments contribute independently and in order. |
| EmailDrafter.WeekendGoesToMonday | iitgn_faculty/email_drafter.py:12-14 | On Saturday or Sunday the mail goes at 09:00 on the following Monday, one or two days later. |
| EmailDrafter.EveningGoesToNextDay | iitgn_faculty/email_drafter.py:12-14 | A weekday from 18:00 goes to 09:00 next day, which for a Friday is a Saturday. |
| EmailDrafter.WeekdayDaytime | iitgn_faculty/email_drafter.py:15-18 | A weekday before 09:00 goes at 09:00 that day; between 09:00 and 17:59 it goes now. |
| EmailDrafter.SuggestionNotEarlier | iitgn_faculty/email_drafter.py:9-18 | The suggestion is never earlier than now, and when it is not now it is 09:00 sharp. |
| EmailDrafter.SuggestOptimalTime | iitgn_faculty/email_drafter.py:9-18 | The suggestion falls on the same day or up to two days later, and it is either now or 09:00 sharp. The cases are stated by WeekendGoesToMonday, EveningGoesToNextDay, WeekdayDaytime and SuggestionNotEarlier. |
| EmailDrafter.LogEntryFollowup | iitgn_faculty/email_drafter.py:47-61 | The entry is unanswered with an unknown address, and its follow-up is five days after its sent time. |
| EmailDrafter.LogEntry | iitgn_faculty/email_drafter.py:50-61 | The entry has exactly the ten fields student_name, professor_name, professor_interest, professor_email, goal, extra_note, email_text, sent_time, followup_time and responded. Its values are stated by LogEntryFollowup. |
| EmailDrafter.DraftEmail | iitgn_faculty/email_drafter.py:44-63 | The returned text is the trimmed reply, and the entry is appended to the log. |
| InteractionLogger.PlanFollowup | just_backup_data/interaction_logger.py:7-8 | The follow-up keeps the time of day. |
| InteractionLogger.FollowupFiveDaysLater | just_backup_data/interaction_logger.py:7-8 | The follow-up is exactly five days, so strictly, later, on the weekday five days on. |
| InteractionLogger.Appended | just_backup_data/interaction_logger.py:10-21 | Logging always leaves a file. |
| InteractionLogger.AppendedToMissing | just_backup_data/interaction_logger.py:12-17 | A missing file becomes a one-entry list. |
| InteractionLogger.AppendedKeepsEarlier | just_backup_data/interaction_logger.py:14-17 | Logging to a list puts the entry last and keeps every earlier entry, in order. |
| InteractionLogger.AppendedChangesLists | just_backup_data/interaction_logger.py:10-21 | Only a file that is not a list is left alone. |
| InteractionLogger.LogFile.constructor | just_backup_data/interaction_logger.py:12-16 | The log starts with the given file content. |
| InteractionLogger.LogFile.LogInteraction | just_backup_data/interaction_logger.py:10-21 | The file becomes the appended log; failure is reported, not raised, exactly when the file is not a list. |
| Clock.Weekday | iitgn_faculty/email_drafter.py:12 | The weekday is in 0..6. |
| Clock.WeekdayNext | iitgn_faculty/email_drafter.py:13 | Each day's weekday follows the previous one. |
| Clock.AddDays | just_backup_data/interaction_logger.py:8 | Adding n days moves the instant by exactly n days. |
| Clock.LaterDayLater | iitgn_faculty/email_drafter.py:12-14 | A later day at any time is a later instant. |
| Sorting.Sort | iitgn_faculty/serp.py:69 | The sorted list is ordered and a permutation of its input. |
| Sorting.SortedUnique | iitgn_faculty/serp.py:69 | A sorted arrangement of a multiset is unique. |
| Sorting.Distinct | iitgn_faculty/scrapers/spiders/iith/prof_pages_iith.py:36-39 | Distinct elements: no repetition and the same members. |
| Sorting.SortedSetFacts | iitgn_faculty/serp.py:69 | `sorted(set(...))` is strictly ascending and holds exactly the input's elements. |

## Left out

- Network and browser I/O are not modelled: Playwright and Scrapy page loads, the Gemini and SerpAPI calls, and thread time-outs. Their outcomes are parameters: the page's anchors or cards, the model's reply text, or `None` for a failure or time-out.
- Recommender.RetrieveSemanticRecommendations: the embedding model and the Chroma vector store are not modelled. A similarity search is an abstract ranked list of document texts, or a raised error. The persisted index is not rebuilt from the corpus, so the texts it returns are taken as given.
- Recommender.BuildCorpus: `CharacterTextSplitter(separator="\n")` is not modelled. The documents are the texts before splitting. The splitter splits on "\n", drops the empty pieces, re-joins them with "\n" up to the chunk size and strips each chunk. So the indexed text can differ from the model's document text even for short texts: "a\n\nb" is indexed as "a\nb". Texts longer than one million characters are also cut into several chunks.
- Recommender.Frame: pandas is not modelled beyond the columns the pipeline uses. `astype(str)` is simplified:
  - null is "", strings stay as they are, Booleans become "True"/"False" and integers become their decimal form;
  - lists and objects get a fixed placeholder instead of Python's `repr`;
  - floating-point numbers are not modelled.
- ProfScraper.DeduplicateProfessors: records are string-to-string maps, and a missing field reads as "". Three consequences:
  - A JSON `null` department makes `.split(" | ")` on lines 58-59 of `prof_scraper.py` raise AttributeError. Nothing catches it at the call on line 162, but the model has no null and does not raise.
  - The `len(str(...))` comparison on line 50 compares string lengths only; `str()` of numbers, lists or objects is not modelled.
  - The kept record is the caller's own dict, so the source's merges also change the input list. The model returns new records and leaves its input unchanged.
- DeptLinks.Surviving: the class `[\w\-]` on line 75 of `dept_links.py` is read as ASCII letters, digits, `_` and `-`. Python's `\w` also matches non-ASCII letters and digits, so a link ending in `/profé/` is dropped by the source but kept by the model.
- DeptLinks.Wordish: ASCII only, as for `DeptLinks.Surviving` above.
- Strings.IsDigits: ASCII digits only. Python's `str.isdigit()` (line 227 of `recommender.py`) also accepts other Unicode digits. A hit starting "٣ x" gives tag 3 in the source (`int` reads the Arabic-Indic digit) and no tag in the model. A hit starting with a superscript digit passes `isdigit()` but makes `int()` raise ValueError, which the loop catches and skips, as the model does.
- App.LoadData: records are string-to-string maps. JSON `null` and non-string field values of the app's files are not modelled.
- App.SplitInterestsClean: the mis-encoded delimiter class and strip set of the app are parameters, not literal characters.
- The Streamlit page itself is not modelled: widgets, session state, rendering, caching and the AI goal detection. The college selector options (`app.py` line 233) are not modelled; they are built like the department options without the empty filter.
- Url.UrlSplit: NFKC checks of the network location, IPv6 bracket validation and the scheme-specific caches of `urllib.parse` are not modelled.
- Strings.Lower and Strings.Upper map ASCII letters only; Unicode case mapping is not modelled.
- Iitgn.DepartmentLinks: `response.urljoin` is a function parameter, as are the XPath and CSS selections, which arrive as lists of strings.
- EmailDrafter.LogEntry: `isoformat` is a parameter. `datetime.now()` is the parameter `now`. The year range of `datetime` (an overflow past year 9999) is not modelled.
- InteractionLogger.LogFile.LogInteraction: a file that is not valid JSON, and write failures, are not modelled. The file is an optional JSON value, and a non-list value makes the append fail and be swallowed.
- Serp.ResultFile.WritePartialJson: a file that is not valid JSON is not modelled. The file is an optional JSON value.
- The `main` loop of `serp.py` and the scripts' top-level file writing are not modelled, apart from the per-item loops modelled above.
- ProfDetail.ExtractProfessorInfo: the `\[\s*{.*}\s*\]` extraction and `json.loads` of the reply are not modelled. The reply arrives already parsed, or as `None` when no list was found or the call failed.

## Findings

| source | as written | input that shows it | evidently intended | confidence | as-written member | corrected member |
|---|---|---|---|---|---|---|
| iitgn_faculty/scrapers/spiders/general_scraper_model/prof_scraper.py:77-82 | the cut is `html.rfind("</div>", 0, max_chars)`: where the last `</div>` lying wholly inside the first `max_chars` characters starts. When that `</div>` is at index 0, the cut is 0 and the loop appends "" forever. That happens when the remaining text begins with `</div>` and no other `</div>` lies wholly inside the window. A text like "</div></div>xxxxxxxx" with `max_chars` 12 still cuts at 6 | "ab</div>cdefgh" with `max_chars` 8: the first cut is 2, then the text starts with `</div>` and every later cut is 0 | cut just after the `</div>` found (or always make progress), so the loop ends and each chunk ends with a closing tag | not executed | Html.SplitHtmlDivergesAfterCut | Html.SplitHtmlAfterDivChunks |
