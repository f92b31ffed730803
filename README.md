# EcoBot retrieval core and OCR batch scripts in Dafny

This project models the bookkeeping of a course chatbot that answers from
retrieved fragments (retrieval-augmented generation), and proves properties
of that model. It covers:

- the chatbot's `RAGSystem` class and the offline indexer `preprocess_embeddings`:
  - splitting texts into overlapping 1000-character windows, 800 apart;
  - cataloguing a folder's `.txt` files into fragments with ids `<stem>_<index>`
    and `source`/`chunk`/`total_chunks` metadata;
  - the MD5 corpus fingerprint over the sorted `name_size_mtime` renderings;
  - the `documents_changed` check;
  - the single vector-store collection `documentos_curso`;
  - keyword extraction, from the LLM's comma-separated reply or, when that call fails,
    from the question's words minus stop words;
  - keyword re-ranking: each keyword found takes 0.3 off the distance, then a stable sort
    by final score and truncation to `n`;
  - the `"\n\n"`-joined context, the user message, and the accumulation of the streamed reply;
- the two OCR scripts, `ocr_txt` (one topic) and `ocr_txt_mejorado` (several topics plus
  the uncategorised "apuntes"):
  - the integer part of the resize rule;
  - selecting images by case-insensitive prefix;
  - the FASE 1 counters `procesadas`/`saltadas`/`errores`;
  - the FASE 2 consolidation into one text with `📄 Fuente:` headings and `=`×80 separators;
  - the FASE 3 decision to write the output file.

Everything outside the program is a value or a parameter:

- A folder is the list of its entries.
- The vector store is a class whose `collections` map names to fragment lists.
- `md5`, the LLM's keyword reply, `collection.query`, the OCR model and the header banner
  are inputs.
- Whether the store accepts (embeds) a batch is a boolean.

Where an operation loops or updates state in the source, it is a method proved against a
function. Examples: `ChunkText` against `Chunks`, `BuildCatalogue` against `Catalogue`,
`SortByFinalScore` (an in-place insertion sort on an array) against `SortScored`,
`ProcessImages` against `Run`, and `Consolidate` against `Consolidated`. The properties are
lemmas about those functions.

Modules, in dependency order:

- `Wrappers`;
- `Text`: Python's `strip`, `lower`, `split`, `join`, `in`, string order and `str(n)`;
- `Sorting`;
- `Chunker`;
- `Corpus`;
- `Catalogue`;
- `Fingerprint`;
- `Keywords`;
- `Retriever`;
- `Answer`;
- `Store`;
- `Chatbot`;
- `Preprocess`;
- `OcrBatch` (shared by both scripts);
- `OcrTxt`;
- `OcrMejorado`.

Two behaviours of the code are worth knowing:

- `Chunker.ChunkText` emits a window at every start below the length, so it yields
  ceil(len / 800) chunks, and the last one can lie wholly inside its predecessor
  (`Chunker.RedundantLastChunkIff` says exactly when).
- The stop-word fallback for "¿Qué es el Mercosur?" keeps "¿qué" and "mercosur?"
  (`Keywords.FallbackKeywordsExample`). The stop word is "qué", and `split()` leaves the
  "¿" and the "?" attached to the words.

## Model

| member | source | states |
|---|---|---|
| Chunker.ChunkText | chatbot_groq.py:91-103 | the `while start < len(text)` loop returns exactly the closed-form windows (the same function is at preprocess_embeddings.py:31-43) |
| Chunker.Chunks | chatbot_groq.py:97-101 | the number of chunks is ceil(len/800) |
| Chunker.ChunkCountBound | chatbot_groq.py:97 | window i exists exactly when its start 800·i is below the length |
| Chunker.ChunkShape | chatbot_groq.py:97-101 | every chunk is non-empty and at most 1000 characters; all but the last exceed 800; empty text gives no chunk and only empty text does |
| Chunker.ChunkOverlap | chatbot_groq.py:98-101 | what follows offset 800 in a chunk is the first 200 characters of the next one |
| Chunker.ChunksTail | chatbot_groq.py:97-101 | dropping the first 800 characters shifts the chunk list by one window |
| Chunker.ReassembleChunks | chatbot_groq.py:91-103 | the first 800 characters of every chunk but the last, then the last chunk, rebuild the text exactly |
| Chunker.RedundantLastChunkIff | chatbot_groq.py:97-101 | the last chunk lies wholly inside its predecessor exactly when len > 800 and 0 < len mod 800 <= 200 |
| Text.PySlice | chatbot_groq.py:99 | Python slicing clamps the end to the length and gives "" past it |
| Text.Strip | chatbot_groq.py:201 | `strip()` is empty exactly for all-whitespace text, otherwise it starts and ends with a non-space, and never grows |
| Text.StripIdempotent | chatbot_groq.py:203 | stripping twice is stripping once |
| Text.Lower | chatbot_groq.py:218 | `lower()` keeps the length and lower-cases character by character |
| Text.LowerIdempotent | chatbot_groq.py:203 | lower-casing twice is lower-casing once |
| Text.LowerStripCommute | chatbot_groq.py:203 | `strip().lower()` equals `lower().strip()` |
| Text.SplitOnJoin | chatbot_groq.py:203 | the pieces of `split(',')` hold no comma and join back to the input |
| Text.SplitOn | chatbot_groq.py:203 | `split(',')` always gives at least one piece, even for the empty text |
| Text.WordsAreWords | chatbot_groq.py:207 | `split()` yields non-empty words without whitespace |
| Text.WordsConcat | chatbot_groq.py:207 | the words of `split()`, concatenated, are the input with its whitespace removed |
| Text.Words | chatbot_groq.py:207 | `split()` gives no more words than the text has characters |
| Text.JoinLength | chatbot_groq.py:257 | a join is as long as its parts plus one separator between each pair |
| Text.JoinHolds | chatbot_groq.py:257 | every part occurs in the join, followed by the separator unless it is the last |
| Text.NatToString | chatbot_groq.py:154 | `str(n)` is a non-empty string of digits |
| Text.ParseNatToString | chatbot_groq.py:154 | reading `str(n)` back gives n |
| Text.NatToStringInjective | chatbot_groq.py:154 | different numbers have different renderings |
| Text.LexLeTotal | chatbot_groq.py:48 | Python's string order is total |
| Text.LexLeTransitive | chatbot_groq.py:48 | Python's string order is transitive |
| Text.LexLeAntisymmetric | chatbot_groq.py:48 | Python's string order is antisymmetric |
| Sorting.SortBy | chatbot_groq.py:48 | `sorted` returns a sorted permutation of its input |
| Sorting.SortStrings | ocr_txt_mejorado.py:93 | `list.sort()` on names returns a sorted permutation |
| Sorting.SortedUnique | chatbot_groq.py:48 | two sorted permutations of a list whose keys identify its elements are equal |
| Sorting.SortByUnique | chatbot_groq.py:48 | sorting lists with the same elements gives the same list when keys identify elements |
| Corpus.GlobTxt | chatbot_groq.py:127 | the listing is no longer than the folder |
| Corpus.GlobTxtMembers | chatbot_groq.py:127 | `glob("*.txt")` holds exactly the entries whose name ends in ".txt" |
| Corpus.GlobTxtDistinct | chatbot_groq.py:127 | the listing of a folder keeps names distinct |
| Corpus.RFind | chatbot_groq.py:139 | the last index of the character, or -1, with no occurrence after it |
| Corpus.Suffix | chatbot_groq.py:139 | `suffix` is a tail of the name that is empty or a dot followed by at least one character and no other dot |
| Corpus.Stem | chatbot_groq.py:154 | `stem` followed by `suffix` gives the name back |
| Corpus.StemOfTxt | chatbot_groq.py:139-154 | a ".txt" name other than ".txt" has suffix ".txt" and stem plus ".txt" gives it back |
| Corpus.DotTxtSuffix | chatbot_groq.py:139 | the hidden file ".txt" has no suffix and is its own stem |
| Corpus.StemInjective | chatbot_groq.py:154 | among ".txt" names other than ".txt", equal stems mean equal names |
| Corpus.StemClash | preprocess_embeddings.py:108 | ".txt" and ".txt.txt" share the stem ".txt" |
| Catalogue.LastUnderscore | chatbot_groq.py:154 | the last underscore of an id is the one after the stem |
| Catalogue.ParseFragmentIdInverse | chatbot_groq.py:154 | an id `stem_i` parses back into its stem and index |
| Catalogue.FragmentIdsDiffer | chatbot_groq.py:154 | ids from different stems or different indices differ |
| Catalogue.FileFragments | chatbot_groq.py:140-154 | an unreadable or empty file contributes nothing, a readable one ceil(len/800) fragments |
| Catalogue.FileFragmentsOf | chatbot_groq.py:147-154 | fragment n of a file carries the file's name, index n, the file's chunk count, id `stem_n` and chunk n |
| Catalogue.FragmentId | chatbot_groq.py:154 | the id `stem_i` starts with the stem and an underscore, followed by at least one character |
| Catalogue.Catalogue | chatbot_groq.py:123-157 | no files give no fragments; the catalogue holds as many fragments as the files' chunk counts add up to |
| Catalogue.CatalogueSize | chatbot_groq.py:136-157 | the catalogue holds the sum of the per-file chunk counts |
| Catalogue.CatalogueOrigin | chatbot_groq.py:136-157 | every fragment comes from one of the files |
| Catalogue.LoadedNotDotTxt | chatbot_groq.py:139-142 | the chatbot's suffix check never reads the file ".txt" |
| Catalogue.FileIdsDiffer | chatbot_groq.py:154 | fragments of two different files have different ids |
| Catalogue.FileIdsDistinct | chatbot_groq.py:147-154 | the ids within one file are distinct |
| Catalogue.CrossIdsDiffer | chatbot_groq.py:136-154 | an earlier file's fragments and the last file's fragments have different ids |
| Catalogue.AppendDistinctIds | chatbot_groq.py:136-154 | two runs of fragments with distinct ids and no id in common give distinct ids together |
| Catalogue.CatalogueIdsDistinct | chatbot_groq.py:136-157 | distinct ".txt" names (and no ".txt" unless the suffix is checked) give distinct ids |
| Catalogue.DotTxtClash | preprocess_embeddings.py:94-108 | the offline indexer gives ".txt" and ".txt.txt" the same id `.txt_0` |
| Catalogue.CatalogueStep | chatbot_groq.py:136-157 | each file extends the catalogue by its own fragments |
| Catalogue.ListsExtend | chatbot_groq.py:147-154 | appending one fragment's text, metadata and id keeps the three lists in step with the fragments |
| Catalogue.BuildCatalogue | chatbot_groq.py:123-157 | the nested loop fills three equal-length lists that spell out the catalogue position by position |
| Catalogue.AddFileFragments | chatbot_groq.py:145-154 | the loop over one readable file's chunks appends exactly that file's fragments to the three lists |
| Fingerprint.Renders | chatbot_groq.py:51-53 | every text file rendered as `name_size_mtime`, in order; None exactly when some `stat()` fails |
| Fingerprint.PreImage | chatbot_groq.py:48-57 | the `\|`-joined string is missing exactly when some `stat()` fails |
| Fingerprint.CorpusFingerprint | chatbot_groq.py:41-59 | a missing folder gives None; a present fingerprint is the MD5 of the joined renderings |
| Fingerprint.SortedTxt | chatbot_groq.py:48 | the sorted listing is a permutation of the text files in ascending name order |
| Fingerprint.SortedTxtMembers | chatbot_groq.py:48 | the sorted listing holds exactly the ".txt" entries |
| Fingerprint.DocumentsHash | chatbot_groq.py:41-59 | the loop filling `file_info` computes the fingerprint function |
| Fingerprint.RendersAbsent | chatbot_groq.py:51-59 | the renderings are missing exactly when some file cannot be stat'ed |
| Fingerprint.FingerprintAbsent | chatbot_groq.py:44-59 | the fingerprint is None exactly when the folder is missing or a text file cannot be stat'ed |
| Fingerprint.GlobTxtCount | chatbot_groq.py:48 | the listing keeps each ".txt" entry as often as the folder has it, and drops the others |
| Fingerprint.GlobTxtPermutation | chatbot_groq.py:48 | folders with the same entries list the same text files up to order |
| Fingerprint.GlobTxtKeysIdentify | chatbot_groq.py:48 | names identify the text files of a folder |
| Fingerprint.SortedTxtOrderIndependent | chatbot_groq.py:48 | the sorted listing does not depend on the order of the folder's entries |
| Fingerprint.FingerprintOrderIndependent | preprocess_embeddings.py:10-29 | the fingerprint does not depend on the order of the folder's entries |
| Fingerprint.HashFile.constructor | chatbot_groq.py:66-70 | a fingerprint file holds the given content, or is absent |
| Fingerprint.ChangeCheck | chatbot_groq.py:63-76 | changed exactly when the current fingerprint differs from the stripped stored one; a truthy fingerprint is stored, otherwise the file is kept |
| Fingerprint.ChangeCheckAsWritten | chatbot_groq.py:61-78 | as written the check always answers changed and writes nothing |
| Fingerprint.ChangeCheckSettles | chatbot_groq.py:63-76 | after the check stores a digest, a second check on the same corpus reports no change |
| Fingerprint.ChangeCheckWithoutDigest | chatbot_groq.py:72-76 | without a digest, the check reports a change exactly when a file is stored, and writes nothing |
| Fingerprint.ChangeCheckAsWrittenDiffers | chatbot_groq.py:61-78 | for a matching stored digest, the code as written reports a change and the intended check does not |
| Fingerprint.GuardedCheck | chatbot_groq.py:63-78 | when reading an existing file or writing a truthy fingerprint raises, the answer is True and the file keeps its content; otherwise it is ChangeCheck |
| Fingerprint.GuardedCheckUnchanged | chatbot_groq.py:63-78 | the check reports "unchanged" exactly when no file operation failed and the stored digest matches the current one |
| Fingerprint.CheckAndUpdate | chatbot_groq.py:63-78 | reading, comparing and rewriting the file, with its read and write failures, computes GuardedCheck on the old content |
| Keywords.KeepTerms | chatbot_groq.py:203 | keeps at most one term per part |
| Keywords.KeepTermsMembers | chatbot_groq.py:203 | a term is kept exactly when some non-blank part strips and lower-cases to it |
| Keywords.TermOfPart | chatbot_groq.py:203 | a non-blank part gives a non-empty, stripped, lower-case term, with no comma when the part has none |
| Keywords.LowerKeepsCommas | chatbot_groq.py:203 | lower-casing adds no comma |
| Keywords.ParseKeywordReplyTerms | chatbot_groq.py:201-203 | the reply's keywords are exactly the stripped, lower-cased non-blank comma pieces; each is a normalised term without comma |
| Keywords.ParseTwoTerms | chatbot_groq.py:189-190 | a reply "a, b" in the prompt's format gives exactly [a, b] |
| Keywords.ParseKeywordReplyExample | chatbot_groq.py:190 | the reply "tratado, maastricht" gives ["tratado", "maastricht"] |
| Keywords.ParseKeywordReply | chatbot_groq.py:201-203 | no more keywords than comma pieces of the stripped reply |
| Keywords.KeepWords | chatbot_groq.py:207 | keeps at most one keyword per word |
| Keywords.KeepWordsMembers | chatbot_groq.py:206-207 | a keyword is kept exactly when some word lower-cases to it, it is not a stop word and the word has more than two characters |
| Keywords.FallbackKeywordsTerms | chatbot_groq.py:206-207 | fallback keywords are exactly the lower-cased long non-stop words of the question, each a space-free term |
| Keywords.FallbackKeywords | chatbot_groq.py:206-207 | no more keywords than words of the question |
| Keywords.LowerWord | chatbot_groq.py:207 | a lower-cased word is a space-free term of the same length |
| Keywords.QuestionExampleWords | chatbot_groq.py:207 | "¿Qué es el Mercosur?" splits into ["¿Qué", "es", "el", "Mercosur?"] |
| Keywords.FourWords | chatbot_groq.py:207 | four space-free words joined by single spaces split back into those four words |
| Keywords.FallbackKeywordsExample | chatbot_groq.py:206-207 | the fallback for "¿Qué es el Mercosur?" gives ["¿qué", "mercosur?"] |
| Keywords.ExtractKeywords | chatbot_groq.py:193-207 | the reply's keywords when the LLM answers, the fallback when the call fails |
| Keywords.ExtractKeywordsTerms | chatbot_groq.py:193-207 | whichever path produced them, keywords are normalised terms |
| Retriever.KeywordCount | chatbot_groq.py:221 | the count is at most the number of keywords |
| Retriever.KeywordCountExtremes | chatbot_groq.py:221 | the count is 0 exactly when no keyword occurs, and full exactly when all occur |
| Retriever.Score | chatbot_groq.py:217-236 | the final score lies between distance − 0.3·|keywords| and the distance, and equals the distance exactly when no keyword occurs in the lower-cased document |
| Retriever.ScoreOrigin | chatbot_groq.py:229-236 | the entry keeps the candidate's document, metadata, id and distance |
| Retriever.ScoreAll | chatbot_groq.py:216-236 | one entry per candidate, in order |
| Retriever.WithScoreSnoc | chatbot_groq.py:239 | the entries of one score in a list with one more entry |
| Retriever.InsertBack | chatbot_groq.py:239 | inserting an entry adds exactly that entry |
| Retriever.InsertBackBound | chatbot_groq.py:239 | insertion adds no entry above a bound the entry and the list respect |
| Retriever.InsertBackSorted | chatbot_groq.py:239 | inserting into a sorted list keeps it sorted |
| Retriever.InsertBackStable | chatbot_groq.py:239 | the inserted entry goes after the entries of equal score |
| Retriever.SortScored | chatbot_groq.py:239 | the sort is a permutation |
| Retriever.SortScoredSorted | chatbot_groq.py:239 | the sort ascends by final score |
| Retriever.SortScoredStable | chatbot_groq.py:239 | equal scores keep their relative order (Python's sort is stable) |
| Retriever.SortScoredStep | chatbot_groq.py:239 | sorting one more element is one more insertion |
| Retriever.InsertAt | chatbot_groq.py:239 | one step of the in-place insertion sort inserts `a[i]` into the sorted prefix and leaves the rest |
| Retriever.SortByFinalScore | chatbot_groq.py:239 | the in-place sort leaves the array equal to the stable sort of its old contents |
| Retriever.Take | chatbot_groq.py:240 | `[:n]` is a prefix of length min(n, len) |
| Retriever.Reranked | chatbot_groq.py:216-240 | `scored_results[:n]` after the sort: min(n, candidates) entries, a prefix of the sorted scorings |
| Retriever.Pack | chatbot_groq.py:243-248 | four equal-length lists whose k-th items are the k-th entry's fields |
| Retriever.Rerank | chatbot_groq.py:216-248 | the scoring loop, the in-place sort and the truncation compute Pack of the reranked entries |
| Retriever.RerankedShape | chatbot_groq.py:238-240 | min(n, candidates) entries, ascending, each the scoring of some candidate |
| Retriever.ScoredInSorted | chatbot_groq.py:239 | the sorted list holds every candidate's scoring |
| Retriever.TakeKeepsBetter | chatbot_groq.py:240 | in a sorted list, an entry scoring below a kept one is kept too |
| Retriever.RerankedKeepsBetter | chatbot_groq.py:238-240 | a candidate scoring strictly better than a kept entry is kept |
| Retriever.RerankedTies | chatbot_groq.py:239 | ties keep the vector store's order |
| Retriever.RerankResults | chatbot_groq.py:243-250 | the four lists hold min(n, candidates) items; position k is the candidate of the k-th reranked entry, with its semantic distance; positions ascend by keyword-adjusted score |
| Answer.ContextOf | chatbot_groq.py:257 | the context is the fragments' length plus two characters between each pair |
| Answer.ContextHoldsFragments | chatbot_groq.py:257 | every fragment occurs in the context, followed by a blank line unless it is the last |
| Answer.ContextOfAppend | chatbot_groq.py:257 | one more fragment adds a blank line and that fragment |
| Answer.UserContent | chatbot_groq.py:269-275 | the message opens with the context heading, then the context, and ends with the question and a newline |
| Answer.UserContentQuotes | chatbot_groq.py:269-275 | the message contains the context and the question |
| Answer.StreamTextAppend | chatbot_groq.py:727-729 | the reply of two stretches of the stream is the concatenation of their replies |
| Answer.StreamTextSingle | chatbot_groq.py:728-729 | one chunk contributes its delta when it is truthy |
| Answer.StreamTextSkipsEmpty | chatbot_groq.py:728 | chunks without text leave the reply unchanged |
| Answer.StreamTextOfParts | chatbot_groq.py:727-729 | a stream whose chunks all carry text gives their concatenation |
| Answer.StreamText | chatbot_groq.py:727-729 | the reply starts with the first chunk's text when that chunk has some |
| Answer.Deltas | chatbot_groq.py:727-728 | one delta per chunk of a stream that completes, in order |
| Answer.AccumulateStream | chatbot_groq.py:722-744 | a stream that completes gives its text, and no response gives ""; a stream that raises part-way gives no history entry |
| Store.Zip | chatbot_groq.py:163-167 | the k-th fragment of the batch has the k-th id, document and metadata |
| Store.Fresh | chatbot_groq.py:163-167 | the store adds no more fragments than the batch holds |
| Store.FreshMembers | chatbot_groq.py:163-167 | a fragment is added exactly when it is in the batch and its id is not stored yet |
| Store.FreshInEmpty | preprocess_embeddings.py:117-121 | into an empty collection the whole batch is added |
| Store.FreshAgain | chatbot_groq.py:163-167 | adding the same batch a second time adds nothing |
| Store.FreshNone | chatbot_groq.py:163-167 | a batch whose ids are all stored adds nothing |
| Store.ZipCatalogue | chatbot_groq.py:163-167 | lists that spell out the catalogue zip back to it, and their ids are distinct exactly when the fragments' are |
| Store.IndexBatch | chatbot_groq.py:123-157 | the three lists are the folder's catalogue, with distinct ids exactly when the catalogue has them |
| Store.RemoveThenSet | preprocess_embeddings.py:64-74 | a generic map identity used as a proof step: deleting a key then setting it is the same as setting it |
| Store.SetTwice | preprocess_embeddings.py:71-121 | a generic map identity used as a proof step: setting a key twice keeps the second value |
| Store.VectorStore.constructor | chatbot_groq.py:20-22 | the client's collections are the given ones |
| Store.VectorStore.DeleteCollection | preprocess_embeddings.py:64-68 | the collection is gone; the call fails exactly when it did not exist |
| Store.VectorStore.CreateCollection | preprocess_embeddings.py:71-74 | a new name gets an empty collection; a taken name fails and changes nothing |
| Store.VectorStore.GetOrCreateCollection | chatbot_groq.py:80-89 | an existing collection is left alone, a missing one is created empty |
| Store.VectorStore.Add | chatbot_groq.py:162-167 | refused (nothing changes) unless accepted, the collection exists, the lists have one length and ids are distinct; otherwise the new-id fragments are appended |
| Preprocess.RebuildCollection | preprocess_embeddings.py:63-75 | after delete and create, the collection exists and is empty; nothing else changes |
| Preprocess.AddToEmpty | preprocess_embeddings.py:115-121 | the add succeeds exactly when accepted with distinct ids, then the collection is the batch; otherwise nothing changes |
| Preprocess.StoreFiles | preprocess_embeddings.py:88-134 | the count is the batch size, None exactly for a refused non-empty batch; the collection holds the batch; the fingerprint is written only after a successful non-empty add, and only when truthy |
| Preprocess.PreprocessEmbeddings | preprocess_embeddings.py:54-134 | the collection is rebuilt and holds exactly the folder's catalogue unless the add raises; count and fingerprint file as for the batch |
| Preprocess.IndexedIdsDistinct | preprocess_embeddings.py:83-108 | with distinct names and no ".txt" file the ids are distinct, and the count is the sum of chunk counts |
| Preprocess.IndexedFragments | preprocess_embeddings.py:83-112 | no folder gives no fragments; otherwise as many as the chunk counts of all its `.txt` files add up to |
| Preprocess.DotTxtBatchFails | preprocess_embeddings.py:83-121 | a folder with ".txt" and ".txt.txt" makes the indexer's batch repeat an id |
| Chatbot.ProcessedIdsDistinct | chatbot_groq.py:127-154 | the chatbot's batch never repeats an id, since ".txt" is skipped, and holds the sum of chunk counts of the files it reads |
| Chatbot.ProcessedFragments | chatbot_groq.py:127-157 | no folder gives no fragments; otherwise as many as the chunk counts of its `.txt` files other than ".txt" add up to |
| Chatbot.RAGSystem.constructor | chatbot_groq.py:36-39 | the store is the given one and `doc_hash_file` is never assigned |
| Chatbot.RAGSystem.DocumentsChanged | chatbot_groq.py:61-78 | without a fingerprint file (as `__init__` leaves it) the answer is always True; with one, the intended check-and-update including its read and write failures |
| Chatbot.RAGSystem.ProcessDocuments | chatbot_groq.py:114-175 | the collection is opened; the count is the catalogue size when the batch is stored, else 0; the collection then gains the batch's new-id fragments, else it is unchanged |
| Chatbot.RAGSystem.Search | chatbot_groq.py:177-253 | the collection is opened and queried for 5·n hits; None exactly when the query fails; otherwise the reranked top n by keyword-adjusted score |
| OcrBatch.RoundTo32 | ocr_txt_mejorado.py:59-60 | the side is a multiple of 32, at least 32, and the largest such at or below the input when the input is at least 32 |
| OcrBatch.RoundTo32KeepsRange | ocr_txt_mejorado.py:59-60 | rounding keeps a side in [640, 1024] |
| OcrBatch.ResizeImage | ocr_txt_mejorado.py:36-71 | resized exactly when the image opens, is outside the limits, no division by zero occurs and the save succeeds; the new sides are multiples of 32 and at least 32; otherwise the original is used |
| OcrBatch.FinalSizeInRange | ocr_txt_mejorado.py:45-60 | when the scaling steps land where they aim, the result is within [640, 1024] on both sides |
| OcrBatch.GrownAtMost1024 | ocr_txt_mejorado.py:54-57 | after the second scaling step no side exceeds 1024 |
| OcrBatch.GlobExt | ocr_txt_mejorado.py:89-90 | one pattern's listing is no longer than the folder |
| OcrBatch.GlobExtMembers | ocr_txt_mejorado.py:89-90 | `glob("*.png")` lists the visible names ending in the extension |
| OcrBatch.GlobTypesMembers | ocr_txt_mejorado.py:87-90 | the three patterns together list the names matching one of them |
| OcrBatch.AllImagesMembers | ocr_txt_mejorado.py:87-90 | the image listing holds exactly the visible names ending in .png, .jpg or .jpeg |
| OcrBatch.FindImages | ocr_txt_mejorado.py:87-90 | the `extend` loop over the three patterns builds the image listing |
| OcrBatch.WithPrefix | ocr_txt_mejorado.py:92 | the filter keeps at most the listed images |
| OcrBatch.WithPrefixMembers | ocr_txt_mejorado.py:92 | an image is kept exactly when its lower-cased name contains the lower-cased prefix |
| OcrBatch.SelectMembers | ocr_txt_mejorado.py:92-93 | the selection is sorted and holds exactly the matching images, each as often as listed |
| OcrBatch.Select | ocr_txt_mejorado.py:92-93 | the sorted selection holds the filtered images, each as often as listed |
| OcrBatch.SplitExtRoot | ocr_txt_mejorado.py:114 | `splitext(nombre)[0]` is a prefix of the name; when shorter, a dot follows it and the rest holds no other dot |
| OcrBatch.TxtName | ocr_txt_mejorado.py:114-115 | the text file name ends in ".txt" after a prefix of the image name |
| OcrBatch.Names | ocr_txt_mejorado.py:117 | the names of the temporary folder, in order |
| OcrBatch.ProcessImages | ocr_txt_mejorado.py:108-158 | the FASE 1 loop computes Run; the three counters sum to the number of images |
| OcrBatch.ProcessImage | ocr_txt_mejorado.py:112-158 | one iteration of the loop computes Step: skip, write the reply, or count an error |
| OcrBatch.Step | ocr_txt_mejorado.py:112-158 | each image raises the counters by exactly one in total |
| OcrBatch.Run | ocr_txt_mejorado.py:108-158 | the counters rise by the number of images |
| OcrBatch.SkipIgnoresOcr | ocr_txt_mejorado.py:117-120 | an image whose text file exists is skipped without using the OCR reply |
| OcrBatch.StepEffect | ocr_txt_mejorado.py:112-158 | each image raises exactly one counter and leaves the other two: `saltadas` exactly when its text file exists, `procesadas` exactly when the stripped reply is written, `errores` otherwise; the folder changes exactly when the reply is written |
| OcrBatch.RunCounts | ocr_txt_mejorado.py:108-158 | the counters rise by the number of images; the folder keeps its files and gains one per processed image |
| OcrBatch.WrittenForLonger | ocr_txt_mejorado.py:112-143 | a file written for some of the images is written for the whole list |
| OcrBatch.RunWritten | ocr_txt_mejorado.py:139-143 | every file written is a stripped reply longer than the bound, named after one of the images |
| OcrBatch.DistinctSnoc | ocr_txt_mejorado.py:117-143 | adding a file under a new name keeps the names distinct |
| OcrBatch.RunDistinct | ocr_txt_mejorado.py:117-143 | FASE 1 never writes a text file whose name already exists |
| OcrBatch.TxtFilesMembers | ocr_txt_mejorado.py:169 | `glob("*.txt")` holds exactly the visible text files |
| OcrBatch.TxtListingMembers | ocr_txt_mejorado.py:169 | the sorted listing is ordered by name and holds exactly the visible `.txt` files |
| OcrBatch.Rule | ocr_txt_mejorado.py:185-187 | `c * n` has length n and only the character c |
| OcrBatch.Included | ocr_txt_mejorado.py:183 | no more files are included than listed |
| OcrBatch.Entries | ocr_txt_mejorado.py:187 | one entry per included file |
| OcrBatch.IncludedSnoc | ocr_txt_mejorado.py:183 | one more file is included exactly when its text is not blank |
| OcrBatch.EntriesSnoc | ocr_txt_mejorado.py:187 | one more file adds its entry |
| OcrBatch.ConsolidatedSnoc | ocr_txt_mejorado.py:183-188 | a blank file leaves the text alone; another adds a separator, unless it is the first, and its entry |
| OcrBatch.AppendEntry | ocr_txt_mejorado.py:183-188 | a blank text changes nothing; another raises `contador` and appends its entry, after the `=` separator unless it is the first |
| OcrBatch.ConsolidateFile | ocr_txt_mejorado.py:179-192 | one iteration keeps `contenido_total` and `contador` equal to the consolidation of the files seen so far |
| OcrBatch.Consolidate | ocr_txt_mejorado.py:172-192 | the loop's `contador` counts the non-blank files and `contenido_total` is their entries joined by separators |
| OcrBatch.Consolidated | ocr_txt_mejorado.py:183-192 | with no non-blank file the consolidated text is empty |
| OcrBatch.IncludedMembers | ocr_txt_mejorado.py:183 | a file is consolidated exactly when it is listed and its text is not blank |
| OcrBatch.EntriesAt | ocr_txt_mejorado.py:187 | the k-th entry is the source heading, the dash rule and the k-th file's text |
| OcrBatch.EntryStart | ocr_txt_mejorado.py:187 | an entry opens with the page symbol of `📄 Fuente:`, not a space |
| OcrBatch.JoinBlank | ocr_txt_mejorado.py:201-203 | a join of parts starting with a non-space is blank exactly when there are no parts |
| OcrBatch.ConsolidatedShape | ocr_txt_mejorado.py:183-203 | the text is blank exactly when nothing is included; its length is the entries' plus `contador − 1` separators |
| OcrBatch.ConsolidatedBlank | ocr_txt_mejorado.py:183-203 | the consolidated text is blank exactly when no file is included |
| OcrBatch.ConsolidatedQuotes | ocr_txt_mejorado.py:184-187 | each included entry is in the text, followed by the separator unless it is the last |
| OcrBatch.FinalFileWritten | ocr_txt_mejorado.py:201-222 | the output is written exactly when some listed text is not blank, and it ends with the consolidated text |
| OcrBatch.FinalFile | ocr_txt_mejorado.py:201-222 | no file for a blank text; otherwise the banner followed by the whole text |
| OcrTxt.RunScript | ocr_txt.py:80-237 | no selected image aborts; otherwise the counters sum to the selection, FASE 2 consolidates every `.txt` file of the temporary folder, and the output is written exactly when one of them is not blank |
| OcrTxt.RunPhases | ocr_txt.py:96-237 | FASE 1, 2 and 3 over a non-empty selection: the counters sum to the selection, every `.txt` file of the folder is consolidated, and the output is the banner plus that text, written exactly when it is not blank |
| OcrTxt.ListingWritten | ocr_txt.py:173-209 | the output is written exactly when the temporary folder holds a visible, non-blank `.txt` file |
| OcrMejorado.SaveKeepsOthers | ocr_txt_mejorado.py:201-222 | writing one output file leaves every other output file as it was |
| OcrMejorado.Mentioning | ocr_txt_mejorado.py:170 | the filter keeps at most the listed files |
| OcrMejorado.MentioningMembers | ocr_txt_mejorado.py:170 | a text file is kept exactly when its lower-cased name contains the lower-cased prefix |
| OcrMejorado.MentioningSorted | ocr_txt_mejorado.py:169-170 | filtering the sorted listing keeps it sorted |
| OcrMejorado.TopicFilesMembers | ocr_txt_mejorado.py:169-170 | a topic's files are sorted and are exactly the visible `.txt` files mentioning it |
| OcrMejorado.TopicsProcesados | ocr_txt_mejorado.py:79-97 | the topic loop records exactly the images mentioning one of the prefixes |
| OcrMejorado.TopicSaves | ocr_txt_mejorado.py:99-228 | a topic changes the output folder only when it has images and a visible non-blank text file mentions it, and then only its own file |
| OcrMejorado.TopicKeepsOtherOutputs | ocr_txt_mejorado.py:81-228 | one topic writes no other output file |
| OcrMejorado.TopicsKeepOtherOutputs | ocr_txt_mejorado.py:81-228 | the topic loop writes no output file other than its topics' |
| OcrMejorado.TopicsDistinct | ocr_txt_mejorado.py:81-158 | the topic loop keeps the temporary folder's names distinct |
| OcrMejorado.Topic | ocr_txt_mejorado.py:81-228 | one topic only adds recorded images and writes no output file but its own |
| OcrMejorado.Topics | ocr_txt_mejorado.py:81-228 | the topic loop only adds recorded images and writes no output file but its topics' |
| OcrMejorado.NotProcessed | ocr_txt_mejorado.py:246-247 | the filter keeps at most the listed images |
| OcrMejorado.NotProcessedMembers | ocr_txt_mejorado.py:246-247 | an image is kept exactly when its name is not recorded |
| OcrMejorado.TxtNames | ocr_txt_mejorado.py:321-322 | one text file name per image, from the image's stem |
| OcrMejorado.Existing | ocr_txt_mejorado.py:323 | the filter keeps at most the derived names |
| OcrMejorado.ExistingMembers | ocr_txt_mejorado.py:323 | a name is kept exactly when it is derived and the file exists |
| OcrMejorado.ApuntesNamesMembers | ocr_txt_mejorado.py:321-324 | the apuntes list is sorted, keeps the multiplicities, and holds exactly the existing text names derived from the uncategorised images |
| OcrMejorado.ReadFound | ocr_txt_mejorado.py:335-336 | reading an existing name gives a file of the folder with that name |
| OcrMejorado.ReadAll | ocr_txt_mejorado.py:332-336 | one file read per name |
| OcrMejorado.ReadAllNames | ocr_txt_mejorado.py:332-336 | reading existing names gives files of the folder carrying those names, in that order |
| OcrMejorado.ConsolidateAndSave | ocr_txt_mejorado.py:172-228 | FASE 2 and 3 write the topic's file exactly when the consolidated text is not blank |
| OcrMejorado.ProcessTopic | ocr_txt_mejorado.py:81-228 | one pass of the topic loop computes Topic: records the selection, runs FASE 1 and writes the topic's file |
| OcrMejorado.RecordImages | ocr_txt_mejorado.py:96-97 | the loop adding each selected image to `prefijos_procesados` adds exactly the selection |
| OcrMejorado.ProcessApuntes | ocr_txt_mejorado.py:240-382 | the apuntes pass computes Apuntes over the unrecorded images |
| OcrMejorado.RunScript | ocr_txt_mejorado.py:79-382 | the whole script computes Script: the topic loop, then the apuntes pass |
| OcrMejorado.Partition | ocr_txt_mejorado.py:79-97 | every image is either recorded, exactly when it mentions a prefix, or among the sorted uncategorised images, never both |
| OcrMejorado.ApuntesKeepsOtherOutputs | ocr_txt_mejorado.py:352-382 | the apuntes pass writes no file but "apuntes.txt" |
| OcrMejorado.Apuntes | ocr_txt_mejorado.py:240-382 | the apuntes pass records nothing and writes no output file but "apuntes.txt" |
| OcrMejorado.ScriptKeepsOtherOutputs | ocr_txt_mejorado.py:79-382 | the script writes only "tratado.txt", "interaccionismo.txt" and "apuntes.txt" |
| OcrMejorado.Script | ocr_txt_mejorado.py:79-382 | the script writes no output file but the topics' and "apuntes.txt" |
| OcrMejorado.TxtNamesOfStem | ocr_txt_mejorado.py:321-322 | "a.jpg" and "a.png" both give "a.txt" |
| OcrMejorado.ApuntesListsTwice | ocr_txt_mejorado.py:321-324 | two uncategorised images with one stem list the same text file twice |
| OcrMejorado.ExistingTwice | ocr_txt_mejorado.py:323 | a concrete instance used as a proof step for ApuntesListsTwice: an existing name listed twice is kept twice |
| OcrMejorado.SortTwice | ocr_txt_mejorado.py:324 | a concrete instance used as a proof step for ApuntesListsTwice: sorting a name listed twice keeps both copies |

## Left out

- I/O: the model does not read files, write them, or render the Streamlit UI. Folders and
  files are values and the UI is not modelled.
- The vector store's embedding and similarity search are not modelled. `collection.query` is
  the parameter `vectorQuery`, and whether `collection.add` can embed a batch is the
  boolean `accepted`.
- The store skipping ids it already holds is an assumption about the store.
- The LLM calls are not modelled:
  - the keyword reply is an `Option` parameter, where None means the call raised;
  - `generate_response`'s completion call is out of scope, except for the message it builds
    and the accumulation of the stream.
- `hashlib.md5` is the function parameter `md5`. The rendering of `st_mtime` is the string
  that `stat` reports.
- The OCR model is the function `ocr`, from an image name to its reply, with None when the
  call raises. The three `except` branches are one error case.
- Floating point is not modelled:
  - the re-ranking scores are `real`s, so there is no rounding of `distance - 0.3·count`;
  - in the resize rule the two float scaling steps are abstracted as the parameters `fitted`
    and `grown`.
- `ResizeImage` returns the outcome, not the path of the resized file. `thumbnail` keeps the
  aspect ratio, so the real image can be smaller than the box; that is not modelled.
- The OCR scripts have no timer and no clock. The header is the parameter `banner`, given the
  topic, the document count and the character count; the date inside it comes from the clock.
- `Text.Lower` lower-cases ASCII and Latin-1 letters only, not all of Unicode.
- Text decoding errors are not modelled: a text file is read as its content or not at all.
- In FASE 2, a file that cannot be read is the same as a blank one.
- Disk encoding and file sizes are not modelled.
- The quiz, the motivational messages and the other Streamlit helpers are UI, not retrieval
  bookkeeping. The same goes for `diagnostico.py`, `test_chroma.py`, `app.py` and
  `pdfs_to_txt.py`.
- `generate_response` returns the stream object. The system instruction sent with each request
  is not modelled.
- `Answer.AccumulateStream`: the partial reply shown on screen before a stream fails is not
  modelled, because it is UI; the model records only that no history entry is made.
- `Fingerprint.GuardedCheck`: a write that fails after `open(..., 'w')` has already emptied
  the file is not modelled. A failing write leaves the old content, as when the open itself
  fails.
- `OcrBatch.Step`: a FASE 1 write that raises is folded into `ocr(image)` being None, so it
  counts in `errores` and writes nothing. A write that fails after `open(txt_file, "w")`
  (ocr_txt_mejorado.py:142-143 and 294-295, ocr_txt.py:139-140) can leave an empty `.txt`
  behind, which a later run skips and FASE 2 treats as blank; that leftover is not modelled.
- `OcrBatch.FinalFile`: the FASE 3 writes (ocr_txt_mejorado.py:218-219 and 372-373,
  ocr_txt.py:225-226) are assumed to succeed. They are outside any `try`, so a failure would
  end the script before the later topics and the apuntes pass.
- `Preprocess.StoreFiles`: the `.doc_hash` write (preprocess_embeddings.py:127-128) is
  assumed to succeed. It is outside any `try`, so a failure would raise after the collection
  is filled, and no count would be returned.
- `Chatbot.RAGSystem.DocumentsChanged`: the branch with a fingerprint file models the
  intended behaviour. The code as written never has such a file (see Findings).

## Findings

| source | as written | input that shows it | evidently intended | confidence | as-written member | corrected member |
|---|---|---|---|---|---|---|
| chatbot_groq.py:61-78 | `documents_changed` reads `self.doc_hash_file`, which `__init__` never assigns; the AttributeError falls into the bare `except`, which returns True, so every call reports a change and no digest is ever stored | any corpus, for instance a stored digest "abc" equal to the current one | compare the current digest with the stored one, report a change only when they differ, and store a truthy current digest | not executed | Fingerprint.ChangeCheckAsWrittenDiffers | Fingerprint.ChangeCheck |
