# SyntopicalChat core in Dafny

This project models the core of SyntopicalChat, a tool for syntopical reading
of academic papers. It has four parts:

- **PDF processor** (`processor.dfy`). It reads a paper's title, authors, full
  text and abstract from what a PDF parser yields: the text of every page and
  the optional document-information fields. It covers the title fallback
  chain, the comma-separated author field, the page-by-page text assembly and
  the abstract heuristic. That heuristic takes the first "abstract", ends at
  the first "introduction", else at the nearest other header, else 1500
  characters on. It then strips the span and removes the label.
- **Vector store** (`storage.dfy`). Adding a paper stores one record per text
  chunk, under the identifier `<title>-<i>` and with the paper-level metadata.
  Listing keeps the first record of every title, in order of first
  appearance. Deleting removes every record of a title. The store is a class
  whose `collection` field is the sequence of records in insertion order.
- **Chat** (`chat.dfy`). Creating a chat requires an API key in the
  environment. Each question is wrapped in a fixed syntopical-analysis
  instruction, and `analyze_topic` builds its structured prompt. Each call
  hands the question and the conversation memory to a retrieval chain, and
  the memory grows by one turn per call.
- **arXiv client** (`arxiv.dfy`). Search results are mapped to paper records
  in API order. A download saves to `<dir>/<arxiv id>.pdf`, skips files that
  exist, and fails before creating the file on an HTTP error status. Search
  and download keeps, in search order, each paper whose PDF was already there
  or downloaded, and passes over the papers whose download failed.

Three modules hold helpers:

- `strings.dfy` models the Python string operations the core relies on:
  `isspace`, `strip`, `lower`, `find`, `rfind`, `split`, `join` and decimal
  formatting of integers.
- `paths.dfy` models the part of `pathlib` the core uses: `/`, `name`,
  `stem`, `parent` and `str`.
- `wrappers.dfy` holds `Option` and `Result`.

The PDF parser, the embedding store, the language model and the network are
not modelled as code. Each becomes a parameter or a field:

- A document is given as its page texts and its information fields.
- The store is its list of records.
- The retrieval chain is a function from a question and a history to an
  answer with source documents.
- The network is a function from a URL to a response or a connection
  failure.
- The file system the client writes to is a map from paths to bytes.

`extract_metadata` tries the first non-blank line of page 1 before the file
stem (`processor.py:51`, `:60`). `ExtractMetadata` takes the information
title, then the page-1 title, then the stem.

## Model

| member | source | states |
|---|---|---|
| Processor.PagesTextAppend | src/syntopicalchat/pdf_processor/processor.py:77-82 | The text of two runs of pages is the text of the first run followed by the text of the second. So every page appears in order, each followed by a blank line. |
| Processor.PagesText | src/syntopicalchat/pdf_processor/processor.py:76-82 | The page-by-page text is as long as all pages together plus two characters per page. |
| Processor.ExtractText | src/syntopicalchat/pdf_processor/processor.py:76-82 | The loop builds the page-by-page text. Its length is the total page length plus two characters per page. |
| Processor.FirstNonBlankIs | src/syntopicalchat/pdf_processor/processor.py:127-129 | If every line before `k` is blank and line `k` (when there is one) is not, then `k` is the first line with content. |
| Processor.PageTitle | src/syntopicalchat/pdf_processor/processor.py:120-131 | The page-1 title has no edge whitespace, and it is non-empty only when there is a page and the title holds a non-whitespace character. |
| Processor.PageTitleIsFirstContentLine | src/syntopicalchat/pdf_processor/processor.py:120-131 | The page-1 title is "" exactly when there are no pages or every line of page 1 is blank. Otherwise it is some line, stripped, with every line before it blank. |
| Processor.ExtractTitleFromText | src/syntopicalchat/pdf_processor/processor.py:120-131 | The line scan returns the stripped first non-blank line of page 1, or "". |
| Processor.SplitAuthors | src/syntopicalchat/pdf_processor/processor.py:55-57 | One author per comma plus one. Each author is the stripped piece between commas, has no edge whitespace and holds no comma. |
| Processor.ExtractMetadata | src/syntopicalchat/pdf_processor/processor.py:47-64 | The title is the non-empty information title, else the page-1 title, else the file stem. It is empty only when the stem is. Authors come from the author field, the date is the formatted creation date or none, the source is the path, and abstract, keywords and DOI are unset. |
| Processor.UntitledPaperTakesFileStem | src/syntopicalchat/pdf_processor/processor.py:60 | A paper saved as `<dir>/<id>.pdf`, with no information title and a blank page 1, is titled `<id>`. |
| Processor.MinFound | src/syntopicalchat/pdf_processor/processor.py:154-163 | Returns the least position at or after the start where any of the markers occurs, or -1 exactly when none occurs. |
| Processor.AbstractEnd | src/syntopicalchat/pdf_processor/processor.py:151-168 | The end is at or after the start, and it is where "introduction" or another end header occurs, or 1500 characters after the start. |
| Processor.AbstractEndIsNearestMarker | src/syntopicalchat/pdf_processor/processor.py:151-168 | The abstract ends at the first "introduction" after its start when there is one, whatever the other headers say. Otherwise it ends at the first of "keywords", "1.", "i.", "background". Otherwise it ends 1500 characters on. |
| Processor.Sections | src/syntopicalchat/pdf_processor/processor.py:143-178 | The only key the sections can hold is "abstract", and every section text has no edge whitespace. |
| Processor.NoLabelNoSections | src/syntopicalchat/pdf_processor/processor.py:146-149 | Without "abstract" in the lower-cased text, no section is found. |
| Processor.LabelGivesTrimmedAbstract | src/syntopicalchat/pdf_processor/processor.py:170-176 | With "abstract" in the lower-cased text, the sections hold exactly the key "abstract", and its value has no leading or trailing whitespace. |
| Processor.MarkerNotInsideLabel | src/syntopicalchat/pdf_processor/processor.py:151-158 | No end header can begin inside an occurrence of the "abstract" label. |
| Processor.EndMarkersAfterLabel | src/syntopicalchat/pdf_processor/processor.py:151-168 | The end of the abstract is never before the end of the label. |
| Processor.CleanAbstract | src/syntopicalchat/pdf_processor/processor.py:170-176 | The cleaned abstract has no edge whitespace and is no longer than the span. A trimmed span that does not begin with the label is kept as it is. |
| Processor.CleanLabelledSpan | src/syntopicalchat/pdf_processor/processor.py:171-174 | A span that begins with the label, in any letter case, is cleaned to the stripped text after the label. |
| Processor.AbstractIsTextAfterLabel | src/syntopicalchat/pdf_processor/processor.py:170-176 | The label is always removed: the abstract is exactly the stripped text between the label and the end of the span. |
| Processor.NearestMarker | src/syntopicalchat/pdf_processor/processor.py:154-163 | Collecting the found positions and taking their minimum gives the nearest header, or -1 when none is found. |
| Processor.RemoveLabel | src/syntopicalchat/pdf_processor/processor.py:171-174 | Strips the span, drops a leading label and strips again. The result has no edge whitespace. |
| Processor.ExtractSections | src/syntopicalchat/pdf_processor/processor.py:143-178 | The section extraction method computes the section map described by the lemmas above. |
| Processor.ProcessPdf | src/syntopicalchat/pdf_processor/processor.py:94-108 | The text is the page-by-page text and the sections are extracted from it. The metadata's abstract is set exactly when an abstract section exists, and then equals it. The rest of the metadata is the extracted metadata. |
| Storage.PaperFields | src/syntopicalchat/vector_db/storage.py:66-74 | The shared metadata has exactly title, authors, publication date and source file, plus "abstract" exactly when the abstract is non-empty. Authors are joined with ", ", a missing date is "", and the source is the path string. |
| Storage.StoredAuthorsReadBack | src/syntopicalchat/vector_db/storage.py:68 | Authors stored joined with ", " split back into the same list under the processor's author rule. This holds for one or more trimmed, comma-free authors. |
| Storage.ChunkId | src/syntopicalchat/vector_db/storage.py:85 | An identifier begins with the title and "-", and everything after that is decimal digits, at least one. |
| Storage.ChunkIds | src/syntopicalchat/vector_db/storage.py:85-92 | One identifier per chunk, the `i`-th being `<title>-<i>`. |
| Storage.ChunkIdRoundTrip | src/syntopicalchat/vector_db/storage.py:85 | Every `<title>-<i>` identifier parses back to its title and number. |
| Storage.ChunkIdInjective | src/syntopicalchat/vector_db/storage.py:92 | Two chunk identifiers are equal exactly when their titles and numbers are. |
| Storage.ChunkIdsDistinct | src/syntopicalchat/vector_db/storage.py:92 | A paper's identifiers are pairwise distinct and all begin with the title followed by "-". |
| Storage.ChunkDocuments | src/syntopicalchat/vector_db/storage.py:80-89 | One document per chunk, holding the chunk's text. Its metadata is the paper's fields plus "chunk_id" set to `<title>-<i>`. |
| Storage.Records | src/syntopicalchat/vector_db/storage.py:92-93 | Each document is stored under its identifier, in order. |
| Storage.UniqueByTitle | src/syntopicalchat/vector_db/storage.py:136-143 | Every listed entry carries a title. The lemmas below say which entries are listed and in which order. |
| Storage.FirstTitled | src/syntopicalchat/vector_db/storage.py:137-141 | Returns the index of the first record titled `title`, or -1 exactly when no record has that title. |
| Storage.ListingCoversTitlesOnce | src/syntopicalchat/vector_db/storage.py:136-143 | The listing holds each title once, and every record with a title has its title listed. |
| Storage.ListingKeepsFirstInOrder | src/syntopicalchat/vector_db/storage.py:136-143 | Each listed entry is the metadata of the first record with its title, and entries come in the order titles first appear. |
| Storage.RemoveTitle | src/syntopicalchat/vector_db/storage.py:156-158 | After a delete, no record has the title, every record with another title (or none) stays, and nothing new appears. |
| Storage.DeleteThenList | src/syntopicalchat/vector_db/storage.py:145-161 | Listing after a delete is the earlier listing without that title's entry, with the other entries unchanged and in order. |
| Storage.AddSameTitle | src/syntopicalchat/vector_db/storage.py:136-143 | Appending records that all carry one title adds that title's first new metadata to the listing, unless the title was listed already. |
| Storage.AddThenList | src/syntopicalchat/vector_db/storage.py:80-93 | After adding a paper with at least one chunk, the listing is the earlier listing. The first chunk's metadata is appended to it when the title is new. |
| Storage.VectorDBStorage.constructor | src/syntopicalchat/vector_db/storage.py:20-53 | A store over a given collection of records. |
| Storage.VectorDBStorage.AddPaper | src/syntopicalchat/vector_db/storage.py:55-98 | Returns the identifiers `<title>-0` onwards, one per chunk. The store gains the chunk records at the end. |
| Storage.VectorDBStorage.GetAllPapers | src/syntopicalchat/vector_db/storage.py:120-143 | The title-keyed dictionary loop returns the listing: first record per title, in order of first appearance. |
| Storage.VectorDBStorage.DeletePaper | src/syntopicalchat/vector_db/storage.py:145-161 | The store keeps exactly the records whose title is not `title`. |
| Chat.EnhanceQuery | src/syntopicalchat/llm/chat.py:107-112 | The enhanced query is the fixed preamble, then the question unchanged, then the fixed instructions. |
| Chat.EnhanceQueryReadsBack | src/syntopicalchat/llm/chat.py:96-112 | The question can be read back from its enhanced query, so different questions give different queries. |
| Chat.AnalysisPrompt | src/syntopicalchat/llm/chat.py:125-135 | The prompt is the lead sentence, then the topic between single quotes, then the fixed six-point structure. |
| Chat.AnalysisPromptReadsBack | src/syntopicalchat/llm/chat.py:125-135 | The topic can be read back from its prompt. |
| Chat.ChatStep | src/syntopicalchat/llm/chat.py:86-94 | One call returns the chain's answer and source documents for the enhanced question and the current memory. The memory gains exactly that question and answer at its end. |
| Chat.Conversation | src/syntopicalchat/llm/chat.py:75-94 | A run of calls gives one response per question and one remembered turn per question. |
| Chat.ConversationRemembers | src/syntopicalchat/llm/chat.py:86-94 | After a run, the memory starts with the earlier memory. It then holds each enhanced question in order, with the answer its call returned. |
| Chat.ConversationCons | src/syntopicalchat/llm/chat.py:86-94 | A run that starts with a question is one call followed by the rest of the run. |
| Chat.ConversationAppend | src/syntopicalchat/llm/chat.py:86-94 | Asking two runs of questions one after the other gives the same responses and memory as asking them as one run. |
| Chat.SyntopicalChat.constructor | src/syntopicalchat/llm/chat.py:33-57 | Can only be called with an environment that holds a non-empty API key. The store, settings and chain are fixed, and the memory starts empty. |
| Chat.SyntopicalChat.Create | src/syntopicalchat/llm/chat.py:17-57 | Fails with the missing-key message exactly when the environment has no non-empty API key. Otherwise it gives a fresh chat with empty memory, the given store and chain, and the given model name and token limit. |
| Chat.SyntopicalChat.Chat | src/syntopicalchat/llm/chat.py:75-94 | Returns the answer and sources and extends the memory, as one `ChatStep`. |
| Chat.SyntopicalChat.AnalyzeTopic | src/syntopicalchat/llm/chat.py:114-140 | Is one chat call on the structured analysis prompt for the topic. |
| Chat.SyntopicalChat.ResetConversation | src/syntopicalchat/llm/chat.py:142-144 | Empties the memory. Being constant fields, the store, the settings and the chain cannot change. |
| Arxiv.AuthorNames | src/syntopicalchat/arxiv_integration/arxiv_client.py:47 | Gives the authors' names, in order. |
| Arxiv.ToPaperInfo | src/syntopicalchat/arxiv_integration/arxiv_client.py:45-54 | The record's arXiv id is the short id, its title and PDF URL are the result's, and its authors are the result's author names in order. |
| Arxiv.SearchResults | src/syntopicalchat/arxiv_integration/arxiv_client.py:43-57 | One paper record per API result, in API order. |
| Arxiv.ArxivClient.Search | src/syntopicalchat/arxiv_integration/arxiv_client.py:25-57 | The loop gives one record per result, in order, each mapped from its result. |
| Arxiv.PdfPath | src/syntopicalchat/arxiv_integration/arxiv_client.py:73-74 | The PDF path's name is `<arxiv id>.pdf` and its parent is the download directory. |
| Arxiv.DownloadStep | src/syntopicalchat/arxiv_integration/arxiv_client.py:69-85 | An existing file is returned without a request and nothing changes. Otherwise there is a request. For an arXiv id without "/", the download succeeds exactly when a response comes and its status is below 400 or 600 and above. On success the file holds the concatenated body and the path is `<dir>/<id>.pdf`. On failure nothing is written, and the error is the connection failure or the status. |
| Arxiv.DownloadTwice | src/syntopicalchat/arxiv_integration/arxiv_client.py:76-85 | A second download of a paper that downloaded makes no request and changes nothing, whatever the network now answers. |
| Arxiv.DownloadTouchesOneFile | src/syntopicalchat/arxiv_integration/arxiv_client.py:73-83 | A download creates or rewrites only its own file. |
| Arxiv.Batch | src/syntopicalchat/arxiv_integration/arxiv_client.py:98-108 | Keeps at most one pair per searched paper, each with the paper's `<dir>/<id>.pdf` path. |
| Arxiv.BatchUnfold | src/syntopicalchat/arxiv_integration/arxiv_client.py:101-104 | Downloading from a paper onwards is downloading that paper, then the rest against the files it left. |
| Arxiv.BatchRequests | src/syntopicalchat/arxiv_integration/arxiv_client.py:76-78 | A batch makes at most one request per searched paper. |
| Arxiv.BatchStep | src/syntopicalchat/arxiv_integration/arxiv_client.py:101-104 | One turn of the loop extends the pairs gathered so far and the request log by what downloading that paper gives; the rest of the batch starts from the files it left. |
| Arxiv.BatchKeepsSearchOrder | src/syntopicalchat/arxiv_integration/arxiv_client.py:98-108 | The kept papers appear in search order: they form a subsequence of the searched papers. |
| Arxiv.PdfPathInjective | src/syntopicalchat/arxiv_integration/arxiv_client.py:73-74 | Two arXiv ids that give the same PDF path are equal, so papers with different ids never share a file. |
| Arxiv.ObtainableAfterFirst | src/syntopicalchat/arxiv_integration/arxiv_client.py:101-104 | Whether a later paper can be had does not change when the first paper is downloaded first. |
| Arxiv.KeptAfterFirst | src/syntopicalchat/arxiv_integration/arxiv_client.py:101-106 | The kept papers are the first paper when its download works, then the papers kept from the rest against the files that download left. |
| Arxiv.BatchKeepsObtainable | src/syntopicalchat/arxiv_integration/arxiv_client.py:101-106 | The papers kept are exactly those, in search order, whose PDF was in the directory before the batch or whose URL answers with a non-error status, or that share their arXiv id with an earlier such paper. |
| Arxiv.BatchKeepsFetchable | src/syntopicalchat/arxiv_integration/arxiv_client.py:101-106 | When the searched papers have distinct arXiv ids, the papers kept are exactly those, in search order, whose PDF was there before or whose URL answers with a non-error status. |
| Arxiv.BatchRequestsOnlyMissing | src/syntopicalchat/arxiv_integration/arxiv_client.py:76-78 | Every URL a batch requests is that of a searched paper whose PDF was missing before the batch. |
| Arxiv.BatchAllDownloadable | src/syntopicalchat/arxiv_integration/arxiv_client.py:98-108 | When every URL downloads, every paper is kept with its path, in order. |
| Arxiv.BatchKeepsFiles | src/syntopicalchat/arxiv_integration/arxiv_client.py:98-108 | Downloads never remove a file. |
| Arxiv.BatchFilesExist | src/syntopicalchat/arxiv_integration/arxiv_client.py:98-108 | Every returned path names a file that exists afterwards. |
| Arxiv.ArxivClient.constructor | src/syntopicalchat/arxiv_integration/arxiv_client.py:15-23 | A client with the given download directory over the given files, with no requests yet. |
| Arxiv.ArxivClient.WriteChunks | src/syntopicalchat/arxiv_integration/arxiv_client.py:81-83 | Opening for writing and writing the chunks in turn leaves the file holding their concatenation. No other file changes. |
| Arxiv.ArxivClient.DownloadPaper | src/syntopicalchat/arxiv_integration/arxiv_client.py:59-85 | The result and the files afterwards are those of `DownloadStep`. A request is logged exactly when the file did not exist. |
| Arxiv.ArxivClient.SearchAndDownload | src/syntopicalchat/arxiv_integration/arxiv_client.py:87-108 | The pairs returned and the files afterwards are `Batch` over the search results, and the requests made are `BatchRequests` over them. No failed download raises: each is passed over. |
| Paths.Div | src/syntopicalchat/arxiv_integration/arxiv_client.py:74 | `dir / name` has one component more than `dir`. For a name other than "/", its name is `name` and its parent is `dir`. |
| Paths.Stem | src/syntopicalchat/pdf_processor/processor.py:60 | The stem is a prefix of the name. When it is shorter, the name continues with a dot that is neither its first nor its last character, and no later dot. |
| Paths.ToString | src/syntopicalchat/vector_db/storage.py:70 | The empty path prints as ".", and an absolute path prints starting with "/". |
| Paths.ToStringSplitsBack | src/syntopicalchat/vector_db/storage.py:70 | Splitting a path's string at "/" gives back its components: for an absolute path, after an empty first piece. This holds when no component holds "/". |
| Paths.StemOfPdfFile | src/syntopicalchat/pdf_processor/processor.py:60 | The stem of `dir / (base + ".pdf")` is `base` for any non-empty base. |
| Strings.Strip | src/syntopicalchat/pdf_processor/processor.py:171 | The result has no edge whitespace and is no longer than the input. It is empty exactly when the input is all whitespace, and it leaves a trimmed string unchanged. |
| Strings.StripPrependWhitespace | src/syntopicalchat/pdf_processor/processor.py:57 | Whitespace before a trimmed string is stripped away. |
| Strings.StripAppendWhitespace | src/syntopicalchat/pdf_processor/processor.py:174 | Whitespace appended to a string does not change its strip. |
| Strings.Lower | src/syntopicalchat/pdf_processor/processor.py:146 | Lower-casing keeps the length and maps each character on its own. |
| Strings.Find | src/syntopicalchat/pdf_processor/processor.py:147 | Returns the first occurrence at or after the start, or -1 exactly when there is none. |
| Strings.Split | src/syntopicalchat/pdf_processor/processor.py:124 | Gives one piece more than there are separators, and no piece holds the separator. |
| Strings.JoinSplit | src/syntopicalchat/pdf_processor/processor.py:124 | Joining the pieces of a split with the separator gives back the string. |
| Strings.SplitJoin | src/syntopicalchat/vector_db/storage.py:68 | Splitting pieces joined by a separator they do not hold gives back the pieces. |
| Strings.ParseNatToString | src/syntopicalchat/vector_db/storage.py:85 | The decimal text of a number parses back to the number. |

## Left out

- PDF parsing is not part of this model: a document is given as its page texts and information fields. `strftime` formatting of the creation date is left out too: the date arrives already formatted.
- Lower-casing is modelled for ASCII letters only. Python's full Unicode case mapping is left out, including mappings that change length.
- `Arxiv.DownloadStep`: an arXiv id holding "/" (an old-style id such as `hep-th/9901001v1`) names a file in a sub-directory that nothing creates. The program then fails at `open()` after the request and drops the paper; the model writes the file and keeps it.
- `Arxiv.ArxivClient.SearchAndDownload`: a failing search raises out of `search_and_download`, because the call sits outside the `try`. Search failures are not modelled: the search results are an input.
- `Paths.Div`: appends one component, so an arXiv id that holds "/" (an old-style id such as `hep-th/9901001`) is not split into directories as `pathlib` would split it.
- `Storage.VectorDBStorage.AddPaper`: takes the text splitter's chunks as an input. The splitter (size 1000, overlap 200) is not part of this model.
- `Storage.VectorDBStorage.AddPaper`: models adding as appending. Chroma's behaviour when an identifier already exists (a re-added paper with the same title) is left out.
- Embeddings, similarity search (`search`, k = 5), `persist` and the on-disk database directory are left out. They are external library calls whose results the core does not inspect.
- The retrieval chain is a given function of the question and the history. Retrieval over the store's contents, the language model and its temperature, and langchain's prompt internals are not modelled. `Chat.SyntopicalChat.Chat` therefore does not relate the source documents to the store's records.
- The arXiv API is not modelled: `max_results`, the relevance sort and the query itself are left out. `Search` takes the API's results as input.
- Network errors that happen while the body streams in are left out, and so is the re-chunking by `iter_content`: a response's chunks are taken as given.
- Directory creation (`mkdir`, `tempfile.mkdtemp`) and the printed error message in `search_and_download` are left out.
- The exception type raised for the missing API key is modelled as a `Failure` carrying the message.
