# Physical AI textbook chatbot — ingestion and chat core in Dafny

This project models two parts of the textbook chatbot.

- **The ingestion pipeline (`main.py`).** It reads the page URLs listed in the book's sitemap. For each page, it extracts the text and cuts it into chunks of at most 1200 characters. A chunk ends just before the last sentence terminator ". " that fits, and the ". " itself is dropped. When no terminator fits, the chunk is cut hard at the budget. Every non-blank chunk is stored as a point in the vector store. Each point's id comes from one global counter, and the id is repeated in the point's payload. Stored and failed saves are counted.
- **The chat endpoint (`enhanced_api_server.py`).** A message whose lower-cased, stripped text contains one of 28 fixed phrases is a "general question". Such a message is answered from five canned replies, and the agent is never run for it. Any other message goes to the agent. An exception raised by the agent becomes an error response. That response is either the quota message or "Error: " followed by the first 200 characters of the exception text.

## Modules

| file | module | contents |
|---|---|---|
| `wrappers.dfy` | `Wrappers` | `Option` |
| `pystr.dfy` | `PyStr` | the Python `str` operations the core relies on: `isspace`, `strip`, `lower`, `in` and `rfind` |
| `chunker.dfy` | `Chunker` | `chunk_text`: the `ChunkText` loop, proved equal to the recursive `Chunks` |
| `ingest.dfy` | `Ingest` | `get_all_urls`, the point `save_chunk_to_qdrant` upserts, and `ingest_book` |
| `classifier.dfy` | `Classifier` | `is_general_question` and `handle_general_question` |
| `chat.dfy` | `ChatEndpoint` | the `/chat` handler |

The imperative loops of `main.py` are methods with loop invariants:

- `ChunkText`, proved equal to the function `Chunks`;
- `GetAllUrls`, proved equal to `LocTexts`;
- `IngestBook`, proved equal to `Numbered(Pending(..))` and the counts over it.

What the source promises is proved as lemmas about those functions. The chat server's code is pure, and the model is functions and lemmas.

Everything outside the program is a parameter:

- **`sitemap`:** the parsed sitemap. It is `None` when fetching or parsing it raised.
- **`collectionCreated`:** whether recreating the collection succeeded.
- **`extract`:** the page text extractor. It gives `None` when the fetch raised or nothing was extracted. It is a function of the URL, so a URL listed twice gets the same text both times, where the source fetches it twice.
- **`store`:** whether embedding and upserting one point succeeded.
- **`runAgent`:** what the agent does with a message.

## Behaviour that differs from a naive reading

Where a plain description of the pipeline and the code disagree, the model follows the code.

- **The hard cut loses two characters.** With no ". " within the budget, the loop still skips two characters after the cut, unless the text ends within them. So those characters belong to no chunk (`HardCut`, `HardCutDropsTwo`). The chunks cannot always be joined back into the text. What holds is that they occur in the text in order, without overlapping (`ChunksInOrder`).
- **Chunks can be empty.** A cut emits an empty chunk exactly when the text before the cut is blank (`EmptyCutChunk`). The loop strips the text it continues with. So after the first pass this happens only when the cut is at position 0, which means the only ". " within the budget opens the text. On the first pass, the raw text can also begin with a blank window. For example:
  - ". xy" with budget 3 gives `["", "xy"]` (`EarlierChunkCanBeEmpty`);
  - "   abc" with budget 2 gives `["", "bc"]` (`BlankWindowGivesEmptyChunk`);
  - four spaces with budget 2 give `[""]` (`BlankTextOverBudget`).

  So "no chunks" holds exactly for blank text within the budget (`ChunksEmptyIff`). The ingestion loop skips these empty chunks without using an id.
- **A `<loc>` element with no text is still listed.** It appears in the URL list as a missing URL. Fetching it raises, and the per-URL handler skips it (`UrlWork`, `SkippedUrlUsesNoId`).
- **Short phrases match inside other words.** "hi" and "made" are matched as plain substrings. So "Explain this" and "How is a gripper made?" count as general questions (`HiInsideThis`, `MadeInsideQuestion`).
- **Quota detection is partly case-sensitive.** "quota" is matched in any letter case, but "RateLimitError" only with that exact capitalisation (`QuotaAnyCase`, `RateLimitIsCaseSensitive`).

## Model

| member | source | states |
|---|---|---|
| PyStr.IsSpace | main.py:73-77 | definition: Python's `str.isspace` on one character, the 29 code points Python 3 treats as whitespace; used by `strip()` |
| PyStr.Strip | main.py:73-77 | definition: Python's `strip()`, dropping the leading and trailing whitespace; its contract is given by `StripIsStripped`, `StripPadded` and `StripDecompose` |
| PyStr.Lower | enhanced_api_server.py:103 | Python's `lower()`: keeps the length and folds each ASCII capital to its small letter (the ASCII limit is under Left out) |
| PyStr.Contains | enhanced_api_server.py:137-141 | definition: Python's `p in s` and, for the plain-text patterns used here, `re.search`: `p` occurs in `s` as a contiguous substring |
| PyStr.StripIsStripped | main.py:73-77 | `strip()` returns a string that neither starts nor ends with whitespace; it is empty exactly when the input is all whitespace |
| PyStr.StripIsInfix | main.py:73-77 | `strip()` returns the infix of its input that starts after the leading whitespace |
| PyStr.StripPadded | main.py:73-77 | blank padding around a stripped core is exactly what `strip()` removes |
| PyStr.StripIdempotent | main.py:76-77 | stripping twice is stripping once |
| PyStr.StripIgnoresPadding | enhanced_api_server.py:103 | extra whitespace on either side does not change what `strip()` returns |
| PyStr.StripDecompose | main.py:73-77 | every string is its stripped core with all-whitespace padding on both sides |
| PyStr.LeadingSpacesSpec | main.py:73-77 | the leading whitespace `strip()` removes is the longest all-whitespace prefix |
| PyStr.TrailingSpacesSpec | main.py:73-77 | the trailing whitespace `strip()` removes is the longest all-whitespace suffix |
| PyStr.StripLowerCommute | enhanced_api_server.py:103 | `lower().strip()` equals `strip().lower()` |
| PyStr.ContainsStrip | enhanced_api_server.py:103 | for a non-empty pattern with no whitespace at its ends, `p in s.strip()` is the same as `p in s` |
| PyStr.RFind | main.py:70 | `rfind` returns -1 or the start of an occurrence, and no occurrence starts after it |
| PyStr.RFindFound | main.py:70-72 | `rfind` finds something exactly when the pattern occurs |
| PyStr.MissingChar | enhanced_api_server.py:137-141 | a pattern holding a character the string lacks does not occur in it |
| Chunker.Chunks | main.py:65-78 | definition: the list `chunk_text(text, max_chars)` returns for a non-empty text, one cut per loop pass; proved equal to the loop by `ChunkText` and described by the lemmas below |
| Chunker.SplitPos | main.py:70-72 | the cut is at most the budget; it equals the budget exactly when no ". " lies within it; otherwise it is the start of the last ". " lying wholly within the budget |
| Chunker.Rest | main.py:75 | the remainder after a cut is at most the text after the cut, and at least two characters shorter when the text continues past the delimiter |
| Chunker.ChunkText | main.py:65-78 | `None` and "" give no chunks; otherwise the loop returns `Chunks(text)`, and every chunk fits the budget and is stripped |
| Chunker.LoopStep | main.py:69-75 | one loop pass emits the first chunk of `Chunks` and continues with a strictly shorter text |
| Chunker.ChunksBounded | main.py:65-78 | every chunk is at most `max_chars` long |
| Chunker.ChunksStripped | main.py:73-77 | every chunk is stripped |
| Chunker.ChunksEmptyIff | main.py:66-77 | there are no chunks exactly when the text fits the budget and is all whitespace |
| Chunker.ChunksOfShortText | main.py:76-77 | a text within the budget gives its stripped self, or nothing when blank; a stripped non-empty text gives itself |
| Chunker.RechunkIsIdentity | main.py:65-78 | chunking a non-empty chunk again with the same budget returns exactly that chunk |
| Chunker.SentenceCut | main.py:70-75 | over budget, with the last ". " in the budget at `i`, the first chunk is `text[:i].strip()`, ending before the period; the ". " is dropped, and chunking continues at `text[i+2:].strip()` |
| Chunker.LastBreakIsSplitPos | main.py:70 | the cut is the start of the last ". " within the budget |
| Chunker.HardCut | main.py:70-75 | with no ". " in the budget, the first chunk is `text[:max_chars].strip()`, and chunking continues two characters after the budget, unless the text ends within them, in which case it continues at the budget and nothing is dropped |
| Chunker.NoBreakWithoutPeriod | main.py:70-72 | no ". " starts in a stretch that holds no period |
| Chunker.HardCutDropsTwo | main.py:71-75 | "abcdefg" with budget 3 gives ["abc", "fg"]; "de" is lost |
| Chunker.EmptyCutChunk | main.py:70-73 | a cut emits an empty chunk exactly when the text before the cut is blank; for a stripped text, exactly when the cut is at position 0 |
| Chunker.BlankWindowGivesEmptyChunk | main.py:69-77 | "   abc" with budget 2 gives ["", "bc"] |
| Chunker.EarlierChunkCanBeEmpty | main.py:70-75 | ". xy" with budget 3 gives ["", "xy"] |
| Chunker.BlankTextOverBudget | main.py:69-77 | four spaces with budget 2 give [""] |
| Chunker.ZeroBudgetMakesNoProgress | main.py:69-75 | with `max_chars == 0`, a stripped one- or two-character text is left unchanged by a loop pass, so the loop never ends |
| Chunker.ChunksInOrder | main.py:65-78 | each chunk is a substring of the text; the chunks appear in text order and do not overlap |
| Chunker.CutInOrder | main.py:70-75 | if the remainder's chunks are in order within the remainder, the whole text's chunks are in order within the text |
| Ingest.LocTexts | main.py:36-40 | definition: the `<loc>` texts of the children that have a `<loc>`, in document order; described by `LocTextsLength`, `LocTextsAppend`, `LocTextsMembers` and `LocTextsAllPresent` |
| Ingest.GetAllUrls | main.py:36-40 | returns, in document order, the `<loc>` text of every child that has a `<loc>`; there are at most as many URLs as children |
| Ingest.LocTextsLength | main.py:37-40 | each child contributes at most one URL |
| Ingest.LocTextsAppend | main.py:37-40 | collecting over two runs of children is collecting over each, concatenated |
| Ingest.LocTextsMembers | main.py:37-40 | a URL is listed exactly when some child has a `<loc>` with that text |
| Ingest.LocTextsAllPresent | main.py:37-40 | when every child has a `<loc>`, the URLs are their texts, position by position |
| Ingest.ChunkPoint | main.py:106-122 | the upserted point's id and its payload's `chunk_id` are both the given id; the payload's text and URL are the chunk and the page URL |
| Ingest.IsBlankChunk | main.py:156 | definition: the skip test `not ch or len(ch.strip()) == 0` |
| Ingest.Keep | main.py:155-157 | definition: a page's chunks without the blank ones, paired with the page URL; described by `KeepSpec` |
| Ingest.UrlWork | main.py:143-157 | definition: what one URL contributes: nothing for a missing URL or a page with no text, otherwise the kept chunks of its text under the 1200 budget |
| Ingest.Pending | main.py:143-167 | definition: the chunks of all URLs handed to the store, in processing order; described by `PendingAppend`, `SkippedUrlUsesNoId` and `PendingWellFormed` |
| Ingest.Numbered | main.py:139-164 | the pending chunks as points under ids 1, 2, 3, and so on, one point per chunk; described by `NumberedIds` and `IdsIncrease` |
| Ingest.CountStored | main.py:159-161 | definition: how many points the store accepted, the final `total_chunks` |
| Ingest.CountFailed | main.py:162-163 | definition: how many points the store rejected, the final `failed_chunks`; `CountsAddUp` relates the two counts to the ids used |
| Ingest.IngestBook | main.py:132-172 | a failed sitemap fetch or collection creation is fatal, and no point is stored; otherwise every non-blank chunk of every page is handed to the store in order, under ids 1, 2, 3, and so on; the report holds the URL count, the stored and failed counts, and `global_id - 1`; stored plus failed equals ids used |
| Ingest.StorePageChunks | main.py:155-164 | the page loop numbers the page's non-blank chunks after those already done, and keeps `total + failed == global_id - 1` |
| Ingest.SaveAndCount | main.py:158-164 | one save hands the next point to the store, adds one to exactly one counter, and advances the id |
| Ingest.UrlStep | main.py:143-167 | proof step for the loop invariant (one more step of the recursive definition): each URL appends its own work; a skipped URL changes nothing |
| Ingest.PageStep | main.py:155-157 | proof step for the loop invariant (one more step of the recursive definition): a blank chunk adds no work; any other chunk adds itself |
| Ingest.KeepSnoc | main.py:155-157 | proof step for the loop invariant (one more step of the recursive definition): looking at one more chunk keeps it exactly when it is not blank |
| Ingest.CountsSnoc | main.py:159-163 | proof step for the loop invariant (one more step of the recursive definition): each point handed to the store adds one to exactly one of the two counters |
| Ingest.CountsAddUp | main.py:158-172 | stored plus failed equals the number of points handed to the store |
| Ingest.NumberedSnoc | main.py:158-164 | proof step for the loop invariant (one more step of the recursive definition): numbering one more chunk appends one point with the next id |
| Ingest.NumberedIds | main.py:139-164 | point `k` carries id `k + 1`; its payload's `chunk_id` is the same id; its text and URL are those of the `k`-th pending chunk |
| Ingest.IdsIncrease | main.py:139-164 | ids are positive, distinct and increasing in processing order |
| Ingest.KeepSpec | main.py:155-157 | only non-blank chunks of the page, tagged with its URL, are kept; nothing is kept exactly when every chunk is blank |
| Ingest.PendingAppend | main.py:143-167 | processing two runs of URLs is processing each, one after the other |
| Ingest.SkippedUrlUsesNoId | main.py:146-150 | a missing URL, or a page with no text, uses no id and changes no later point |
| Ingest.PendingWellFormed | main.py:152-158 | every chunk handed to the store is non-empty, stripped, at most 1200 characters, and from a listed URL |
| Classifier.MatchesAny | enhanced_api_server.py:137-141 | the early-return search succeeds exactly when some pattern of the list occurs in the string |
| Classifier.IsGeneralQuestion | enhanced_api_server.py:98-141 | definition: `is_general_question`, the search of the 28 phrases of the constant `GeneralPatterns` (enhanced_api_server.py:106-135, same text and order) in the lower-cased, stripped message; characterised by `GeneralIff` |
| Classifier.PatternsAreStripped | enhanced_api_server.py:106-135 | none of the 28 phrases is empty or has whitespace at either end |
| Classifier.GeneralIff | enhanced_api_server.py:98-141 | a message is general exactly when its lower-cased text contains one of the 28 phrases; stripping changes nothing |
| Classifier.OrderIrrelevant | enhanced_api_server.py:137-141 | any rearrangement of the pattern list classifies every string the same way |
| Classifier.PaddingIrrelevant | enhanced_api_server.py:103 | whitespace around a message does not change whether it is general |
| Classifier.NormalizedIsItself | enhanced_api_server.py:103 | `lower().strip()` of an already lower-case, stripped message is that message |
| Classifier.HelloIsGeneral | test_deployed_api.py:36 | "Hello" is general |
| Classifier.WhoAreYouIsGeneral | test_deployed_api.py:32 | "Who are you?" is general |
| Classifier.HowAreYouIsGeneral | test_deployed_api.py:33 | "How are you?" is general |
| Classifier.WhatCanYouDoIsGeneral | test_deployed_api.py:34 | "What can you do?" is general |
| Classifier.TellMeAboutYourselfIsGeneral | test_deployed_api.py:35 | "Tell me about yourself" is general |
| Classifier.TopicQuestionIsNotGeneral | test_deployed_api.py:37-38 | "What is Physical AI?" is not general, so it reaches the agent |
| Classifier.HiAbsent | enhanced_api_server.py:119 | "hi" does not occur in "what is physical ai?" |
| Classifier.HiInsideThis | enhanced_api_server.py:117-119 | "Explain this" is general, because "this" contains "hi" |
| Classifier.MadeInsideQuestion | enhanced_api_server.py:134 | "How is a gripper made?" is general, because "made" is one of the phrases |
| Classifier.ReplyText | enhanced_api_server.py:150-159 | definition: the five canned reply texts, character for character |
| Classifier.ChooseReply | enhanced_api_server.py:147-159 | definition: the if/elif chain that picks one of the five replies; characterised branch by branch by `ReplyBranches` |
| Classifier.HandleGeneralQuestion | enhanced_api_server.py:143-159 | the reply is always one of the five canned texts |
| Classifier.IdentityReply | enhanced_api_server.py:149-150 | a message whose normalized text holds an identity phrase gets the identity reply, whatever else it holds |
| Classifier.WellbeingReply | enhanced_api_server.py:151-152 | with no identity phrase, "how are you" gets the wellbeing reply |
| Classifier.CapabilityReply | enhanced_api_server.py:153-154 | with neither earlier branch, a capability phrase gets the capability reply |
| Classifier.GreetingReply | enhanced_api_server.py:155-156 | with none of the earlier branches, a greeting word gets the greeting reply |
| Classifier.FallbackReply | enhanced_api_server.py:157-159 | a message matching no branch gets the fallback reply |
| Classifier.ReplyBranches | enhanced_api_server.py:147-159 | each reply is chosen exactly when its branch is the first whose phrases occur in the normalized message: identity, wellbeing, capability, greeting, otherwise the fallback |
| Classifier.IdentityBeforeGreeting | enhanced_api_server.py:149-156 | "Hello, who are you?" is general and holds a greeting word, yet gets the identity reply |
| Classifier.HelloGetsGreeting | enhanced_api_server.py:155-156 | "Hello" gets the greeting reply |
| ChatEndpoint.IsQuotaError | enhanced_api_server.py:211 | definition: the exception text contains "429" or "RateLimitError", or its lower-cased form contains "quota" |
| ChatEndpoint.Chat | enhanced_api_server.py:193-220 | a general question gets `handle_general_question(message)` and no error; otherwise the agent's output with no error, or, when the agent raised, exactly `ErrorResponse` of the exception text (an empty response with the quota message or "Error: " and the first 200 characters); the response carries an error exactly when the message is not general and the agent raised |
| ChatEndpoint.ErrorResponse | enhanced_api_server.py:209-220 | an exception gives an empty response and an error; a quota error gives the quota message; any other error gives "Error: " followed by a prefix of the text, which is the whole text up to 200 characters and exactly 200 beyond that |
| ChatEndpoint.GeneralSkipsAgent | enhanced_api_server.py:196-199 | a general question's response does not depend on the agent, carries no error, and is exactly `handle_general_question(message)`, one of the canned replies |
| ChatEndpoint.ErrorIff | enhanced_api_server.py:193-220 | a response carries an error exactly when the message is not general and the agent raised |
| ChatEndpoint.QuotaAnyCase | enhanced_api_server.py:211 | "Insufficient QUOTA" gives the quota message |
| ChatEndpoint.RateLimitIsCaseSensitive | enhanced_api_server.py:211-219 | "ratelimiterror" is not a quota error and is reported as "Error: ratelimiterror" |
| ChatEndpoint.LongErrorIsTruncated | enhanced_api_server.py:217-219 | a non-quota exception text longer than 200 characters is cut to its first 200 |
| ChatEndpoint.HelloEndToEnd | enhanced_api_server.py:196-199 | "Hello" gets the greeting reply and no error, whatever the agent does |
| ChatEndpoint.TopicQuestionEndToEnd | enhanced_api_server.py:201-208 | "What is Physical AI?" goes to the agent, and its final output is the response |

## Left out

- The network is not modelled: HTTP fetches, sitemap XML parsing and the trafilatura text extraction. Their results are the parameters `sitemap` and `extract`. An exception in any of them is `None`.
- The embedding service and the vector store are not modelled: embedding, upsert and collection re-creation. Their success is the parameters `store` and `collectionCreated`. The 1024-dimension embedding vector is not part of the modelled point.
- Ingest.IngestBook: assumes printing never raises. The chunker cannot raise for a positive budget, and the save function catches the exceptions of embedding and upserting. The progress and error `print` calls can raise, for example on a console that cannot encode their characters, and the model does not follow those paths. Where such a raise goes depends on where the `print` sits:
  - main.py:125 sits inside the save function's own handler, and main.py:153 and main.py:160 sit in the per-URL block. A raise from any of them reaches the per-URL handler. A raise at main.py:125 or main.py:160 leaves the counters and the id unadvanced, so the id is reissued to the next chunk.
  - main.py:144 sits outside the per-URL block, and main.py:166 inside the per-URL handler. A raise from either is fatal mid-run.
- Console output (`print`, `traceback`) is not modelled.
- The chat server's framework is not modelled: the FastAPI app, CORS, request validation, the thread pool and the event loop. The agent and its language model are the parameter `runAgent`.
- `agent.py`, the older `api_server.py` and the test scripts are not part of this model. The test scripts' messages appear as example lemmas.
- PyStr.Lower: folds only ASCII letters. Python's `str.lower` also folds non-ASCII letters, and can change a string's length.
- Chunker.ChunkText: requires `maxChars > 0`. With a budget of 0, the source loops forever on a short text (`ZeroBudgetMakesNoProgress`). The pipeline always uses 1200.
- Classifier.HandleGeneralQuestion: states only that the reply is one of the five texts; which one is stated by `IdentityReply`, `WellbeingReply`, `CapabilityReply`, `GreetingReply` and `FallbackReply`, and by `ReplyBranches` through `ChooseReply`. The five reply texts are not proved pairwise distinct: the solver cannot compare such long literals within its budget.
- Classifier.IsGeneralQuestion: each pattern is matched as a plain substring. That is exact for these patterns, which hold no regular-expression metacharacters. A general regular-expression engine is not modelled.
