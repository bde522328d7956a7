# Topic modelling with a generative model: a Dafny model of its core

This project models the deterministic core of `topic_modeling_with_genAI.py`,
a script with two pipelines over a CSV corpus of social-media comments.
Both pipelines read the comments from the "Description" column.

- `classify_comments(corpus_file, n_of_comments=150)` handles at most
  `max(n_of_comments, 1)` comments, in order. For each one it:
  - builds a prompt that holds the comment and a fixed list of 18 topics;
  - asks the model `gemini-2.0-flash` for a completion;
  - removes every "```json" and then every "```" from the reply, and strips
    the whitespace around it;
  - parses the result and stores its "Topics" in an insertion-ordered dict
    keyed by the comment. When the reply is not JSON or has no "Topics", it
    stores the sentinel "Erro ao classificar o comentário".

  At the end it writes the dict as a JSON document and as a two-column
  spreadsheet whose cells are `', '.join(value)`.
- `topic_modeling(corpus_file)` joins all comments with the delimiter
  `"\nINICIO_DE_COMENTARIO: "` and puts the result in one prompt. It saves that
  prompt. Then it asks four models in turn, saves each reply in a file of its
  own, and returns the last reply.

A run is seen from outside through two things:
- its effects, in order: completion requests (`Complete(prompt, model)`) and
  file writes (`Write(name, content)`);
- how it ends: it returns a value, or it raises an exception.

Two things become parameters, because they are outside the core:
- The completion service is `backend(n, prompt, model)`. `n` is the number of
  the request within the run, so two requests with the same prompt may get
  different replies, as a sampling model may give.
- `json.loads(cleaned)["Topics"]` is a parser oracle with three outcomes:
  - a list of topics;
  - a decode or key error, which the script catches;
  - JSON that is not an object, whose indexing raises `TypeError`, which the
    script does not catch.

Modules:
- `PyStr`: the Python `str` operations used: `in`, `replace`, `count`,
  `split`, `join` and `strip`.
- `Normalizer`: cleaning the reply.
- `Naming`: output file names.
- `Corpus`: the column check, `dropna`, and the discovery corpus.
- `Results`: the dict, its entries, and the spreadsheet rows.
- `Pipeline`: both pipelines.
  - The classification loop is an imperative method. It is proved equal to
    a reference function, `Pipeline.Classification`, and the properties of
    a run are lemmas about that function.
  - Discovery is a function.

### Behaviour worth noting

- Only `JSONDecodeError` and `KeyError` are caught. A reply that is JSON but
  not an object raises `TypeError` and ends the run before any file is
  written.
- With an empty corpus the loop body never runs, so the local
  `googleai_model` is never bound. Reading it for the file name at line 83
  raises `UnboundLocalError`.
- Output names replace every ".csv" anywhere in the path, not only the
  extension. A path without ".csv" is left unchanged, so every output file is
  written over the input file.
- Discovery saves each reply as it came, not stripped.
- The number of topics in a reply is not checked.

## Model

| member | source | states |
|---|---|---|
| PyStr.ReplaceAll | topic_modeling_with_genAI.py:70 | `str.replace` with a non-empty pattern: a string without the pattern comes back unchanged |
| PyStr.ReplaceIsJoinOfSplit | topic_modeling_with_genAI.py:70 | `s.replace(p, r)` equals `r.join(s.split(p))`, so `replace` agrees with a second, independent definition |
| PyStr.ReplaceAtFirst | topic_modeling_with_genAI.py:83 | if `a` does not hold a border-free `sep`, then `(a + sep + b).replace(sep, r)` is `a + r + b.replace(sep, r)` |
| PyStr.Count | topic_modeling_with_genAI.py:101 | `s.count(p)` is 0 exactly when `p` does not occur in `s` |
| PyStr.SplitCount | topic_modeling_with_genAI.py:101 | `s.split(p)` has one more piece than `s.count(p)` |
| PyStr.SplitJoin | topic_modeling_with_genAI.py:101 | `sep.join(parts).split(sep) == parts` when `sep` is border-free and no part holds it |
| PyStr.CountJoin | topic_modeling_with_genAI.py:101 | under the same conditions, `sep` occurs in `sep.join(parts)` exactly `len(parts) - 1` times |
| PyStr.TrimStart | topic_modeling_with_genAI.py:70 | `lstrip()`: what is removed is a prefix of whitespace, and the rest does not start with whitespace |
| PyStr.TrimEnd | topic_modeling_with_genAI.py:70 | `rstrip()`: what is removed is a suffix of whitespace, and the rest does not end with whitespace |
| PyStr.Strip | topic_modeling_with_genAI.py:70 | `strip()` leaves no whitespace at either end, and changes nothing in a string that has none there |
| PyStr.StripIsSlice | topic_modeling_with_genAI.py:70 | `strip()` removes whitespace at the ends only: its result is a slice of the input, and every character outside that slice is whitespace |
| PyStr.Join | topic_modeling_with_genAI.py:90 | `sep.join(parts)`; its contract is stated by `SplitJoin`, `CountJoin` and `ReplaceIsJoinOfSplit` |
| PyStr.StripKeepsAbsence | topic_modeling_with_genAI.py:70 | `strip()` cannot create an occurrence of a pattern that was not there |
| Normalizer.Normalize | topic_modeling_with_genAI.py:69-70 | the cleaned reply has no "```" anywhere and no whitespace at either end |
| Normalizer.NoFenceAfterRemoval | topic_modeling_with_genAI.py:70 | after `.replace('```', '')` no "```" is left, even where removals bring backticks together |
| Normalizer.NormalizeFixpoint | topic_modeling_with_genAI.py:70 | cleaning leaves a string unchanged if and only if the string has no "```" and is already stripped |
| Normalizer.NormalizeIdempotent | topic_modeling_with_genAI.py:70 | cleaning twice gives the same result as cleaning once |
| Normalizer.NormalizeFencedExample | topic_modeling_with_genAI.py:69-70 | the reply "```json\n{"Topics":["Crime ambiental"]}\n```" cleans to `{"Topics":["Crime ambiental"]}` |
| Naming.Sanitize | topic_modeling_with_genAI.py:83 | `model.replace('.', '_')` keeps the length, turns each '.' into '_', keeps every other character, and leaves no '.' |
| Naming.SanitizeIsReplace | topic_modeling_with_genAI.py:83 | the character-wise `Sanitize` equals `replace` of "." by "_" |
| Naming.JsonName | topic_modeling_with_genAI.py:83 | the JSON result name; its contract is stated by `CsvPathNames` and `NamesWithoutCsv` |
| Naming.ExcelName | topic_modeling_with_genAI.py:89 | the spreadsheet name; its contract is stated by `CsvPathNames` and `NamesWithoutCsv` |
| Naming.PromptName | topic_modeling_with_genAI.py:121 | the saved prompt's name; its contract is stated by `CsvPathNames` and `NamesWithoutCsv` |
| Naming.TopicsName | topic_modeling_with_genAI.py:137 | one model's topics file name; its contract is stated by `CsvPathNames`, `NamesWithoutCsv` and `TopicsNamesDiffer` |
| Naming.CsvPathNames | topic_modeling_with_genAI.py:83-137 | for a path `<base>.csv` with no other ".csv", the four names are `<base>` followed by `_comment_topics_<m>.json`, `_comment_topics_<m>.xlsx`, `_prompt.txt` and `_topics_<m>.txt`, where `<m>` is the sanitised model id |
| Naming.NamesWithoutCsv | topic_modeling_with_genAI.py:83-137 | a path without ".csv" gives every output name equal to the path itself |
| Naming.TopicsNamesDiffer | topic_modeling_with_genAI.py:137 | model ids whose sanitised forms differ get different topic files |
| Corpus.DropMissing | topic_modeling_with_genAI.py:45 | `dropna()` never yields more texts than there are cells; its order and multiplicity are stated by `DropMissingAppend` and `DropMissingCounts` |
| Corpus.DropMissingCounts | topic_modeling_with_genAI.py:45 | each text appears in the result exactly as many times as it appears as a present cell |
| Corpus.DropMissingAppend | topic_modeling_with_genAI.py:45 | `dropna()` keeps column order: dropping from `a + b` is dropping from `a` followed by dropping from `b` |
| Corpus.LoadCorpus | topic_modeling_with_genAI.py:17-19 | fails with `ValueError("CSV file must contain 'Description' column.")` if and only if the column is missing; otherwise yields the present cells of that column |
| Corpus.DiscoveryCorpus | topic_modeling_with_genAI.py:101 | the delimiter join of the comments; its contract is stated by `DiscoveryCorpusDelimits` |
| Corpus.DiscoveryCorpusDelimits | topic_modeling_with_genAI.py:101 | the joined corpus starts with the first comment, splits back into the comments, and holds the delimiter `len(comments) - 1` times, provided no comment holds the delimiter |
| Results.Dict.Assign | topic_modeling_with_genAI.py:74-76 | `output[comment] = v`: a new key goes to the end, an existing key keeps its place, the key now maps to `v`, and keys stay distinct |
| Results.Assigned | topic_modeling_with_genAI.py:74-76 | the dict built by a sequence of assignments is well formed and has no more keys than there were assignments |
| Results.AssignedKeys | topic_modeling_with_genAI.py:74-76 | the keys are exactly the comments that were assigned |
| Results.AssignedFirstOccurrenceOrder | topic_modeling_with_genAI.py:74-76 | keys are ordered by the first assignment of each comment |
| Results.AssignedLastWriteWins | topic_modeling_with_genAI.py:74-76 | each key holds the value of its last assignment |
| Results.AssignedDistinct | topic_modeling_with_genAI.py:74-76 | when the assigned comments are distinct, the keys are those comments in assignment order |
| Results.Entries | topic_modeling_with_genAI.py:85 | `output.items()`: the keys in order, each paired with its value |
| Results.Cell | topic_modeling_with_genAI.py:90 | `', '.join(v)`; its contract is stated by `CellSplitsBack` and `StringCellIsCharacters` |
| Results.Rows | topic_modeling_with_genAI.py:90 | one spreadsheet row per key, in key order, with that key as the comment |
| Results.CellSplitsBack | topic_modeling_with_genAI.py:90 | splitting a list cell on ", " gives the list back, when the list is non-empty and no topic holds ", " |
| Results.StringCellIsCharacters | topic_modeling_with_genAI.py:90 | a string value such as the sentinel is joined character by character: its cell splits back into the single characters and is `3 * len - 2` long |
| Results.RowsMatchEntries | topic_modeling_with_genAI.py:85-90 | the spreadsheet agrees with the JSON entries row by row: same count, same comment, and a list cell that splits back into the entry's topics |
| Pipeline.ClassifyPrompt | topic_modeling_with_genAI.py:48-64 | the classification prompt contains the comment |
| Pipeline.Limit | topic_modeling_with_genAI.py:79-81 | because the `count >= n_of_comments` test runs after each comment, the number handled is `min(len(corpus), max(n_of_comments, 1))`: at most both, at least 1 for a non-empty corpus, and equal to `max(n_of_comments, 1)` whenever the loop stops early |
| Pipeline.Annotation | topic_modeling_with_genAI.py:66-76 | what one comment gives the dict (topics, sentinel, or `None` for the uncaught `TypeError`); stated by `AnnotateOutcome` and `ClassificationRaises` |
| Pipeline.Annotate | topic_modeling_with_genAI.py:44-81 | the loop as a fold over the handled comments; its contract is stated by `AnnotateOutcome`, `AnnotateComments` and `CrashPersists` |
| Pipeline.CorpusClassification | topic_modeling_with_genAI.py:44-92 | the reference run after the column check; `ClassifyCorpus` is proved equal to it |
| Pipeline.Classification | topic_modeling_with_genAI.py:15-92 | the reference run of `classify_comments`; its contract is stated by `ClassificationRaises`, `ClassificationCeiling`, `ClassificationJson`, `ClassificationDistinct`, `ClassificationSheet` and `MissingDescriptionRaisesFirst` |
| Pipeline.ClassifyCorpus | topic_modeling_with_genAI.py:44-92 | once the corpus is loaded, the loop (each pass requests the comment's prompt, cleans and parses the reply, and assigns the topics or the sentinel, or raises the uncaught `TypeError`), the `googleai_model` read and the two writes give exactly the reference run `CorpusClassification`, the fold `Annotate` over the first `Limit` comments |
| Pipeline.ClassifyComments | topic_modeling_with_genAI.py:15-92 | `classify_comments` gives exactly the effects and outcome of the reference run `Classification` |
| Pipeline.CrashPersists | topic_modeling_with_genAI.py:72-75 | after an uncaught `TypeError`, later comments are never reached |
| Pipeline.AnnotateOutcome | topic_modeling_with_genAI.py:44-81 | the loop stops only at a reply that parses to a non-object; otherwise it makes one request per comment, in order, and one assignment per comment, holding the parsed topics or the sentinel |
| Pipeline.AnnotateComments | topic_modeling_with_genAI.py:45-76 | the loop assigns exactly the handled comments, in order |
| Pipeline.MissingDescriptionRaisesFirst | topic_modeling_with_genAI.py:17-19 | without the "Description" column, both pipelines raise `ValueError` before any request or write (the discovery check is at lines 97-99) |
| Pipeline.ClassificationRaises | topic_modeling_with_genAI.py:72-83 | a run raises if and only if the corpus is empty or a handled reply parses to a non-object. The empty case is `UnboundLocalError` with no effects; the other case is `TypeError`. A decode or key error never ends the run |
| Pipeline.ClassificationCeiling | topic_modeling_with_genAI.py:79-81 | a run that returns requests the first `min(len(corpus), max(n_of_comments, 1))` comments in corpus order, then writes the JSON file and then the spreadsheet |
| Pipeline.ClassificationJson | topic_modeling_with_genAI.py:74-85 | the JSON document's keys are the distinct handled comments, ordered by first occurrence in the corpus, and each holds what the reply to its last handled occurrence gave |
| Pipeline.ClassificationDistinct | topic_modeling_with_genAI.py:45-85 | with distinct comments, the JSON keys are the handled comments in corpus order |
| Pipeline.DefaultCeilingExample | topic_modeling_with_genAI.py:15 | 200 distinct comments under the default ceiling of 150 give exactly 150 JSON entries |
| Pipeline.ClassificationSheet | topic_modeling_with_genAI.py:88-91 | the spreadsheet has one row per JSON entry, in the same order: the entry's comment and `', '.join` of its value |
| Pipeline.DiscoveryPrompt | topic_modeling_with_genAI.py:104-117 | the discovery prompt contains the whole joined corpus |
| Pipeline.Sweep | topic_modeling_with_genAI.py:130-139 | each model in order gets one request for the prompt, followed by a write of its reply to that model's topics file |
| Pipeline.TopicModeling | topic_modeling_with_genAI.py:94-158 | the reference run of `topic_modeling`; its contract is stated by `TopicModelingRun` and `MissingDescriptionRaisesFirst` |
| Pipeline.TopicModelingRun | topic_modeling_with_genAI.py:94-158 | for `<base>.csv`, discovery saves the prompt to `<base>_prompt.txt` and then makes four (request, write) pairs in model order, each to a distinct `<base>_topics_<m>.txt`. It returns the last model's reply, which is also the content of its last file |

## Left out

- The completion service (`googleai.get_completion`, lines 67 and 134) is the `backend` parameter. Its failures (network, quota, authentication) are not modelled.
- `json.loads(...)["Topics"]` (line 73) is the parser oracle, and the JSON grammar itself is not modelled. The oracle yields "Topics" only as a list of strings. A "Topics" of another JSON type is not modelled:
  - a string would be joined character by character in the spreadsheet;
  - a number, or a list holding non-strings, would make `', '.join` raise `TypeError` after the JSON file is written.
- Reading the CSV and `astype(str)` (lines 17, 45, 97, 101) are left out. The table is given as columns of cells that are already text or missing. A read error (for example a missing file) is not modelled.
- Writing the files is recorded as an effect holding the JSON entries, the spreadsheet rows or the text. The byte formats (`indent=4`, `ensure_ascii=False`, the Excel format) are not modelled.
- `print`, `load_dotenv` (line 13) and the token estimate `int(len(prompt) / 4)` (line 126) have no effect on the outcome.
- The Portuguese instruction text of both prompt templates (lines 48-61 and 104-115) and their indentation are replaced by short stand-ins. The comment, the topic list and the corpus are placed between their tags as in the template.
- Pipeline.ListRepr renders `str(topics)` only for topics that hold no quote and no backslash. All 18 fixed topics are like that.
- The commented-out OpenAI and Anthropic backends (lines 141-155) and `main` (lines 161-168) are not modelled.
- PyStr.ReplaceAll and PyStr.Count require a non-empty pattern. Python `replace` and `count` also accept an empty one, but the script never passes one. PyStr.Split requires a non-empty separator, as Python's `split` does.
- `n_of_comments` is an integer. Other Python values that `>=` would accept are not modelled.
- Strings are sequences of Unicode scalar values. Python strings may also hold lone surrogates, which are not modelled.
- The dict `output` and the counter `count` are local variables of the loop method, as they are in the script. There is no object holding them.
