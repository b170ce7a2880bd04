# tmve database generator: a Dafny model of `lib/generate_db.py`

`lib/generate_db.py` turns the output of a topic model into a SQLite
database for the topic-model visualisation engine. It reads these inputs:

- the per-document topic weights (gamma);
- the per-topic term weights (beta);
- the per-document word counts;
- the vocabulary;
- the document titles.

It then writes one relation per table: `terms`, `docs`, `doc_doc`,
`doc_topic`, `topics`, `topic_term`, `topic_topic`, `term_term` and
`doc_term`.

This project models, for every table, which rows the code inserts and in
what order, and proves what those rows are:

- **Top-100 nearest-neighbour relations** (`doc_doc`, `term_term`;
  `nearest.dfy`). For each reference row `a`, the candidates are the rows
  from `a` on. Exact-zero distances are overwritten with infinity in place.
  `argsort` orders the candidates and `[:100]` keeps the best. Each kept
  candidate becomes a row `(a, local index, score)`.
- **Untruncated relations** (`dense.dfy`):
  - `doc_topic`: every column of every gamma row;
  - `topic_topic`: every candidate of the upper-triangle block, self pair
    included;
  - `topic_term`: every column of every beta row, heaviest first.
- **Topic titles** (`topics.dfy`): `"{w0, w1, w2}"`, naming the three
  heaviest terms. A missing column or vocabulary entry raises `IndexError`.
- **`doc_term`** (`doc_term.dfy`): parsing the `term:count` tokens of each
  word-count line with Python 2 `int()`. This covers:
  - the order in which the two conversions happen;
  - a later duplicate overwriting an earlier one;
  - the error each malformed token raises.
- **Shared pieces:**
  - `generic_generator` (a three-way `zip`) and `file_generator`
    (`generators.dfy`);
  - `argsort` and the `[:100]` cut (`ranking.dfy`);
  - `str.split`, `str.split(sep)` and `str.strip` (`text.dfy`);
  - an exception that aborts a relation (`errors.dfy`).

The distance functions, `float()` and `np.exp(v)**.5` are parameters of the
model (`dist`, `toReal`, `transform`). The `argsort` model places every index
once, in non-decreasing score order. The code calls numpy's default sort,
which is not stable, so no contract says how ties are ordered.

Behaviour of the code worth knowing, all of it proved about the model:

- **Ids in the upper-triangle relations are local.** `doc_doc`, `term_term`
  and `topic_topic` compare reference `a` only with the block `m[a:]`, to
  skip pairs already compared (the comment at `lib/generate_db.py:121`).
  They store the candidate's index within that block, not the row number
  `a + index`. See "## Findings".
- **Self pairs can be stored.**
  - In `doc_doc` and `term_term`, a zero self-distance is remapped to
    infinity. The self pair then ranks after every finite non-zero
    candidate. It is always stored when the block has at most 100
    candidates (`N - a <= 100`). With more candidates it is stored only
    when fewer than 100 candidates have a finite non-zero score, and then
    only if `argsort` places it among the first 100, which numpy's tie
    order does not fix.
  - In `topic_topic`, every self pair is stored.
- **Row counts.**
  - Reference `a` of `doc_doc` contributes `min(100, N - a)` rows, its own
    pair among the `N - a` candidates.
  - `topic_topic` holds `N (N + 1) / 2` rows.
- **Document ids in `doc_term`.** The document id is the line number of the
  word-count file. The leading field of each line is skipped unread.

## Model

| member | source | states |
|---|---|---|
| Errors.Collect | lib/generate_db.py:256-271 | a loop over steps that may raise either yields one value per step, or fails with the error of one of its steps |
| Errors.CollectOk | lib/generate_db.py:256-271 | a loop that stops at its first exception succeeds exactly when every step succeeds, and then yields one value per step, in order |
| Errors.CollectFirstError | lib/generate_db.py:256-271 | a run that fails reports the error of its first failing step, and every earlier step succeeded |
| Text.Split | lib/generate_db.py:148 | `split()` yields only non-empty, whitespace-free words |
| Text.SplitWordThen | lib/generate_db.py:148 | a word followed by whitespace or by nothing is the first token, and splitting continues after it |
| Text.SplitSpaceThen | lib/generate_db.py:148 | leading whitespace of any length adds no token; with SplitWordThen this fixes `split()` on every input |
| Text.SplitJoin | lib/generate_db.py:257 | `split()` recovers the words that `" ".join` put together |
| Text.LeftStrip | lib/generate_db.py:260 | the whitespace `int()` skips after a sign: exactly the leading whitespace is removed, and what is left starts with a non-space |
| Text.Strip | lib/generate_db.py:23 | `strip()` returns a contiguous slice of its input with only whitespace around it, and the slice neither starts nor ends with whitespace |
| Text.StripKeeps | lib/generate_db.py:23 | text with no whitespace at either end is left unchanged by `strip()` |
| Text.StripIdempotent | lib/generate_db.py:23 | stripping twice gives the same result as stripping once |
| Text.SplitOn | lib/generate_db.py:260 | `split(':')` yields at least one piece, and no piece contains the separator |
| Text.SplitOnJoin | lib/generate_db.py:260 | joining the pieces of `split(sep)` with `sep` rebuilds the original text |
| Text.SplitOnPair | lib/generate_db.py:260 | text with exactly one separator splits into its two sides |
| Text.SplitOnNone | lib/generate_db.py:260 | text without the separator splits into one piece, itself |
| Generators.Repeat | lib/generate_db.py:128 | `(x,)*n` has `n` entries, all equal to `x` |
| Generators.Range | lib/generate_db.py:151 | `range(n)` lists `0 .. n-1` |
| Generators.Zip3 | lib/generate_db.py:11-16 | `generic_generator` yields the tuple of i-th elements for every i below the shortest argument's length |
| Generators.Zip3LongerFirst | lib/generate_db.py:11-16 | extending an argument that is already at least as long as the shortest one does not change the output |
| Generators.Gather | lib/generate_db.py:129 | fancy indexing `s[idx]` returns `s[idx[k]]` at position `k` |
| Generators.Flatten | lib/generate_db.py:119-134 | every row of the relation comes from one of its `executemany` batches |
| Generators.FlattenMember | lib/generate_db.py:134 | a row is in the relation exactly when one of the `executemany` batches holds it |
| Generators.FileGenerator | lib/generate_db.py:18-23 | `file_generator` yields each line, stripped, one per line |
| Generators.FileGeneratorStripped | lib/generate_db.py:18-23 | every yielded line has no whitespace at either end, and stripping it again changes nothing |
| Ranking.Remap | lib/generate_db.py:124 | an exact-zero distance becomes infinity and every other distance is kept |
| Ranking.RemapAll | lib/generate_db.py:124 | the remap is applied entrywise and keeps the length |
| Ranking.ArgSort | lib/generate_db.py:125 | `argsort` lists every index exactly once, in non-decreasing score order, with infinity after every finite score |
| Ranking.Select | lib/generate_db.py:125 | `argsort(...)[:100]` keeps `min(100, n)` distinct indices, in sorted order, and no index left out scores strictly lower than one kept |
| Ranking.InfSelectedAfterAllFinite | lib/generate_db.py:124-125 | an infinite score is selected only when fewer than 100 finite scores exist, and only after every finite one |
| Ranking.SelectKeepsAllWhenFew | lib/generate_db.py:125 | `argsort(s)[:100]` keeps every index of `s` when `s` has at most 100 entries |
| Ranking.AllFiniteSelectedWhenFew | lib/generate_db.py:124-125 | when at most 100 finite scores exist, every one of them is selected |
| Ranking.Reverse | lib/generate_db.py:168 | `[::-1]` keeps the length and reverses the positions |
| Ranking.ReverseDescending | lib/generate_db.py:188 | reversing an ascending argsort gives indices in non-increasing weight order |
| Ranking.ArgSortDesc | lib/generate_db.py:188 | `argsort(w)[::-1]` lists every column exactly once, in non-increasing weight order |
| Rows.ParseRow | lib/generate_db.py:148 | `map(float, line.split())` gives one weight per word, in order |
| Rows.ParseRows | lib/generate_db.py:206-209 | the file's matrix has one parsed row per line |
| Rows.LoadRows | lib/generate_db.py:205-209 | the append loop builds exactly that matrix |
| Rows.CandidateScores | lib/generate_db.py:122 | `f(m[a], m[a:])` has one score per candidate, and local index `k` is scored against row `a + k` |
| Rows.Enumerated | lib/generate_db.py:151 | `generic_generator((id,)*n, range(n), s)` gives `(id, k, s[k])` for every `k` |
| Nearest.NearestBatch | lib/generate_db.py:119-129 | one reference's rows: `min(100, n)` of them, each carrying the reference, a candidate index and that candidate's remapped score; candidates distinct and scores non-decreasing |
| Nearest.NearestBatchIdLength | lib/generate_db.py:240-242 | repeating the first column `len(score)` times gives the same rows as repeating it 100 times |
| Nearest.NearestBatchKeepsBest | lib/generate_db.py:124-125 | no candidate left out of a batch scores strictly lower than one kept |
| Nearest.ZeroCandidateRanksLast | lib/generate_db.py:123-125 | a zero-distance candidate is stored with infinity, only when fewer than 100 finite non-zero candidates exist, and after all of them |
| Nearest.FewCandidatesAllKept | lib/generate_db.py:121-129 | a block of at most 100 candidates gets one row per candidate, whatever the scores |
| Nearest.FewFiniteAllKept | lib/generate_db.py:124-125 | when at most 100 candidates have a finite non-zero score, all of them are stored |
| Nearest.NearestRows | lib/generate_db.py:122-129 | the per-reference loop body: after it the buffer holds the remapped distances, and it returns that reference's batch |
| Nearest.DocDocBatches | lib/generate_db.py:119-134 | reference `a`'s batch is the selection over the block `theta[a:]` |
| Nearest.WriteDocDoc | lib/generate_db.py:108-136 | `write_doc_doc` inserts the batches of all references, in order |
| Nearest.Transformed | lib/generate_db.py:232 | `np.exp(v)**.5` is applied elementwise and keeps the shape |
| Nearest.TermTermBatches | lib/generate_db.py:234-245 | term_term's batch for `a` repeats the first column `len(score)` times |
| Nearest.WriteTermTerm | lib/generate_db.py:222-247 | `write_term_term` inserts the batches of the transformed beta matrix, in order |
| Nearest.TermTermIsDocDoc | lib/generate_db.py:240-242 | term_term selects exactly the rows doc_doc would select from the same matrix and distance |
| Nearest.DocDocRowsAreLocal | lib/generate_db.py:119-129 | every doc_doc row `(a, b, s)` has `b < N - a`, and `s` is the remapped distance between documents `a` and `a + b` |
| Nearest.DocDocBatchLength | lib/generate_db.py:125-129 | reference `a` keeps `min(100, N - a)` rows |
| Nearest.DocDocRowCount | lib/generate_db.py:119-134 | doc_doc holds `sum(min(100, N - a) for a < N)` rows |
| Nearest.SelfPairStoredWhenFew | lib/generate_db.py:119-129 | when `N - a <= 100`, the self pair of document `a` (local id 0) is stored, whatever its distance |
| Nearest.SelfPairRanksLast | lib/generate_db.py:121-125 | with a zero self-distance, the self pair is stored only with infinity, only when fewer than 100 finite candidates exist, and after all of them |
| Rows.ToGlobal | lib/generate_db.py:128 | the corrected second id is `a + local` and the rest of the row is kept |
| Nearest.GlobalDocDocBatches | lib/generate_db.py:128-129 | the corrected batches are the doc_doc batches with global ids |
| Nearest.GlobalDocDocRowsNameTheirPair | lib/generate_db.py:121-129 | with global ids every row `(a, b, s)` lies in the upper triangle, and `s` is the distance between documents `a` and `b` |
| Nearest.LocalIdReadsAsSelfPair | lib/generate_db.py:128-129 | as written, three documents give the row `(1, 1, 1.0)`: a self pair of document 1 with a non-zero distance, although document 1's self distance is 0 |
| Dense.DocTopicBatches | lib/generate_db.py:147-152 | line `i` of the gamma file gives `(i, j, w_j)` for each column |
| Dense.WriteDocTopic | lib/generate_db.py:138-154 | `write_doc_topic` inserts those batches, line by line |
| Dense.DocTopicRowsAreDense | lib/generate_db.py:147-152 | a row is in doc_topic exactly when it is `(i, j, w)` with `w` column `j` of line `i` |
| Dense.TopicTopicBatches | lib/generate_db.py:211-216 | topic `a`'s batch enumerates the scores against `topics[a:]` |
| Dense.WriteTopicTopic | lib/generate_db.py:197-220 | `write_topic_topic` loads the beta rows, then inserts every topic's batch in order |
| Dense.TopicTopicRowsAreLocal | lib/generate_db.py:211-216 | a row is in topic_topic exactly when it is `(a, b, s)` with `b < N - a` and `s` the score of topics `a` and `a + b` |
| Dense.TopicTopicRowCount | lib/generate_db.py:211-219 | topic_topic holds `N (N + 1) / 2` rows, self pairs included |
| Dense.TopicTopicLocalIdExample | lib/generate_db.py:211-216 | as written, two topics give the row `(1, 0, s)` with `s` the score of topic 1 against itself, which reads as the pair (1, 0) |
| Dense.GlobalTopicTopicBatches | lib/generate_db.py:214-216 | the corrected batches are the topic_topic batches with global ids |
| Dense.GlobalTopicTopicRowsNameTheirPair | lib/generate_db.py:211-216 | with global ids, a row is in topic_topic exactly when it is `(a, b, s)` with `a <= b < N` and `s` the score of topics `a` and `b` |
| Dense.TopicTermBatch | lib/generate_db.py:186-190 | one topic's rows cover every column once, heaviest first, each with its own weight |
| Dense.TopicTermBatches | lib/generate_db.py:186-190 | line `i` of the beta file gives topic `i`'s batch |
| Dense.WriteTopicTerm | lib/generate_db.py:177-195 | `write_topic_term` inserts those batches, line by line |
| Topics.TopThree | lib/generate_db.py:168-172 | the first three of `argsort(w)[::-1]` are distinct columns, in non-increasing weight, and no other column weighs more than the third |
| Topics.Title | lib/generate_db.py:170-172 | the title is built exactly when the row has three columns and its top three index the vocabulary; otherwise `IndexError` |
| Topics.TitleReadsBack | lib/generate_db.py:170-172 | a title is braced, and splitting its inside on `,` gives the three words, heaviest first |
| Topics.TitleExample | lib/generate_db.py:170-172 | weights 0.1, 0.7, 0.2 over words a, b, c give the title `{b, c, a}` |
| Topics.LineTitles | lib/generate_db.py:166-172 | one title (or error) per line of the beta file |
| Topics.WriteTopics | lib/generate_db.py:156-175 | `write_topics` yields every title in file order, or the `IndexError` of the first line that raises, with no title kept |
| DocTerm.ParseInt | lib/generate_db.py:260 | `int()` fails only with a `ValueError` naming its argument |
| DocTerm.NatToString | lib/generate_db.py:260 | `str(n)` of a natural number is digits with value `n` and no leading zero |
| DocTerm.ParseIntOfDigits | lib/generate_db.py:260 | `int()` of a run of digits is its decimal value |
| DocTerm.ParseIntOfNegative | lib/generate_db.py:260 | `int()` of `-` followed by the digits of `v` is `-v` |
| DocTerm.ParseIntOfString | lib/generate_db.py:260 | `int(str(n)) == n` for every integer |
| DocTerm.ParseIntAccepts | lib/generate_db.py:260 | `int()` accepts every text that strips to an optional sign, whitespace only after a sign, then digits, and returns the signed decimal value |
| DocTerm.ParseIntAcceptsOnly | lib/generate_db.py:260 | `int()` accepts nothing else: every accepted text strips to such a literal, and the result is its value |
| DocTerm.EncodeToken | lib/generate_db.py:259-260 | a written `term:count` token is one whitespace-free word |
| DocTerm.ParseToken | lib/generate_db.py:260 | a token parses to `(int(key), int(count))` of the pieces around its first `:`; without a `:` it raises `IndexError`; otherwise a bad count, or else a bad key, raises `ValueError` naming that piece |
| DocTerm.ParseTokenOfEncoding | lib/generate_db.py:260 | every `term:count` token parses back to its pair |
| DocTerm.ParseTokenWithoutColon | lib/generate_db.py:260 | a token without `:` raises `IndexError` |
| DocTerm.ParseTokenCountFirst | lib/generate_db.py:260 | a bad count is reported before a bad key |
| DocTerm.LineTokens | lib/generate_db.py:257 | `doc.split()[1:]` yields only whitespace-free words |
| DocTerm.LineTokensSkipHeader | lib/generate_db.py:257 | `doc.split()[1:]` drops exactly the line's first word |
| DocTerm.TokenResults | lib/generate_db.py:259-260 | one parse result per token, in order |
| DocTerm.TermCountsLastWins | lib/generate_db.py:258-260 | the dictionary holds each term with the count of its last token |
| DocTerm.TermCountsKeys | lib/generate_db.py:258-260 | a term is in the dictionary exactly when some token names it |
| DocTerm.LineCountsFails | lib/generate_db.py:256-260 | a line fails exactly when one of its tokens does, with the error of the first such token |
| DocTerm.LineCountsOfEncoding | lib/generate_db.py:256-260 | any line in the word-count format parses to the dictionary of its pairs, whatever its leading word |
| DocTerm.LineCountsExample | lib/generate_db.py:256-260 | the line `2 3:2 7:1` gives term 3 the count 2 and term 7 the count 1 |
| DocTerm.CountTerms | lib/generate_db.py:258-260 | the token loop fails exactly when some token raises, with the first error; otherwise it builds the dictionary and lists each of its terms once |
| DocTerm.ParseLine | lib/generate_db.py:257-266 | one line's rows carry the document number, each term of its dictionary once, with its count; or the line's error |
| DocTerm.FileCounts | lib/generate_db.py:256-260 | one dictionary (or error) per line of the file |
| DocTerm.WriteDocTerm | lib/generate_db.py:249-271 | `write_doc_term` succeeds exactly when every line parses. Otherwise it fails with the first bad line's error and keeps no rows. On success it holds exactly the counts of every line, grouped by line in file order |

## Left out

- The distance functions used (`hellinger_distance`, `get_topic_score`, `get_term_score`) are floating-point numerics. They are parameters of the model.
- The unused distance functions `bhatt_distance`, `euclidean_distance`, `kl_distance` and `cosine_distance` (lines 32-75) are not modelled.
- The normalisation `gamma / gamma.sum(axis=1)` and the transform `np.exp(v)**.5` are floating-point numerics. They are modelled as a given matrix and a given elementwise function.
- Text-to-float conversion (`float`, `asarray(..., dtype=float)`) is a parameter. NaN and the ordering of NaN in `argsort` are not modelled.
- Rows.ParseRow: `toReal` is total, so the `ValueError` that `float()` raises on a non-numeric word (lines 148, 167, 187, 208, 231) is not modelled. On such a line the model yields rows or a title where the program raises.
- The `str()` applied to ids before insertion (lines 128, 189, 240-241) is not modelled. The model stores the numbers themselves, which is what SQLite's INTEGER column affinity stores for those strings.
- SQLite is not modelled: table and index creation, `INTEGER PRIMARY KEY` ids, `buffer` (BLOB) wrapping and `con.commit()`. A relation is modelled as the sequence of rows inserted, in order. An exception before the final commit is modelled as an `Err` result with no rows.
- File I/O is not modelled. Files are given as sequences of lines.
- Dense.WriteDocTopic: the `np.loadtxt(gamma_file)` call at line 145, whose result is unused, is not modelled. It raises `ValueError` on a gamma file with ragged rows before any doc_topic row is inserted, where the model yields rows.
- The stray `open(filename, 'a')` calls in `write_topics` and `write_topic_term` are not modelled. They touch only the database file name.
- The `__main__` driver (argument checking, `print`, the call order) is not modelled.
- The `vocab` preprocessing in the driver (`readlines` then `strip`) is `Generators.FileGenerator`.
- `write_terms` and `write_docs` insert exactly the rows of `Generators.FileGenerator`. They are not given separate members.
- The unused `no_vocab` and `no_words` parameters are not modelled.
- `generic_generator` is modelled for three arguments only. Every call site passes three.
- `DocTerm.CountTerms`: Python 2 dictionaries iterate in an unspecified order. The model lists keys in first-insertion order, but no contract depends on that order.
- Nearest.WriteDocDoc: accepts any matrix, so two numpy failures are not modelled. On them the model returns its rows (none for an empty file) where the program raises. (a) Ragged rows: `np.loadtxt` (line 115) raises `ValueError`. (b) An empty gamma file, or one of one line or one column: `loadtxt` returns a 1-D array, and `gamma.sum(axis=1, keepdims=True)` (line 116) raises.
- Nearest.WriteTermTerm: accepts ragged rows, on which `np.exp` (line 232) fails in the program.
- Dense.WriteTopicTopic: accepts ragged rows. In the program `np.asarray` (line 209) then raises or builds an object array, on which `get_topic_score` (line 213) fails.
- `Ranking.ArgSort`: numpy's default sort is not stable, and the order among equal scores is not captured. The model fixes one order, and the contracts state only sortedness and permutation.

## Findings

| source | as written | input that shows it | evidently intended | confidence | as-written member | corrected member |
|---|---|---|---|---|---|---|
| lib/generate_db.py:128-129 | `doc_doc` stores `min_doc_idx`, the index into `theta[a:]`, as `doc_b`. `term_term` (lines 240-242) does the same, and selects the same rows (Nearest.TermTermIsDocDoc) | three documents with distance 1 between distinct documents and 0 to themselves: the row `(1, 1, 1.0)` is stored, which reads as document 1 paired with itself at non-zero distance, though it is the pair (1, 2) | store the global id `a + index`, so that every row `(a, b, s)` names the documents it scores | not executed | Nearest.LocalIdReadsAsSelfPair | Nearest.GlobalDocDocRowsNameTheirPair |
| lib/generate_db.py:214-216 | `topic_topic` stores `range(len(scores))`, the index into `topics[topica_count:]`, as `topic_b` | two topics: the row `(1, 0, s)` is stored with `s` the score of topic 1 against itself, which reads as the pair of topics 1 and 0 | store the global id `topica_count + index` | not executed | Dense.TopicTopicLocalIdExample | Dense.GlobalTopicTopicRowsNameTheirPair |
