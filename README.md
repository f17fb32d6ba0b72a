# Oscar roster manager — a Dafny model

`oscares.py` is a console program that keeps a roster of Best Picture
candidates. The roster is two parallel lists: `lista_filmes` holds film
names and `lista_pontuacoes` holds their scores, from 0 to 20. A menu
offers these operations on it:

- manual entry of ten films;
- changing one film's score;
- deleting a film after confirmation;
- searching by part of a name;
- a podium ranking made with a bubble sort;
- saving to a CSV file and loading from one.

This project models the data logic of those operations and proves what
each one does to the roster.

Modules:

- `Wrappers` — `Option`.
- `Text` — Python's `str.strip`, `str.lower`, `str.upper` and the `in`
  substring test, on `seq<char>`.
- `Validation` — `validar_pontuacao`, `validar_indice`, and the rule that a
  displayed number k selects position k - 1.
- `Console` — the prompt-and-retry loops. During one operation the console
  is the sequence of lines the user types. Running out of lines is where
  Python's `input()` raises `EOFError`. The menu's catch-all absorbs it
  when the console stays open (a terminal's Ctrl-D). When standard input is
  really closed, the handler's own `pausar()` (oscares.py:583) raises a
  second `EOFError` that nothing catches, and the program ends.
  `EntryDialogue` and `EnterFilms` describe manual entry one line at a
  time; `ReadFilms` is the loop itself, proved against them.
- `Ranking` — the descending bubble sort of `apresentar_podio`. It runs on
  copies of both lists and swaps names and scores together. A ghost
  permutation records where each entry came from.
- `Csv` — the file that `guardar_ficheiro` writes (a header, then one
  record per entry) and the record filter of `carregar_ficheiro`. The
  loader is specified by `LoadRecords`/`LoadFile`, and `ReadRecords` is its
  loop.
- `Oscares` — `class Roster`, whose fields `films` and `scores` are the two
  global lists. Each menu operation the model covers is a method of the class. Operations
  that change the lists have `modifies this` and state the whole new
  state; read-only ones change nothing.

The user's choices and the conversions the program applies to them are
parameters:

- `input` — the lines typed;
- `parse` / `parseReal` — Python's `float(...)`, as a partial function
  returning `Option<real>`;
- `parseInt` — `int(...)`;
- `show` — how a score is written into the CSV file;
- `fileExists` — `os.path.exists`;
- `rows` — the file's records, already split into fields.

Entry (oscares.py:108) and update (oscares.py:200) accept only scores
that pass `validar_pontuacao` (oscares.py:61), that is scores in [0, 20].
The loader (oscares.py:492) does not check the range: `carregar_ficheiro`
takes whatever number `float` yields. The model follows the code:
`Roster.Load` does not promise `ScoresValid()`, and
`Csv.LoadAcceptsAnyScore` proves that any converted number is loaded.
Manual entry establishes `ScoresValid()`; changing a score and deleting
preserve it.

## Model

| member | source | states |
|---|---|---|
| Text.IsSpace | oscares.py:99 | the white space `strip()` removes here and at oscares.py:324 and 490: the characters of Python's `str.isspace` (tab to carriage return, 0x1C to space, 0x85, 0xA0, 0x1680, 0x2000 to 0x200A, 0x2028, 0x2029, 0x202F, 0x205F, 0x3000) |
| Text.TrimLeft | oscares.py:99 | the result is a suffix of the line; every dropped character is whitespace, and the result is empty or starts with a non-whitespace character |
| Text.TrimRight | oscares.py:99 | the result is a prefix of the line; every dropped character is whitespace, and the result is empty or ends with a non-whitespace character |
| Text.Strip | oscares.py:99-100 | `strip()`: the result has no leading or trailing whitespace, is no longer than the line, and is empty exactly when the line is blank (so `if nome:` fails exactly on blank lines) |
| Text.StripCutsBlankEnds | oscares.py:99 | `strip()` returns a slice of the line, and everything cut off before and after that slice is white space; with `Strip`'s own ensures, the result is the line with its white space cut off at both ends |
| Text.StripKeepsTrimmed | oscares.py:490-491 | stripping a name that is already stripped leaves it unchanged |
| Text.IsSubstring | oscares.py:336 | Python's `t in s`: `t` occurs in `s` at some position k with k + len(t) <= len(s), so the empty string occurs in every string |
| Text.Lower | oscares.py:324 | `lower()` keeps the length of the text |
| Text.Upper | oscares.py:254-256 | `upper()` keeps the length of the text |
| Validation.ValidScore | oscares.py:51-61 | `validar_pontuacao`: a score is accepted exactly when 0 <= p <= 20 |
| Validation.ValidIndex | oscares.py:64-75 | `validar_indice`: a position is accepted exactly when 0 <= i < size |
| Validation.DisplayedIndex | oscares.py:184-187 | a displayed number k selects a position exactly when 1 <= k <= n, and the position is k - 1, in bounds |
| Console.EntryDialogue | oscares.py:94-117 | the manual-entry dialogue one line at a time: blank name lines are asked again, a non-blank one is stripped and waits for its score, rejected score lines are asked again, an accepted one registers the film; complete after ten films, stopped with the films so far when the lines run out |
| Console.EnterFilms | oscares.py:91-117 | manual entry starts from empty lists (earlier contents discarded) and runs the dialogue over all the lines typed |
| Console.AcceptsScore | oscares.py:107-108 | a score line ends the retry loop exactly when `float(...)` converts it and `validar_pontuacao` holds for the number; the same test ends the loop at oscares.py:199-200 |
| Console.NextScore | oscares.py:105-113 | the score prompt stops at the first line that converts to a number in [0, 20], after skipping only rejected lines; when no remaining line converts, there is none |
| Console.ReadScore | oscares.py:197-205 | the retry loop returns the number and the position of exactly the line `NextScore` finds, and nothing when the lines run out |
| Console.ReadFilmName | oscares.py:98-102 | blank lines are asked again: every line skipped is blank, the name is the first non-blank line, stripped (so non-empty and stripped), and the dialogue goes on waiting for its score; when every remaining line is blank, the entry stops with the films it has |
| Console.AwaitingScore | oscares.py:105-117 | while a name waits for its score, the dialogue registers the film at the first accepted score line, or stops when there is none |
| Console.ReadFilms | oscares.py:94-117 | the entry loop yields exactly the films, scores and completion that `EnterFilms` describes for the same lines |
| Console.DialogueCollects | oscares.py:94-117 | from any well-formed state, the dialogue only appends films with non-empty stripped names and scores in [0, 20], never goes beyond ten, and is complete exactly when it has ten |
| Console.EnteredFilmsAreValid | oscares.py:91-117 | manual entry from empty lists yields equal-length lists of at most ten films, exactly ten when it completes, all names non-empty and stripped, all scores in [0, 20] |
| Ranking.SwapTracks | oscares.py:376-386 | swapping adjacent entries on a strict `<` keeps names and scores a rearrangement of the originals by the same permutation, keeps the pairs, and keeps equal scores in their original order |
| Ranking.BubblePass | oscares.py:375-386 | one inner pass keeps the rearrangement, pairing and stability, and moves the smallest unsettled score to the end of the unsettled part, so one more position is settled |
| Ranking.SortByScore | oscares.py:373-386 | the ranked scores are non-increasing; ranked names and scores are the roster rearranged by one permutation, so every (name, score) pair is kept; equal scores keep their original relative order |
| Csv.SavedFile | oscares.py:438-442 | the file written is one longer than the roster: the header `["Filme", "Pontuacao"]` first, then record i + 1 holds entry i's name and written score |
| Csv.WriteRecords | oscares.py:437-442 | the writing loop produces exactly `SavedFile`: the header, then one record per entry in roster order |
| Csv.Kept | oscares.py:490 | a record is kept exactly when it has at least two fields and its first field is not blank, i.e. `len(linha) >= 2 and linha[0].strip()` |
| Csv.LoadRecords | oscares.py:489-495 | the record loop as a function: skips records that are not kept, appends the stripped name and converted score of each kept one in file order, and fails at a kept record whose score does not convert; successful loads have lists of equal length |
| Csv.LoadFile | oscares.py:486-495 | a whole file: the first record (the header) is skipped, then the records are loaded as `LoadRecords` describes |
| Csv.Records | oscares.py:441-442 | one record per entry, in roster order, holding that entry's name and written score |
| Csv.ReadRecords | oscares.py:486-495 | the record loop of the load yields exactly `LoadFile`: the header skipped, kept records appended in file order, nothing when a kept record's score does not convert |
| Csv.LoadOne | oscares.py:490-495 | a single record is skipped when it has fewer than two fields or a blank name, fails the load when its score does not convert, and otherwise adds its stripped name and converted score |
| Csv.LoadAppend | oscares.py:489-495 | loading two runs of records one after the other is the concatenation of their loads, and fails when either fails |
| Csv.LoadStep | oscares.py:489-495 | after a successful prefix, the next record is appended, skipped or fails the whole load, according to the filter `len(linha) >= 2 and linha[0].strip()` |
| Csv.LoadFailsIff | oscares.py:489-512 | the load fails exactly when some kept record has a score that does not convert |
| Csv.LoadedNamesAreFilmNames | oscares.py:490-494 | every name a load produces is non-empty and stripped |
| Csv.LoadFileNames | oscares.py:486-494 | the same for a whole file, header skipped |
| Csv.SaveThenLoad | oscares.py:438-442 | loading the file save writes gives back the roster, when names are stripped and non-empty and the score text converts back to the score |
| Csv.RecordsLoadBack | oscares.py:441-442 | loading the saved records (without the header) gives back both lists |
| Csv.LoadAcceptsAnyScore | oscares.py:490-495 | a file with one record loads that record with whatever number its score converts to, with no range check |
| Oscares.SelectEntry | oscares.py:183-191 | an empty roster is refused first; then no line means the input ended, a line that is not an integer is refused, a number outside 1..n is refused, and otherwise position k - 1 is chosen |
| Oscares.Confirms | oscares.py:254-258 | an answer confirms the deletion exactly when its upper-cased form is "S" |
| Oscares.ConfirmingAnswers | oscares.py:254-258 | the deletion is confirmed exactly by the answers "S" and "s" |
| Oscares.RemoveAt | oscares.py:260-261 | `pop(i)`: the list is one shorter, entries before i are kept, and later entries move one position up |
| Oscares.Matches | oscares.py:336 | a film matches the search term exactly when the term is a substring of the film's lower-cased name, `termo in lista_filmes[i].lower()` |
| Oscares.MatchingFilms | oscares.py:335-344 | the positions reported are increasing, in bounds, and are exactly those whose lower-cased name contains the term |
| Oscares.Roster.constructor | oscares.py:18-19 | the roster starts empty |
| Oscares.Roster.EnterManually | oscares.py:91-117 | earlier contents are discarded; the roster becomes exactly what `EnterFilms` describes (ten valid films when complete) and keeps `Valid()` and `ScoresValid()` |
| Oscares.Roster.ChangeScore | oscares.py:173-209 | when an entry is chosen and an accepted score is read, only that entry's score changes, to that score; names and lengths never change; in every refused case nothing changes; scores in [0, 20] stay so |
| Oscares.Roster.Delete | oscares.py:228-266 | when an entry is chosen and the answer confirms, that entry is removed from both lists, with the others kept in order; a refused choice, missing answer or any other answer leaves both lists unchanged |
| Oscares.Roster.Search | oscares.py:318-344 | an empty roster and a blank term report nothing; otherwise the reported positions are increasing and are exactly the films whose lower-cased name contains the stripped, lower-cased term |
| Oscares.Roster.ShowPodium | oscares.py:363-395 | an empty roster shows nothing; otherwise the ranking is the sorted, pair-preserving, stable rearrangement of the roster, the first min(3, n) entries get medals, and the roster itself is not changed |
| Oscares.Roster.Save | oscares.py:425-442 | an empty roster writes nothing; otherwise the rows written are the header followed by one record per entry, in roster order |
| Oscares.Roster.Load | oscares.py:466-512 | a missing file changes nothing; otherwise the roster becomes exactly what `LoadFile` yields, or both lists end empty when a kept record's score does not convert |

## Left out

- Console output and screen control (`limpar_ecra`, `pausar`, `mostrar_cabecalho`, `mostrar_menu`, `consultar_dados_simples` and every `print`): they do not touch the lists. The ENTER line that `pausar` reads after an operation is not part of the operation's `input`.
- The medal labels and the `[:24]` truncation of the podium display: presentation only. `ShowPodium` returns the ranking and how many of its entries get medals.
- `geracao_automatica`: it depends on `random.uniform` and float rounding. It sets the roster to a fixed list of ten names with random scores in [10, 20].
- `consultar_dados`: it only displays, and its mean is floating-point arithmetic and formatting.
- Text-to-number conversion (`float`, `int`) and the text form of a score in the CSV file: these are the parameters `parse`, `parseReal`, `parseInt` and `show`. Scores are `real`, so NaN and infinities are not represented.
- The file system and the `csv` module (`open`, `os.path.exists`, quoting and tokenising): a file is modelled as whether it exists plus its records, already split into fields. An I/O error while opening or reading the file is not modelled, and neither is an error while writing it. The records read back are taken to be exactly the records written. In fact the file is written with `newline=""` (oscares.py:434) but read without it (oscares.py:482). Newline translation on reading therefore turns a `'\r'` inside a name into `'\n'`. Such a name can be typed when input comes from a pipe. `Csv.SaveThenLoad` does not capture this.
- The menu loop `menu_principal`, including `KeyboardInterrupt` and its catch-all handler. What the handler absorbs is modelled where it matters: running out of input ends an operation (`InputEnded`, or `complete == false` for manual entry). The lists are then left as they are at that point; on a closed standard input the program then ends, because the handler's `pausar()` (oscares.py:583) raises again outside any `try`.
- Text.Lower: only ASCII and Latin-1 letters are mapped, not Python's full Unicode case mapping.
- Text.Upper: only ASCII letters are mapped, so answers such as 'ſ', which Python upper-cases to "S", are not treated as confirmations.
- Roster.Load: does not promise that scores lie in [0, 20], because `carregar_ficheiro` does not check the range (see `Csv.LoadAcceptsAnyScore`).
