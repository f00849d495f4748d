# Morphism graph and table-name handling of the SysEng AI tool, in Dafny

The SysEng AI tool turns free-form user requirements into system designs and
verification artefacts. This project models three pieces of its back end,
all from `Iteration_2_SysEng_AI_Tool/API_integration2.py`, and proves
properties of them:

- **`build_morphism_graph_data`**: builds the node and edge lists that the
  morphism visualisation draws. `MorphismGraph.BuildMorphismGraphData` is a
  method that grows `nodes` and `edges` step by step, as the source appends
  to its lists. It is proved equal to `MorphismGraph.MorphismGraphOf`, a
  function of its inputs. The module `MorphismGraphProperties` then proves
  what that graph contains: how many nodes carry each id, when the `DB` and
  `PDF` nodes appear, which `contains` and `references` edges appear, that no
  edge dangles, and that node ids are distinct exactly when table names are.
- **`detect_table_name`**: finds a table name in user text. It runs
  `re.compile(r'\btable\s+([a-zA-Z0-9_]+)', re.IGNORECASE).search` and
  returns group 1, or `""` when there is no match. The module `TableNames`
  states the match twice:
  - as a reference definition (`QualifyingAt`, `Leftmost`, `GroupAt`);
  - as the engine's greedy left-to-right scan (`MatchesAt`, `FindMatch`,
    `GreedyGroup`).

  It proves the two agree, and that the description determines the
  returned name.
- **The guard and query of `fetch_specific_table`**: the guard is
  `re.match(r'^\w+$', table_name)`. When it fails, the function raises
  `ValueError("Invalid table name format.")`. When it passes, it builds the
  query `SELECT TOP {limit} * FROM {table_name};`. Rendering `limit` in the
  f-string raises `ValueError` as well when the integer has more than 4300
  decimal digits, the default of `sys.get_int_max_str_digits()`.
  `TableNames.TableQuery` returns `Result<string, QueryError>`. It is proved
  to build a query exactly when the guard passes and the limit has at most
  4300 digits, and to return the matching `ValueError` otherwise. The query
  is proved to read back as the same limit and table name.

`PyText` holds the Python string built-ins these rely on:
- `str.isspace`, which is the `\s` class;
- the `\w` class;
- `str.lower`;
- `in` on strings;
- `str(int)`, as used when an f-string renders the limit.

`Wrappers` holds `Option` and `Result`.

Inputs that come from outside the code are parameters:
- The database schema returned by `fetch_table_structure()` becomes
  `tableStructure: seq<string>`. It holds the dictionary's keys in
  iteration order. The builder never reads the column maps.
- `pdf_data` becomes `pdfSupplied: bool`. A `BytesIO` object is always
  truthy, so `if pdf_data:` tests only that a PDF object was passed.

A node's and an edge's `"label"` key is the field `caption`, because `label`
is a Dafny keyword.

## Model

| member | source | states |
|---|---|---|
| PyText.ContainsIsSubstring | Iteration_2_SysEng_AI_Tool/API_integration2.py:371 | `Contains(hay, needle)`, the model of Python's `needle in hay`, holds exactly when `needle` occurs at some index of `hay`. |
| PyText.ContainsFromFindsOccurrence | Iteration_2_SysEng_AI_Tool/API_integration2.py:371 | The substring scan from index `i` succeeds exactly when an occurrence starts at or after `i`. Proved by induction. |
| PyText.NatToDecimal | Iteration_2_SysEng_AI_Tool/API_integration2.py:108 | The decimal text of a natural is non-empty. It is all digits, with no leading zero. |
| PyText.DigitCountBound | Iteration_2_SysEng_AI_Tool/API_integration2.py:108 | An integer has at most `k` decimal digits, sign not counted, exactly when it lies strictly between `-10^k` and `10^k`. This is the measure that `sys.get_int_max_str_digits()` limits. |
| PyText.IntDecimalRoundTrip | Iteration_2_SysEng_AI_Tool/API_integration2.py:108 | The text an f-string gives for the integer `limit` parses back to the same integer. Negative limits are included. |
| TableNames.KeywordAtSpelledOut | Iteration_2_SysEng_AI_Tool/API_integration2.py:122 | The model's `KeywordAt` (lower-casing five characters and comparing with `table`) holds exactly when each of the five characters is the lower- or upper-case form of the matching letter of `table`, which is what `table` under `re.IGNORECASE` matches. |
| TableNames.Run | Iteration_2_SysEng_AI_Tool/API_integration2.py:122 | A greedy `+`/`*` run: all characters of the run are in the class, and the character after it is not. |
| TableNames.RunIsUnique | Iteration_2_SysEng_AI_Tool/API_integration2.py:122 | Any run of class characters that ends at a non-class character is the greedy run. |
| TableNames.MatchesAtIsQualifying | Iteration_2_SysEng_AI_Tool/API_integration2.py:122 | At every start position, the greedy engine test agrees with the reference definition: `\b`, `table` in any case, `\s+`, then an identifier character. Backtracking inside `\s+` cannot produce another match. |
| TableNames.FirstFromIsFirst | Iteration_2_SysEng_AI_Tool/API_integration2.py:123 | The left-to-right scan of `search` returns the first passing position. With no result, no position passes. |
| TableNames.FindMatchIsFirst | Iteration_2_SysEng_AI_Tool/API_integration2.py:123 | `pattern.search` reports the leftmost start position that matches, or none when no position matches. |
| TableNames.DetectWithMeaning | Iteration_2_SysEng_AI_Tool/API_integration2.py:122-126 | The result is `""` exactly when no position qualifies. Otherwise it is the maximal identifier that follows the whitespace after the leftmost qualifying `table`. |
| TableNames.DetectTableNameMeaning | Iteration_2_SysEng_AI_Tool/API_integration2.py:117-126 | `detect_table_name` returns `""` if and only if there is no qualifying `table` occurrence. A non-empty result is group 1 of the leftmost match, and it is maximal. Its characters are ASCII letters, digits and `_`, or one of the four letters that `re.IGNORECASE` adds to `[a-zA-Z]`. |
| TableNames.DetectedNameIsDetermined | Iteration_2_SysEng_AI_Tool/API_integration2.py:122-125 | Any name that meets the leftmost-and-maximal description is exactly the one `detect_table_name` returns. |
| TableNames.GroupIsIdentifier | Iteration_2_SysEng_AI_Tool/API_integration2.py:122-125 | A reported capture group contains only identifier-class characters. |
| TableNames.DetectTableNameAsciiMeaning | Iteration_2_SysEng_AI_Tool/API_integration2.py:122 | Corrected detector: the same `""` iff, and the same leftmost-match description, with only ASCII identifier characters in the result. |
| TableNames.KelvinSignIsDetected | Iteration_2_SysEng_AI_Tool/API_integration2.py:122-125 | As written, `"table \U{212A}ey"` yields the name `"\U{212A}ey"`, whose first character is not ASCII. |
| TableNames.AcceptsTableName | Iteration_2_SysEng_AI_Tool/API_integration2.py:106 | `re.match(r'^\w+$', name)` succeeds exactly when the name is one or more word characters, optionally followed by one final `"\n"`. |
| TableNames.AcceptsTableNameStrict | Iteration_2_SysEng_AI_Tool/API_integration2.py:106 | Corrected guard: accepts exactly the non-empty names made only of word characters. |
| TableNames.TrailingNewlinePassesGuard | Iteration_2_SysEng_AI_Tool/API_integration2.py:106 | As written, `"orders\n"` passes the guard. The corrected guard rejects it. |
| TableNames.TopQueryRoundTrip | Iteration_2_SysEng_AI_Tool/API_integration2.py:108 | Parsing `SELECT TOP {limit} * FROM {name};` gives back exactly `(limit, name)`. |
| TableNames.TableQuery | Iteration_2_SysEng_AI_Tool/API_integration2.py:106-108 | A query is built exactly when the guard passes and `limit` has at most 4300 digits, and it reads back as `(limit, tableName)`. A name the guard rejects gives `ValueError("Invalid table name format.")`. An accepted name with a longer limit gives the integer-string-conversion `ValueError`. |
| TableNames.TableQueryStrict | Iteration_2_SysEng_AI_Tool/API_integration2.py:106-108 | Corrected query: built exactly when the name is non-empty word characters and the limit has at most 4300 digits, with the same read-back and the same two errors otherwise. |
| MorphismGraph.BuildMorphismGraphData | Iteration_2_SysEng_AI_Tool/API_integration2.py:348-395 | Appending node by node and edge by edge, including inside the loop over tables, yields exactly `MorphismGraphOf(userRequirements, tableStructure, pdfSupplied)`. |
| MorphismGraph.TableNodeIdMatches | Iteration_2_SysEng_AI_Tool/API_integration2.py:368 | `f"DB_{table}"` equals an id exactly when the id starts with `DB_` and the rest is the table name. |
| MorphismGraph.NodeOrder | Iteration_2_SysEng_AI_Tool/API_integration2.py:360-385 | The node list has 4 + (1 + #tables when the schema is non-empty) + (1 with a PDF) nodes. The first is SR "User Requirements". DB comes second when there are tables. The last three are SD, VR and VM, with PDF just before them when supplied. |
| MorphismGraph.TableNodesInOrder | Iteration_2_SysEng_AI_Tool/API_integration2.py:365-369 | Node `2 + j` is `DB_<tables[j]>`, with label `tables[j]`, in the schema's iteration order. |
| MorphismGraph.EdgeOrder | Iteration_2_SysEng_AI_Tool/API_integration2.py:367-393 | The last four edges are SR→SD "design mapping", SD→VM "verification mapping", SR→VR "verification derivation" and VR→VM "morphism proof". SR→PDF "details in" comes just before them when a PDF is supplied. There is at least one edge per table. |
| MorphismGraph.TableEdgesLength | Iteration_2_SysEng_AI_Tool/API_integration2.py:367-372 | The table loop adds between one and two edges per table. |
| MorphismGraphProperties.NodeIdCount | Iteration_2_SysEng_AI_Tool/API_integration2.py:360-385 | Number of nodes with each id:<br>- SR, SD, VR and VM: exactly one each.<br>- DB: one if and only if the schema is non-empty.<br>- PDF: one if and only if a PDF was supplied.<br>- `DB_<t>`: one per occurrence of `t` among the tables.<br>- Any other id: none. |
| MorphismGraphProperties.DbNodePresentIff | Iteration_2_SysEng_AI_Tool/API_integration2.py:365-366 | The DB node, and the id `DB`, are present if and only if the schema has tables. |
| MorphismGraphProperties.TableNodeExactlyOnce | Iteration_2_SysEng_AI_Tool/API_integration2.py:367-369 | With distinct table names, each table `t` has exactly one node with id `DB_<t>`. That node is labelled `t`. |
| MorphismGraphProperties.DistinctIdsIff | Iteration_2_SysEng_AI_Tool/API_integration2.py:360-385 | Node ids are pairwise distinct if and only if the table names are. |
| MorphismGraphProperties.TableEdgeShape | Iteration_2_SysEng_AI_Tool/API_integration2.py:367-372 | Every edge the table loop adds is DB→DB_<t> "contains", or SR→DB_<t> "references" for a referenced table `t`. |
| MorphismGraphProperties.TableEdgeCount | Iteration_2_SysEng_AI_Tool/API_integration2.py:367-372 | The loop adds one "contains" edge per occurrence of `t`. It adds one "references" edge per occurrence when `t.lower() in user_requirements.lower()`, and none otherwise. |
| MorphismGraphProperties.EdgeShape | Iteration_2_SysEng_AI_Tool/API_integration2.py:367-393 | No other edges exist: every edge is a morphism edge, the PDF edge when a PDF was supplied, or a table edge as above. |
| MorphismGraphProperties.ContainsEdgeCount | Iteration_2_SysEng_AI_Tool/API_integration2.py:370 | In the whole graph, DB→DB_<t> "contains" occurs once per occurrence of table `t`. |
| MorphismGraphProperties.ReferencesEdgeIff | Iteration_2_SysEng_AI_Tool/API_integration2.py:371-372 | SR→DB_<t> "references" is present if and only if `t` is a table and `t.lower()` occurs in `user_requirements.lower()`. With distinct table names it occurs at most once. |
| MorphismGraphProperties.PdfPresentIff | Iteration_2_SysEng_AI_Tool/API_integration2.py:375-378 | The PDF node and the SR→PDF "details in" edge appear if and only if a PDF was supplied, and then once each. |
| MorphismGraphProperties.EdgeEndsAreNodes | Iteration_2_SysEng_AI_Tool/API_integration2.py:367-393 | Both ends of any one edge are ids of returned nodes. |
| MorphismGraphProperties.NoDanglingEdges | Iteration_2_SysEng_AI_Tool/API_integration2.py:356-395 | No edge dangles: both ends of every edge are ids of returned nodes. |

## Left out

- Calls to the Gemini API (`initialize_api`, `generate_system_designs`, `create_verification_requirements_models`, `get_traceability`, `get_verification_conditions`) are left out. They are network calls with no local logic to verify.
- Database access is left out: `connect_to_db`, `list_all_tables` and `fetch_table_structure`, plus the connection, cursor, `execute`, `fetchall` and `close` steps of `fetch_specific_table`. These are ODBC I/O. The schema enters the builder as a parameter.
- The `except` path of `fetch_specific_table`, which prints and returns `[]`, is left out. The model returns the `ValueError` that this path catches, so that the guard's outcome stays visible.
- `enhance_user_requirements` (spaCy) and `extract_text_from_pdf` (PyPDF2) are left out. Both are foreign libraries. The builder computes their results but never uses them. Dropping the spaCy call also drops its `ValueError` (spaCy error E088) for a requirements text longer than `nlp.max_length`, 1,000,000 characters by default. So `BuildMorphismGraphData` never fails, while the Python function raises for such a text.
- `generate_morphism_graph` (Graphviz rendering), the Flask and Tk front ends and the example-data modules are left out. They are rendering, UI and constant data.
- The column maps of the schema are not modelled. The builder reads only the table names.
- BoundaryBefore and AcceptsTableName read `\w` as the ASCII letters, digits and `_`, plus the four letters İ, ı, ſ and K (Kelvin sign). Python's `\w` also matches every other Unicode letter and digit, which the model does not. So for text such as `"étable x"`, the model finds a word boundary where Python does not.
- PyText.LowerChar and PyText.Lower lower-case ASCII capitals only. Python's `str.lower` also maps non-ASCII capitals, and some to two characters. `References` is exact only for ASCII text.
- PyText.IntDecimalRoundTrip holds for every integer, but Python renders an `int` of more than 4300 digits only after `sys.set_int_max_str_digits()` raises the limit. The lemma is about the rendering itself. `TableQuery` models the error that the default limit causes.
- The message of `IntStrDigitsExceeded` is the wording of CPython 3.12. Other versions word it differently.
- Node and edge labels are stored in a field named `caption`, not `label`.

## Findings

| source | as written | input that shows it | evidently intended | confidence | as-written member | corrected member |
|---|---|---|---|---|---|---|
| Iteration_2_SysEng_AI_Tool/API_integration2.py:122 | `[a-zA-Z0-9_]` with `re.IGNORECASE` also matches U+0130, U+0131, U+017F and U+212A, so the detected name can contain non-ASCII letters | `"table \U{212A}ey"` gives `"\U{212A}ey"` (Kelvin sign) | a name made only of the ASCII characters the class spells out | not executed; follows from the documented `re.IGNORECASE` behaviour of `str` patterns | TableNames.KelvinSignIsDetected | TableNames.DetectTableNameAsciiMeaning |
| Iteration_2_SysEng_AI_Tool/API_integration2.py:106 | `$` in `re.match(r'^\w+$', name)` also matches before a final newline, so the guard passes a name that ends in `"\n"` and the newline reaches the query text | `"orders\n"` passes the guard | only non-empty names made of word characters pass | not executed; follows from the documented meaning of `$` | TableNames.TrailingNewlinePassesGuard | TableNames.TableQueryStrict |
