# Folding utility helpers: decision logic

A Dafny model of the decision logic in `folding/utils/ops.py`, the helper file of a
protein-folding workflow. The workflow picks a PDB identifier from a category index,
downloads the PDB (wwPDB coordinate file) text from RCSB, and keeps the file only when
it is complete. It also keeps a table of recommended GROMACS water models per force field.

- `strings.dfy`, module `Strings`: the two string operations the validator uses.
  `Lower` is lower-casing. `Contains` is substring search, Python's `value in text`.
  `Contains` is proved equal to a position-based reference meaning (`OccursAt`).
- `ops.dfy`, module `Ops`:
  - the completeness validator `is_pdb_complete`. It is a pure predicate
    `IsPdbComplete`, plus a method `CheckPdbComplete` that runs the source's loop over
    the marker set in unspecified order. The method is proved to agree with the predicate.
  - the constant `FF_WATER_PAIRS` as `FfWaterPairs: map<string, string>`.
  - the branch logic of `download_pdb` as a pure function `DownloadPdb`. The HTTP GET is
    a parameter `fetch: string -> Response`, applied to the RCSB download URL. The result
    is one of `Written(path, contents)` (the file is written and True returned),
    `Rejected` (nothing written, False returned) or `DownloadError(message)` (the raised
    exception).
  - the retry loop of `select_random_pdb_id` as a method `SelectRandomPdbId`. Each
    `random.choice` is an arbitrary choice (`:|`), and a `fuel` bound limits the rounds.
    The source raises `IndexError` from `random.choice` on an empty index, and the model
    returns `IndexError` there. The source never checks that some category is non-empty;
    the model follows the code.

## Model

| member | source | states |
|---|---|---|
| `Strings.Lower` | folding/utils/ops.py:131 | lower-casing keeps the length, leaves no ASCII capital, changes exactly the characters that were ASCII capitals, and turns each capital into its small letter |
| `Strings.LowerUpToCase` | folding/utils/ops.py:131 | two texts that differ only in the case of their ASCII letters have the same lower-cased form |
| `Strings.Contains` | folding/utils/ops.py:133 | a found pattern is no longer than the text; the empty pattern is found in every text |
| `Strings.ContainsIffOccurs` | folding/utils/ops.py:133 | `pattern in text` holds exactly when some start index `i` has `text[i..i+|pattern|] == pattern` |
| `Strings.ContainsInContext` | folding/utils/ops.py:133 | a pattern found in a text is still found after text is added before and after it |
| `Strings.LowerConcat` | folding/utils/ops.py:131 | lower-casing a concatenation gives the concatenation of the lower-cased parts |
| `Strings.LowerIdempotent` | folding/utils/ops.py:131 | lower-casing an already lower-cased text changes nothing |
| `Ops.CheckPdbComplete` | folding/utils/ops.py:123-135 | the loop over the marker set, in any visiting order, returns false exactly when the lower-cased text contains one of "missing heteroatom", "missing residues", "missing atom", and true otherwise |
| `Ops.CompleteIffNoMarkerOccurs` | folding/utils/ops.py:130-135 | a text is complete exactly when no marker starts at any position of its lower-cased form |
| `Ops.CaseInsensitive` | folding/utils/ops.py:131-133 | a text and its lower-cased form get the same verdict |
| `Ops.SameLowerSameVerdict` | folding/utils/ops.py:131-133 | two texts that differ only in the case of their ASCII letters, position by position, get the same verdict |
| `Ops.IncompleteStaysIncomplete` | folding/utils/ops.py:132-134 | if a text is incomplete, so is the text with anything added after it or before it |
| `Ops.ShortTextIsComplete` | folding/utils/ops.py:130-135 | a text shorter than the shortest marker (12 characters), the empty text included, is complete |
| `Ops.MixedCaseMarkerIsIncomplete` | folding/utils/ops.py:130-134 | the text "REMARK 465 Missing Residues" is judged incomplete |
| `Ops.FfWaterPairsKeys` | folding/utils/ops.py:13-29 | the table's keys are exactly the seven AMBER force fields, charmm27, the six GROMOS force fields and oplsaa |
| `Ops.FfWaterPairsSize` | folding/utils/ops.py:13-29 | the table has fifteen entries |
| `Ops.FfWaterPairsValues` | folding/utils/ops.py:13-29 | the set of water models used is exactly {tip3p, spc, tip4p} |
| `Ops.FfWaterPairsByFamily` | folding/utils/ops.py:14-28 | a key maps to tip3p iff it starts with "amber" or is charmm27, to spc iff it starts with "gromos", and to tip4p iff it is oplsaa |
| `Ops.RcsbUrl` | folding/utils/ops.py:102 | the download URL is the RCSB download base followed by the identifier |
| `Ops.DownloadPdb` | folding/utils/ops.py:102-120 | status 200 with a complete body writes exactly the body to the directory/identifier path; status 200 with an incomplete body writes nothing and returns False; any other status writes nothing and raises "Failed to download PDB file with ID <id>." |
| `Ops.WrittenFileIsComplete` | folding/utils/ops.py:105-112 | whatever the server answers, a file the download writes is a complete PDB text |
| `Ops.DownloadCompleteWrites` | folding/utils/ops.py:105-112 | a 200 response with body "HEADER" writes "HEADER" to pdbs/1ubq |
| `Ops.DownloadIncompleteRejects` | folding/utils/ops.py:113-117 | a 200 response with a "Missing Residues" remark writes nothing and returns False |
| `Ops.DownloadNotFoundRaises` | folding/utils/ops.py:118-120 | a 404 response raises the download error naming the identifier |
| `Ops.SelectRandomPdbId` | folding/utils/ops.py:52-58 | a returned identifier belongs to the list of some category whose list is non-empty; if every category is empty, the loop never returns an identifier; IndexError is raised exactly when the index has no categories; with fuel and only non-empty categories the first round returns an identifier; running out of fuel needs zero fuel or an empty category |

## Left out

- `load_pdb_ids` (folding/utils/ops.py:32-49): a file-existence check and pickle deserialisation, both file-system I/O.
- `check_if_directory_exists` (folding/utils/ops.py:61-64): directory creation and logging, only file-system side effects.
- `run_cmd_commands` (folding/utils/ops.py:67-85): runs shell subprocesses, with a progress bar and logging; its behaviour is that of the external processes.
- The HTTP transport of `download_pdb`: `requests.get` becomes the `fetch` parameter. Connection failures that `requests.get` itself raises are not modelled, and the body is taken as already-decoded text.
- The file write of `download_pdb` is the `Written` outcome, not a change to a file system. `os.path.join` is the pair `Join(directory, name)`, without its rules for separators or absolute names.
- All `bt.logging` calls: a foreign logging library with no effect on results.
- `Strings.Lower`: lower-cases ASCII capitals only. Python's `str.lower` also maps non-ASCII letters. All markers are ASCII, so the verdict differs only if a non-ASCII character's lower-case form could complete a marker; the model does not capture Unicode case mapping.
- `Ops.SelectRandomPdbId`: the uniform distribution of `random.choice` is not modelled; a choice is any element. Because of that, and because `fuel` bounds the rounds, the model does not promise an identifier whenever a non-empty category exists. An adversarial sequence of choices can keep drawing empty categories, and the run then ends as `OutOfFuel`; that can happen only when some category is empty. Python's infinite `while True` on an index of only empty categories appears as `OutOfFuel` for every fuel.
- The order of `list(PDB_IDS.keys())` (dictionary insertion order) plays no part, since each category choice is arbitrary.
