# GitLeaks detection adapter — Dafny model

This project models `GitLeaksWrapper`, the scanner's adapter around the
gitleaks secret-detection engine
(`src/vcs_scanner/secret_scanners/gitleaks_wrapper.py`). The adapter does
four things, and the model covers each of them:

- **Command builder** (`GitLeaks.BuildCommand`). It builds the engine's argument
  list from the wrapper's configuration. The list always starts with six base
  arguments: binary, `detect`, `--source=`, `--config=`, `--report-path=` and
  `--exit-code=`. `--no-git` follows for a directory scan. `--log-opts=<from>..`
  comes last for an incremental scan. Python's truthiness decides what counts
  as an incremental scan: a missing or empty `scan_from` means a full scan.
  The exit code is printed as Python's `str(int)` does it (`Decimal` module).
- **Exit-code dispatch** (`GitLeaks.StartScan`). It turns the engine's exit
  code into a list of findings:
  - the "no leaks" code gives `[]`, and it is tested first;
  - the "leaks found" code gives the parsed report;
  - any other code, or a process or file-not-found error, gives `[]`;
  - any other OS error, or a report that is not valid UTF-8 JSON, escapes.
  The two codes come from a constants module outside this model, so they are
  parameters (`ExitCodes`).
- **Report mapping** (`GitLeaks.ParseOutput`, `GitLeaks.ToFinding`). Each
  decoded report record becomes one finding, in report order, with every field
  carried over.
- **Permalink rewriter** (`GitLeaks.PermanentLeakUrl`). It drops the line
  anchor after the last `#`. Then four replace-all steps run in a fixed order:
  `/scm/`, `/blob/`, the repository segment, and the commit segment. Python's
  `str.rfind` and `str.replace` are modelled in the `Text` module. `str.replace`
  also gets an independent reference definition, `rep.join(s.split(pat))`.

The wrapper's fields are set once in `__init__` and never changed. It is
therefore a datatype (`GitLeaks.GitLeaksWrapper`), and `NewGitLeaksWrapper`
supplies the constructor's defaults. The two source routines that build a list
by appending, `_build_gitleaks_command` and `_parse_output`, are methods. The
rest is functions.

The docstring of `start_scan` says it returns `None` on failure. In the code,
every handled failure returns an empty list. The model follows the code. Of
the outcomes modelled, three escape `start_scan` because no `except` clause
catches them, and the model returns `Failure` for each:
- an OS error other than `FileNotFoundError` while starting the engine, such
  as a permission error;
- such an error while opening the report, such as the path being a directory;
- a report whose content is not valid UTF-8 JSON.

Files: `wrappers.dfy` (Option and Result), `text.dfy` (string operations),
`decimal.dfy` (integer text), `gitleaks_wrapper.dfy` (the adapter).

## Model

| member | source | states |
|---|---|---|
| `GitLeaks.NewGitLeaksWrapper` | src/vcs_scanner/secret_scanners/gitleaks_wrapper.py:19-33 | Every constructor argument is stored unchanged in its field. The defaults are no start commit, the `gitleaks` binary, and a scan of the git history. |
| `GitLeaks.BuildCommand` | src/vcs_scanner/secret_scanners/gitleaks_wrapper.py:35-52 | The command's length is 6, plus 1 without `git_scan`, plus 1 for a truthy `scan_from`. Its first six elements are the base arguments in order, with the exit code rendered in decimal. `--no-git` appears after the base arguments exactly when `git_scan` is false, and then at index 6. A truthy `scan_from` puts `--log-opts=<from>..` last. Otherwise every element after the base arguments is `--no-git`. |
| `GitLeaks.StartScan` | src/vcs_scanner/secret_scanners/gitleaks_wrapper.py:54-84 | The no-leaks code gives `Success([])`, even when it equals the leaks-found code. Every outcome except "leaks found" gives `Success([])`, except an OS error other than a missing file. That covers other codes, a process error and a missing binary. A leaks-found run whose report file is missing also gives `Success([])`. `Failure` happens exactly when starting the engine raises another OS error, or when leaks are reported and the report cannot be opened for another OS reason or cannot be decoded; each case has its own error. A decoded report gives one finding per record, in order, each carrying that record's fields. |
| `GitLeaks.ParseOutput` | src/vcs_scanner/secret_scanners/gitleaks_wrapper.py:124-153 | There are as many findings as records. Finding `i` carries all fields of record `i`, with `RecordOf` as the inverse, and its timestamp comes from that record's date. |
| `GitLeaks.ToFinding` | src/vcs_scanner/secret_scanners/gitleaks_wrapper.py:136-148 | The finding keeps every key the wrapper reads. `RecordOf` maps it back to the same record: File, StartLine, StartColumn, EndColumn, Email, Author, Commit, Message and RuleID. Its timestamp is the date converted by the supplied conversion. |
| `GitLeaks.StripLineAnchor` | src/vcs_scanner/secret_scanners/gitleaks_wrapper.py:98-101 | The result is a prefix of the URL. If some `#` stands at an index above 0, the URL is cut at the last `#`: the result is non-empty, a `#` follows it, and no `#` comes after that one. Otherwise the URL is returned unchanged, including when its only `#` is at index 0. |
| `GitLeaks.DropLast` | src/vcs_scanner/secret_scanners/gitleaks_wrapper.py:105 | `repository[:-4]`: a prefix that is 4 characters shorter, or empty when the name is shorter than 4. |
| `GitLeaks.PermanentLeakUrl` | src/vcs_scanner/secret_scanners/gitleaks_wrapper.py:86-108 | A URL with no `#` past index 0 that contains none of the four search patterns is its own permalink. |
| `GitLeaks.PermanentLeakUrlIgnoresLineNumber` | src/vcs_scanner/secret_scanners/gitleaks_wrapper.py:96-108 | For a non-empty `url` and a `#`-free `line`, `url#line` is cut back to exactly `url`. When `url` has no `#` past index 0, the line number does not change the permalink. |
| `GitLeaks.PermanentLeakUrlOfBitbucketLink` | src/vcs_scanner/secret_scanners/gitleaks_wrapper.py:86-108 | The docstring's promise: `<base>/scm/<project>/<repo>/blob/<commit>/<path>#<line>` becomes `<base>/projects/<project>/repos/<repo minus 4 characters>/commits/<commit>#<path>`. This holds when project, repository and commit are slash-free and collide with no keyword and no segment a later step matches. The base and the path, each with its joining slash, must contain none of the four search patterns. |
| `Text.RFind` | src/vcs_scanner/secret_scanners/gitleaks_wrapper.py:99 | `rfind`: the result is -1 exactly when the character is absent. Otherwise it is an index holding the character, and no later index holds it. |
| `Text.ReplaceAll` | src/vcs_scanner/secret_scanners/gitleaks_wrapper.py:103-106 | `str.replace`: a text in which the pattern does not occur is returned unchanged. |
| `Text.OccursAt` | src/vcs_scanner/secret_scanners/gitleaks_wrapper.py:103-106 | The recursive "pattern occurs" predicate holds exactly when some slice of the text equals the pattern. |
| `Text.ReplaceAllIsSplitJoin` | src/vcs_scanner/secret_scanners/gitleaks_wrapper.py:103-106 | `s.replace(p, r) == r.join(s.split(p))`. |
| `Text.JoinSplitIsIdentity` | src/vcs_scanner/secret_scanners/gitleaks_wrapper.py:103-106 | `p.join(s.split(p)) == s`: splitting at the search pattern loses nothing. |
| `Text.ReplaceAllBySelf` | src/vcs_scanner/secret_scanners/gitleaks_wrapper.py:103-106 | Replacing a pattern with itself leaves the text unchanged. |
| `Text.ReplaceAllChangesOccurrence` | src/vcs_scanner/secret_scanners/gitleaks_wrapper.py:103-106 | A text that contains the pattern changes whenever the replacement differs from the pattern. Together with `Text.ReplaceAll`'s contract: the text changes if and only if the pattern occurs and the replacement differs. |
| `Text.ReplaceAllLength` | src/vcs_scanner/secret_scanners/gitleaks_wrapper.py:103-106 | A longer replacement never shortens the text, and it lengthens the text when the pattern occurs. A shorter replacement does the reverse. |
| `Text.ReplaceAllConcat` | src/vcs_scanner/secret_scanners/gitleaks_wrapper.py:103-106 | Replacement distributes over a cut placed right after a character that does not appear in the pattern. Replacing is local. |
| `Text.ReplaceSegment` | src/vcs_scanner/secret_scanners/gitleaks_wrapper.py:103-106 | For a slash-free segment `x`, `a/x/b` becomes `a` + replacement + `b` when neither `a/` nor `/b` contains `/x/`. Only that one occurrence is replaced. |
| `Decimal.NatToDecimal` | src/vcs_scanner/secret_scanners/gitleaks_wrapper.py:43 | The decimal text of a natural number is non-empty and all digits. It starts with `0` exactly when the number is 0, and is then `"0"`. |
| `Decimal.NatToDecimalRoundTrip` | src/vcs_scanner/secret_scanners/gitleaks_wrapper.py:43 | Parsing the digits back gives the number. |
| `Decimal.IntToDecimal` | src/vcs_scanner/secret_scanners/gitleaks_wrapper.py:43 | `--exit-code=` shows the code as `str(int)` does. There is a minus sign exactly for negative codes, all other characters are digits, and there is no leading zero. |
| `Decimal.IntToDecimalRoundTrip` | src/vcs_scanner/secret_scanners/gitleaks_wrapper.py:43 | `int()` of the text gives the code back. |

## Left out

- Running the engine (`subprocess.run`) is left out: it is process I/O. `StartScan` receives the run's outcome (`RunOutcome`) instead of running `BuildCommand`'s list.
- Decoding stderr and logging are left out, because neither affects the returned value. A UnicodeDecodeError from decoding the stderr of an unexpected exit would escape `start_scan`. The model does not represent it and returns `Success([])` on that path.
- Opening the report and `json.load` are file I/O and a library decoder. The model receives their result as `ReportFile`: decoded records, a missing file, a file that cannot be opened for another OS reason, or content that is not valid UTF-8 JSON.
- A KeyError from a record that lacks one of the keys would escape `start_scan`. It is not modelled: records are typed, so every key is present.
- `_get_valid_timestamp` is left out because it reads the wall clock and uses library ISO 8601 parsing. The caller supplies it as `stamp: string -> Instant`.
- `stamp`: it is one fixed value per date text. The source calls `datetime.now` afresh for each record with an empty or malformed date, so two such records can get different timestamps there.
- The validation that `FindingBase`'s own class may perform on construction is left out. `vcs_scanner.api.schema.finding` is not part of this model.
- `Text.ReplaceAll`: Python's behaviour for an empty search pattern is not modelled. All four call sites use patterns of at least two characters.
- `CalledProcessError` cannot actually be raised while `check=False`. It is modelled anyway as a `RunOutcome` because the code handles it.
- `src/vcs_scanner/api/interface/vcs_instances.py` is left out: it is a single HTTP request with no logic.
- The scan-type decision, clone handling, findings classification and verdict logic are left out. Their implementations lie outside the adapter, in `SecretScanner` and `STDOUTWriter`, which are not part of this model.
- `SCAN_TMP_DIRECTORY` is not modelled: it is a class constant that none of the adapter's methods reads.
- `GitLeaks.DropLast`: only a positive count is modelled, because Python's `s[:-0]` is empty rather than all of `s`. The only call drops 4 characters.
