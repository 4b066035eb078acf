# verifyintegrity_redump, modelled in Dafny

`verifyintegrity_redump.py` checks disc images against a Redump datfile. It
parses the datfile (XML) and builds an index from each rom's SHA-1 digest to
its name. It walks the check directory and keeps the paths whose extension is
one of the configured ones (`bin,cue` by default). It reads each such file in
4096-byte chunks and feeds them to SHA-1. Each file then counts, per
extension, as checked (and also bad when its digest is not in the index) or
as skipped (when opening or reading it raised `OSError`).

This project models that pipeline as pure functions:

| module | file | what it models |
|---|---|---|
| `Wrappers` | wrappers.dfy | `Option` and `Result` |
| `Catalog` | catalog.dfy | the parsed XML tree, `build_sha1_to_name_dict`, its `KeyError` |
| `Extensions` | extensions.dfy | `str.split(',')` and the `"." + item` extension list |
| `Scanner` | scanner.dfy | `os.path.splitext` on POSIX paths and `files_to_verify` over a given walk |
| `Digest` | digest.dfy | `read(n)`, the `next_chunk` generator, `sha1.update` / `hexdigest` with an opaque hash |
| `Engine` | engine.dfy | the three `defaultdict(int)` counters, the per-file classification, the loop |
| `Pipeline` | pipeline.dfy | `main`: the two abort guards and the composition of the pieces |
| `Scenarios` | scenarios.dfy | concrete one-file runs and datfile quirks |

Outside effects become parameters:
- the parsed datfile is an `Option<Element>`, where `None` means opening or parsing failed;
- the recursive glob is the sequence of paths it yields;
- the file system is a function `fs` from a path to `ReadFailed` or `Read(bytes)`;
- SHA-1 followed by `hexdigest` is a function `H` from bytes to a string.

Behaviour of the code that is easy to misread, as modelled:
- Counter keys carry the leading dot, as `splitext` returns it: `{".bin": 1}`, not `{"bin": 1}`.
- Extensions are found with `splitext`. The extension is taken from the last
  `.` of the final path component. Leading dots of that component do not
  count, so `.bin` has no extension and `foo.` has the extension `.`.
- The glob also yields directories, including the check directory itself as
  `check/`. A directory whose name carries a listed extension is a candidate.
  Opening it fails, so it is counted as skipped.
- A root element with no children is falsy at line 90 and aborts like a missing datfile.
- A rom lacking `sha1` or `name` raises an uncaught `KeyError`. This is the
  `Crashed` result. Python evaluates the right-hand side of `roms[k] = v`
  first, so a rom lacking both attributes reports `'name'`.

## Model

| member | source | states |
|---|---|---|
| Catalog.RomsAmong | verifyintegrity_redump.py:61 | an element is in the rom list iff it is a child of the game tagged `rom`; never longer than the children |
| Catalog.RomsAmongAppend | verifyintegrity_redump.py:60-61 | the rom list of concatenated children is the concatenation of their rom lists (document order kept) |
| Catalog.RomsOf | verifyintegrity_redump.py:60-61 | the flattened list holds exactly the `rom`-tagged children of every root child, whatever that child's tag |
| Catalog.Insert | verifyintegrity_redump.py:62 | succeeds iff the rom has both attributes; the missing key reported is `name` first; on success adds the rom's digest with its name and keeps every other entry |
| Catalog.IndexRoms | verifyintegrity_redump.py:58-63 | the fold succeeds iff every rom is complete; a failure carries the `KeyError` of the first incomplete rom |
| Catalog.IndexKeys | verifyintegrity_redump.py:58-63 | the index keys are exactly the roms' digests, and there are at most as many as roms |
| Catalog.LastRomWins | verifyintegrity_redump.py:60-62 | a digest maps to the name of the last rom carrying it (overwrite on duplicates) |
| Catalog.RomsOfMembers | verifyintegrity_redump.py:60-61 | the game-by-game concatenation of rom lists holds exactly the `rom`-tagged children of the games |
| Catalog.GameByGameAppend | verifyintegrity_redump.py:60-61 | the game-by-game concatenation distributes over concatenated game lists |
| Catalog.RomsOfAppend | verifyintegrity_redump.py:60-61 | roms are listed game after game: the roms of concatenated game lists are the concatenated roms |
| Catalog.LastRomOfDatfileWins | verifyintegrity_redump.py:58-63 | in the index built from the datfile, a digest maps to the name of the last rom carrying it in document order |
| Catalog.BuildIndex | verifyintegrity_redump.py:58-63 | fails iff some rom of the datfile lacks an attribute; otherwise a digest is a key iff some rom of the datfile carries it, with at most one key per rom |
| Extensions.Split | verifyintegrity_redump.py:86 | `split(',')` gives at least one piece and no piece contains a comma |
| Extensions.JoinSplit | verifyintegrity_redump.py:86 | joining the pieces with commas gives back the option string |
| Extensions.SplitJoin | verifyintegrity_redump.py:86 | splitting a join of comma-free pieces gives back the pieces |
| Extensions.ExtensionList | verifyintegrity_redump.py:85-86 | every entry is `.` followed by a comma-free item, and the items joined by commas are the option |
| Extensions.ExtensionListDetermined | verifyintegrity_redump.py:85-86 | any list with those properties is the list built from the option |
| Extensions.DefaultExtensionList | verifyintegrity_redump.py:13 | the default `bin,cue` gives `[".bin", ".cue"]` |
| Scanner.RFind | verifyintegrity_redump.py:68 | `rfind`: -1 or an index holding the character, with no later occurrence |
| Scanner.SplitExt | verifyintegrity_redump.py:68 | root and extension concatenate to the path; the extension is non-empty iff the final component has a dot after a non-dot character; it then starts with the component's last dot and contains no other dot |
| Scanner.ExtOfName | verifyintegrity_redump.py:68 | `dir/stem.x` with a non-dot stem and a dot-free `x` has extension `.x` |
| Scanner.LeadingDotsOnly | verifyintegrity_redump.py:68 | a name made of leading dots followed by a dot-free word has no extension |
| Scanner.Candidates | verifyintegrity_redump.py:66-68 | every candidate is a walk path paired with its own extension, which is listed; every walk path with a listed extension is a candidate |
| Scanner.CandidatesAppend | verifyintegrity_redump.py:66-68 | filtering preserves order: the candidates of a concatenated walk are the concatenated candidates |
| Scanner.CandidatesCount | verifyintegrity_redump.py:66-68 | a listed extension has one candidate per walk path carrying it; an unlisted one has none |
| Digest.ReadLength | verifyintegrity_redump.py:73 | `read(n)` returns at most the remaining bytes and at most `n`, and fewer than `n` only at the end of the file; `read(-1)` returns everything |
| Digest.NextChunks | verifyintegrity_redump.py:71-76 | every chunk is non-empty and at most the chunk size; for a positive chunk size or -1 the chunks concatenate to the whole content; chunk size 0 yields nothing; terminates on the remaining length |
| Digest.ChunkCount | verifyintegrity_redump.py:71-76 | a content of `n` bytes takes ceil(n / chunk size) chunks |
| Digest.ChunksFull | verifyintegrity_redump.py:71-76 | every chunk but the last is exactly the chunk size |
| Digest.UpdateAll | verifyintegrity_redump.py:106-107 | feeding chunks one by one absorbs their concatenation |
| Digest.FileDigest | verifyintegrity_redump.py:103-108 | the chunked digest is the hash of the whole content for every positive chunk size and for -1; an empty file gets the hash of the empty string |
| Engine.Bump | verifyintegrity_redump.py:111 | `+= 1` on a defaultdict: the key gains one, is inserted if absent, other keys are unchanged |
| Engine.Classify | verifyintegrity_redump.py:104-113 | skipped iff the read failed; matched iff read and the hash of the content is an index key; mismatched iff read and it is not |
| Engine.Record | verifyintegrity_redump.py:109-117 | exactly one of skipped and checked grows by one; a skip changes neither checked nor bad; bad grows iff mismatched; other extensions unchanged; no untouched key appears |
| Engine.Run | verifyintegrity_redump.py:101-117 | each counter grows, per extension, by the number of candidates of that extension with the matching verdicts |
| Engine.TallyPartition | verifyintegrity_redump.py:101-117 | the three verdicts partition the candidates of each extension |
| Engine.Conservation | verifyintegrity_redump.py:101-120 | after the loop, checked plus skipped is the number of candidates per extension, bad is at most checked, and an extension no candidate has is absent from all three counters |
| Pipeline.RunConservation | verifyintegrity_redump.py:101-117 | the conservation and bad-at-most-checked facts for every extension at once |
| Pipeline.VerifyFiles | verifyintegrity_redump.py:101-117 | skipped counts the candidates whose read failed, bad those read whose hash is not an index key, checked all those read; for each listed extension, checked plus skipped is the number of walk paths carrying it; unlisted extensions count zero; bad at most checked; only touched keys present |
| Pipeline.Verify | verifyintegrity_redump.py:85-101 | aborts for lack of a datfile iff it is missing or has no children; crashes iff the index build fails, with the build's `KeyError`; aborts for lack of reference data iff the index is empty; a finished run used the non-empty index built from the datfile, its bad and skipped counts are those of the candidates judged against that index, and it satisfies the counting facts |
| Scenarios.WalkCandidates | verifyintegrity_redump.py:66-68 | the walk `check/`, `check/game.bin` under the default option gives the one candidate `(check/game.bin, .bin)` |
| Scenarios.EmptyFileMatches | verifyintegrity_redump.py:101-117 | an empty file whose hash the datfile lists gives checked `{".bin": 1}` and empty bad and skipped |
| Scenarios.UnlistedFileIsBad | verifyintegrity_redump.py:113-117 | a file whose hash is not listed gives checked and bad `{".bin": 1}` |
| Scenarios.UnreadableFileIsSkipped | verifyintegrity_redump.py:109-111 | an unreadable file gives skipped `{".bin": 1}` and empty checked and bad |
| Scenarios.NoRomsAborts | verifyintegrity_redump.py:95-98 | a datfile with a game but no rom aborts for lack of reference data |
| Scenarios.DuplicateDigestKeepsLastName | verifyintegrity_redump.py:60-62 | two roms with one digest give a one-entry index holding the second name |
| Scenarios.MissingDigestCrashes | verifyintegrity_redump.py:62 | a rom with a name but no digest stops the run with `KeyError('sha1')` |

## Left out

- Argument parsing and logger setup (lines 16-42): CLI plumbing and global state. The option string is a parameter.
- `ET.parse` and its error handling (lines 45-55): the parsed tree is an input, and `None` stands for any open or parse failure.
- `glob.iglob` (line 68): the paths it yields are an input sequence. Its ordering and its skipping of hidden files are file-system behaviour.
- `os.path.splitext` is modelled for POSIX only (`/` separator, no alternative separator). Byte paths are not modelled.
- SHA-1 and `hexdigest` formatting: the hash is the opaque parameter `H`.
- Opening and reading files: `fs` gives one fixed outcome per path. An `OSError` at open or mid-read is the single outcome `ReadFailed`. Reading the same path twice therefore gives the same outcome.
- `read(n)` is modelled as returning `min(n, remaining)` bytes for `n >= 0` and everything for `n == -1`, as a buffered binary file does. Short reads before the end of the file are not modelled.
- Digest.ReadLength: `read(n)` for `n < -1` raises `ValueError` in the source; the model reads everything instead, because the program only ever reads 4096 bytes at a time.
- Log messages, `json.dumps` escaping and the final summary line (lines 80, 88-120): output only.
- `sys.exit` codes (lines 92, 98): both aborts are the `Aborted` result.
