# FCC ULS download-and-clean scripts, modelled in Dafny

The two scripts `dscpts/aircraft_download.py` and `dscpts/towers_download.py`
fetch a zipped FCC Universal Licensing System dump and keep its `EN*.dat`
payload. They then turn each `|`-separated payload line into a JSON object and
write one object per line to `aircr_clean.json` or `tower_clean.json`,
gzip-compressed on request.

Both scripts share the same skeleton, which is modelled once:

- **Download fallback** (`Fetch`). The locators are tried in list order: FTP
  for `ftp://` locators, HTTPS otherwise. The loop stops at the first attempt
  that does not raise. A failed attempt removes any file at the zip path, and
  when every attempt fails the script exits with status 1. The FTP locator is
  split into host and path after *every* `ftp://` has been removed.
- **Archive scan** (`Archive`). Every entry whose lower-cased name starts with
  `en` and ends with `.dat` is extracted, and the others are skipped. The name
  processed is the *last* match. The zip is removed before the no-match exit.
- **Tokeniser** (`Pipeline.Tokenise`). The line is stripped, split on `|`, and
  every piece is stripped.
- **Output** (`Output`). The answer to the compression prompt selects the
  path, with `.gz` added or not. Both branches write the same lines.
- **Run skeleton** (`Pipeline.Prepare`). It chains the download, the scan, the
  removal of the zip and the two fatal exits.

On top of that skeleton each script has its own record logic:

- **Aircraft** (`Aircraft`):
  - tokens are padded to the 28 registry field names and mapped by name;
  - lines with an empty call sign are dropped;
  - the name falls back to first name plus last name;
  - the ZIP is cut to five characters;
  - an FRN of `"000"` is replaced by the next token;
  - records go into a dict keyed by call sign, modelled by
    `OrderedMaps.OrderedMap` (Python dict semantics: overwrite in place,
    first-insertion order). The dict's laws are proved once, for any sequence
    of assignments (`OrderedMaps.Assign`), and then instantiated for the
    payload lines.
- **Towers** (`Towers`): thirteen fields are read from fixed token offsets,
  and an offset past the end gives `""`. Every line appends one record, with
  no deduplication.

Transport, the zip library, the file system and the prompt are inputs to the
model rather than code in it:

- a `Fetch.Transfer` per locator says whether the transfer delivered or raised,
  and whether it had already created the zip file;
- `archive` is the archive's entry list, or `None` when `zipfile.ZipFile`
  raises on it;
- `payload` is the sequence of lines of the extracted file;
- `answer` is the text typed at the prompt.

A run ends as `Pipeline.Outcome`: an exit status, or the output path with the
objects written and the count printed.

Four points about the code are easy to misread:

- The scan keeps the **last** matching entry and extracts every match
  (`Archive.LastPayload`, `Archive.Matching`).
- The zip is removed only when `zipfile.ZipFile` succeeds. If opening the
  archive raises, the exception is not caught, and the zip stays on disk
  (`Pipeline.Prepare`, `zipLeft`).
- The tower parser does not skip blank lines. A blank line yields a record of
  empty strings (`Towers.BlankLineRecord`).
- The tower parser keeps `zip_code` whole; only the aircraft script cuts it to
  five characters (`Towers.BuildTowerByOffset`).

## Model

| member | source | states |
|---|---|---|
| Text.IsSpace | dscpts/aircraft_download.py:100 | the characters `strip()` removes: `\t \n \v \f \r`, `\x1c`-`\x1f`, space, `\x85` and `\xa0` |
| Text.TrimLeft | dscpts/aircraft_download.py:100 | `lstrip()`: the result is a suffix of the input; every dropped character is whitespace; the result does not start with whitespace |
| Text.TrimRight | dscpts/aircraft_download.py:100 | `rstrip()`: the result is a prefix of the input; every dropped character is whitespace; the result does not end with whitespace |
| Text.Strip | dscpts/aircraft_download.py:100 | `strip()` yields a string with no whitespace at either end, no longer than the input, made only of input characters |
| Text.TrimLeftSpaces | dscpts/aircraft_download.py:100 | a whitespace run in front of text that does not start with whitespace is exactly what `lstrip()` removes |
| Text.TrimRightSpaces | dscpts/aircraft_download.py:100 | a whitespace run behind text that does not end with whitespace is exactly what `rstrip()` removes |
| Text.StripSurrounded | dscpts/aircraft_download.py:100 | stripping whitespace + stripped middle + whitespace gives the middle, for every stripped middle including the empty one (whitespace alone strips to `""`) |
| Text.StripStripped | dscpts/aircraft_download.py:124-128 | stripping an already stripped token changes nothing, so the second `.strip()` on record fields is a no-op |
| Text.StartsWith | dscpts/aircraft_download.py:60 | `s.startswith(p)`: the first `len(p)` characters of `s` are `p` (also used for the `en` test at line 80) |
| Text.EndsWith | dscpts/aircraft_download.py:80 | `s.endswith(p)`: the last `len(p)` characters of `s` are `p` |
| Text.LowerChar | dscpts/aircraft_download.py:80 | A-Z map to a-z (code + 32), every other character is unchanged |
| Text.Lower | dscpts/aircraft_download.py:80 | `lower()` keeps the length and folds character by character |
| Text.Take | dscpts/aircraft_download.py:112 | `s[:n]` is a prefix of `s` of length `min(n, len(s))` |
| Text.Split | dscpts/aircraft_download.py:100 | `split(d)` gives (number of `d` in the text) + 1 pieces, none containing `d` |
| Text.JoinSplit | dscpts/aircraft_download.py:100 | joining the pieces of `split(d)` with `d` restores the text: splitting loses and reorders nothing |
| Text.SplitFree | dscpts/aircraft_download.py:100 | text without `d` splits into itself alone |
| Text.SplitCons | dscpts/aircraft_download.py:100 | a `d`-free head followed by `d` splits off as the first piece, and the rest splits on its own |
| Text.SplitJoin | dscpts/aircraft_download.py:100 | `d`-free pieces joined by `d` split back into exactly those pieces, the inverse of `JoinSplit` |
| Text.JoinSnoc | dscpts/aircraft_download.py:100 | joining one more piece appends `d` and that piece |
| Text.TrimLeftBefore | dscpts/aircraft_download.py:100 | `lstrip()` stops at the first non-whitespace character and keeps everything after it |
| Text.TrimRightAfter | dscpts/aircraft_download.py:100 | `rstrip()` stops at the last non-whitespace character and keeps everything before it |
| Text.StripTrimLeft | dscpts/aircraft_download.py:100 | `strip()` after `lstrip()` is `strip()` |
| Text.StripTrimRight | dscpts/aircraft_download.py:100 | `strip()` after `rstrip()` is `strip()` |
| Text.TrimLeftJoin | dscpts/aircraft_download.py:100 | `lstrip()` on two or more pieces joined by a non-whitespace separator trims the first piece only |
| Text.TrimRightJoin | dscpts/aircraft_download.py:100 | `rstrip()` on pieces joined by a non-whitespace separator trims the last piece only |
| Text.TrimLeftKeeps | dscpts/aircraft_download.py:100 | `lstrip()` adds no character and does not change what `strip()` makes of the text |
| Text.TrimRightKeeps | dscpts/aircraft_download.py:100 | `rstrip()` adds no character and does not change what `strip()` makes of the text |
| Text.SplitOnce | dscpts/aircraft_download.py:44 | `split(d, 1)` gives one piece exactly when `d` is absent (the whole text), else the text before the first `d` (free of `d`) and the rest, which rejoin to the text |
| Text.RemoveAll | dscpts/aircraft_download.py:44 | `replace(pat, "")` never lengthens the text |
| Text.RemoveAllAbsent | dscpts/aircraft_download.py:44 | `replace` leaves text with no occurrence of the pattern unchanged |
| Text.RemoveAllPrefix | dscpts/aircraft_download.py:44 | a leading pattern followed by pattern-free text is removed, leaving that text |
| Text.RemoveAllDrop | dscpts/aircraft_download.py:44 | a leading occurrence is deleted and the scan continues after it |
| Text.RemoveAllKeep | dscpts/aircraft_download.py:44 | text holding no first character of the pattern is kept verbatim, and the scan continues after it |
| Fetch.IsFtp | dscpts/aircraft_download.py:60 | `u.startswith("ftp://")`; by `AttemptFor`, exactly these locators are fetched over FTP |
| Fetch.Succeeds | dscpts/aircraft_download.py:58-65 | an attempt ends the loop exactly when it reaches the transport (not an FTP locator without `/`) and the transport delivers; `FirstSuccess` and `Download` stop at the first such locator |
| Fetch.FtpTarget | dscpts/aircraft_download.py:42-46 | no target exactly when no `/` is left once every `ftp://` is removed; otherwise the host has no `/` and host + `/` + path is that remaining text |
| Fetch.SplitOnceAtFirst | dscpts/aircraft_download.py:44 | `split("/", 1)` at the first `/` gives the text on either side of it |
| Fetch.FtpTargetOfLocator | dscpts/aircraft_download.py:42-46 | `ftp://host/path` with a `/`-free host and no further `ftp://` gives exactly (host, path) |
| Fetch.FtpTargetDropsInnerScheme | dscpts/towers_download.py:35-37 | a second `ftp://` inside the path is deleted as well: `ftp://h/d/ftp://f` requests path `d/f` from host `h` |
| Fetch.AttemptFor | dscpts/aircraft_download.py:58-65 | HTTPS exactly for locators not starting with `ftp://`; an FTP attempt uses the split host and path; a locator with no `/` after the scheme raises before any transport call |
| Fetch.FirstSuccess | dscpts/aircraft_download.py:58-72 | the chosen locator succeeds and every earlier one fails; none chosen means every locator fails |
| Fetch.AttemptsFor | dscpts/aircraft_download.py:58-65 | the attempts made for the first `n` locators, one per locator, in list order |
| Fetch.FirstSuccessAt | dscpts/aircraft_download.py:58-65 | a locator that succeeds after only failures is the one the loop stops at |
| Fetch.ZipTrace | dscpts/aircraft_download.py:58-69 | the zip-path state as each attempt starts: one entry per attempt, the pre-existing state for the first and no file for every later one |
| Fetch.ZipTraceSnoc | dscpts/aircraft_download.py:58-69 | one more attempt extends the trace by the zip-path state as that attempt starts |
| Fetch.TryLocator | dscpts/aircraft_download.py:59-69 | one pass of the loop body raises exactly when the locator does not succeed, and leaves a file at the zip path exactly when it did not raise: a partial file from a failed transfer is removed |
| Fetch.Download | dscpts/aircraft_download.py:58-72 | the loop stops at the first success, tries locators in order up to it and no further (all of them when all fail); no file is at the zip path when any locator after the first is tried (`ZipTrace`); afterwards a zip exists exactly when an attempt succeeded (or, with no locators, when one was there before) |
| Archive.IsPayloadName | dscpts/aircraft_download.py:80 | the lower-cased name starts with `en` and ends with `.dat`; `PayloadNameLength`, `Matching` and `LastPayload` state what follows from it |
| Archive.PayloadNameLength | dscpts/aircraft_download.py:87-89 | a matching name has at least six characters, so `not en_file` holds exactly when nothing matched |
| Archive.Matching | dscpts/aircraft_download.py:79-82 | the extracted entries are exactly the matching ones |
| Archive.NonMatching | dscpts/aircraft_download.py:79-84 | the skipped entries are exactly the non-matching ones, and together with the extracted ones they account for every entry |
| Archive.LastPayload | dscpts/aircraft_download.py:79-81 | `en_file` is `None` exactly when no entry matches; otherwise it is a matching entry |
| Archive.LastPayloadAt | dscpts/aircraft_download.py:79-81 | a matching entry followed only by non-matching ones is the `en_file` kept (last match wins) |
| Archive.ScanEntries | dscpts/aircraft_download.py:77-84 | the `namelist()` loop ends with `en_file`, the extracted list and the skipped list given by the three functions above |
| Output.CompressChosen | dscpts/aircraft_download.py:135-137 | `input(...).strip().lower() == "y"`; by `CompressAnswers`, exactly the answers that strip to `y` or `Y` |
| Output.CompressAnswers | dscpts/aircraft_download.py:135-137 | compression is chosen exactly when the stripped answer is `y` or `Y` |
| Output.OutputPath | dscpts/aircraft_download.py:137-138 | the path gains `.gz` exactly when compression is chosen |
| Output.WriteLines | dscpts/aircraft_download.py:140-142 | the writer loop emits every object once, in order |
| Output.Save | dscpts/aircraft_download.py:137-147 | both branches write the same objects; only the path differs |
| Pipeline.Tokenise | dscpts/aircraft_download.py:100 | the token count is (number of pipe characters in the stripped line) + 1, and every token is stripped and free of the pipe character; its contents are stated by `TokenisePieces` |
| Pipeline.StripJoinEnds | dscpts/aircraft_download.py:100 | stripping two or more pipe-joined pieces trims only the first piece's leading and the last piece's trailing whitespace |
| Pipeline.StripJoinPieces | dscpts/aircraft_download.py:100 | a stripped line of pipe-joined, pipe-free pieces is again a join of as many pipe-free pieces, each stripping to what the original piece strips to |
| Pipeline.TokeniseJoin | dscpts/aircraft_download.py:100 | tokenising pipe-free pieces joined by the pipe character gives one token per piece, token i being piece i stripped, whatever whitespace surrounds the pieces |
| Pipeline.TokenisePieces | dscpts/aircraft_download.py:100 | for any line, token i is the i-th piece between pipe characters, stripped, and there is one token per piece: nothing is lost, moved or invented |
| Pipeline.TokeniseRoundTrip | dscpts/aircraft_download.py:100 | stripped pipe-free fields joined by the pipe character tokenise back to exactly those fields |
| Pipeline.BlankLineTokens | dscpts/towers_download.py:92 | a whitespace-only line gives the single token `""` |
| Pipeline.PayloadFound | dscpts/aircraft_download.py:87-89 | a payload name found by the scan is never empty |
| Pipeline.Prepare | dscpts/aircraft_download.py:58-89 | all downloads failed: exit with no zip left and nothing extracted or skipped; archive unreadable: exit with the zip left and nothing extracted or skipped; otherwise the scan's results, the zip removed, and processing continues exactly when some entry matched |
| OrderedMaps.OrderedMap.Put | dscpts/aircraft_download.py:122 | `d[k] = v`: `k` holds `v`, other keys keep their values, an existing key keeps its position and a new key is appended |
| OrderedMaps.OrderedMap.Values | dscpts/aircraft_download.py:140 | `d.values()` lists the value of each key in key order |
| OrderedMaps.Empty | dscpts/aircraft_download.py:97 | `{}` has no keys |
| OrderedMaps.DistinctCardinality | dscpts/aircraft_download.py:149 | `len(d)` equals the number of distinct keys |
| OrderedMaps.Assign | dscpts/aircraft_download.py:97-130 | a run of `d[k] = v` statements from `{}` keeps the key order listing each key exactly once |
| OrderedMaps.AssignStep | dscpts/aircraft_download.py:122 | one more statement performs one more `d[k] = v` (or nothing for a skipped line) |
| OrderedMaps.AssignKeys | dscpts/aircraft_download.py:122 | the keys are exactly those some statement assigns |
| OrderedMaps.AssignCount | dscpts/aircraft_download.py:149 | `len(d)` is the number of distinct keys assigned |
| OrderedMaps.AssignLastWins | dscpts/aircraft_download.py:122 | a key holds the value of the last statement assigning it |
| OrderedMaps.AssignFirstSeenOrder | dscpts/aircraft_download.py:140 | of two keys, the earlier one is assigned before every assignment of the later one |
| OrderedMaps.AssignValuesFrom | dscpts/aircraft_download.py:122 | every stored value was assigned to its key by some statement |
| Aircraft.FieldNames | dscpts/aircraft_download.py:20-27 | the column constants name the right fields, and `FIELDS.index("frn")` is 21 |
| Aircraft.FieldsDistinct | dscpts/aircraft_download.py:20-27 | the 28 field names are pairwise distinct |
| Aircraft.Get | dscpts/aircraft_download.py:105 | `d.get(k, "")` is the stored value, or `""` when `k` is absent |
| Aircraft.ZipDict | dscpts/aircraft_download.py:103 | `dict(zip(FIELDS, parts))`; its behaviour is stated by `ZipDictKeys` (only given keys), `ZipDictAt` (with distinct keys, key i maps to value i) and `ZipDictPrefix` (values past the last key are ignored) |
| Aircraft.ZipDictKeys | dscpts/aircraft_download.py:103 | `dict(zip(keys, vals))` holds only the given keys |
| Aircraft.ZipDictAt | dscpts/aircraft_download.py:103 | with distinct keys, `dict(zip(keys, vals))` maps the i-th key to the i-th value |
| Aircraft.ZipDictPrefix | dscpts/aircraft_download.py:103 | `zip` stops at the shorter input: values past the last key do not matter |
| Aircraft.Padded | dscpts/aircraft_download.py:101-102 | padding gives `max(n, 28)` tokens, keeps the original tokens as a prefix and fills the tail with `""` |
| Aircraft.CorrectFrn | dscpts/aircraft_download.py:115-120 | the FRN is token 21, except that a `"000"` there is replaced by token 22 exactly when that token exists and, stripped, is neither empty nor `"000"` |
| Aircraft.BuildRecord | dscpts/aircraft_download.py:109-130 | the ZIP has at most five characters; name, street, city and state are stripped |
| Aircraft.LineParts | dscpts/aircraft_download.py:100-102 | a padded line has at least 28 tokens |
| Aircraft.LineKey | dscpts/aircraft_download.py:105 | `record.get("call_sign", "")`; by `CallSignOfLine` it is the fifth pipe-separated piece of the line, stripped, or `""` when the line has fewer pieces |
| Aircraft.CallSignOfLine | dscpts/aircraft_download.py:100-105 | the call sign read from the raw line is its fifth pipe-separated piece, stripped, or `""` when the line has fewer than five pieces |
| Aircraft.ParseLine | dscpts/aircraft_download.py:100-130 | a line yields no record exactly when its call sign is empty, and the record carries that call sign |
| Aircraft.FieldAt | dscpts/aircraft_download.py:103 | the field named in column i maps to token i |
| Aircraft.FieldLookups | dscpts/aircraft_download.py:103-112 | each field the record reads is the token of its column |
| Aircraft.RecordByColumn | dscpts/aircraft_download.py:109-130 | on stripped tokens, building the record by field name agrees with the column description `ByColumn` |
| Aircraft.LineFields | dscpts/aircraft_download.py:100-130 | the call sign is token 4; a line with one is recorded by column: name = token 7 or strip(token 8 + " " + token 10), street/city/state = tokens 15-17, ZIP = strip(token 18[:5]), FRN = token 22 exactly when token 21 is `"000"` and token 22 is neither empty nor `"000"`, else token 21 |
| Aircraft.ExtraTokensIgnored | dscpts/aircraft_download.py:103 | tokens after the 28th do not change the field dict |
| Aircraft.FrnColumns | dscpts/aircraft_download.py:115-120 | the FRN fix reads only tokens 21 and 22 |
| Aircraft.LineOp | dscpts/aircraft_download.py:105-122 | a line assigns nothing exactly when its call sign is empty, and otherwise assigns its parsed record under that call sign |
| Aircraft.Ingest | dscpts/aircraft_download.py:97-130 | the `calls` dict after the loop is a well-formed ordered dict; `ProcessLines` computes it, and its keys, count, values and order are stated by `IngestKeys`, `IngestCount`, `IngestValues`, `IngestLastWins` and `IngestFirstSeenOrder` |
| Aircraft.ProcessLines | dscpts/aircraft_download.py:97-130 | the line loop leaves `calls` equal to the assignments of all lines run in order |
| Aircraft.OpsAt | dscpts/aircraft_download.py:105-107 | line i assigns exactly when its call sign is non-empty, and assigns to that call sign |
| Aircraft.AssignedCallSigns | dscpts/aircraft_download.py:105-122 | the keys the lines assign are exactly the distinct non-empty call signs |
| Aircraft.IngestKeys | dscpts/aircraft_download.py:97-122 | after the loop the keys of `calls` are exactly the distinct non-empty call signs |
| Aircraft.IngestCount | dscpts/aircraft_download.py:149 | the printed count is the number of distinct non-empty call signs |
| Aircraft.IngestLastWins | dscpts/aircraft_download.py:122 | the record under a call sign is the whole record of the last line carrying it, with no field merged from earlier lines |
| Aircraft.NoEmptyCallSign | dscpts/aircraft_download.py:105-107 | `""` is never a key |
| Aircraft.IngestValues | dscpts/aircraft_download.py:122-123 | every stored record comes from a line of the file, and its `call_sign` is non-empty and equal to its key |
| Aircraft.IngestFirstSeenOrder | dscpts/aircraft_download.py:140 | records are in first-occurrence order: of two keys, the earlier one is carried by a line before every line carrying the later one |
| Aircraft.Pairs | dscpts/aircraft_download.py:122-130 | a written object has seven pairs, starting with `call_sign` and ending with `frn` |
| Aircraft.Objects | dscpts/aircraft_download.py:140 | one object per key, in key order |
| Aircraft.OutputUnique | dscpts/aircraft_download.py:140-142 | every written line has a non-empty call sign, and no two lines share one |
| Aircraft.Run | dscpts/aircraft_download.py:58-149 | the attempts are made in order; the run exits with status 1 exactly when every download fails, the archive is unreadable or no entry matches; the zip is left behind exactly when the archive is unreadable; the extracted and skipped entries are the scan's (none when no archive was read); otherwise the objects of the ingested lines go to the chosen path and the count is the number of distinct call signs |
| Towers.TokenAt | dscpts/towers_download.py:95 | `parts[k] if len(parts) > k else ""` |
| Towers.Values | dscpts/towers_download.py:94-108 | a record has exactly one value per key |
| Towers.BuildTower | dscpts/towers_download.py:94-108 | the record literal; by `BuildTowerByOffset`, key i is token `OFFSETS[i]` or `""` |
| Towers.BuildTowerByOffset | dscpts/towers_download.py:94-108 | key i is read whole from token `OFFSETS[i]` (0,1,2,3,4,5,10,14,17,20,21,22,23), or is `""` past the end; `zip_code` is token 22 untruncated |
| Towers.Pairs | dscpts/towers_download.py:94-108 | a written object lists the 13 keys in order, each with its value |
| Towers.ParseTower | dscpts/towers_download.py:92-108 | the record of one line; `FieldsOfLine` states each field from the line's text, `TowerFieldsClean` and `BlankLineRecord` its shape |
| Towers.TokenAtLine | dscpts/towers_download.py:92-95 | token k of a line is its k-th pipe-separated piece, stripped, or `""` past the last piece |
| Towers.FieldsOfLine | dscpts/towers_download.py:92-108 | key i holds the `OFFSETS[i]`-th pipe-separated piece of the raw line, stripped, or `""` when the line has no such piece |
| Towers.TowerFieldsClean | dscpts/towers_download.py:92-108 | every value is stripped and contains no pipe character |
| Towers.BlankLineRecord | dscpts/towers_download.py:91-110 | a blank line is not skipped: its record has all 13 values empty |
| Towers.MapSeq | dscpts/towers_download.py:88-110 | one output per input |
| Towers.MapSeqAt | dscpts/towers_download.py:88-110 | output i is the function applied to input i |
| Towers.MapSeqSnoc | dscpts/towers_download.py:110 | one more input appends one more output |
| Towers.Records | dscpts/towers_download.py:88-110 | one record per line |
| Towers.RecordsAt | dscpts/towers_download.py:88-110 | record i is the record of line i: no line is dropped, merged or reordered |
| Towers.ProcessLines | dscpts/towers_download.py:88-110 | the append loop builds exactly the records of the lines, in file order |
| Towers.Objects | dscpts/towers_download.py:120-122 | one object per record, in list order |
| Towers.Run | dscpts/towers_download.py:49-129 | the attempts are made in order; the run exits with status 1 exactly when every download fails, the archive is unreadable or no entry matches; the zip is left behind exactly when the archive is unreadable; the extracted and skipped entries are the scan's (none when no archive was read); otherwise one object per payload line goes to the chosen path and the count is the number of lines |

## Left out

- Transport (`requests`, `ftplib`), timeouts and exception messages are not modelled. Each attempt's outcome is an input (`Fetch.Transfer`).
- `zipfile` is not modelled: `archive` is the entry list, or `None` when `ZipFile` raises. `z.extract` is recorded only as the list of extracted names; a failure while extracting is not modelled.
- File contents are not modelled. The payload file is given as its sequence of lines, so latin-1 decoding and universal-newline splitting are outside the model. Writing the output file is modelled as the sequence of objects written.
- `json.dump` escaping and separators and `gzip` compression are not modelled. An object is its list of key/value pairs in dict order.
- `print` diagnostics and the `input()` call are not modelled. The prompt's answer is a parameter; the final count is part of the outcome.
- `script_dir` and path joining are not modelled: paths are the bare file names.
- `server.py` is not part of this model. It is a threaded HTTP file server with network I/O and no logic shared with the scripts.
- Text.IsSpace: models `str.isspace()` for latin-1 characters only (code points up to 255). That is what the payload decoding produces. The answer to the compression prompt is treated as latin-1 text too, so other Unicode whitespace around it (such as U+3000) is outside the model.
- Text.Lower: folds ASCII A-Z only. Other letters that Python's `lower()` folds (entry names may hold any character `zipfile` decodes) are left unchanged; no non-ASCII character lower-cases to one of `e`, `n`, `.`, `d`, `a`, `t` or `y`, so they cannot affect a match against `en`, `.dat` or `y`.
- Text.RemoveAll: its own contract only bounds the length. What it removes is stated by `RemoveAllAbsent`, `RemoveAllPrefix`, `RemoveAllDrop` and `RemoveAllKeep`.
- Aircraft.ParseLine: its own contract only fixes whether a record exists and its call sign. The remaining fields are stated by `LineFields`.
- Aircraft.Pairs: states only the first and last pair. The full object is the seven-field literal.
- Fetch.FtpTargetDropsInnerScheme: proved for host, directory and file names that contain no `f`. That rules out any other `ftp://` occurrence and is enough to exhibit the behaviour.
