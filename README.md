# del_metadata — a verified model of the Word metadata scrubber

`del_metadata.py` removes author names and timestamps from a `.docx` file.
A `.docx` file is a zip archive of XML parts. The script copies the archive and
writes it back with two parts scrubbed:

- the first part whose name ends in `document.xml`: every `w:author="…"`
  becomes `w:author="Unknown Author"` and every `w:date="…"` becomes
  `w:date=""`;
- the first part whose name ends in `comments.xml`, if there is one: authors
  are rewritten the same way; dates are erased too, unless the `-m` flag asks
  for them to be replaced by made-up timestamps.

Every other part is written after these two, in directory order, with the
bytes the archive holds under its name.

The project has three modules.

- `Wrappers` (`wrappers.dfy`): `Option` and `Result`.
- `Scrubber` (`scrubber.dfy`): the two byte-regex substitutions. They are one
  scanner `Scrub(rule, s)` over bytes, parameterised by the key (`w:author="`
  or `w:date="`) and the replacement value. At each position, the scanner
  checks for the key. If the key is there and its value is closed by a quote
  before any newline (the regex's `.` refuses only byte 0x0A, and `*?` stops
  at the first quote), the whole occurrence is replaced and the scan resumes
  after the closing quote. Otherwise, one byte is copied. The `Clean`
  predicate says that every closed occurrence of the key already holds the
  replacement value. The proofs show four things: scrubbing produces clean
  bytes; clean bytes are exactly the fixpoints; each rule is idempotent; and
  the date rule keeps author-clean bytes author-clean, so the two-rule
  document scrub is idempotent as well.
- `Transcoder` (`transcoder.dfy`): the archive as an in-memory sequence of
  `Part(name, data)`, with the routing done by the method `Transcode`.
  `Transcode` finds the two targets with a directory scan (`FindFirst`) and
  copies the rest with a loop (`CopyOthers`). It is proved equal to the
  function `Transcoded`, about which the routing properties are proved. The
  properties are these:
  - it fails for want of a document exactly when no member name ends in
    `document.xml`, and otherwise only when masking fails on the comments;
  - the two targets are distinct;
  - the output has the input's names, as a multiset, and the same length;
  - its layout is the document, then the comments, then every other member in
    order;
  - the other members are byte-identical;
  - the scrubbed parts are clean;
  - erasing is idempotent on whole archives.

`zin.read(name)` returns the bytes of the *last* directory entry with that
name, because the zip reader's name index keeps the last entry. The model
reads parts that way (`Read`), and the byte-identity results assume distinct
member names.

The model follows the code:

- the first `document.xml` part is scrubbed, and any other part ending in
  `document.xml` is copied unchanged;
- the output order is fixed: document, comments, then the rest in directory
  order.

With `-m`, the masking step on the comments part can break off. It stops when
it finds more `w:date=` markers than closed date values (line 73 indexes past
the captured values), and when a captured date is not a valid regular
expression. The model lets the caller-supplied masking function fail with
`None`, and transcoding then fails with `MaskFailed`.

## Model

| member | source | states |
|---|---|---|
| Scrubber.FirstStop | del_metadata.py:50 | the lazy `(.*?)"` scan stops at the first quote or newline: no stop byte before the returned index, and a stop byte at it unless the end was reached |
| Scrubber.MatchEnd | del_metadata.py:50-51 | a match at the front exists only when the bytes start with the key and a quote closes the value with no quote or newline in between; it ends at that quote, and when the key is present but no match exists, the value is never closed before a newline or the end |
| Scrubber.AuthorRuleWellFormed | del_metadata.py:50 | the author key and `Unknown Author` have the shape the scanner's theorems need: the key ends in its only quote, the replacement has no quote or newline, and no new key can start inside the key past its first byte or inside the replacement and its closing quote |
| Scrubber.DateRuleWellFormed | del_metadata.py:51 | the same shape facts for the date key and the empty replacement |
| Scrubber.Scrub | del_metadata.py:50-51 | the scanner for one substitution, as used on lines 50, 51, 62 and 75; ScrubMatch, CopyPrefix and ScrubAt give its output, ScrubInert its no-match case, and ScrubClean and ScrubFixpoint characterise it |
| Scrubber.ScrubDocument | del_metadata.py:50-51 | authors first, then dates; DocumentScrubbed and DocumentIdempotent state what it produces |
| Scrubber.ScrubMatch | del_metadata.py:50-51 | an occurrence `key v"` whose value has no quote and no newline becomes exactly the replacement `key repl"`, and scanning resumes right after its closing quote |
| Scrubber.CopyPrefix | del_metadata.py:50-51 | bytes at positions where the pattern does not match are copied unchanged and in order ahead of the rest of the scan |
| Scrubber.ScrubAt | del_metadata.py:50-51 | with the first match at `k`, the output is the untouched bytes before `k`, then the replacement, then the scrub of what follows the match |
| Scrubber.ScrubInert | del_metadata.py:50-51 | when the pattern matches at no position, the output equals the input |
| Scrubber.ScrubClean | del_metadata.py:50-51 | in a scrubbed part, every key closed by a quote before a newline is followed by exactly the replacement value and a quote |
| Scrubber.ScrubFixpoint | del_metadata.py:50-51 | scrubbing leaves a byte string unchanged if and only if it is clean |
| Scrubber.ScrubIdempotent | del_metadata.py:50-51 | scrubbing already scrubbed bytes gives the same bytes, for each rule |
| Scrubber.CleanPreserved | del_metadata.py:50-51 | when the second rule is compatible with the first, running it keeps bytes clean for the first rule; this is how the date rule keeps author-clean bytes author-clean |
| Scrubber.AuthorThenDateCompatible | del_metadata.py:50-51 | the author rule and the date rule are compatible in that sense |
| Scrubber.DocumentScrubbed | del_metadata.py:20-22 | after both rules, no closed author value other than `Unknown Author` and no closed non-empty date value is left |
| Scrubber.DocumentIdempotent | del_metadata.py:50-51 | scrubbing a scrubbed part with both rules again changes nothing |
| Transcoder.Read | del_metadata.py:49 | `zin.read(name)` keeps the last entry with the name; ReadLast and ReadOwn state which bytes it returns |
| Transcoder.ScrubComments | del_metadata.py:62-75 | authors always; then dates erased, or handed to the masking step, which may fail; TranscodeScrubs and HeadsSettled state what the erasing path produces |
| Transcoder.Transcoded | del_metadata.py:47-79 | the archive the script writes, or the error it stops with; TranscodeFails, TranscodeNames, TranscodeLayout, TranscodeUntouched, TranscodeScrubs and TranscodeIdempotent characterise it, and Transcode computes it step by step |
| Transcoder.FirstEndingWith | del_metadata.py:47-48 | `boolean_list.index(True)`: the returned index ends in the suffix and no earlier member does; none when no member does |
| Transcoder.ReadLast | del_metadata.py:49 | `zin.read(name)` gives the bytes of member `k` when no later member carries its name |
| Transcoder.ReadOwn | del_metadata.py:79 | with distinct names, reading a member by its name gives back its own bytes |
| Transcoder.FindFirst | del_metadata.py:55-60 | the directory scan returns exactly the first member ending in the suffix, or none |
| Transcoder.CopyOthers | del_metadata.py:79 | the copy loop writes exactly the non-target members, in directory order, re-read by name |
| Transcoder.PickLayout | del_metadata.py:79 | leaving out the targets puts the member from index `i` at `i` minus the number of targets before it, so the order is kept |
| Transcoder.PickCount | del_metadata.py:79 | the copied members plus the targets are, as a multiset, all the members |
| Transcoder.Transcode | del_metadata.py:47-79 | the script's steps produce exactly the failure or the archive that `Transcoded` describes |
| Transcoder.TargetsDistinct | del_metadata.py:55-60 | the document member and the comments member are never the same member |
| Transcoder.TranscodeFails | del_metadata.py:47-75 | transcoding stops with a missing document if and only if no member name ends in `document.xml`; it stops in the masking step if and only if there is a document and masking fails on the comments member; a missing `comments.xml` is no failure; in erase mode, it fails if and only if no member name ends in `document.xml` |
| Transcoder.TranscodeNames | del_metadata.py:77-79 | the output has as many members as the input, and its names are a permutation of the input's names |
| Transcoder.TranscodeLayout | del_metadata.py:52-79 | transcoding succeeds exactly when masking does not fail on the comments member; the output is then the scrubbed document, then the scrubbed comments if present, then every other member at its shifted slot in directory order, with the bytes read under its name |
| Transcoder.TranscodeUntouched | del_metadata.py:60-79 | with distinct names, success depends only on the comments member's own bytes, and every member other than the two targets is byte-identical in the output, including a second `document.xml`, and the targets are scrubbed from their own bytes |
| Transcoder.TranscodeScrubs | del_metadata.py:50-75 | the written document holds no filled-in author or date, and neither do the written comments unless their dates are masked |
| Transcoder.TranscodeIdempotent | del_metadata.py:47-79 | with distinct names and erased dates, transcoding the output again gives the same archive |

## Left out

- Zip and file I/O are not modelled, because they are operating-system effects (lines 38-44 and 81-88). This covers the file copies and renames, opening and closing the archives, building the output path, and removing the intermediate files. The archive is an in-memory sequence of parts instead.
- Command-line parsing is not modelled (lines 35-36). The `-m` choice arrives as the `Mode` parameter instead.
- Mask-mode timestamp generation is not modelled (lines 64-73), because it relies on the wall clock, floating-point uniform samples and date formatting. It also re-substitutes each captured value as a regex pattern over the whole part. The model takes a caller-supplied function `Mask(maskDates)` in its place. That function returns `None` where the script raises. Author scrubbing of comments still happens before it.
- The partly written output archive is not modelled when masking fails. The script has already written the document member at that point (line 52). The model reports only `Failure(MaskFailed)`.
- Transcoder.TranscodeScrubs: makes no claim about the dates in the comments part under mask mode, because the masking function is not modelled.
- No general regular-expression engine is modelled. Only the two fixed patterns are, as a hand-written scanner.
- Zip entry metadata other than the name is not modelled, because the model has no notion of it. This covers timestamps, compression and the other `ZipInfo` fields that `writestr` copies from the input entry.
- Transcoder.TranscodeUntouched and Transcoder.TranscodeIdempotent: stated only for archives with distinct member names. With duplicate names, `zin.read` returns the last entry's bytes for every entry of that name. `Transcoder.TranscodeLayout` states that behaviour for all archives.
