# tlauncher patcher: the line-stream patch and `shellquote`

`patch.py` unpacks a launcher jar, disassembles
`org/tlauncher/tlauncher/minecraft/auth/Account.class` with Krakatau,
patches the disassembly, then reassembles and re-signs the jar. Only two pieces
do real work of their own. This project models and proves both.

- **`shellquote(s)`** makes a string into one single-quoted POSIX shell word.
  Each `'` becomes `'\''`, and the whole is wrapped in `'…'`
  (module `ShellQuote`, file `shellquote.dfy`).
- **`patch()`** makes two passes over the disassembled text.
  - The first pass (module `ConstantScan`) reads lines until it meets the
    first constant-pool line `.const [N] = Utf8 isPremiumAccount \n`, and
    keeps `N`.
  - The second pass (module `MethodRewrite`) copies every line to the output
    file. At every header `.method public [I] : [D] \n` with `I == N` it does
    the following, then goes on copying:
    - writes the header;
    - writes the next line, the `.attribute … .code …` line;
    - reads the two instruction lines after that (`aload_0`, `getfield`)
      without writing them;
    - writes `L0:     iconst_1 \n`.

  The result is that `isPremiumAccount()` returns true.
  `successful` records whether any header was rewritten. Module
  `PatchDriver` (file `patch.dfy`) puts the passes together.

The input file is a sequence of lines (module `IrText`), and `readline()`
is a cursor into it that returns `""` at the end of the file. The written
file is kept as the sequence of non-empty strings passed to `outf.write`
(`MethodRewrite.Write`): the file's content is their concatenation
(`MethodRewrite.Flatten`). Writing
`""` leaves the file as it was, so it adds nothing. Every string written is
an input line or `L0:     iconst_1 \n`. So when every input line but the last
ends in `\n`, the written strings are the written file's lines, except
possibly after an `.attribute` line that ends the input without a newline.
`PatchDriver.Repatch` and `MethodRewrite.SingleHeaderAgain` feed that
sequence back in as a file's lines. They hold for files where it is one.

Each of the two regular expressions is an explicit predicate:

- a literal prefix;
- a non-empty, greedy run of ASCII digits;
- a literal suffix that ends in ` \n`;
- then the end of the line, or one more `\n`. Python's `$` without
  `MULTILINE` also matches just before a final newline.

`MatchConst` and `MatchMethod` are proved to return the only groups the
predicate allows.

The second pass is specified by how it cuts the input into segments:

- `Copied(line)` is a line it tested and copied.
- `Target(header, following)` is a header together with the up to three
  lines read after it without being tested.

`Segments` is that cutting. `PatchAll` is what gets written for it. The
model proves that the segments put back together give the input, that they
form a well-formed segmentation, and that no other well-formed segmentation
exists. The loop in `MethodRewrite.RewriteLines` is proved to write exactly
`PatchAll(Segments(…))`.

## Model

| member | source | states |
|---|---|---|
| ShellQuote.Escape | patch.py:20 | `replace("'", "'\\''")`: each quote adds three characters, and a string without quotes is returned unchanged |
| ShellQuote.Quote | patch.py:19-20 | the quoted word starts and ends with `'`, and between them lies the escaped string |
| ShellQuote.QuoteLength | patch.py:20 | the quoted word is `\|s\| + 2 + 3·(number of quotes in s)` long |
| ShellQuote.QuoteWithoutQuote | patch.py:19-20 | if `s` has no `'`, the result is exactly `'` + s + `'` |
| ShellQuote.QuoteRoundTrip | patch.py:20 | dropping the outer quotes and turning every `'\''` back into `'` gives `s` |
| ShellQuote.UnescapeEscape | patch.py:20 | undoing the substitution recovers the original string |
| ShellQuote.QuoteIsOneWord | patch.py:19-20 | a POSIX shell reads the quoted word back as the single literal word `s` |
| ShellQuote.QuoteExample | patch.py:20 | `it's` quotes to `'it'\''s'` |
| IrText.ReadLine | patch.py:66-68 | `readline()` gives the next line and advances, or gives `""` exactly at the end of the file and stays put |
| IrText.MatchDigits | patch.py:69 | a greedy `\d+` after a literal prefix: when the line splits as prefix, digits, non-digit rest, that split is the one returned |
| IrText.MatchConst | patch.py:69 | the match has `index` as its group exactly when the line is `.const [index] = Utf8 isPremiumAccount \n`, optionally followed by one `\n` |
| IrText.IsTargetHeader | patch.py:86-87 | `match and match.group(1) == method_index` holds exactly when the line is a header `.method public [index] : [D] \n` for some descriptor `D` |
| IrText.MatchMethod | patch.py:86 | the match gives `(I, D)` exactly when the line is `.method public [I] : [D] \n`, optionally followed by one `\n` |
| IrText.DiffersFrom | patch.py:69-86 | a line that differs from the literal prefix at some position does not match |
| IrText.ConstNotMethod | patch.py:69-86 | no line matches both the constant pattern and the method pattern |
| IrText.ConstNotHeader | patch.py:69-87 | the constant line never passes the header test, whatever the index |
| ConstantScan.ScannedIndex | patch.py:64-72 | `method_index` after the first pass: None exactly when no line matches the constant pattern, otherwise a digit string |
| ConstantScan.FirstConstLine | patch.py:65-72 | the position of the first matching line at or after a point, with every line before it not matching; none exactly when no line matches |
| ConstantScan.ScanConstant | patch.py:64-72 | the readline loop of the first pass keeps the group of the first matching line, or None |
| ConstantScan.ScanFindsFirst | patch.py:69-72 | if line k matches with `index` and no earlier line matches, the scan keeps `index`, whatever later duplicates say |
| ConstantScan.ScanFirstLine | patch.py:69-72 | a constant on the first line is the one kept |
| ConstantScan.ScanStopsAtMatch | patch.py:70-72 | lines after the first match are never looked at: appending anything leaves the result unchanged |
| MethodRewrite.Write | patch.py:89-96 | `outf.write(s)`: the written file's content grows by exactly `s`; a non-empty `s` is one more chunk, and writing `""` adds nothing |
| MethodRewrite.Segments | patch.py:80-96 | the cut of the input made by the second pass: no segments exactly for no lines, and the first segment is a target exactly when the first line passes the header test |
| MethodRewrite.Patched | patch.py:89-96 | a copied line is written as it is; a target writes 2 or 3 lines, starting with its header and ending with `iconst_1`, at most one more than it stands for |
| MethodRewrite.PatchAll | patch.py:80-96 | the output for all segments in order; it starts with the first input line |
| MethodRewrite.NoTargetCopies | patch.py:96 | with no target among the segments, the output is the segments' input exactly |
| MethodRewrite.PatchAllBound | patch.py:89-94 | each target adds at most one line: output length is at most input length plus the number of targets |
| MethodRewrite.Step | patch.py:82-96 | one turn of the loop: the first segment stands for the first line, or for a header and up to three lines, and the output goes on with the output for the lines after them |
| MethodRewrite.TargetsLength | patch.py:87-94 | when every rewritten header has three lines after it, output length is input length minus the number of rewritten methods |
| MethodRewrite.RewriteLines | patch.py:80-96 | without an index nothing is written and `successful` stays false; otherwise the loop writes exactly the segment output, and `successful` holds iff some segment was rewritten |
| MethodRewrite.SegmentsRoundTrip | patch.py:82-96 | every input line belongs to exactly one segment, in order: the segments put back together are the input |
| MethodRewrite.SegmentsWellFormed | patch.py:86-94 | copied lines fail the header test, targets pass it, and only the last target can have fewer than three lines after it |
| MethodRewrite.SegmentationUnique | patch.py:82-96 | any well-formed segmentation of the input is the one the pass makes |
| MethodRewrite.NoHeaderCopies | patch.py:96 | when no line passes the header test, the output is the input and nothing is rewritten |
| MethodRewrite.CopiedPrefix | patch.py:96 | lines before the first header are copied unchanged and in order |
| MethodRewrite.CopiedBefore | patch.py:96 | non-header lines in front of any input are copied in front of its output and add no rewrite |
| MethodRewrite.TargetFour | patch.py:87-94 | a header and three lines become the header, the `.attribute` line and `iconst_1`, and count as one rewrite |
| MethodRewrite.TargetWrites | patch.py:87-94 | at a header: header, next line if any, `iconst_1`, then the output for what follows the three consumed lines |
| MethodRewrite.CopyWrites | patch.py:96 | at a non-header line: the line, then the output for the rest |
| MethodRewrite.TargetIffHeader | patch.py:87-88 | some method is rewritten iff some input line passes the header test |
| MethodRewrite.PatchLength | patch.py:89-94 | when every target has three lines after its header, output length plus number of targets equals input length |
| MethodRewrite.RewriteLength | patch.py:87-94 | when every header has three lines after it, output length is input length minus the number of rewritten methods |
| MethodRewrite.SingleHeader | patch.py:86-96 | one header amid non-headers: its two instructions become `iconst_1` and every other line is kept in order |
| MethodRewrite.SingleHeaderCount | patch.py:87-88 | that input has exactly one rewritten method |
| MethodRewrite.SingleHeaderAgain | patch.py:86-96 | patching that output again rewrites the same header again: `iconst_1` is kept and the line after it is lost |
| MethodRewrite.ConsumedLinesNotTested | patch.py:90-94 | lines read after a header are never tested: a header repeated right after itself is copied as one of them, and the next header is rewritten |
| PatchDriver.PatchResult | patch.py:60-101 | what `patch()` leaves behind: success implies the constant was found, and a failed patch wrote either nothing or an exact copy of the input |
| PatchDriver.Patch | patch.py:60-101 | the two passes together produce exactly `PatchResult`: empty output and failure without the constant, otherwise the segment output and whether any method was rewritten |
| PatchDriver.ConstantMissing | patch.py:62-99 | with no constant line, nothing is written and the patch fails |
| PatchDriver.SuccessIffHeader | patch.py:87-101 | the patch succeeds iff the constant is found and some line is a header of the method it names |
| PatchDriver.MethodMissing | patch.py:80-96 | with the constant found but no matching header, the output is a copy of the input and the patch fails |
| PatchDriver.OutputLength | patch.py:87-96 | when each matching header has three lines after it, output length is input length minus the number of rewritten methods |
| PatchDriver.RewrittenLength | patch.py:87-101 | when every rewritten header had three lines after it, the written output is one line shorter per rewritten method; headers among consumed lines are not constrained |
| PatchDriver.OneMethod | patch.py:60-101 | the constant line, then one header of its method: the two instructions after the `.attribute` line become `iconst_1`, everything else is kept, and the patch succeeds |
| PatchDriver.Repatch | patch.py:60-101 | patching the patched output again succeeds again but loses the line after `iconst_1`, so patching twice is not patching once |
| PatchDriver.ExamplePatch | patch.py:60-101 | on a disassembled getter `return this.premium;`, `aload_0; getfield` becomes `iconst_1` |
| PatchDriver.ExampleConstLine | patch.py:69-87 | `.const [12] = Utf8 isPremiumAccount \n` matches with group `12` and is not a header of method 12 |
| PatchDriver.ExampleHeaderLine | patch.py:86-87 | `.method public [12] : [13] \n` is a header of method 12 |

## Left out

- Argument handling, the `print` calls, every `os.system` call (git clone,
  `unzip`, the Krakatau disassembler and assembler, `zip`, `keytool`,
  `jarsigner`), the filesystem operations and the META-INF signature
  deletion. These are I/O and external processes that the model does not
  describe.
- The two `open` calls in `patch()` are replaced by the input line sequence
  and the written output. Each file is read as it is on disk: the model
  assumes the first pass and the second pass see the same lines.
- ShellQuote.Quote: it takes a string. The `str(s)` conversion of a `Path`
  is not modelled.
- IrText.MatchConst: `\d` is ASCII `0`-`9` only. Python's `re` also accepts
  other Unicode decimal digits in a `str` pattern. The same holds for
  `IrText.MatchMethod`.
- Lines from `readline()` are non-empty strings. The model does not require
  `\n` to occur only at the end. A line either pattern accepts may end in
  `\n\n` (Python's `$` also matches before a final newline); `readline()`
  never returns such a line.
- No typed errors. The code reports failure only by printing a message. It
  distinguishes neither a missing constant from a missing method nor a short
  method body, and nothing is ever rejected. The model follows the code
  here, not a design with typed `ConstantNotFound` / `MethodNotFound` /
  `MalformedMethod` results:
  - with no constant, the output file is empty instead of a copy of the
    input (`PatchDriver.ConstantMissing`);
  - every matching header is rewritten, not only the first;
  - a header near the end of the file simply reads `""` for the
    missing lines;
  - re-patching a patched file silently rewrites it again instead of
    failing (`PatchDriver.Repatch`).
