# Node-list downsampling, modelled in Dafny

The repository holds two scripts that thin out a list of map nodes.

- `restrictor.py` reads a text file and splits it into newline-separated pieces. It keeps every stride-th piece, starting with the first. The stride is `pieces // 100 + 1`. It writes the kept pieces joined by newlines.
- `to_csv.py` reads a node file and splits it into lines. It drops the header line and splits each remaining line into whitespace-separated fields. It keeps every stride-th record from index 100 on, with stride `records // 2000 + 1`. It writes the header `id,latitude,longitude`, then the kept records as CSV: fields joined by commas, records joined by newlines.

Between the file read and the file write, each script is a pure function from text to text. This project models those functions over `string` (`seq<char>`) and proves what they guarantee.

Files:

- `text.dfy` (module `Text`): Python's `str.split(sep)` as `SplitOn`, `sep.join(parts)` as `Join`, and `str.split()` with no argument as `SplitWs`, together with their round trips.
- `sampling.dfy` (module `Sampling`): the stride `n // target + 1` as `Stride`, and the extended slice `xs[start::step]` as `Slice`.
- `restrictor.dfy` (module `Restrictor`): the restrictor pipeline, `RestrictorOutput`.
- `to_csv.dfy` (module `ToCsv`): the CSV pipeline, `ToCsvOutput`.

Choices made in the model:

- Both separators the scripts use (`"\n"` and `","`) are single characters, so `SplitOn` and `Join` take a `char` separator.
- Whitespace for `str.split()` is six characters: space, tab, line feed, vertical tab, form feed and carriage return. Python also splits on `\x1c` to `\x1f`, `\x85`, `\xa0` and the other Unicode spaces; those are treated here as ordinary field characters.
- The two outputs of `to_csv.py` (header, then body) are modelled as their concatenation.
- Both scripts are pure functions of the text read, so running one twice on the same text gives the same output. In the model this holds by construction.

## Model

| member | source | states |
|---|---|---|
| Text.SplitOn | restrictor.py:2 | splitting on a separator yields exactly one more piece than the text has separators (so always at least one), and no piece contains the separator |
| Text.JoinSplitOn | restrictor.py:2-7 | joining the pieces of a split with the same separator gives back the original text |
| Text.SplitOnJoin | to_csv.py:9 | splitting a join of separator-free parts gives back exactly those parts |
| Text.CountJoin | restrictor.py:7 | a join of separator-free parts contains exactly one separator fewer than there are parts (none for no parts) |
| Text.JoinAvoids | to_csv.py:9 | a character that is not the separator and is in no part does not occur in the join |
| Text.SplitWs | to_csv.py:4 | whitespace splitting yields only non-empty fields, and no field contains whitespace |
| Text.ConcatSplitWs | to_csv.py:4 | the fields, concatenated in order, are the input with all whitespace removed, so no other character is lost or reordered |
| Text.SplitWsSep | to_csv.py:4 | every whitespace character separates fields: splitting a + [c] + b around a whitespace c gives the fields of a followed by those of b, so runs of whitespace, leading and trailing whitespace and tabs all act as one separator |
| Text.SplitWsJoin | to_csv.py:4 | whitespace splitting undoes joining non-empty, whitespace-free fields with single spaces |
| Sampling.Stride | restrictor.py:4 | the stride is at least 1, and it is the unique value with (stride - 1) * target <= n < stride * target, i.e. n // target + 1 |
| Sampling.CeilDivBounds | to_csv.py:5 | for a positive count, the ceiling quotient c is the least multiplier with c * step >= count |
| Sampling.Slice | restrictor.py:4 | `xs[start::step]` has length ceil((len - start) / step), or 0 when start >= len; position i holds `xs[start + i*step]`, an index below len |
| Sampling.SliceCovers | to_csv.py:5 | every index start + k*step below the length is selected, at position k |
| Sampling.SliceAtMost | to_csv.py:5 | if start + k*step reaches the length, the slice has at most k elements |
| Sampling.SliceWithinTarget | restrictor.py:4 | with the stride computed for a target, a slice from any start has at most target elements |
| Sampling.SliceUnitStride | restrictor.py:4 | with stride 1 and start 0 the slice is the whole sequence |
| Sampling.SliceExample | to_csv.py:5 | an example: ten elements, target 5, start 2 give stride 3 and the elements at 2, 5 and 8 |
| Restrictor.Sample | restrictor.py:2-4 | the sample has exactly ceil(pieces / stride) pieces, between 1 and 100, its first piece is the first input piece, and piece i is input piece i * stride |
| Restrictor.NoNewlineInSample | restrictor.py:2-4 | no kept piece contains a newline |
| Restrictor.RestrictorOutput | restrictor.py:7 | the written text contains exactly one newline fewer than the sample has pieces |
| Restrictor.OutputSplitsToSample | restrictor.py:4-7 | the written text, split on newlines, gives back exactly the sampled pieces in order |
| Restrictor.ShortInputUnchanged | restrictor.py:2-7 | with fewer than 100 pieces, the written text is the input text exactly |
| Restrictor.LongInputShrinks | restrictor.py:4-7 | with 100 pieces or more, the written text has fewer newlines than the input |
| Restrictor.OutputUnchangedIff | restrictor.py:2-7 | the written text equals the input exactly when the input has fewer than 100 pieces |
| ToCsv.Records | to_csv.py:2-4 | there is one record fewer than input lines; record i comes from line i + 1, so the header line never becomes data; every field is non-empty and whitespace-free |
| ToCsv.Sample | to_csv.py:4-5 | the stride is computed on the header-less records; the sample is empty with at most 100 records, otherwise it has ceil((N - 100) / stride) records; never more than 2000; sampled record i is record 100 + i * stride |
| ToCsv.SampleClean | to_csv.py:4-5 | every field of every sampled record is non-empty and whitespace-free |
| ToCsv.CsvText | to_csv.py:8-9 | the written text begins with `id,latitude,longitude\n` |
| ToCsv.ToCsvOutput | to_csv.py:2-9 | the output begins with the header, and is exactly the header when there are at most 100 records |
| ToCsv.HeaderNewlines | to_csv.py:8 | the header contains exactly one newline |
| ToCsv.CsvLinesNoNewline | to_csv.py:9 | a record of whitespace-free fields, joined by commas, contains no newline |
| ToCsv.CsvTextLines | to_csv.py:9 | for clean records, the text after the header is empty when there are no records; otherwise it splits on newlines into one line per record, line i being record i's fields joined by commas |
| ToCsv.CsvTextNewlines | to_csv.py:8-9 | for clean records, the text has one newline per record, or one newline (the header's) when there are none |
| ToCsv.OutputLines | to_csv.py:8-9 | the output body has one line per sampled record, each being that record's fields joined by commas, and is empty when nothing is sampled |
| ToCsv.OutputNewlines | to_csv.py:8-9 | the output has one newline per sampled record, or just the header's newline when nothing is sampled |
| ToCsv.CsvTextExample | to_csv.py:8-9 | an example: the single record (1, 59.0, 10.0) is written as `id,latitude,longitude\n1,59.0,10.0` |

## Left out

- File I/O: opening, reading and writing the files, and the fixed paths (`path.txt`, `100nodes.csv`, `maps/norden/noder.txt`, `nodes.csv`). The model is the text-to-text function between the read and the write. Python opens the files in text mode with universal newlines, so `\r\n` and a lone `\r` in the file are already `\n` in the text read; every property here, including those of `ShortInputUnchanged` and `OutputUnchangedIff`, is about that decoded text, not the file's bytes.
- Text.SplitWs: Python's full whitespace set for `str.split()` is not modelled. Only space, tab, line feed, vertical tab, form feed and carriage return count as whitespace here; `\x1c` to `\x1f`, `\x85`, `\xa0` and the other Unicode spaces, on which Python also splits, are kept inside fields.
- Text.SplitOn: only single-character separators are modelled, because both scripts split on `"\n"` only.
- Sampling.Stride: requires `target >= 1`. Both scripts pass the literal constants 100 and 2000. A zero target would raise ZeroDivisionError in Python. For a non-empty list, a negative target gives a step of 0 or less, so the slice either raises ValueError or runs backwards; for an empty list (to_csv.py with a one-line input) it gives step 1 and an empty slice. None of this is modelled, and the model adds no error result for it.
- The CSV output is not claimed to split back into the original fields on `,`. A whitespace-free field may itself contain a comma.
- Encoding: the text is taken as already decoded into characters. Byte-level decoding is not modelled.
