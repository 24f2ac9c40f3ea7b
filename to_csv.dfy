/** to_csv.py: split the input text into newline-separated lines, drop the
    header line, split every remaining line into whitespace-separated fields,
    keep every stride-th record from index 100 on (stride = records // 2000 + 1)
    and write a fixed CSV header followed by the kept records, fields joined
    by commas and records by newlines. Reading and writing the files is not
    modelled; `text` is what was read and the result is what is written. */
module ToCsv {
  import opened Text
  import opened Sampling

  /** Index of the first record considered. */
  const Offset: nat := 100
  /** The approximate number of records to keep. */
  const Target: nat := 2000
  /** The first write: the column names and a newline. */
  const Header: string := "id,latitude,longitude\n"

  /** The records (`nodes` after line 4): one per input line except the
      first, which is the header and never becomes data; record i holds the
      fields of line i + 1, each non-empty and free of whitespace. */
  function Records(text: string): (records: seq<seq<string>>)
    ensures |records| == |SplitOn(text, '\n')| - 1
    ensures forall i :: 0 <= i < |records| ==> records[i] == SplitWs(SplitOn(text, '\n')[i + 1])
    ensures forall i :: 0 <= i < |records| ==> forall j :: 0 <= j < |records[i]| ==> IsField(records[i][j])
  {
    var lines := SplitOn(text, '\n');
    seq(|lines| - 1, i requires 0 <= i < |lines| - 1 => SplitWs(lines[i + 1]))
  }

  /** The kept records (`less_nodes`), with the stride computed on the
      header-less record list: none when there are at most `Offset` records,
      otherwise the ceiling of (records - Offset) / stride of them, never more
      than `Target`; record i of the sample is record Offset + i * stride. */
  function Sample(text: string): (sample: seq<seq<string>>)
    ensures var records := Records(text);
            var step := Stride(|records|, Target);
            && |sample| == (if Offset < |records| then CeilDiv(|records| - Offset, step) else 0)
            && |sample| <= Target
            && forall i :: 0 <= i < |sample| ==>
                 Offset + i * step < |records| && sample[i] == records[Offset + i * step]
  {
    var records := Records(text);
    SliceWithinTarget(records, Offset, Target);
    Slice(records, Offset, Stride(|records|, Target))
  }

  /** One CSV line per record: its fields joined by commas. */
  function CsvLines(sample: seq<seq<string>>): (lines: seq<string>) {
    seq(|sample|, i requires 0 <= i < |sample| => Join(sample[i], ','))
  }

  /** Everything written: the header, then the CSV lines joined by newlines. */
  function CsvText(sample: seq<seq<string>>): (out: string)
    ensures |Header| <= |out| && out[..|Header|] == Header
  {
    Header + Join(CsvLines(sample), '\n')
  }

  /** The text written for the input text. It always begins with the header,
      and is exactly the header when there are at most `Offset` records. */
  function ToCsvOutput(text: string): (out: string)
    ensures |Header| <= |out| && out[..|Header|] == Header
    ensures |Records(text)| <= Offset ==> out == Header
  {
    CsvText(Sample(text))
  }

  /** The header holds a single newline, at its end. */
  lemma HeaderNewlines()
    ensures Count(Header, '\n') == 1
  {
    var names := "id,latitude,longitude";
    assert Header == names + "\n";
    assert '\n' !in names;
    CountZero(names, '\n');
    CountAppend(names, "\n", '\n');
  }

  /** Every record, sampled or not, is made of proper fields. */
  predicate Clean(records: seq<seq<string>>) {
    forall i :: 0 <= i < |records| ==> forall j :: 0 <= j < |records[i]| ==> IsField(records[i][j])
  }

  /** Slicing clean records keeps them clean. */
  lemma SliceClean(records: seq<seq<string>>, step: nat)
    requires step >= 1
    requires Clean(records)
    ensures Clean(Slice(records, Offset, step))
  {
    var sample := Slice(records, Offset, step);
    forall i | 0 <= i < |sample| ensures forall j :: 0 <= j < |sample[i]| ==> IsField(sample[i][j]) {
      var k := Offset + i * step;
      assert k < |records| && sample[i] == records[k];
    }
  }

  /** The sampled records are made of proper fields. */
  lemma SampleClean(text: string)
    ensures Clean(Sample(text))
  {
    var records := Records(text);
    SliceClean(records, Stride(|records|, Target));
  }

  /** Records whose fields hold no whitespace give CSV lines without newlines. */
  lemma CsvLinesNoNewline(sample: seq<seq<string>>)
    requires Clean(sample)
    ensures forall i :: 0 <= i < |sample| ==> '\n' !in CsvLines(sample)[i]
  {
    forall i | 0 <= i < |sample| ensures '\n' !in CsvLines(sample)[i] {
      forall j | 0 <= j < |sample[i]| ensures '\n' !in sample[i][j] {
        assert IsField(sample[i][j]);
      }
      JoinAvoids(sample[i], ',', '\n');
    }
  }

  /** For clean records, the text after the header has one line per record,
      line i being the fields of record i joined by commas; with no records
      it is empty. */
  lemma CsvTextLines(sample: seq<seq<string>>)
    requires Clean(sample)
    ensures var body := CsvText(sample)[|Header|..];
            && (|sample| == 0 ==> body == "")
            && (|sample| >= 1 ==>
                  && |SplitOn(body, '\n')| == |sample|
                  && forall i :: 0 <= i < |sample| ==> SplitOn(body, '\n')[i] == Join(sample[i], ','))
  {
    var lines := CsvLines(sample);
    assert CsvText(sample)[|Header|..] == Join(lines, '\n');
    if |sample| >= 1 {
      CsvLinesNoNewline(sample);
      SplitOnJoin(lines, '\n');
    }
  }

  /** For clean records, the text holds one newline per record, or just the
      header's newline when there are none. */
  lemma CsvTextNewlines(sample: seq<seq<string>>)
    requires Clean(sample)
    ensures Count(CsvText(sample), '\n') == if |sample| == 0 then 1 else |sample|
  {
    var lines := CsvLines(sample);
    CsvLinesNoNewline(sample);
    CountJoin(lines, '\n');
    CountAppend(Header, Join(lines, '\n'), '\n');
    HeaderNewlines();
  }

  /** The body after the header has one line per sampled record, and line i
      is the fields of sampled record i joined by commas; with an empty
      sample the body is empty. */
  lemma OutputLines(text: string)
    ensures var sample := Sample(text);
            var body := ToCsvOutput(text)[|Header|..];
            && (|sample| == 0 ==> body == "")
            && (|sample| >= 1 ==>
                  && |SplitOn(body, '\n')| == |sample|
                  && forall i :: 0 <= i < |sample| ==> SplitOn(body, '\n')[i] == Join(sample[i], ','))
  {
    SampleClean(text);
    CsvTextLines(Sample(text));
  }

  /** The output holds one newline per sampled record (the header's newline
      and one between consecutive records), or just the header's newline when
      nothing is sampled. */
  lemma OutputNewlines(text: string)
    ensures Count(ToCsvOutput(text), '\n') == if |Sample(text)| == 0 then 1 else |Sample(text)|
  {
    SampleClean(text);
    CsvTextNewlines(Sample(text));
  }

  /** An example of the formatting: one record (1, 59.0, 10.0). */
  lemma CsvTextExample()
    ensures CsvText([["1", "59.0", "10.0"]]) == "id,latitude,longitude\n1,59.0,10.0"
  {
    var record := ["1", "59.0", "10.0"];
    assert record[1..] == ["59.0", "10.0"];
    assert record[1..][1..] == ["10.0"];
    assert Join(record, ',') == "1,59.0,10.0";
    assert CsvLines([record]) == ["1,59.0,10.0"];
  }
}
