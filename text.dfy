/** String handling shared by both scripts: splitting on a separator
    (Python's str.split(sep)), joining with a separator (sep.join(parts))
    and whitespace field splitting (Python's str.split() without argument). */
module Text {

  /** Whitespace for field splitting: space, tab, line feed, vertical tab,
      form feed and carriage return. The other characters Python's str.split()
      treats as whitespace (0x1C to 0x1F, 0x85, 0xA0 and the Unicode spaces)
      are ordinary field characters here. */
  predicate IsWs(ch: char) {
    ch == ' ' || ch == '\t' || ch == '\n' || ch == '\U{000B}' || ch == '\U{000C}' || ch == '\r'
  }

  /** A field as str.split() yields it: non-empty and free of whitespace. */
  predicate IsField(f: string) {
    |f| > 0 && forall j :: 0 <= j < |f| ==> !IsWs(f[j])
  }

  /** Number of occurrences of `c` in `s`. */
  function Count(s: string, c: char): (n: nat) {
    if |s| == 0 then 0 else (if s[0] == c then 1 else 0) + Count(s[1..], c)
  }

  lemma {:induction false} CountZero(s: string, c: char)
    ensures Count(s, c) == 0 <==> c !in s
  {
    if |s| > 0 {
      CountZero(s[1..], c);
      assert s == [s[0]] + s[1..];
    }
  }

  lemma {:induction false} CountAppend(a: string, b: string, c: char)
    ensures Count(a + b, c) == Count(a, c) + Count(b, c)
    decreases |a|
  {
    if |a| == 0 {
      assert a + b == b;
    } else {
      assert (a + b)[1..] == a[1..] + b;
      CountAppend(a[1..], b, c);
    }
  }

  // ---------------------------------------------------------------------------
  // s.split(sep) and sep.join(parts)
  // ---------------------------------------------------------------------------

  /** The pieces of `s` between occurrences of `sep`: there is always one
      more piece than separators, and no piece contains the separator. */
  function SplitOn(s: string, sep: char): (pieces: seq<string>)
    ensures |pieces| == Count(s, sep) + 1
    ensures forall i :: 0 <= i < |pieces| ==> sep !in pieces[i]
    decreases |s|
  {
    if |s| == 0 then [""]
    else
      var rest := SplitOn(s[1..], sep);
      if s[0] == sep then [""] + rest
      else [[s[0]] + rest[0]] + rest[1..]
  }

  /** The parts concatenated with one `sep` between consecutive parts. */
  function Join(parts: seq<string>, sep: char): (s: string) {
    if |parts| == 0 then ""
    else if |parts| == 1 then parts[0]
    else parts[0] + [sep] + Join(parts[1..], sep)
  }

  lemma JoinPrepend(ch: char, parts: seq<string>, sep: char)
    requires |parts| >= 1
    ensures Join([[ch] + parts[0]] + parts[1..], sep) == [ch] + Join(parts, sep)
  {
    var q := [[ch] + parts[0]] + parts[1..];
    assert q[1..] == parts[1..];
  }

  /** Joining the pieces of a split gives back the original string. */
  lemma {:induction false} JoinSplitOn(s: string, sep: char)
    ensures Join(SplitOn(s, sep), sep) == s
    decreases |s|
  {
    if |s| > 0 {
      JoinSplitOn(s[1..], sep);
      var rest := SplitOn(s[1..], sep);
      if s[0] == sep {
        assert ([""] + rest)[1..] == rest;
        assert s == [sep] + s[1..];
      } else {
        JoinPrepend(s[0], rest, sep);
        assert s == [s[0]] + s[1..];
      }
    }
  }

  lemma {:induction false} SplitOnNoSep(p: string, sep: char)
    requires sep !in p
    ensures SplitOn(p, sep) == [p]
    decreases |p|
  {
    if |p| > 0 {
      SplitOnNoSep(p[1..], sep);
      assert [p[0]] + p[1..] == p;
    }
  }

  lemma {:induction false} SplitOnPrefix(p: string, t: string, sep: char)
    requires sep !in p
    ensures SplitOn(p + [sep] + t, sep) == [p] + SplitOn(t, sep)
    decreases |p|
  {
    var s := p + [sep] + t;
    if |p| == 0 {
      assert s[1..] == t;
    } else {
      assert s[1..] == p[1..] + [sep] + t;
      SplitOnPrefix(p[1..], t, sep);
      assert [p[0]] + p[1..] == p;
    }
  }

  /** Splitting a join of separator-free parts gives back the parts. */
  lemma {:induction false} SplitOnJoin(parts: seq<string>, sep: char)
    requires |parts| >= 1
    requires forall i :: 0 <= i < |parts| ==> sep !in parts[i]
    ensures SplitOn(Join(parts, sep), sep) == parts
  {
    if |parts| == 1 {
      SplitOnNoSep(parts[0], sep);
    } else {
      SplitOnPrefix(parts[0], Join(parts[1..], sep), sep);
      SplitOnJoin(parts[1..], sep);
      assert [parts[0]] + parts[1..] == parts;
    }
  }

  /** A join of separator-free parts has exactly one separator fewer than parts. */
  lemma CountJoin(parts: seq<string>, sep: char)
    requires forall i :: 0 <= i < |parts| ==> sep !in parts[i]
    ensures Count(Join(parts, sep), sep) == if |parts| == 0 then 0 else |parts| - 1
  {
    if |parts| >= 1 {
      SplitOnJoin(parts, sep);
    }
  }

  /** A character other than the separator occurs in a join only if it occurs in a part. */
  lemma {:induction false} JoinAvoids(parts: seq<string>, sep: char, c: char)
    requires c != sep
    requires forall i :: 0 <= i < |parts| ==> c !in parts[i]
    ensures c !in Join(parts, sep)
  {
    if |parts| > 1 {
      JoinAvoids(parts[1..], sep, c);
      assert c !in parts[0];
    }
  }

  // ---------------------------------------------------------------------------
  // s.split() with no argument
  // ---------------------------------------------------------------------------

  /** Length of the longest whitespace-free prefix of `s`. */
  function RunLength(s: string): (n: nat)
    ensures n <= |s|
    ensures forall i :: 0 <= i < n ==> !IsWs(s[i])
    ensures n < |s| ==> IsWs(s[n])
  {
    if |s| == 0 || IsWs(s[0]) then 0 else 1 + RunLength(s[1..])
  }

  /** The maximal runs of non-whitespace characters of `s`, in order:
      empty fields never appear and no field contains whitespace. */
  function SplitWs(s: string): (fields: seq<string>)
    ensures forall i :: 0 <= i < |fields| ==> IsField(fields[i])
    decreases |s|
  {
    if |s| == 0 then []
    else if IsWs(s[0]) then SplitWs(s[1..])
    else
      var n := RunLength(s);
      [s[..n]] + SplitWs(s[n..])
  }

  /** `s` with every whitespace character removed. */
  function Strip(s: string): (r: string) {
    if |s| == 0 then "" else (if IsWs(s[0]) then "" else [s[0]]) + Strip(s[1..])
  }

  /** The fields laid end to end. */
  function Concat(fields: seq<string>): (s: string) {
    if |fields| == 0 then "" else fields[0] + Concat(fields[1..])
  }

  lemma {:induction false} StripAppend(a: string, b: string)
    ensures Strip(a + b) == Strip(a) + Strip(b)
    decreases |a|
  {
    if |a| == 0 {
      assert a + b == b;
    } else {
      assert (a + b)[1..] == a[1..] + b;
      StripAppend(a[1..], b);
    }
  }

  lemma {:induction false} StripField(f: string)
    requires forall j :: 0 <= j < |f| ==> !IsWs(f[j])
    ensures Strip(f) == f
    decreases |f|
  {
    if |f| > 0 {
      StripField(f[1..]);
      assert f == [f[0]] + f[1..];
    }
  }

  /** Field splitting loses and reorders no non-whitespace character:
      the fields, concatenated, are the input with its whitespace removed. */
  lemma {:induction false} ConcatSplitWs(s: string)
    ensures Concat(SplitWs(s)) == Strip(s)
    decreases |s|
  {
    if |s| > 0 {
      if IsWs(s[0]) {
        ConcatSplitWs(s[1..]);
      } else {
        var n := RunLength(s);
        ConcatSplitWs(s[n..]);
        assert s == s[..n] + s[n..];
        StripAppend(s[..n], s[n..]);
        StripField(s[..n]);
        assert ([s[..n]] + SplitWs(s[n..]))[1..] == SplitWs(s[n..]);
      }
    }
  }

  lemma {:induction false} RunLengthField(f: string, t: string)
    requires forall j :: 0 <= j < |f| ==> !IsWs(f[j])
    requires |t| == 0 || IsWs(t[0])
    ensures RunLength(f + t) == |f|
    decreases |f|
  {
    if |f| > 0 {
      assert (f + t)[1..] == f[1..] + t;
      RunLengthField(f[1..], t);
    }
  }

  lemma SplitWsField(f: string, t: string)
    requires IsField(f)
    requires |t| == 0 || IsWs(t[0])
    ensures SplitWs(f + t) == [f] + SplitWs(t)
  {
    RunLengthField(f, t);
    var s := f + t;
    assert s[..|f|] == f;
    assert s[|f|..] == t;
  }

  lemma {:induction false} RunLengthPrefix(a: string, t: string)
    requires RunLength(a) < |a|
    ensures RunLength(a + t) == RunLength(a)
    decreases |a|
  {
    if !IsWs(a[0]) {
      assert (a + t)[1..] == a[1..] + t;
      RunLengthPrefix(a[1..], t);
    }
  }

  /** Every whitespace character separates fields: splitting around one
      gives the fields before it followed by the fields after it. With
      `SplitWs("") == []` and a single field splitting to itself, this
      determines the splitting completely. */
  lemma {:induction false} SplitWsSep(a: string, c: char, b: string)
    requires IsWs(c)
    ensures SplitWs(a + [c] + b) == SplitWs(a) + SplitWs(b)
    decreases |a|
  {
    var s := a + [c] + b;
    if |a| == 0 {
      assert s == [c] + b;
      assert s[1..] == b;
    } else if IsWs(a[0]) {
      assert s[1..] == a[1..] + [c] + b;
      SplitWsSep(a[1..], c, b);
    } else {
      var n := RunLength(a);
      assert s == a + ([c] + b);
      if n < |a| {
        RunLengthPrefix(a, [c] + b);
        assert s[..n] == a[..n];
        assert s[n..] == a[n..] + [c] + b;
        SplitWsSep(a[n..], c, b);
      } else {
        RunLengthField(a, [c] + b);
        assert s[..n] == a;
        assert s[n..] == [c] + b;
        assert ([c] + b)[1..] == b;
        assert SplitWs([c] + b) == SplitWs(b);
        assert a[..n] == a && a[n..] == "";
        assert SplitWs(a) == [a];
        assert s[0] == a[0];
      }
    }
  }

  /** Field splitting undoes joining fields with single spaces. */
  lemma {:induction false} SplitWsJoin(fields: seq<string>)
    requires forall i :: 0 <= i < |fields| ==> IsField(fields[i])
    ensures SplitWs(Join(fields, ' ')) == fields
  {
    if |fields| == 1 {
      SplitWsField(fields[0], "");
      assert fields[0] + "" == fields[0];
    } else if |fields| > 1 {
      var t := Join(fields[1..], ' ');
      SplitWsJoin(fields[1..]);
      SplitWsField(fields[0], [' '] + t);
      assert fields[0] + [' '] + t == fields[0] + ([' '] + t);
      assert ([' '] + t)[1..] == t;
      assert [fields[0]] + fields[1..] == fields;
    }
  }
}
