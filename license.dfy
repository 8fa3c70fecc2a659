/** The license-header check of `TestLicense`: read the leading `#` comment
    block of a source file, drop every whitespace byte from it and accept the
    file when one of the two known license texts, likewise stripped of
    whitespace, occurs in what is left. */
module License {
  import opened Text

  /** The contents of a file read in binary mode; each char stands for one byte. */
  type Bytes = string

  /** `bytes.isspace()` on one byte: space, tab, line feed, carriage return,
      vertical tab and form feed. */
  const Whitespace: set<char> := {' ', '\t', '\n', '\r', '\U{0B}', '\U{0C}'}

  /** The `b"# "` of `lstrip`. */
  const HashOrSpace: set<char> := {'#', ' '}

  predicate IsSpace(c: char)
  {
    c in Whitespace
  }

  predicate NoSpace(s: Bytes)
  {
    forall i :: 0 <= i < |s| ==> !IsSpace(s[i])
  }

  /** Length of the leading run of bytes drawn from `cs`. */
  function LeadLen(s: Bytes, cs: set<char>): (n: nat)
    ensures n <= |s|
    ensures forall i :: 0 <= i < n ==> s[i] in cs
    ensures n < |s| ==> s[n] !in cs
    decreases |s|
  {
    if s != [] && s[0] in cs then 1 + LeadLen(s[1..], cs) else 0
  }

  /** Length of the trailing run of bytes drawn from `cs`. */
  function TrailLen(s: Bytes, cs: set<char>): (n: nat)
    ensures n <= |s|
    ensures forall i :: |s| - n <= i < |s| ==> s[i] in cs
    ensures n < |s| ==> s[|s| - n - 1] !in cs
    decreases |s|
  {
    if s != [] && s[|s| - 1] in cs then 1 + TrailLen(s[..|s| - 1], cs) else 0
  }

  /** `s.lstrip(cs)`. */
  function LStrip(s: Bytes, cs: set<char>): Bytes
  {
    s[LeadLen(s, cs)..]
  }

  /** `s.rstrip(cs)`. */
  function RStrip(s: Bytes, cs: set<char>): Bytes
  {
    s[..|s| - TrailLen(s, cs)]
  }

  /** `s.strip()`: neither end of the result is whitespace. */
  function Strip(s: Bytes): (r: Bytes)
    ensures r == [] || (!IsSpace(r[0]) && !IsSpace(r[|r| - 1]))
  {
    RStrip(LStrip(s, Whitespace), Whitespace)
  }

  /** `strip()` cuts only whitespace: the result is a slice of the input
      with nothing but whitespace before and after it. */
  lemma StripCutsOnlySpace(s: Bytes)
    ensures exists i: nat :: SpaceAround(s, Strip(s), i)
  {
    var t := LStrip(s, Whitespace);
    var r := RStrip(t, Whitespace);
    var i: nat := |s| - |t|;
    assert Strip(s) == r;
    assert t == s[i..] && r == t[..|r|];
    assert s[i..i + |r|] == r;
    assert OccursAt(s, r, i);
    assert forall j :: 0 <= j < i ==> IsSpace(s[j]);
    forall j | i + |r| <= j < |s| ensures IsSpace(s[j]) {
      assert s[j] == t[j - i];
    }
    assert SpaceAround(s, r, i);
  }

  /** `r` occurs in `s` at `i` with only whitespace before and after it. */
  predicate SpaceAround(s: Bytes, r: Bytes, i: nat)
  {
    && OccursAt(s, r, i)
    && (forall j :: 0 <= j < i ==> IsSpace(s[j]))
    && (forall j :: i + |r| <= j < |s| ==> IsSpace(s[j]))
  }

  // ---------------------------------------------------------------------
  // Iterating over a file opened in binary mode

  /** Length of the first line of `data`, its line feed included. */
  function LineLen(data: Bytes): (k: nat)
    requires data != []
    ensures 0 < k <= |data|
    ensures forall i :: 0 <= i < k - 1 ==> data[i] != '\n'
    ensures data[k - 1] == '\n' || k == |data|
    decreases |data|
  {
    if data[0] == '\n' || |data| == 1 then 1 else 1 + LineLen(data[1..])
  }

  /** `for line in h` on a binary file: every line keeps its line feed, only
      the last may lack one, and no line is empty. */
  function Lines(data: Bytes): (lines: seq<Bytes>)
    ensures forall j :: 0 <= j < |lines| ==> lines[j] != []
    ensures forall j, i :: 0 <= j < |lines| && 0 <= i < |lines[j]| - 1 ==> lines[j][i] != '\n'
    ensures forall j :: 0 <= j < |lines| - 1 ==> lines[j][|lines[j]| - 1] == '\n'
    decreases |data|
  {
    if data == [] then []
    else
      var k := LineLen(data);
      var rest := Lines(data[k..]);
      assert forall j :: 1 <= j < |rest| + 1 ==> ([data[..k]] + rest)[j] == rest[j - 1];
      [data[..k]] + rest
  }

  /** Splitting into lines loses no byte. */
  lemma {:induction false} LinesRoundTrip(data: Bytes)
    ensures Flatten(Lines(data)) == data
    decreases |data|
  {
    if data != [] {
      var k := LineLen(data);
      LinesRoundTrip(data[k..]);
      assert [data[..k]] + Lines(data[k..]) == Lines(data);
      assert ([data[..k]] + Lines(data[k..]))[1..] == Lines(data[k..]);
      assert data[..k] + data[k..] == data;
    }
  }

  // ---------------------------------------------------------------------
  // Header extraction

  /** A line belongs to the header when, stripped, it starts with `#`. */
  predicate IsCommentLine(line: Bytes)
  {
    StartsWith(Strip(line), "#")
  }

  /** What one comment line adds to the header: the stripped line without its
      leading run of `#` and space bytes, and a line feed. */
  function Body(line: Bytes): Bytes
  {
    LStrip(Strip(line), HashOrSpace) + "\n"
  }

  /** Number of leading comment lines. */
  function CommentBlockLen(lines: seq<Bytes>): (n: nat)
    ensures n <= |lines|
    ensures forall j :: 0 <= j < n ==> IsCommentLine(lines[j])
    ensures n < |lines| ==> !IsCommentLine(lines[n])
    decreases |lines|
  {
    if lines == [] || !IsCommentLine(lines[0]) then 0 else 1 + CommentBlockLen(lines[1..])
  }

  /** The bodies of `lines`, in order. */
  function Bodies(lines: seq<Bytes>): Bytes
    decreases |lines|
  {
    if lines == [] then [] else Bodies(lines[..|lines| - 1]) + Body(lines[|lines| - 1])
  }

  /** The header the check accumulates: the bodies of the leading comment lines. */
  function HeaderOf(lines: seq<Bytes>): Bytes
  {
    Bodies(lines[..CommentBlockLen(lines)])
  }

  /** Nothing at or after the first non-comment line reaches the header: two
      files that agree up to and including that line have the same header. */
  lemma {:induction false} HeaderIgnoresRest(lines: seq<Bytes>, other: seq<Bytes>, k: nat)
    requires k < |lines| && !IsCommentLine(lines[k])
    requires k < |other| && other[..k + 1] == lines[..k + 1]
    ensures HeaderOf(other) == HeaderOf(lines)
  {
    var n := CommentBlockLen(lines);
    assert n <= k;
    assert forall j :: 0 <= j <= k ==> other[j] == lines[j] by {
      forall j | 0 <= j <= k ensures other[j] == lines[j] {
        assert other[..k + 1][j] == lines[..k + 1][j];
      }
    }
    var m := CommentBlockLen(other);
    assert m == n;
    assert other[..m] == lines[..n];
  }

  /** A file that does not open with a comment line has an empty header. */
  lemma NoLeadingCommentEmptyHeader(lines: seq<Bytes>)
    requires lines == [] || !IsCommentLine(lines[0])
    ensures HeaderOf(lines) == []
  {
  }

  // ---------------------------------------------------------------------
  // Whitespace normalisation

  /** Reference definition: the bytes of `s` that are not whitespace, in order. */
  function RemoveWs(s: Bytes): (r: Bytes)
    ensures NoSpace(r)
    ensures |r| <= |s|
    decreases |s|
  {
    if s == [] then []
    else if IsSpace(s[0]) then RemoveWs(s[1..])
    else [s[0]] + RemoveWs(s[1..])
  }

  lemma {:induction false} RemoveWsAppend(a: Bytes, b: Bytes)
    ensures RemoveWs(a + b) == RemoveWs(a) + RemoveWs(b)
    decreases |a|
  {
    if a == [] {
      assert a + b == b;
    } else {
      assert (a + b)[0] == a[0];
      assert (a + b)[1..] == a[1..] + b;
      RemoveWsAppend(a[1..], b);
    }
  }

  /** A string already free of whitespace is left as it is. */
  lemma {:induction false} RemoveWsFixed(s: Bytes)
    requires NoSpace(s)
    ensures RemoveWs(s) == s
    decreases |s|
  {
    if s != [] {
      RemoveWsFixed(s[1..]);
    }
  }

  lemma {:induction false} RemoveWsAllSpace(s: Bytes)
    requires forall i :: 0 <= i < |s| ==> IsSpace(s[i])
    ensures RemoveWs(s) == []
    decreases |s|
  {
    if s != [] {
      RemoveWsAllSpace(s[1..]);
    }
  }

  /** A byte that is not whitespace survives, so the result is not empty. */
  lemma {:induction false} RemoveWsNonEmpty(s: Bytes, k: nat)
    requires k < |s| && !IsSpace(s[k])
    ensures RemoveWs(s) != []
    decreases |s|
  {
    if k > 0 && IsSpace(s[0]) {
      RemoveWsNonEmpty(s[1..], k - 1);
    }
  }

  /** Length of the leading run of non-whitespace bytes. */
  function WordLen(s: Bytes): (n: nat)
    ensures n <= |s|
    ensures forall i :: 0 <= i < n ==> !IsSpace(s[i])
    ensures n < |s| ==> IsSpace(s[n])
    decreases |s|
  {
    if s == [] || IsSpace(s[0]) then 0 else 1 + WordLen(s[1..])
  }

  /** `s.split()`: the maximal runs of non-whitespace bytes, in order. */
  function SplitWs(s: Bytes): (words: seq<Bytes>)
    ensures forall k :: 0 <= k < |words| ==> words[k] != [] && NoSpace(words[k])
    decreases |s|
  {
    var t := LStrip(s, Whitespace);
    if t == [] then []
    else
      assert !IsSpace(t[0]);
      var n := WordLen(t);
      assert n > 0 && NoSpace(t[..n]);
      [t[..n]] + SplitWs(t[n..])
  }

  /** `b"".join(s.split())` deletes exactly the whitespace bytes. */
  lemma {:induction false} JoinSplit(s: Bytes)
    ensures Flatten(SplitWs(s)) == RemoveWs(s)
    decreases |s|
  {
    var t := LStrip(s, Whitespace);
    var lead := s[..|s| - |t|];
    assert s == lead + t;
    RemoveWsAllSpace(lead);
    RemoveWsAppend(lead, t);
    assert RemoveWs(s) == RemoveWs(t);
    if t != [] {
      var n := WordLen(t);
      var word, tail := t[..n], t[n..];
      assert t == word + tail;
      RemoveWsAppend(word, tail);
      RemoveWsFixed(word);
      JoinSplit(tail);
      var words := [word] + SplitWs(tail);
      assert SplitWs(s) == words;
      assert words[0] == word && words[1..] == SplitWs(tail);
      assert Flatten(words) == word + Flatten(SplitWs(tail));
    }
  }

  /** The normalisation the check applies to both the header and the
      templates: the input with all whitespace bytes deleted. */
  function Normalize(s: Bytes): (r: Bytes)
    ensures r == RemoveWs(s)
    ensures NoSpace(r)
  {
    JoinSplit(s);
    Flatten(SplitWs(s))
  }

  /** Normalising twice changes nothing. */
  lemma NormalizeIdempotent(s: Bytes)
    ensures Normalize(Normalize(s)) == Normalize(s)
  {
    RemoveWsFixed(Normalize(s));
  }

  // ---------------------------------------------------------------------
  // The accepted license texts

  const GplRaw: string :=
    "\n"
    + "This program is free software; you can redistribute it and/or modify\n"
    + "it under the terms of the GNU General Public License as published by\n"
    + "the Free Software Foundation; either version 2 of the License, or\n"
    + "(at your option) any later version.\n"

  const MitRaw: string :=
    "\n"
    + "Permission is hereby granted, free of charge, to any person obtaining\n"
    + "a copy of this software and associated documentation files (the\n"
    + "\"Software\"), to deal in the Software without restriction, including\n"
    + "without limitation the rights to use, copy, modify, merge, publish,\n"
    + "distribute, sublicense, and/or sell copies of the Software, and to\n"
    + "permit persons to whom the Software is furnished to do so, subject to\n"
    + "the following conditions:\n"
    + "\n"
    + "The above copyright notice and this permission notice shall be included\n"
    + "in all copies or substantial portions of the Software.\n"
    + "\n"
    + "THE SOFTWARE IS PROVIDED \"AS IS\", WITHOUT WARRANTY OF ANY KIND,\n"
    + "EXPRESS OR IMPLIED, INCLUDING BUT NOT LIMITED TO THE WARRANTIES OF\n"
    + "MERCHANTABILITY, FITNESS FOR A PARTICULAR PURPOSE AND NONINFRINGEMENT.\n"
    + "IN NO EVENT SHALL THE AUTHORS OR COPYRIGHT HOLDERS BE LIABLE FOR ANY\n"
    + "CLAIM, DAMAGES OR OTHER LIABILITY, WHETHER IN AN ACTION OF CONTRACT,\n"
    + "TORT OR OTHERWISE, ARISING FROM, OUT OF OR IN CONNECTION WITH THE\n"
    + "SOFTWARE OR THE USE OR OTHER DEALINGS IN THE SOFTWARE.\n"

  /** `ALLOWED_RAW`, in the order the check lists them. */
  const AllowedRaw: seq<string> := [GplRaw, MitRaw]

  /** The comprehension that builds `ALLOWED`: each text normalised. */
  function NormalizeAll(raw: seq<string>): (templates: seq<string>)
    ensures |templates| == |raw|
    ensures forall k :: 0 <= k < |raw| ==> templates[k] == RemoveWs(raw[k])
  {
    seq(|raw|, k requires 0 <= k < |raw| => Normalize(raw[k]))
  }

  /** Both normalised texts are non-empty and hold no whitespace. */
  lemma AllowedWellFormed()
    ensures |NormalizeAll(AllowedRaw)| == 2
    ensures forall t :: t in NormalizeAll(AllowedRaw) ==> t != [] && NoSpace(t)
  {
    assert GplRaw[|GplRaw| - 2] == '.';
    RemoveWsNonEmpty(GplRaw, |GplRaw| - 2);
    assert MitRaw[|MitRaw| - 2] == '.';
    RemoveWsNonEmpty(MitRaw, |MitRaw| - 2);
  }

  // ---------------------------------------------------------------------
  // The check

  /** The loop of `test_license_is_compliant`: append the body of each line
      until the first line that, stripped, does not start with `#`. */
  method ExtractHeader(lines: seq<Bytes>) returns (header: Bytes)
    ensures header == HeaderOf(lines)
  {
    header := [];
    var i := 0;
    while i < |lines|
      invariant i <= CommentBlockLen(lines)
      invariant header == Bodies(lines[..i])
    {
      var line := Strip(lines[i]);
      if !StartsWith(line, "#") {
        break;
      }
      BodiesSnoc(lines, i);
      header := header + (LStrip(line, HashOrSpace) + "\n");
      i := i + 1;
    }
  }

  lemma BodiesSnoc(lines: seq<Bytes>, i: nat)
    requires i < |lines|
    ensures Bodies(lines[..i + 1]) == Bodies(lines[..i]) + Body(lines[i])
  {
    assert lines[..i + 1][..i] == lines[..i];
  }

  /** `test_license_is_compliant` on the contents of one file, against the
      texts `raw`: it passes iff some text of `raw`, stripped of whitespace,
      occurs contiguously in the whitespace-free header.  The texts are taken
      to be ASCII: only the six ASCII whitespace characters are removed. */
  method CheckLicense(data: Bytes, raw: seq<string>) returns (ok: bool)
    ensures ok <==> exists t, i: nat :: t in NormalizeAll(raw) && OccursAt(RemoveWs(HeaderOf(Lines(data))), t, i)
  {
    var header := ExtractHeader(Lines(data));
    var norm := Normalize(header);
    var allowed := NormalizeAll(raw);
    ok := exists t :: t in allowed && Contains(norm, t);
    assert norm == RemoveWs(HeaderOf(Lines(data)));
    if ok {
      var t :| t in allowed && Contains(norm, t);
      var i: nat :| OccursAt(norm, t, i);
      assert t in NormalizeAll(raw) && OccursAt(RemoveWs(HeaderOf(Lines(data))), t, i);
    } else {
      forall t, i: nat | t in allowed ensures !OccursAt(norm, t, i) {
        assert !Contains(norm, t);
      }
    }
  }

  /** The check as the suite runs it, with the two accepted texts. */
  method TestLicenseIsCompliant(data: Bytes) returns (ok: bool)
    ensures ok <==> exists t, i: nat :: t in NormalizeAll(AllowedRaw) && OccursAt(RemoveWs(HeaderOf(Lines(data))), t, i)
  {
    ok := CheckLicense(data, AllowedRaw);
  }

  /** A file whose first line is not a comment (an empty file included)
      fails: its header is empty and both accepted texts are not. */
  lemma NoLeadingCommentFails(data: Bytes)
    requires Lines(data) == [] || !IsCommentLine(Lines(data)[0])
    ensures forall t, i: nat :: t in NormalizeAll(AllowedRaw) ==> !OccursAt(RemoveWs(HeaderOf(Lines(data))), t, i)
  {
    NoLeadingCommentEmptyHeader(Lines(data));
    AllowedWellFormed();
  }
}
