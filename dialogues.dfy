/**
 * The dialogue script file of `src/dialogue.rs`: the section scanner, the
 * case-insensitive section lookup, the per-file cache and the line-by-line
 * reveal state machine `Talker`.
 */
module Dialogues {
  import opened Wrappers
  import opened Unicase

  /** A named section of a script file: its header name, the file it came from and its body lines. */
  datatype Dialogue = Dialogue(name: string, filename: string, lines: seq<string>)

  /** A parsed script file: its sections in file order. */
  datatype DialogueFile = DialogueFile(sections: seq<Dialogue>)

  // ---------------------------------------------------------------------------
  // Section scanner

  /** A line opens a section when it starts with `[`. */
  predicate IsHeader(line: string)
  {
    |line| > 0 && line[0] == '['
  }

  /**
   * The scanner cuts the first and the last character off a header line; a
   * header line of one character makes that slice panic.
   */
  predicate WellFormed(lines: seq<string>)
  {
    forall i :: 0 <= i < |lines| && IsHeader(lines[i]) ==> |lines[i]| >= 2
  }

  /** The section name a header line opens: the line minus its first and last character. */
  function HeaderName(line: string): (name: string)
    requires |line| >= 2
    ensures |name| == |line| - 2
    ensures forall k :: 0 <= k < |name| ==> name[k] == line[k + 1]
  {
    line[1..|line| - 1]
  }

  /** Indices below `stop`, each smaller than the next. */
  ghost predicate Ascending(hs: seq<nat>, stop: nat)
  {
    (forall k :: 0 <= k < |hs| ==> hs[k] < stop) &&
    (forall k :: 0 < k < |hs| ==> hs[k - 1] < hs[k])
  }

  /** Ascending indices are strictly increasing: an earlier one is smaller than any later one. */
  lemma {:induction false} AscendingOrdered(hs: seq<nat>, stop: nat, j: nat, k: nat)
    requires Ascending(hs, stop) && j < k < |hs|
    ensures hs[j] < hs[k]
    decreases k - j
  {
    if j + 1 < k {
      AscendingOrdered(hs, stop, j, k - 1);
    }
  }

  /**
   * The indices of the header lines among the first `n` lines, in file order:
   * exactly the header lines, each once, ascending.
   */
  ghost function HeadersBelow(lines: seq<string>, n: nat): (hs: seq<nat>)
    requires n <= |lines|
    ensures Ascending(hs, n)
    ensures forall k :: 0 <= k < |hs| ==> IsHeader(lines[hs[k]])
  {
    if n == 0 then []
    else
      var hs := HeadersBelow(lines, n - 1);
      if IsHeader(lines[n - 1]) then hs + [n - 1] else hs
  }

  /**
   * The `k`-th section of the first `n` lines, described by the headers: named
   * by header `k`, holding every line after it up to the next header, or up to
   * line `n` for the last one.
   */
  ghost function SectionAt(p: string, lines: seq<string>, n: nat, k: nat): Dialogue
    requires WellFormed(lines) && n <= |lines|
    requires k < |HeadersBelow(lines, n)|
  {
    var hs := HeadersBelow(lines, n);
    var end := if k + 1 < |hs| then hs[k + 1] else n;
    Dialogue(HeaderName(lines[hs[k]]), p, lines[hs[k] + 1..end])
  }

  /** Every header line among the first `n` lines is listed. */
  lemma {:induction false} HeaderListed(lines: seq<string>, n: nat, i: nat) returns (m: nat)
    requires n <= |lines| && i < n && IsHeader(lines[i])
    ensures m < |HeadersBelow(lines, n)| && HeadersBelow(lines, n)[m] == i
  {
    if i == n - 1 {
      m := |HeadersBelow(lines, n - 1)|;
    } else {
      m := HeaderListed(lines, n - 1, i);
    }
  }

  /** A section with one more body line. */
  function Append(d: Dialogue, line: string): Dialogue
  {
    d.(lines := d.lines + [line])
  }

  /**
   * The sections of the first `n` lines, one line at a time: a header line
   * opens a new empty section named after it; any other line is appended to
   * the latest section, or dropped while there is none.
   */
  ghost function ScanUpTo(p: string, lines: seq<string>, n: nat): seq<Dialogue>
    requires WellFormed(lines) && n <= |lines|
  {
    if n == 0 then []
    else
      var before := ScanUpTo(p, lines, n - 1);
      var line := lines[n - 1];
      if IsHeader(line) then before + [Dialogue(HeaderName(line), p, [])]
      else if before == [] then []
      else before[..|before| - 1] + [Append(before[|before| - 1], line)]
  }

  /** What scanning the whole file yields. */
  ghost function Scan(p: string, lines: seq<string>): seq<Dialogue>
    requires WellFormed(lines)
  {
    ScanUpTo(p, lines, |lines|)
  }

  function OptionToSeq(o: Option<Dialogue>): seq<Dialogue>
  {
    if o.Some? then [o.value] else []
  }

  /** A header line at `n - 1` leaves the earlier sections as they were. */
  lemma SectionAtHeaderStep(p: string, lines: seq<string>, n: nat, k: nat)
    requires WellFormed(lines) && 0 < n <= |lines| && IsHeader(lines[n - 1])
    requires k < |HeadersBelow(lines, n - 1)|
    ensures k < |HeadersBelow(lines, n)|
    ensures SectionAt(p, lines, n, k) == SectionAt(p, lines, n - 1, k)
  {
    var hs := HeadersBelow(lines, n - 1);
    assert HeadersBelow(lines, n) == hs + [n - 1];
  }

  /** Any other line at `n - 1` extends the latest section only. */
  lemma SectionAtBodyStep(p: string, lines: seq<string>, n: nat, k: nat)
    requires WellFormed(lines) && 0 < n <= |lines| && !IsHeader(lines[n - 1])
    requires k < |HeadersBelow(lines, n - 1)|
    ensures HeadersBelow(lines, n) == HeadersBelow(lines, n - 1)
    ensures var hs := HeadersBelow(lines, n - 1);
      var before := SectionAt(p, lines, n - 1, k);
      SectionAt(p, lines, n, k) == if k + 1 < |hs| then before else Append(before, lines[n - 1])
  {
    var hs := HeadersBelow(lines, n - 1);
    if k + 1 == |hs| {
      assert lines[hs[k] + 1..n] == lines[hs[k] + 1..n - 1] + [lines[n - 1]];
    }
  }

  /** The line-by-line scan of the first `n` lines agrees with the description by headers. */
  ghost predicate Agrees(p: string, lines: seq<string>, n: nat)
    requires WellFormed(lines) && n <= |lines|
  {
    var r, hs := ScanUpTo(p, lines, n), HeadersBelow(lines, n);
    |r| == |hs| && forall k :: 0 <= k < |hs| ==> r[k] == SectionAt(p, lines, n, k)
  }

  /** A header line keeps the agreement: it closes the open section and opens an empty one. */
  lemma ScanHeaderStep(p: string, lines: seq<string>, n: nat)
    requires WellFormed(lines) && 0 < n <= |lines| && IsHeader(lines[n - 1])
    requires Agrees(p, lines, n - 1)
    ensures Agrees(p, lines, n)
  {
    var hs, hs' := HeadersBelow(lines, n - 1), HeadersBelow(lines, n);
    var before, after := ScanUpTo(p, lines, n - 1), ScanUpTo(p, lines, n);
    assert after == before + [Dialogue(HeaderName(lines[n - 1]), p, [])];
    assert hs' == hs + [n - 1];
    forall k | 0 <= k < |hs'| ensures after[k] == SectionAt(p, lines, n, k) {
      if k < |hs| {
        SectionAtHeaderStep(p, lines, n, k);
        assert after[k] == before[k];
      }
    }
  }

  /** Any other line keeps the agreement: it is appended to the latest section, if there is one. */
  lemma ScanBodyStep(p: string, lines: seq<string>, n: nat)
    requires WellFormed(lines) && 0 < n <= |lines| && !IsHeader(lines[n - 1])
    requires Agrees(p, lines, n - 1)
    ensures Agrees(p, lines, n)
  {
    var hs, hs' := HeadersBelow(lines, n - 1), HeadersBelow(lines, n);
    var before, after := ScanUpTo(p, lines, n - 1), ScanUpTo(p, lines, n);
    assert hs' == hs;
    if before != [] {
      var m := |before|;
      assert after == before[..m - 1] + [Append(before[m - 1], lines[n - 1])];
      forall k | 0 <= k < |hs'| ensures after[k] == SectionAt(p, lines, n, k) {
        SectionAtBodyStep(p, lines, n, k);
        if k < m - 1 {
          assert after[k] == before[k];
        }
      }
    }
  }

  /**
   * The line-by-line scan agrees with the description by headers: one section
   * per header line, section `k` holding the lines from its header up to the
   * next one.
   */
  lemma {:induction false} ScanUpToSections(p: string, lines: seq<string>, n: nat)
    requires WellFormed(lines) && n <= |lines|
    ensures var r, hs := ScanUpTo(p, lines, n), HeadersBelow(lines, n);
      |r| == |hs| && forall k :: 0 <= k < |hs| ==> r[k] == SectionAt(p, lines, n, k)
  {
    if n > 0 {
      ScanUpToSections(p, lines, n - 1);
      if IsHeader(lines[n - 1]) {
        ScanHeaderStep(p, lines, n);
      } else {
        ScanBodyStep(p, lines, n);
      }
    }
  }

  /** One loop step of `Parse`, stated on the sections closed so far and the open one. */
  lemma ParseStep(p: string, lines: seq<string>, i: nat, sections: seq<Dialogue>, cur: Option<Dialogue>)
    requires WellFormed(lines) && i < |lines|
    requires sections + OptionToSeq(cur) == ScanUpTo(p, lines, i)
    requires cur.None? ==> sections == []
    ensures IsHeader(lines[i]) && cur.Some? ==>
      (sections + [cur.value]) + OptionToSeq(Some(Dialogue(HeaderName(lines[i]), p, []))) == ScanUpTo(p, lines, i + 1)
    ensures IsHeader(lines[i]) && cur.None? ==>
      sections + OptionToSeq(Some(Dialogue(HeaderName(lines[i]), p, []))) == ScanUpTo(p, lines, i + 1)
    ensures !IsHeader(lines[i]) && cur.Some? ==>
      sections + OptionToSeq(Some(Append(cur.value, lines[i]))) == ScanUpTo(p, lines, i + 1)
    ensures !IsHeader(lines[i]) && cur.None? ==> sections + OptionToSeq(cur) == ScanUpTo(p, lines, i + 1)
  {
    var before := ScanUpTo(p, lines, i);
    if IsHeader(lines[i]) && cur.Some? {
      assert sections + [cur.value] == before;
    } else if !IsHeader(lines[i]) && cur.Some? {
      assert before[..|before| - 1] == sections && before[|before| - 1] == cur.value;
    }
  }

  /** After the last line, closing the open section completes the scan. */
  lemma ParseFinish(p: string, lines: seq<string>, sections: seq<Dialogue>, cur: Option<Dialogue>)
    requires WellFormed(lines)
    requires sections + OptionToSeq(cur) == ScanUpTo(p, lines, |lines|)
    ensures cur.Some? ==> sections + [cur.value] == Scan(p, lines)
    ensures cur.None? ==> sections == Scan(p, lines)
  {
  }

  /**
   * The body of the scan loop for line `i`: a header line pushes the open
   * section, if any, and opens a new empty one named after it; any other line
   * is appended to the open section, or dropped when none is open.
   */
  method ScanLine(p: string, lines: seq<string>, i: nat, sections: seq<Dialogue>, cur: Option<Dialogue>)
    returns (sections': seq<Dialogue>, cur': Option<Dialogue>)
    requires WellFormed(lines) && i < |lines|
    requires sections + OptionToSeq(cur) == ScanUpTo(p, lines, i)
    requires cur.None? ==> sections == []
    ensures sections' + OptionToSeq(cur') == ScanUpTo(p, lines, i + 1)
    ensures cur'.None? ==> sections' == []
  {
    ParseStep(p, lines, i, sections, cur);
    var line := lines[i];
    sections', cur' := sections, cur;
    if IsHeader(line) {
      if cur.Some? {
        sections' := sections + [cur.value];
      }
      cur' := Some(Dialogue(HeaderName(line), p, []));
    } else if cur.Some? {
      cur' := Some(Append(cur.value, line));
    }
  }

  /**
   * The loop of `DialogueFile::parse`: every line goes through `ScanLine`;
   * the result is the sections closed so far and the one still open.
   */
  method ScanLines(p: string, lines: seq<string>) returns (sections: seq<Dialogue>, cur: Option<Dialogue>)
    requires WellFormed(lines)
    ensures sections + OptionToSeq(cur) == ScanUpTo(p, lines, |lines|)
    ensures cur.None? ==> sections == []
  {
    sections, cur := [], None;
    for i := 0 to |lines|
      invariant sections + OptionToSeq(cur) == ScanUpTo(p, lines, i)
      invariant cur.None? ==> sections == []
    {
      sections, cur := ScanLine(p, lines, i, sections, cur);
    }
  }

  /**
   * `DialogueFile::parse` over the lines of file `p`: the scan loop, then the
   * section still open at the end is pushed last.
   */
  method Parse(p: string, lines: seq<string>) returns (file: DialogueFile)
    requires WellFormed(lines)
    ensures file.sections == Scan(p, lines)
  {
    var sections, cur := ScanLines(p, lines);
    ParseFinish(p, lines, sections, cur);
    if cur.Some? {
      sections := sections + [cur.value];
    }
    file := DialogueFile(sections);
  }

  // ---------------------------------------------------------------------------
  // What the scan yields

  /** The indices of all header lines of the file, in file order. */
  ghost function Headers(lines: seq<string>): seq<nat>
  {
    HeadersBelow(lines, |lines|)
  }

  /** The number of header lines, counted from the front of the file. */
  function HeaderCount(lines: seq<string>): nat
  {
    if lines == [] then 0 else (if IsHeader(lines[0]) then 1 else 0) + HeaderCount(lines[1..])
  }

  lemma {:induction false} HeaderCountAppend(lines: seq<string>, line: string)
    ensures HeaderCount(lines + [line]) == HeaderCount(lines) + (if IsHeader(line) then 1 else 0)
  {
    if lines != [] {
      assert (lines + [line])[1..] == lines[1..] + [line];
      HeaderCountAppend(lines[1..], line);
    } else {
      assert (lines + [line])[1..] == [];
    }
  }

  lemma {:induction false} HeadersBelowCount(lines: seq<string>, n: nat)
    requires n <= |lines|
    ensures |HeadersBelow(lines, n)| == HeaderCount(lines[..n])
  {
    if n > 0 {
      HeadersBelowCount(lines, n - 1);
      assert lines[..n] == lines[..n - 1] + [lines[n - 1]];
      HeaderCountAppend(lines[..n - 1], lines[n - 1]);
    }
  }

  /** There are as many sections as header lines. */
  lemma ScanCountsHeaders(p: string, lines: seq<string>)
    requires WellFormed(lines)
    ensures |Scan(p, lines)| == HeaderCount(lines)
  {
    ScanUpToSections(p, lines, |lines|);
    HeadersBelowCount(lines, |lines|);
    assert lines[..|lines|] == lines;
  }

  /**
   * Section `k` is named by the `k`-th header line minus its brackets, belongs
   * to file `p`, and holds verbatim and in order the lines strictly between
   * that header and the next one (or the end of the file).
   */
  lemma ScanSections(p: string, lines: seq<string>)
    requires WellFormed(lines)
    ensures var r, hs := Scan(p, lines), Headers(lines);
      |r| == |hs| &&
      forall k :: 0 <= k < |r| ==>
        var end := if k + 1 < |hs| then hs[k + 1] else |lines|;
        hs[k] < end &&
        r[k].name == HeaderName(lines[hs[k]]) &&
        r[k].filename == p &&
        r[k].lines == lines[hs[k] + 1..end]
  {
    var r, hs := Scan(p, lines), Headers(lines);
    ScanLength(p, lines);
    forall k | 0 <= k < |r|
      ensures var end := if k + 1 < |hs| then hs[k + 1] else |lines|;
        hs[k] < end && r[k] == Dialogue(HeaderName(lines[hs[k]]), p, lines[hs[k] + 1..end])
    {
      ScanSection(p, lines, k);
    }
  }

  /** The scan has one section per header line. */
  lemma ScanLength(p: string, lines: seq<string>)
    requires WellFormed(lines)
    ensures |Scan(p, lines)| == |Headers(lines)|
  {
    ScanUpToSections(p, lines, |lines|);
  }

  /** Section `k` of the scan, on its own: the body runs from its header to the next one. */
  lemma ScanSection(p: string, lines: seq<string>, k: nat)
    requires WellFormed(lines) && k < |Headers(lines)|
    ensures var r, hs := Scan(p, lines), Headers(lines);
      var end := if k + 1 < |hs| then hs[k + 1] else |lines|;
      k < |r| && hs[k] < end &&
      r[k] == Dialogue(HeaderName(lines[hs[k]]), p, lines[hs[k] + 1..end])
  {
    ScanUpToSections(p, lines, |lines|);
    var hs := Headers(lines);
    if k + 1 < |hs| {
      AscendingOrdered(hs, |lines|, k, k + 1);
    }
  }

  /** Between a header and the next one (or the end of the prefix) there is no header line. */
  lemma NoHeaderBetween(lines: seq<string>, n: nat, k: nat, x: nat)
    requires n <= |lines|
    requires var hs := HeadersBelow(lines, n);
      k < |hs| && hs[k] < x < (if k + 1 < |hs| then hs[k + 1] else n)
    ensures !IsHeader(lines[x])
  {
    var hs := HeadersBelow(lines, n);
    if IsHeader(lines[x]) {
      var m := HeaderListed(lines, n, x);
      if m < k {
        AscendingOrdered(hs, n, m, k);
      } else if m > k + 1 {
        AscendingOrdered(hs, n, k + 1, m);
      }
      assert false;
    }
  }

  /** No body line of any section is a header line. */
  lemma ScanBodiesHaveNoHeaders(p: string, lines: seq<string>)
    requires WellFormed(lines)
    ensures forall d, j :: d in Scan(p, lines) && 0 <= j < |d.lines| ==> !IsHeader(d.lines[j])
  {
    var r := Scan(p, lines);
    ScanLength(p, lines);
    forall d, j | d in r && 0 <= j < |d.lines| ensures !IsHeader(d.lines[j]) {
      var k :| 0 <= k < |r| && r[k] == d;
      BodyLineNotHeader(p, lines, k, j);
    }
  }

  /** Line `j` of the body of section `k` is not a header line. */
  lemma BodyLineNotHeader(p: string, lines: seq<string>, k: nat, j: nat)
    requires WellFormed(lines) && k < |Scan(p, lines)|
    requires j < |Scan(p, lines)[k].lines|
    ensures !IsHeader(Scan(p, lines)[k].lines[j])
  {
    var hs := Headers(lines);
    ScanLength(p, lines);
    ScanSection(p, lines, k);
    var end := if k + 1 < |hs| then hs[k + 1] else |lines|;
    var x := hs[k] + 1 + j;
    assert Scan(p, lines)[k].lines[j] == lines[x];
    NoHeaderBetween(lines, |lines|, k, x);
  }

  /** The header indices of a prefix are a prefix of the header indices of the whole file. */
  lemma {:induction false} HeadersBelowPrefix(lines: seq<string>, m: nat, n: nat)
    requires m <= n <= |lines|
    ensures var hm, hn := HeadersBelow(lines, m), HeadersBelow(lines, n);
      |hm| <= |hn| && hm == hn[..|hm|] && forall k :: |hm| <= k < |hn| ==> m <= hn[k]
  {
    if m < n {
      HeadersBelowPrefix(lines, m, n - 1);
    }
  }

  /**
   * A line that is not a header and comes after some header line is a body
   * line of the section opened by the latest header before it, at its place in
   * file order (lines before the first header belong to no section, since by
   * `ScanSections` every body starts after its header).
   */
  lemma LineInLatestSection(p: string, lines: seq<string>, i: nat) returns (k: nat)
    requires WellFormed(lines) && i < |lines| && !IsHeader(lines[i])
    requires exists h :: 0 <= h < i && IsHeader(lines[h])
    ensures var r, hs := Scan(p, lines), Headers(lines);
      k < |r| && k < |hs| && hs[k] < i && (k + 1 < |hs| ==> i < hs[k + 1]) &&
      (forall h :: hs[k] < h < i ==> !IsHeader(lines[h])) &&
      i - hs[k] - 1 < |r[k].lines| && r[k].lines[i - hs[k] - 1] == lines[i]
  {
    var hs := Headers(lines);
    k := LatestHeader(lines, i);
    forall h | hs[k] < h < i ensures !IsHeader(lines[h]) {
      NoHeaderBetween(lines, |lines|, k, h);
    }
    ScanSection(p, lines, k);
  }

  /** The latest header line before line `i`, found among the headers of the whole file. */
  lemma LatestHeader(lines: seq<string>, i: nat) returns (k: nat)
    requires i < |lines| && !IsHeader(lines[i])
    requires exists h :: 0 <= h < i && IsHeader(lines[h])
    ensures var hs := Headers(lines);
      k < |hs| && hs[k] < i && (k + 1 < |hs| ==> i < hs[k + 1])
  {
    var hs, below := Headers(lines), HeadersBelow(lines, i);
    var h :| 0 <= h < i && IsHeader(lines[h]);
    var _ := HeaderListed(lines, i, h);
    HeadersBelowPrefix(lines, i, |lines|);
    k := |below| - 1;
    assert hs[k] == below[k];
    if k + 1 < |hs| {
      assert i <= hs[k + 1];
      assert hs[k + 1] != i;
    }
  }

  // ---------------------------------------------------------------------------
  // Section lookup

  /**
   * The first section whose name equals `query` ignoring ASCII case; `None`
   * exactly when no section matches.
   */
  function FindSection(sections: seq<Dialogue>, query: string): (r: Option<Dialogue>)
    ensures r.None? <==> forall i :: 0 <= i < |sections| ==> !EqAscii(query, sections[i].name)
    ensures r.Some? ==>
      exists i :: 0 <= i < |sections| && sections[i] == r.value && EqAscii(query, sections[i].name) &&
        (forall j :: 0 <= j < i ==> !EqAscii(query, sections[j].name))
  {
    if sections == [] then None
    else if EqAscii(query, sections[0].name) then Some(sections[0])
    else
      var r := FindSection(sections[1..], query);
      assert forall i :: 1 <= i < |sections| ==> sections[i] == sections[1..][i - 1];
      r
  }

  /** `DialogueFile::get`: a search over the sections in file order, returning the first match. */
  method Get(file: DialogueFile, query: string) returns (r: Option<Dialogue>)
    ensures r == FindSection(file.sections, query)
  {
    for i := 0 to |file.sections|
      invariant forall j :: 0 <= j < i ==> !EqAscii(query, file.sections[j].name)
    {
      if EqAscii(query, file.sections[i].name) {
        return Some(file.sections[i]);
      }
    }
    return None;
  }

  // ---------------------------------------------------------------------------
  // Cache of parsed files

  /**
   * `DialogueCache`: parsed files by file name. A file is parsed at most once;
   * the contents of a file not yet cached are passed to `Preload` as its lines
   * (`None` when it cannot be read).
   */
  class DialogueCache {
    var cache: map<string, DialogueFile>

    constructor ()
      ensures cache == map[]
    {
      cache := map[];
    }

    /**
     * Inserts the parse of `filename` unless it is already present. Reading or
     * parsing a file that is not cached must succeed: the source unwraps both.
     */
    method Preload(filename: string, read: Option<seq<string>>)
      requires filename in cache || (read.Some? && WellFormed(read.value))
      modifies this
      ensures filename in cache
      ensures filename in old(cache) ==> cache == old(cache)
      ensures filename !in old(cache) ==>
        cache == old(cache)[filename := DialogueFile(Scan(filename, read.value))]
    {
      if filename in cache {
        // Already loaded.
      } else {
        var dialogue := Parse(filename, read.value);
        cache := cache[filename := dialogue];
      }
    }

    /** The cached file; the source unwraps, so it must be present. */
    method Get(filename: string) returns (file: DialogueFile)
      requires filename in cache
      ensures file == cache[filename]
    {
      file := cache[filename];
    }

    /** The cache entry for `filename`, if any. */
    function Lookup(filename: string): (r: Option<DialogueFile>)
      reads this
      ensures r.Some? <==> filename in cache
      ensures r.Some? ==> r.value == cache[filename]
    {
      if filename in cache then Some(cache[filename]) else None
    }
  }

  // ---------------------------------------------------------------------------
  // Talker: reveals the lines of one dialogue character by character

  /** Characters revealed per unit of time. */
  const REVEAL_RATE: real := 0.75
  /** Pause, in ticks, before the next line starts. */
  const NEXT_LINE_T_MAX: real := 15.0
  /** Clear time after which the finished dialogue is dropped. */
  const CLEAR_T_MAX: real := 35.0
  /** Clear time after which the finished line starts to fade into spaces. */
  const CLEAR_T_SUCK_MIN: real := 31.0

  /** The fields of a `Talker`. */
  datatype TalkerState = TalkerState(
    dialogue: Option<Dialogue>,
    lineIndex: nat,
    curString: string,
    chars: real,
    clearT: real,
    nextLineT: real)

  /** The state `clear` leaves: no dialogue, every counter at zero, an empty string. */
  const Silent: TalkerState := TalkerState(None, 0, "", 0.0, 0.0, 0.0)

  /** What every operation keeps, given non-negative time steps. */
  predicate TalkerInv(s: TalkerState)
  {
    s.chars >= 0.0 && s.clearT >= 0.0 && s.nextLineT >= 0.0 &&
    (s.dialogue.Some? && |s.dialogue.value.lines| > 0 ==> s.lineIndex < |s.dialogue.value.lines|)
  }

  /** Same dialogue: name and file name equal ignoring ASCII case. */
  predicate SameSection(a: Dialogue, b: Dialogue)
  {
    EqAscii(a.name, b.name) && EqAscii(a.filename, b.filename)
  }

  /**
   * `Talker::queue`: re-queueing the dialogue already held only halves the
   * clear timer; any other dialogue replaces the state by a cleared one
   * holding that dialogue.
   */
  function TalkerQueued(s: TalkerState, d: Dialogue): (r: TalkerState)
    ensures r.dialogue.Some? && SameSection(r.dialogue.value, d)
    ensures s.dialogue.Some? && SameSection(s.dialogue.value, d) ==>
      r.dialogue == s.dialogue && r.lineIndex == s.lineIndex && r.curString == s.curString &&
      r.chars == s.chars && r.nextLineT == s.nextLineT && r.clearT * 2.0 == s.clearT
    ensures !(s.dialogue.Some? && SameSection(s.dialogue.value, d)) ==>
      r.dialogue == Some(d) && r.lineIndex == 0 && r.curString == "" &&
      r.chars == 0.0 && r.clearT == 0.0 && r.nextLineT == 0.0
    ensures TalkerInv(s) ==> TalkerInv(r)
  {
    EqAsciiIsEquivalence(d.name, d.name, d.name);
    EqAsciiIsEquivalence(d.filename, d.filename, d.filename);
    if s.dialogue.Some? && SameSection(s.dialogue.value, d) then s.(clearT := s.clearT / 2.0)
    else Silent.(dialogue := Some(d))
  }

  /** `clamp(0.0, 1.0)`. */
  function Clamp01(x: real): (r: real)
    ensures 0.0 <= r <= 1.0
  {
    if x < 0.0 then 0.0 else if x > 1.0 then 1.0 else x
  }

  /**
   * How far the fade has gone at clear time `clearT`: 0 up to
   * `CLEAR_T_SUCK_MIN`, rising linearly to 1 at `CLEAR_T_MAX`, and 1 after.
   */
  function FadeProgress(clearT: real): (r: real)
    ensures 0.0 <= r <= 1.0
    ensures clearT <= CLEAR_T_SUCK_MIN ==> r == 0.0
    ensures clearT >= CLEAR_T_MAX ==> r == 1.0
  {
    var span := CLEAR_T_MAX - CLEAR_T_SUCK_MIN;
    assert span == 4.0;
    Clamp01((clearT - CLEAR_T_SUCK_MIN) / span)
  }

  /** A later clear time has faded at least as far. */
  lemma FadeProgressMonotone(a: real, b: real)
    requires a <= b
    ensures FadeProgress(a) <= FadeProgress(b)
  {
    var span := CLEAR_T_MAX - CLEAR_T_SUCK_MIN;
    assert span == 4.0;
    assert (a - CLEAR_T_SUCK_MIN) / span <= (b - CLEAR_T_SUCK_MIN) / span;
  }

  /** `len as f32 * norm` truncated to a count, for a share `norm` in [0, 1]. */
  function ScaledFloor(len: nat, norm: real): (n: nat)
    requires 0.0 <= norm <= 1.0
    ensures n <= len
    ensures norm == 1.0 ==> n == len
  {
    ProductBounds(len, norm);
    (len as real * norm).Floor
  }

  /** A share in [0, 1] of a length lies between 0 and the length, and all of it is the length. */
  lemma ProductBounds(len: nat, norm: real)
    requires 0.0 <= norm <= 1.0
    ensures 0.0 <= len as real * norm <= len as real
    ensures norm == 1.0 ==> (len as real * norm).Floor == len
  {
    ScaleMonotone(len as real, 0.0, norm);
    ScaleMonotone(len as real, norm, 1.0);
  }

  /** A larger share gives at least as large a count. */
  lemma ScaledFloorMonotone(len: nat, x: real, y: real)
    requires 0.0 <= x <= y <= 1.0
    ensures ScaledFloor(len, x) <= ScaledFloor(len, y)
  {
    var k := len as real;
    ScaleMonotone(k, x, y);
    FloorMonotone(k * x, k * y);
  }

  /**
   * How many leading characters of a line of length `len` are blanked at clear
   * time `clearT`: none up to `CLEAR_T_SUCK_MIN`, then a growing share, the
   * whole line from `CLEAR_T_MAX` on.
   */
  function BlankCount(len: nat, clearT: real): (n: nat)
    ensures n <= len
    ensures clearT <= CLEAR_T_SUCK_MIN ==> n == 0
    ensures clearT >= CLEAR_T_MAX ==> n == len
  {
    if clearT > CLEAR_T_SUCK_MIN then ScaledFloor(len, FadeProgress(clearT)) else 0
  }

  /** The fade only grows: a later clear time blanks at least as many characters. */
  lemma BlankCountMonotone(len: nat, a: real, b: real)
    requires a <= b
    ensures BlankCount(len, a) <= BlankCount(len, b)
  {
    if a > CLEAR_T_SUCK_MIN {
      FadeProgressMonotone(a, b);
      ScaledFloorMonotone(len, FadeProgress(a), FadeProgress(b));
    }
  }

  /** Scaling by a non-negative factor keeps the order. */
  lemma ScaleMonotone(k: real, x: real, y: real)
    requires 0.0 <= k && x <= y
    ensures k * x <= k * y
  {
    assert k * y - k * x == k * (y - x);
  }

  /** Truncating to a whole number keeps the order. */
  lemma FloorMonotone(x: real, y: real)
    requires x <= y
    ensures x.Floor <= y.Floor
  {
    assert x.Floor as real <= x && y < y.Floor as real + 1.0;
  }

  /** A line of text with its first `BlankCount` characters overwritten by spaces. */
  function Faded(line: string, clearT: real): (r: string)
    ensures |r| == |line|
    ensures forall i :: 0 <= i < |line| ==>
      r[i] == if i < BlankCount(|line|, clearT) then ' ' else line[i]
  {
    var n := BlankCount(|line|, clearT);
    seq(n, _ => ' ') + line[n..]
  }

  /** A dialogue with a current line that `tick` can read. */
  predicate Ticking(s: TalkerState)
  {
    TalkerInv(s) && s.dialogue.Some? && |s.dialogue.value.lines| > 0
  }

  /** Orders the passes of the tick loop: a line advance or a finish always moves to a lower phase. */
  function Phase(s: TalkerState): nat
  {
    (if s.clearT > 0.0 then 0 else 2) + (if s.nextLineT > NEXT_LINE_T_MAX then 1 else 0)
  }

  /** The loop of `Talker::tick`, from state `s`, for a time step `dt`. */
  function Run(s: TalkerState, dt: real): TalkerState
    requires Ticking(s) && dt >= 0.0
    decreases Phase(s)
  {
    var lines := s.dialogue.value.lines;
    var line := lines[s.lineIndex];
    if s.clearT > 0.0 then
      var clearT := s.clearT + dt;
      if clearT > CLEAR_T_MAX then Silent
      else s.(clearT := clearT, curString := Faded(line, clearT))
    else
      var chars := s.chars + dt * REVEAL_RATE;
      if chars < |line| as real then s.(chars := chars, curString := line[..chars.Floor + 1])
      else if s.lineIndex + 1 < |lines| then
        if s.nextLineT > NEXT_LINE_T_MAX then
          Run(s.(lineIndex := s.lineIndex + 1, nextLineT := 0.0, chars := 0.0), dt)
        else
          s.(chars := chars, nextLineT := s.nextLineT + 1.0)
      else
        Run(s.(chars := |line| as real, clearT := 1.0), dt)
  }

  /** `Talker::tick`: nothing without a dialogue, otherwise the loop. */
  function TalkerTicked(s: TalkerState, dt: real): TalkerState
    requires TalkerInv(s) && dt >= 0.0
    requires s.dialogue.Some? ==> |s.dialogue.value.lines| > 0
  {
    if s.dialogue.None? then s else Run(s, dt)
  }

  /** A state holding a dialogue whose line index is in range. */
  predicate HasLine(s: TalkerState)
  {
    s.dialogue.Some? && s.lineIndex < |s.dialogue.value.lines|
  }

  /** The line the state is on. */
  function CurLine(s: TalkerState): string
    requires HasLine(s)
  {
    s.dialogue.value.lines[s.lineIndex]
  }

  /**
   * A tick keeps the invariant; it either clears the talker completely or keeps
   * its dialogue, and then the line index stays in range and moves at most one
   * line forward, only once the pause `nextLineT` exceeded its maximum; moving
   * on resets the pause and restarts the reveal of the new line.
   */
  lemma {:induction false} RunLineIndex(s: TalkerState, dt: real)
    requires Ticking(s) && dt >= 0.0
    ensures var r := Run(s, dt);
      TalkerInv(r) &&
      (r.dialogue.None? ==> r == Silent) &&
      (r.dialogue.Some? ==>
        r.dialogue == s.dialogue && r.lineIndex < |r.dialogue.value.lines| &&
        (r.lineIndex == s.lineIndex ||
          (r.lineIndex == s.lineIndex + 1 && s.clearT <= 0.0 && s.nextLineT > NEXT_LINE_T_MAX &&
           r.nextLineT <= 1.0 && (r.chars == dt * REVEAL_RATE || r.chars == |CurLine(r)| as real))))
    decreases Phase(s)
  {
    var lines := s.dialogue.value.lines;
    var line := lines[s.lineIndex];
    if s.clearT <= 0.0 {
      var chars := s.chars + dt * REVEAL_RATE;
      if chars >= |line| as real {
        if s.lineIndex + 1 < |lines| {
          if s.nextLineT > NEXT_LINE_T_MAX {
            var s' := s.(lineIndex := s.lineIndex + 1, nextLineT := 0.0, chars := 0.0);
            RunLineIndex(s', dt);
            RunStaysOnLine(s', dt);
          }
        } else {
          RunLineIndex(s.(chars := |line| as real, clearT := 1.0), dt);
        }
      }
    }
  }

  /** From a fresh line (no pause pending), a tick does not move to another line. */
  lemma {:induction false} RunStaysOnLine(s: TalkerState, dt: real)
    requires Ticking(s) && dt >= 0.0 && s.nextLineT <= NEXT_LINE_T_MAX
    ensures var r := Run(s, dt);
      r.dialogue.Some? ==>
        r.dialogue == s.dialogue && r.lineIndex == s.lineIndex &&
        (s.clearT <= 0.0 ==> r.nextLineT <= s.nextLineT + 1.0) &&
        (s.clearT <= 0.0 && s.chars == 0.0 ==> r.chars == dt * REVEAL_RATE || r.chars == |CurLine(r)| as real)
    decreases Phase(s)
  {
    var lines := s.dialogue.value.lines;
    var line := lines[s.lineIndex];
    if s.clearT <= 0.0 {
      var chars := s.chars + dt * REVEAL_RATE;
      if chars >= |line| as real && s.lineIndex + 1 >= |lines| {
        RunStaysOnLine(s.(chars := |line| as real, clearT := 1.0), dt);
      }
    }
  }

  /**
   * While the current line is still being revealed (no clear timer and fewer
   * revealed characters than the line has), the shown string is the first
   * `floor(chars) + 1` characters of the current line.
   */
  lemma {:induction false} RunRevealsPrefix(s: TalkerState, dt: real)
    requires Ticking(s) && dt >= 0.0
    ensures var r := Run(s, dt);
      HasLine(r) && r.clearT <= 0.0 && r.chars < |CurLine(r)| as real ==>
        0 <= r.chars.Floor < |CurLine(r)| && r.curString == CurLine(r)[..r.chars.Floor + 1]
    decreases Phase(s)
  {
    var lines := s.dialogue.value.lines;
    var line := lines[s.lineIndex];
    RunLineIndex(s, dt);
    if s.clearT <= 0.0 {
      var chars := s.chars + dt * REVEAL_RATE;
      if chars >= |line| as real {
        if s.lineIndex + 1 < |lines| {
          if s.nextLineT > NEXT_LINE_T_MAX {
            RunRevealsPrefix(s.(lineIndex := s.lineIndex + 1, nextLineT := 0.0, chars := 0.0), dt);
          }
        } else {
          RunRevealsPrefix(s.(chars := |line| as real, clearT := 1.0), dt);
        }
      }
    }
  }

  /**
   * The clear timer: a running one only advances by `dt` and fades the line,
   * and the talker is cleared exactly when it passes `CLEAR_T_MAX`; a tick that
   * starts it has just finished the last line, sets it to `1 + dt` and shows the
   * whole last line (faded as the timer says).
   */
  lemma {:induction false} RunClearTimer(s: TalkerState, dt: real)
    requires Ticking(s) && dt >= 0.0
    ensures var r := Run(s, dt);
      (s.clearT > 0.0 ==>
        (r.dialogue.None? <==> s.clearT + dt > CLEAR_T_MAX) &&
        (r.dialogue.Some? ==> r == s.(clearT := s.clearT + dt, curString := Faded(CurLine(s), s.clearT + dt)))) &&
      (s.clearT <= 0.0 && r.dialogue.Some? && r.clearT > 0.0 ==>
        r.lineIndex == |r.dialogue.value.lines| - 1 &&
        r.chars == |CurLine(r)| as real &&
        r.clearT == 1.0 + dt && r.curString == Faded(CurLine(r), 1.0 + dt)) &&
      (s.clearT <= 0.0 && r.dialogue.None? ==> 1.0 + dt > CLEAR_T_MAX)
    decreases Phase(s)
  {
    var lines := s.dialogue.value.lines;
    var line := lines[s.lineIndex];
    if s.clearT <= 0.0 {
      var chars := s.chars + dt * REVEAL_RATE;
      if chars >= |line| as real {
        if s.lineIndex + 1 < |lines| {
          if s.nextLineT > NEXT_LINE_T_MAX {
            RunClearTimer(s.(lineIndex := s.lineIndex + 1, nextLineT := 0.0, chars := 0.0), dt);
          }
        } else {
          RunClearTimer(s.(chars := |line| as real, clearT := 1.0), dt);
        }
      }
    }
  }

  /** A pass of the tick loop with the clear timer running gives the result of the tick. */
  lemma RunClearStep(s: TalkerState, dt: real)
    requires Ticking(s) && dt >= 0.0 && s.clearT > 0.0
    ensures s.clearT + dt > CLEAR_T_MAX ==> Run(s, dt) == Silent
    ensures s.clearT + dt <= CLEAR_T_MAX ==>
      Run(s, dt) == s.(clearT := s.clearT + dt, curString := Faded(CurLine(s), s.clearT + dt))
  {
  }

  /** A pass that does not yet reveal the whole line gives the result of the tick. */
  lemma RunRevealStep(s: TalkerState, dt: real)
    requires Ticking(s) && dt >= 0.0 && s.clearT <= 0.0
    requires s.chars + dt * REVEAL_RATE < |CurLine(s)| as real
    ensures var chars := s.chars + dt * REVEAL_RATE;
      0 <= chars.Floor < |CurLine(s)| &&
      Run(s, dt) == s.(chars := chars, curString := CurLine(s)[..chars.Floor + 1])
  {
  }

  /**
   * Once a line that is not the last is complete, a pass either ends the
   * tick in the pause, or moves to the next line, in a lower phase.
   */
  lemma RunNextLineStep(s: TalkerState, dt: real)
    requires Ticking(s) && dt >= 0.0 && s.clearT <= 0.0
    requires s.chars + dt * REVEAL_RATE >= |CurLine(s)| as real
    requires s.lineIndex + 1 < |s.dialogue.value.lines|
    ensures s.nextLineT <= NEXT_LINE_T_MAX ==>
      Run(s, dt) == s.(chars := s.chars + dt * REVEAL_RATE, nextLineT := s.nextLineT + 1.0)
    ensures s.nextLineT > NEXT_LINE_T_MAX ==>
      var s' := s.(lineIndex := s.lineIndex + 1, nextLineT := 0.0, chars := 0.0);
      Ticking(s') && Phase(s') < Phase(s) && Run(s, dt) == Run(s', dt)
  {
  }

  /** Once the last line is complete, a pass starts the clear timer, in a lower phase. */
  lemma RunLastLineStep(s: TalkerState, dt: real)
    requires Ticking(s) && dt >= 0.0 && s.clearT <= 0.0
    requires s.chars + dt * REVEAL_RATE >= |CurLine(s)| as real
    requires s.lineIndex + 1 >= |s.dialogue.value.lines|
    ensures var s' := s.(chars := |CurLine(s)| as real, clearT := 1.0);
      Ticking(s') && Phase(s') < Phase(s) && Run(s, dt) == Run(s', dt)
  {
  }

  /**
   * `Talker`: the fields the source updates in place. A dialogue whose
   * section has no lines cannot be ticked: the source indexes line 0.
   */
  class Talker {
    var dialogue: Option<Dialogue>
    var curLineIndex: nat
    var curString: string
    var chars: real
    var clearT: real
    var nextLineT: real

    function State(): TalkerState
      reads this
    {
      TalkerState(dialogue, curLineIndex, curString, chars, clearT, nextLineT)
    }

    constructor ()
      ensures State() == Silent
    {
      dialogue := None;
      curLineIndex := 0;
      curString := "";
      chars := 0.0;
      clearT := 0.0;
      nextLineT := 0.0;
    }

    method Queue(d: Dialogue)
      modifies this
      ensures State() == TalkerQueued(old(State()), d)
    {
      if dialogue.Some? {
        var cur := dialogue.value;
        if EqAscii(cur.name, d.name) && EqAscii(cur.filename, d.filename) {
          // Already queued: shorten the time until it clears.
          clearT := clearT / 2.0;
          return;
        }
      }
      Clear();
      dialogue := Some(d);
    }

    method Clear()
      modifies this
      ensures State() == Silent
    {
      dialogue := None;
      curLineIndex := 0;
      chars := 0.0;
      curString := "";
      clearT := 0.0;
      nextLineT := 0.0;
    }

    /**
     * One pass of the loop in `Talker::tick`: either it finishes the tick
     * (`done`), or it moves to the next line or starts the clear timer and
     * the loop goes round again.
     */
    method TickPass(dtNorm: real) returns (done: bool)
      requires Ticking(State()) && dtNorm >= 0.0
      modifies this
      ensures done ==> State() == Run(old(State()), dtNorm)
      ensures !done ==>
        Ticking(State()) && Phase(State()) < Phase(old(State())) &&
        Run(State(), dtNorm) == Run(old(State()), dtNorm)
    {
      if clearT > 0.0 {
        ClearPass(dtNorm);
        done := true;
      } else {
        done := RevealPass(dtNorm);
      }
    }

    /** The clear timer runs on, fading the line, and clears the talker once past its maximum. */
    method ClearPass(dtNorm: real)
      requires Ticking(State()) && dtNorm >= 0.0 && clearT > 0.0
      modifies this
      ensures State() == Run(old(State()), dtNorm)
    {
      RunClearStep(State(), dtNorm);
      var line := dialogue.value.lines[curLineIndex];
      clearT := clearT + dtNorm;
      curString := Faded(line, clearT);
      if clearT > CLEAR_T_MAX {
        Clear();
      }
    }

    /**
     * The line is revealed further; once it is complete, the talker pauses,
     * moves to the next line, or starts the clear timer after the last one.
     */
    method RevealPass(dtNorm: real) returns (done: bool)
      requires Ticking(State()) && dtNorm >= 0.0 && clearT <= 0.0
      modifies this
      ensures done ==> State() == Run(old(State()), dtNorm)
      ensures !done ==>
        Ticking(State()) && Phase(State()) < Phase(old(State())) &&
        Run(State(), dtNorm) == Run(old(State()), dtNorm)
    {
      var lines := dialogue.value.lines;
      var line := lines[curLineIndex];
      var revealed := chars + dtNorm * REVEAL_RATE;
      if revealed < |line| as real {
        RunRevealStep(State(), dtNorm);
        chars := revealed;
        curString := line[..chars.Floor + 1];
        return true;
      } else if curLineIndex + 1 < |lines| {
        RunNextLineStep(State(), dtNorm);
        chars := revealed;
        if nextLineT > NEXT_LINE_T_MAX {
          curLineIndex := curLineIndex + 1;
          nextLineT := 0.0;
          chars := 0.0;
          return false;
        } else {
          nextLineT := nextLineT + 1.0;
          return true;
        }
      } else {
        RunLastLineStep(State(), dtNorm);
        chars := |line| as real;
        clearT := 1.0;
        return false;
      }
    }

    method Tick(dtNorm: real)
      requires TalkerInv(State()) && dtNorm >= 0.0
      requires dialogue.Some? ==> |dialogue.value.lines| > 0
      modifies this
      ensures State() == TalkerTicked(old(State()), dtNorm)
    {
      if dialogue.None? {
        return;
      }
      while true
        invariant Ticking(State())
        invariant Run(State(), dtNorm) == TalkerTicked(old(State()), dtNorm)
        decreases Phase(State())
      {
        var done := TickPass(dtNorm);
        if done {
          return;
        }
      }
    }
  }
}
