/** The interface-statistics reader: it scans the lines of a file laid out
    like Linux `/proc/net/dev` for the `eth0:` entry and reads its sixteen
    counters. Opening and reading the file is outside the model; a file
    that cannot be opened reads as no lines at all. */
module IfStats {
  import opened Wrappers
  import opened Strings
  import opened Strconv

  /** The eight counters of one direction, in `/proc/net/dev` column order. */
  datatype Counters = Counters(
    bytes: int, packets: int, errors: int, dropped: int,
    fifo: int, frame: int, compressed: int, multicast: int)
  {
    /** The counter in column `k`. */
    function At(k: nat): int
      requires k < 8
    {
      match k
      case 0 => bytes
      case 1 => packets
      case 2 => errors
      case 3 => dropped
      case 4 => fifo
      case 5 => frame
      case 6 => compressed
      case _ => multicast
    }
  }

  datatype InterfaceStats = InterfaceStats(rx: Counters, tx: Counters)

  const NoCounters := Counters(0, 0, 0, 0, 0, 0, 0, 0)
  const NoStats := InterfaceStats(NoCounters, NoCounters)

  /** The entry the reader looks for, whatever interface it was asked about. */
  const EntryPrefix := "eth0:"

  /** The minimum number of white-space separated fields an entry needs: the
      name and sixteen counters. */
  const EntryFields := 17

  predicate IsEntry(line: string) {
    EntryPrefix <= TrimSpace(line)
  }

  function EntryFieldsOf(line: string): seq<string> {
    Fields(TrimSpace(line))
  }

  /** An entry too short for the source's fixed field indexes: reading it
      indexes out of range and the program panics. */
  predicate IsShortEntry(line: string) {
    IsEntry(line) && |EntryFieldsOf(line)| < EntryFields
  }

  /** Each field parsed as a 64-bit decimal integer; `None` where that
      fails. */
  function ParseFields(fs: seq<string>): (r: seq<Option<int>>)
    ensures |r| == |fs| && forall i :: 0 <= i < |fs| ==> r[i] == ParseInt(fs[i])
    decreases |fs|
  {
    if |fs| == 0 then [] else [ParseInt(fs[0])] + ParseFields(fs[1..])
  }

  /** Fills the eight counters from eight parsed fields, in order: a field
      that failed to parse leaves its counter unchanged. */
  function FillCounters(c: Counters, vals: seq<Option<int>>): (r: Counters)
    requires |vals| == 8
    ensures forall k :: 0 <= k < 8 ==> r.At(k) == vals[k].GetOr(c.At(k))
  {
    Counters(
      vals[0].GetOr(c.bytes), vals[1].GetOr(c.packets),
      vals[2].GetOr(c.errors), vals[3].GetOr(c.dropped),
      vals[4].GetOr(c.fifo), vals[5].GetOr(c.frame),
      vals[6].GetOr(c.compressed), vals[7].GetOr(c.multicast))
  }

  /** One line of the scan: an `eth0:` entry overwrites the receive counters
      from fields 1 to 8 and the transmit counters from fields 9 to 16; any
      other line leaves the statistics as they are. `None` is the panic of a
      short entry. */
  function ScanLine(st: InterfaceStats, line: string): (r: Option<InterfaceStats>)
    ensures r.None? <==> IsShortEntry(line)
    ensures !IsEntry(line) ==> r == Some(st)
  {
    if !IsEntry(line) then Some(st) else ScanEntry(st, EntryFieldsOf(line))
  }

  /** The fields of an entry: the name, eight receive and eight transmit
      counters. */
  function ScanEntry(st: InterfaceStats, fs: seq<string>): (r: Option<InterfaceStats>)
    ensures r.None? <==> |fs| < EntryFields
  {
    if |fs| < EntryFields then None
    else Some(InterfaceStats(FillCounters(st.rx, ParseFields(fs[1..9])), FillCounters(st.tx, ParseFields(fs[9..17]))))
  }

  function ScanFrom(st: InterfaceStats, lines: seq<string>): Option<InterfaceStats>
    decreases |lines|
  {
    if |lines| == 0 then Some(st)
    else
      match ScanLine(st, lines[0])
      case None => None
      case Some(st') => ScanFrom(st', lines[1..])
  }

  /** `getInterfaceStats` over the file's lines. */
  function GetInterfaceStats(lines: seq<string>): Option<InterfaceStats> {
    ScanFrom(NoStats, lines)
  }

  /** The counter fed by field `j` (1 to 16) of an entry. */
  function Column(st: InterfaceStats, j: nat): int
    requires 1 <= j < EntryFields
  {
    if j < 9 then st.rx.At(j - 1) else st.tx.At(j - 9)
  }

  /** The value of field `j` of `line`, if `line` is an entry that has such
      a field and the field parses. */
  function ParsedField(line: string, j: nat): Option<int> {
    if IsEntry(line) && j < |EntryFieldsOf(line)| then ParseInt(EntryFieldsOf(line)[j]) else None
  }

  /** Reference definition: the value of field `j` in the LAST entry in
      which that field parses, if there is one. */
  function LastParsed(lines: seq<string>, j: nat): Option<int>
    decreases |lines|
  {
    if |lines| == 0 then None
    else
      match LastParsed(lines[1..], j)
      case Some(v) => Some(v)
      case None => ParsedField(lines[0], j)
  }

  predicate HasShortEntry(lines: seq<string>) {
    exists i :: 0 <= i < |lines| && IsShortEntry(lines[i])
  }

  /** Field `j` of an entry, when it parses, overwrites the counter of
      column `j`: fields 1 to 8 the receive counters and fields 9 to 16 the
      transmit counters, in order. Nothing else changes a counter. */
  lemma ScanLineColumn(st: InterfaceStats, line: string, j: nat)
    requires 1 <= j < EntryFields && !IsShortEntry(line)
    ensures ScanLine(st, line).Some?
    ensures Column(ScanLine(st, line).value, j) == ParsedField(line, j).GetOr(Column(st, j))
  {
    if IsEntry(line) {
      ScanEntryColumn(st, EntryFieldsOf(line), j);
    }
  }

  lemma ScanEntryColumn(st: InterfaceStats, fs: seq<string>, j: nat)
    requires 1 <= j < EntryFields <= |fs|
    ensures Column(ScanEntry(st, fs).value, j) == ParseInt(fs[j]).GetOr(Column(st, j))
  {
    if j < 9 {
      FillColumn(st.rx, fs[1..9], j - 1);
      assert fs[1..9][j - 1] == fs[j];
    } else {
      FillColumn(st.tx, fs[9..17], j - 9);
      assert fs[9..17][j - 9] == fs[j];
    }
  }

  lemma FillColumn(c: Counters, fs: seq<string>, k: nat)
    requires |fs| == 8 && k < 8
    ensures FillCounters(c, ParseFields(fs)).At(k) == ParseInt(fs[k]).GetOr(c.At(k))
  {
    var vals := ParseFields(fs);
    assert vals[k] == ParseInt(fs[k]);
  }

  lemma {:induction false} ScanFromFails(st: InterfaceStats, lines: seq<string>)
    ensures ScanFrom(st, lines).None? <==> HasShortEntry(lines)
    decreases |lines|
  {
    if |lines| > 0 {
      var rest := lines[1..];
      assert forall i :: 0 <= i < |rest| ==> rest[i] == lines[i + 1];
      assert HasShortEntry(lines) <==> IsShortEntry(lines[0]) || HasShortEntry(rest) by {
        if HasShortEntry(lines) && !IsShortEntry(lines[0]) {
          var i :| 0 <= i < |lines| && IsShortEntry(lines[i]);
          assert IsShortEntry(rest[i - 1]);
        }
      }
      match ScanLine(st, lines[0])
      case None =>
      case Some(st') =>
        ScanFromFails(st', rest);
    }
  }

  lemma {:induction false} ScanFromColumns(st: InterfaceStats, lines: seq<string>, j: nat)
    requires 1 <= j < EntryFields && !HasShortEntry(lines)
    ensures ScanFrom(st, lines).Some?
    ensures Column(ScanFrom(st, lines).value, j) == LastParsed(lines, j).GetOr(Column(st, j))
    decreases |lines|
  {
    ScanFromFails(st, lines);
    if |lines| > 0 {
      assert !IsShortEntry(lines[0]);
      assert !HasShortEntry(lines[1..]) by {
        assert forall i :: 0 <= i < |lines| - 1 ==> lines[1..][i] == lines[i + 1];
      }
      var st' := ScanLine(st, lines[0]).value;
      ScanLineColumn(st, lines[0], j);
      ScanFromColumns(st', lines[1..], j);
    }
  }

  /** The scan fails exactly when some entry is too short; otherwise each
      counter holds the value of its field in the last entry where that
      field parses, and 0 if there is no such entry. */
  lemma GetInterfaceStatsSpec(lines: seq<string>)
    ensures GetInterfaceStats(lines).None? <==> HasShortEntry(lines)
    ensures GetInterfaceStats(lines).Some? ==>
              forall j :: 1 <= j < EntryFields ==>
                Column(GetInterfaceStats(lines).value, j) == LastParsed(lines, j).GetOr(0)
  {
    ScanFromFails(NoStats, lines);
    if GetInterfaceStats(lines).Some? {
      forall j | 1 <= j < EntryFields
        ensures Column(GetInterfaceStats(lines).value, j) == LastParsed(lines, j).GetOr(0)
      {
        ScanFromColumns(NoStats, lines, j);
      }
    }
  }

  /** Lines that are not `eth0:` entries change nothing. */
  lemma {:induction false} NoEntryNoChange(st: InterfaceStats, lines: seq<string>)
    requires forall i :: 0 <= i < |lines| ==> !IsEntry(lines[i])
    ensures ScanFrom(st, lines) == Some(st)
    decreases |lines|
  {
    if |lines| > 0 {
      NoEntryNoChange(st, lines[1..]);
    }
  }

  /** Without an `eth0:` entry every counter is 0. */
  lemma NoEntryAllZero(lines: seq<string>)
    requires forall i :: 0 <= i < |lines| ==> !IsEntry(lines[i])
    ensures GetInterfaceStats(lines) == Some(NoStats)
  {
    NoEntryNoChange(NoStats, lines);
  }

  /** The decimal fields of one direction, in column order. */
  function CountersFields(c: Counters): (fs: seq<string>)
    ensures |fs| == 8 && forall k :: 0 <= k < 8 ==> fs[k] == FormatInt(c.At(k))
  {
    [FormatInt(c.bytes), FormatInt(c.packets), FormatInt(c.errors), FormatInt(c.dropped),
     FormatInt(c.fifo), FormatInt(c.frame), FormatInt(c.compressed), FormatInt(c.multicast)]
  }

  predicate CountersInInt64(c: Counters) {
    forall k :: 0 <= k < 8 ==> InInt64(c.At(k))
  }

  /** An `eth0:` entry with its words joined by single spaces: the name,
      then the receive and the transmit counters. */
  function RenderEntry(st: InterfaceStats): string {
    JoinSpace(EntryWords(st))
  }

  lemma FormatIntIsWord(x: int)
    ensures |FormatInt(x)| > 0 && NoSpace(FormatInt(x))
  {
    var s := FormatInt(x);
    if x < 0 {
      assert forall i :: 1 <= i < |s| ==> s[i] == FormatNat(-x)[i - 1];
    }
  }

  /** The words of a rendered entry: the name and the sixteen counters. */
  function EntryWords(st: InterfaceStats): (ws: seq<string>)
    ensures |ws| == EntryFields && ws[0] == EntryPrefix
    ensures forall k :: 0 <= k < 8 ==> ws[1 + k] == FormatInt(st.rx.At(k)) && ws[9 + k] == FormatInt(st.tx.At(k))
  {
    [EntryPrefix] + CountersFields(st.rx) + CountersFields(st.tx)
  }

  lemma RenderedEntryFields(st: InterfaceStats)
    ensures IsEntry(RenderEntry(st))
    ensures EntryFieldsOf(RenderEntry(st)) == EntryWords(st)
  {
    var ws := EntryWords(st);
    EntryWordsAreWords(st);
    FieldsOfJoinTrimmed(ws);
    PrefixOfJoin(ws);
  }

  lemma EntryWordsAreWords(st: InterfaceStats)
    ensures Words(EntryWords(st))
  {
    CountersFieldsAreWords(st.rx);
    CountersFieldsAreWords(st.tx);
    var head: seq<string> := [EntryPrefix];
    var rx := CountersFields(st.rx);
    var tx := CountersFields(st.tx);
    PrefixIsWord();
    WordsConcat(head, rx);
    WordsConcat(head + rx, tx);
    assert EntryWords(st) == head + rx + tx;
  }

  lemma PrefixIsWord()
    ensures Words([EntryPrefix])
  {
    assert [EntryPrefix][0] == EntryPrefix;
  }

  lemma CountersFieldsAreWords(c: Counters)
    ensures Words(CountersFields(c))
  {
    var fs := CountersFields(c);
    forall k | 0 <= k < 8
      ensures |fs[k]| > 0 && NoSpace(fs[k])
    {
      FormatIntIsWord(c.At(k));
    }
  }

  /** Reading back a rendered entry yields the statistics it was rendered
      from, whatever was read before it. */
  lemma ScanRenderedEntry(prev: InterfaceStats, st: InterfaceStats)
    requires CountersInInt64(st.rx) && CountersInInt64(st.tx)
    ensures ScanLine(prev, RenderEntry(st)) == Some(st)
  {
    RenderedEntryFields(st);
    ScanEntryWords(prev, st, RenderEntry(st));
  }

  /** The eight decimal fields of a direction parse back to its counters. */
  lemma ReadBackCounters(prev: Counters, c: Counters)
    requires CountersInInt64(c)
    ensures FillCounters(prev, ParseFields(CountersFields(c))) == c
  {
    var r := FillCounters(prev, ParseFields(CountersFields(c)));
    forall k | 0 <= k < 8
      ensures r.At(k) == c.At(k)
    {
      ParseFormatRoundTrip(c.At(k));
    }
    CountersByColumn(r, c);
  }

  /** An entry padded with any white space before, between and after its
      words, as the kernel aligns the columns of `/proc/net/dev`, reads back
      as the statistics it was written from, whatever was read before it. */
  lemma ScanPaddedEntry(prev: InterfaceStats, st: InterfaceStats, seps: seq<string>)
    requires CountersInInt64(st.rx) && CountersInInt64(st.tx)
    requires Separators(seps, EntryFields)
    ensures ScanLine(prev, Spaced(seps, EntryWords(st))) == Some(st)
  {
    PaddedEntryFields(st, seps);
    ScanEntryWords(prev, st, Spaced(seps, EntryWords(st)));
  }

  lemma PaddedEntryFields(st: InterfaceStats, seps: seq<string>)
    requires Separators(seps, EntryFields)
    ensures IsEntry(Spaced(seps, EntryWords(st)))
    ensures EntryFieldsOf(Spaced(seps, EntryWords(st))) == EntryWords(st)
  {
    var ws := EntryWords(st);
    var line := Spaced(seps, ws);
    EntryWordsAreWords(st);
    assert line == seps[0] + ws[0] + Spaced(seps[1..], ws[1..]);
    FirstWordSurvivesTrim(seps[0], ws[0], Spaced(seps[1..], ws[1..]));
    FieldsOfTrimSpace(line);
    FieldsOfSpaced(seps, ws);
  }

  /** An entry whose fields are the words of `st` reads back as `st`. */
  lemma ScanEntryWords(prev: InterfaceStats, st: InterfaceStats, line: string)
    requires CountersInInt64(st.rx) && CountersInInt64(st.tx)
    requires IsEntry(line) && EntryFieldsOf(line) == EntryWords(st)
    ensures ScanLine(prev, line) == Some(st)
  {
    var ws := EntryWords(st);
    assert ws[1..9] == CountersFields(st.rx);
    assert ws[9..17] == CountersFields(st.tx);
    ReadBackCounters(prev.rx, st.rx);
    ReadBackCounters(prev.tx, st.tx);
  }

  lemma PrefixOfJoin(ws: seq<string>)
    requires |ws| > 1
    ensures ws[0] <= JoinSpace(ws)
  {
    var rest := " " + JoinSpace(ws[1..]);
    assert JoinSpace(ws) == ws[0] + rest;
    assert (ws[0] + rest)[..|ws[0]|] == ws[0];
  }

  lemma CountersByColumn(a: Counters, b: Counters)
    requires forall k :: 0 <= k < 8 ==> a.At(k) == b.At(k)
    ensures a == b
  {
    assert a.At(0) == b.At(0) && a.At(1) == b.At(1) && a.At(2) == b.At(2) && a.At(3) == b.At(3);
    assert a.At(4) == b.At(4) && a.At(5) == b.At(5) && a.At(6) == b.At(6) && a.At(7) == b.At(7);
  }
}
