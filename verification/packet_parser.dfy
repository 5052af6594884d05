/**
 * Cutting an NMEA log into records (src/main/java/parser/PacketParser.java).
 *
 * The log is the sequence of its lines; the reader's end of input is the end
 * of the sequence. Each line goes through the external NMEA 0183 decoder; a
 * line it does not support becomes an `UnknownParser` keeping the raw text.
 * Two framings exist:
 *   - fixed length: every packet consumes `PacketLength` lines, decoded GSV
 *     sentences may be dropped from it, and a last (possibly empty) record is
 *     always added at end of input;
 *   - delimited by undecodable lines: a packet grows until it has taken an
 *     Unknown sentence, which closes it; at end of input the partial packet
 *     is flushed.
 * Full records are numbered 1, 2, ...; the end-of-input record repeats the
 * number of the last full one (0 if there was none).
 */
module PacketParser {
  import opened Wrappers
  import opened Sentences
  import opened Records

  /** PACKET_LENGTH: the number of lines one fixed-length packet consumes. */
  const PacketLength: nat := 8

  /**
   * The external decoder `SentenceFactory.createParser`: `Some(id)` when it
   * parses the line into a sentence with identifier `id`, `None` when it
   * throws `UnsupportedSentenceException`.
   */
  type Decoder = string -> Option<string>

  // ---------------------------------------------------------------------
  // Classifying lines
  // ---------------------------------------------------------------------

  /** One line as a sentence: decoded, or the fallback holding the line itself. */
  function Classify(line: string, decode: Decoder): (s: Sentence)
    ensures s.Unknown? <==> decode(line).None?
    ensures SentenceId(s) == decode(line)
    ensures Source(s) == line
  {
    match decode(line)
    case Some(id) => Decoded(id, line)
    case None => Unknown(NewUnknownParser(line))
  }

  function ClassifyAll(lines: seq<string>, decode: Decoder): (ss: seq<Sentence>)
    ensures |ss| == |lines|
    ensures forall k :: 0 <= k < |lines| ==> ss[k] == Classify(lines[k], decode)
  {
    seq(|lines|, k requires 0 <= k < |lines| => Classify(lines[k], decode))
  }

  lemma ClassifyAllAppend(a: seq<string>, b: seq<string>, decode: Decoder)
    ensures ClassifyAll(a + b, decode) == ClassifyAll(a, decode) + ClassifyAll(b, decode)
  {
  }

  /** The number of lines the decoder does not support. */
  function Undecodable(lines: seq<string>, decode: Decoder): nat
  {
    if lines == [] then 0
    else Undecodable(lines[..|lines| - 1], decode) + if decode(lines[|lines| - 1]).None? then 1 else 0
  }

  /** The number of Unknown sentences in a stream. */
  function CountUnknown(ss: seq<Sentence>): nat
  {
    if ss == [] then 0 else CountUnknown(ss[..|ss| - 1]) + if ss[|ss| - 1].Unknown? then 1 else 0
  }

  lemma {:induction false} CountUnknownClassified(lines: seq<string>, decode: Decoder)
    ensures CountUnknown(ClassifyAll(lines, decode)) == Undecodable(lines, decode)
    decreases |lines|
  {
    if lines != [] {
      assert ClassifyAll(lines, decode)[..|lines| - 1] == ClassifyAll(lines[..|lines| - 1], decode);
      CountUnknownClassified(lines[..|lines| - 1], decode);
    }
  }

  // ---------------------------------------------------------------------
  // GSV filtering
  // ---------------------------------------------------------------------

  /** Whether the fixed-length framing keeps a sentence: always when `parseGSV`, else unless its id is "GSV". */
  predicate Kept(s: Sentence, parseGSV: bool)
  {
    parseGSV || SentenceId(s) != Some("GSV")
  }

  predicate IsGsv(s: Sentence)
  {
    SentenceId(s) == Some("GSV")
  }

  /** The sentences the fixed-length framing keeps, in their order. */
  function KeepAll(ss: seq<Sentence>, parseGSV: bool): seq<Sentence>
  {
    if ss == [] then []
    else KeepAll(ss[..|ss| - 1], parseGSV) + (if Kept(ss[|ss| - 1], parseGSV) then [ss[|ss| - 1]] else [])
  }

  /** Filtering never adds sentences, and with GSV kept it removes none. */
  lemma {:induction false} KeepAllBounds(ss: seq<Sentence>, parseGSV: bool)
    ensures |KeepAll(ss, parseGSV)| <= |ss|
    ensures parseGSV ==> KeepAll(ss, parseGSV) == ss
    decreases |ss|
  {
    if ss != [] {
      KeepAllBounds(ss[..|ss| - 1], parseGSV);
    }
  }

  lemma {:induction false} KeepAllAppend(a: seq<Sentence>, b: seq<Sentence>, parseGSV: bool)
    ensures KeepAll(a + b, parseGSV) == KeepAll(a, parseGSV) + KeepAll(b, parseGSV)
    decreases |b|
  {
    if b == [] {
      assert a + b == a;
    } else {
      assert (a + b)[..|a + b| - 1] == a + b[..|b| - 1];
      KeepAllAppend(a, b[..|b| - 1], parseGSV);
    }
  }

  /** A sentence the filter keeps is in its output. */
  lemma {:induction false} KeepAllMember(ss: seq<Sentence>, parseGSV: bool, k: nat)
    requires k < |ss| && Kept(ss[k], parseGSV)
    ensures ss[k] in KeepAll(ss, parseGSV)
    decreases |ss|
  {
    if k < |ss| - 1 {
      KeepAllMember(ss[..|ss| - 1], parseGSV, k);
    }
  }

  /**
   * Dropping GSV removes exactly the sentences with identifier "GSV", every
   * copy of them, and keeps every other sentence as often as it occurs.
   */
  lemma {:induction false} KeepAllDropsExactlyGsv(ss: seq<Sentence>)
    ensures forall s :: multiset(KeepAll(ss, false))[s] == if IsGsv(s) then 0 else multiset(ss)[s]
    decreases |ss|
  {
    if ss != [] {
      var init, last := ss[..|ss| - 1], ss[|ss| - 1];
      KeepAllDropsExactlyGsv(init);
      assert ss == init + [last];
      forall s
        ensures multiset(KeepAll(ss, false))[s] == if IsGsv(s) then 0 else multiset(ss)[s]
      {
        assert multiset(ss)[s] == multiset(init)[s] + multiset([last])[s];
      }
    }
  }

  // ---------------------------------------------------------------------
  // Records and their numbering
  // ---------------------------------------------------------------------

  function Concat(ps: seq<seq<Sentence>>): seq<Sentence>
  {
    if ps == [] then [] else ps[0] + Concat(ps[1..])
  }

  lemma ConcatSnoc(ps: seq<seq<Sentence>>, p: seq<Sentence>)
    ensures Concat(ps + [p]) == Concat(ps) + p
  {
    ConcatAppend(ps, [p]);
    assert Concat([p]) == p + Concat([]);
  }

  lemma {:induction false} ConcatAppend(a: seq<seq<Sentence>>, b: seq<seq<Sentence>>)
    ensures Concat(a + b) == Concat(a) + Concat(b)
    decreases |a|
  {
    if a == [] {
      assert a + b == b;
    } else {
      assert (a + b)[1..] == a[1..] + b;
      ConcatAppend(a[1..], b);
    }
  }

  function Fields(rs: seq<Record>): (ps: seq<seq<Sentence>>)
    ensures |ps| == |rs|
    ensures forall k :: 0 <= k < |rs| ==> ps[k] == rs[k].GetFields()
  {
    seq(|rs|, k requires 0 <= k < |rs| => rs[k].GetFields())
  }

  /** All sentences of all records, record after record. */
  function Flatten(rs: seq<Record>): seq<Sentence>
  {
    Concat(Fields(rs))
  }

  /**
   * Records `1 .. |rs| - 1` carry the numbers 1, 2, ... in order and the last
   * one repeats the number before it (0 when it is alone).
   */
  predicate NumberedInOrder(rs: seq<Record>)
  {
    && |rs| >= 1
    && (forall k :: 0 <= k < |rs| - 1 ==> RecordNumber(rs[k]) == Some(k + 1))
    && RecordNumber(rs[|rs| - 1]) == Some(|rs| - 1)
  }

  /** The number of the `k`-th of `count` records: `k + 1`, except that the last repeats `k`. */
  function NumberAt(k: nat, count: nat): nat
  {
    if k + 1 < count then k + 1 else k
  }

  /** One record per packet, numbered by `NumberAt`. */
  function RecordsOf(ps: seq<seq<Sentence>>): (rs: seq<Record>)
  {
    seq(|ps|, k requires 0 <= k < |ps| => NewRecord(ps[k], NumberAt(k, |ps|)))
  }

  /** The records of closed packets `ps`, numbered 1, 2, ... in order. */
  function Numbered(ps: seq<seq<Sentence>>): (rs: seq<Record>)
    ensures |rs| == |ps|
  {
    if ps == [] then [] else Numbered(ps[..|ps| - 1]) + [NewRecord(ps[|ps| - 1], |ps|)]
  }

  lemma {:induction false} NumberedAt(ps: seq<seq<Sentence>>, k: nat)
    requires k < |ps|
    ensures Numbered(ps)[k] == NewRecord(ps[k], k + 1)
    decreases |ps|
  {
    if k < |ps| - 1 {
      NumberedAt(ps[..|ps| - 1], k);
    }
  }

  /**
   * The records of the closed packets, then the end-of-input record numbered
   * like the last closed one, make up the whole result.
   */
  lemma RecordsOfFlush(ps: seq<seq<Sentence>>)
    requires |ps| >= 1
    ensures RecordsOf(ps) == Numbered(ps[..|ps| - 1]) + [NewRecord(ps[|ps| - 1], |ps| - 1)]
  {
    var closed := Numbered(ps[..|ps| - 1]);
    var rs := RecordsOf(ps);
    forall k | 0 <= k < |ps| - 1
      ensures rs[k] == closed[k]
    {
      NumberedAt(ps[..|ps| - 1], k);
    }
  }

  /** Records are numbered `1, 2, ...` and the last one repeats the number before it (or 0). */
  lemma RecordsOfNumbering(ps: seq<seq<Sentence>>)
    requires |ps| >= 1
    ensures var rs := RecordsOf(ps);
      && NumberedInOrder(rs)
      && (|rs| >= 2 ==> rs[|rs| - 1].GetName() == rs[|rs| - 2].GetName())
  {
    var rs := RecordsOf(ps);
    forall k | 0 <= k < |rs|
      ensures RecordNumber(rs[k]) == Some(NumberAt(k, |rs|))
    {
      NewRecordLabel(rs[k].GetFields(), NumberAt(k, |rs|));
    }
  }

  // ---------------------------------------------------------------------
  // Fixed-length framing: parse(File, boolean)
  // ---------------------------------------------------------------------

  /** The sentences a run of lines contributes to a fixed-length packet, line by line. */
  function Packet(chunk: seq<string>, decode: Decoder, parseGSV: bool): seq<Sentence>
  {
    if chunk == [] then []
    else
      var s := Classify(chunk[|chunk| - 1], decode);
      Packet(chunk[..|chunk| - 1], decode, parseGSV) + if Kept(s, parseGSV) then [s] else []
  }

  /** A packet's sentences are the kept ones among its classified lines. */
  lemma {:induction false} PacketIsFiltered(chunk: seq<string>, decode: Decoder, parseGSV: bool)
    ensures Packet(chunk, decode, parseGSV) == KeepAll(ClassifyAll(chunk, decode), parseGSV)
    decreases |chunk|
  {
    if chunk != [] {
      PacketIsFiltered(chunk[..|chunk| - 1], decode, parseGSV);
      assert ClassifyAll(chunk, decode)[..|chunk| - 1] == ClassifyAll(chunk[..|chunk| - 1], decode);
    }
  }

  lemma PacketAppend(a: seq<string>, b: seq<string>, decode: Decoder, parseGSV: bool)
    ensures Packet(a + b, decode, parseGSV) == Packet(a, decode, parseGSV) + Packet(b, decode, parseGSV)
  {
    PacketIsFiltered(a + b, decode, parseGSV);
    PacketIsFiltered(a, decode, parseGSV);
    PacketIsFiltered(b, decode, parseGSV);
    ClassifyAllAppend(a, b, decode);
    KeepAllAppend(ClassifyAll(a, decode), ClassifyAll(b, decode), parseGSV);
  }

  /** The lines of the `k`-th packet: eight of them, or what is left at end of input. */
  function Chunk(lines: seq<string>, k: nat): (chunk: seq<string>)
    requires k <= |lines| / PacketLength
    ensures |chunk| == if k < |lines| / PacketLength then PacketLength else |lines| % PacketLength
  {
    if k < |lines| / PacketLength then lines[PacketLength * k .. PacketLength * k + PacketLength]
    else lines[PacketLength * k ..]
  }

  /** The sentences of each fixed-length packet, end-of-input packet included. */
  function FixedPackets(lines: seq<string>, decode: Decoder, parseGSV: bool): (ps: seq<seq<Sentence>>)
    ensures |ps| == |lines| / PacketLength + 1
  {
    var full := |lines| / PacketLength;
    seq(full + 1, k requires 0 <= k <= full => Packet(Chunk(lines, k), decode, parseGSV))
  }

  /** The sentences of the first `n` full packets. */
  function FullPackets(lines: seq<string>, decode: Decoder, parseGSV: bool, n: nat): (ps: seq<seq<Sentence>>)
    requires n <= |lines| / PacketLength
    ensures |ps| == n
  {
    if n == 0 then []
    else FullPackets(lines, decode, parseGSV, n - 1) + [Packet(Chunk(lines, n - 1), decode, parseGSV)]
  }

  lemma {:induction false} FullPacketsAt(lines: seq<string>, decode: Decoder, parseGSV: bool, n: nat, k: nat)
    requires k < n <= |lines| / PacketLength
    ensures FullPackets(lines, decode, parseGSV, n)[k] == Packet(Chunk(lines, k), decode, parseGSV)
    decreases n
  {
    if k < n - 1 {
      FullPacketsAt(lines, decode, parseGSV, n - 1, k);
    }
  }

  /**
   * What fixed-length framing produces: record `k` (numbered `k + 1`) holds
   * lines `8k .. 8k + 7`, and one more record, numbered like the last full
   * one, holds the remaining `|lines| % 8` lines.
   */
  function FixedRecords(lines: seq<string>, decode: Decoder, parseGSV: bool): seq<Record>
  {
    RecordsOf(FixedPackets(lines, decode, parseGSV))
  }

  /** Closing full packet `n` appends its record, numbered `n + 1`. */
  lemma FixedStep(lines: seq<string>, decode: Decoder, parseGSV: bool, n: nat,
                  records: seq<Record>, sentences: seq<Sentence>)
    requires PacketLength * n + PacketLength <= |lines|
    requires records == Numbered(FullPackets(lines, decode, parseGSV, n))
    requires sentences == Packet(lines[PacketLength * n .. PacketLength * n + PacketLength], decode, parseGSV)
    ensures records + [NewRecord(sentences, n + 1)] == Numbered(FullPackets(lines, decode, parseGSV, n + 1))
  {
    assert n < |lines| / PacketLength;
    var full := FullPackets(lines, decode, parseGSV, n);
    assert Chunk(lines, n) == lines[PacketLength * n .. PacketLength * n + PacketLength];
    assert FullPackets(lines, decode, parseGSV, n + 1) == full + [sentences];
    assert (full + [sentences])[..n] == full;
  }

  /** The full packets and the end-of-input packet are all the packets. */
  lemma FixedPacketsSplit(lines: seq<string>, decode: Decoder, parseGSV: bool)
    ensures var last := |lines| / PacketLength;
      FixedPackets(lines, decode, parseGSV)
      == FullPackets(lines, decode, parseGSV, last) + [Packet(Chunk(lines, last), decode, parseGSV)]
  {
    var last := |lines| / PacketLength;
    var full := FullPackets(lines, decode, parseGSV, last);
    var ps := FixedPackets(lines, decode, parseGSV);
    forall k | 0 <= k < last
      ensures ps[k] == full[k]
    {
      FullPacketsAt(lines, decode, parseGSV, last, k);
    }
  }

  /** The records of the full packets and the end-of-input record make up the whole result. */
  lemma FixedFlush(lines: seq<string>, decode: Decoder, parseGSV: bool, n: nat,
                   records: seq<Record>, sentences: seq<Sentence>)
    requires PacketLength * n <= |lines| < PacketLength * n + PacketLength
    requires records == Numbered(FullPackets(lines, decode, parseGSV, n))
    requires sentences == Packet(lines[PacketLength * n .. |lines|], decode, parseGSV)
    ensures records + [NewRecord(sentences, n)] == FixedRecords(lines, decode, parseGSV)
  {
    assert n == |lines| / PacketLength;
    assert Chunk(lines, n) == lines[PacketLength * n .. |lines|];
    FixedPacketsSplit(lines, decode, parseGSV);
    var ps := FixedPackets(lines, decode, parseGSV);
    assert ps[..n] == FullPackets(lines, decode, parseGSV, n);
    RecordsOfFlush(ps);
  }

  /**
   * The inner loop of `parse(nmeaFile, parseGSV)`: reads up to eight lines
   * into one packet; at end of input it adds the last record, numbered `i`.
   */
  method ReadFixedPacket(lines: seq<string>, decode: Decoder, parseGSV: bool,
                         from: nat, i: int, before: seq<Record>)
    returns (sentences: seq<Sentence>, pos: nat, records: seq<Record>, endOfTheLoop: bool)
    requires from <= |lines|
    ensures endOfTheLoop <==> |lines| - from < PacketLength
    ensures pos == if endOfTheLoop then |lines| else from + PacketLength
    ensures sentences == Packet(lines[from..pos], decode, parseGSV)
    ensures records == if endOfTheLoop then before + [NewRecord(sentences, i)] else before
  {
    records, pos, endOfTheLoop := before, from, false;
    sentences := [];
    ghost var read: seq<string> := [];  // the lines of this packet
    for j := 0 to PacketLength
      invariant pos == from + j <= |lines|
      invariant read == lines[from..pos]
      invariant sentences == Packet(read, decode, parseGSV)
      invariant !endOfTheLoop && records == before
    {
      var line: Option<string> := None;
      if pos < |lines| {
        line := Some(lines[pos]);
        pos := pos + 1;
      }
      if line.None? {
        records := records + [NewRecord(sentences, i)];
        endOfTheLoop := true;
        break;
      }
      assert (read + [line.value])[..|read|] == read;
      read := read + [line.value];
      match decode(line.value)
      case Some(id) =>
        var sentence := Decoded(id, line.value);
        if parseGSV || SentenceId(sentence) != Some("GSV") {
          sentences := sentences + [sentence];
        }
      case None =>
        sentences := sentences + [Unknown(NewUnknownParser(line.value))];
    }
  }

  /** `parse(nmeaFile, parseGSV)` over the lines of the file. */
  method ParseFixed(lines: seq<string>, decode: Decoder, parseGSV: bool) returns (records: seq<Record>)
    ensures records == FixedRecords(lines, decode, parseGSV)
  {
    records := [];
    var endOfTheLoop := false;
    var i := 0;
    var pos := 0;  // lines the reader has handed out
    while true
      invariant pos == PacketLength * i <= |lines|
      invariant records == Numbered(FullPackets(lines, decode, parseGSV, i))
      decreases |lines| - pos
    {
      var sentences;
      ghost var done := records;
      sentences, pos, records, endOfTheLoop := ReadFixedPacket(lines, decode, parseGSV, pos, i, records);
      if endOfTheLoop {
        FixedFlush(lines, decode, parseGSV, i, done, sentences);
        break;
      }
      FixedStep(lines, decode, parseGSV, i, records, sentences);
      i := i + 1;
      records := records + [NewRecord(sentences, i)];
    }
  }

  lemma FixedFields(lines: seq<string>, decode: Decoder, parseGSV: bool)
    ensures Fields(FixedRecords(lines, decode, parseGSV)) == FixedPackets(lines, decode, parseGSV)
  {
  }

  /**
   * `n` lines give `n / 8 + 1` records; with GSV kept every full record has
   * exactly 8 sentences and the last one `n % 8`, so it is empty exactly when
   * `n` is a multiple of 8. Whatever `parseGSV`, no record holds more than 8.
   */
  lemma FixedRecordSizes(lines: seq<string>, decode: Decoder, parseGSV: bool)
    ensures var rs := FixedRecords(lines, decode, parseGSV);
      && |rs| == |lines| / PacketLength + 1
      && (forall k :: 0 <= k < |rs| ==> |rs[k].GetFields()| <= PacketLength)
      && (parseGSV ==> forall k :: 0 <= k < |rs| - 1 ==> |rs[k].GetFields()| == PacketLength)
      && (parseGSV ==> |rs[|rs| - 1].GetFields()| == |lines| % PacketLength)
      && (|lines| % PacketLength == 0 ==> rs[|rs| - 1].GetFields() == [])
  {
    var rs := FixedRecords(lines, decode, parseGSV);
    forall k | 0 <= k < |rs|
      ensures |rs[k].GetFields()| <= PacketLength
      ensures parseGSV && k < |rs| - 1 ==> |rs[k].GetFields()| == PacketLength
      ensures parseGSV && k == |rs| - 1 ==> |rs[k].GetFields()| == |lines| % PacketLength
      ensures k == |rs| - 1 && |lines| % PacketLength == 0 ==> rs[k].GetFields() == []
    {
      PacketIsFiltered(Chunk(lines, k), decode, parseGSV);
      KeepAllBounds(ClassifyAll(Chunk(lines, k), decode), parseGSV);
    }
  }

  /** The packets from the `m`-th on hold, in order, the sentences kept from lines `8m ..`. */
  lemma {:induction false} FixedSuffix(lines: seq<string>, decode: Decoder, parseGSV: bool, m: nat)
    requires m <= |lines| / PacketLength
    ensures Concat(FixedPackets(lines, decode, parseGSV)[m..]) == Packet(lines[PacketLength * m ..], decode, parseGSV)
    decreases |lines| / PacketLength - m
  {
    var ps := FixedPackets(lines, decode, parseGSV);
    assert Concat(ps[m..]) == ps[m] + Concat(ps[m..][1..]);
    assert ps[m..][1..] == ps[m + 1..];
    if m == |lines| / PacketLength {
      assert Concat(ps[m + 1..]) == [];
    } else {
      FixedSuffix(lines, decode, parseGSV, m + 1);
      assert lines[PacketLength * m ..] == Chunk(lines, m) + lines[PacketLength * (m + 1) ..];
      PacketAppend(Chunk(lines, m), lines[PacketLength * (m + 1) ..], decode, parseGSV);
    }
  }

  /**
   * No line is lost: the records' sentences, read in order, are the
   * classified input lines minus the sentences the GSV filter drops.
   */
  lemma FixedNoLoss(lines: seq<string>, decode: Decoder, parseGSV: bool)
    ensures Flatten(FixedRecords(lines, decode, parseGSV)) == KeepAll(ClassifyAll(lines, decode), parseGSV)
  {
    FixedFields(lines, decode, parseGSV);
    FixedSuffix(lines, decode, parseGSV, 0);
    PacketIsFiltered(lines, decode, parseGSV);
    assert FixedPackets(lines, decode, parseGSV)[0..] == FixedPackets(lines, decode, parseGSV);
    assert lines[PacketLength * 0 ..] == lines;
  }

  /** With `parseGSV`, the records hold one sentence per input line, in input order. */
  lemma FixedKeepsEveryLine(lines: seq<string>, decode: Decoder)
    ensures var flat := Flatten(FixedRecords(lines, decode, true));
      && flat == ClassifyAll(lines, decode)
      && forall k :: 0 <= k < |lines| ==> Source(flat[k]) == lines[k]
  {
    FixedNoLoss(lines, decode, true);
    KeepAllBounds(ClassifyAll(lines, decode), true);
  }

  /**
   * Without `parseGSV`, exactly the GSV sentences are missing from the
   * records (every copy), and every other classified line is there as often
   * as it occurs in the input.
   */
  lemma FixedDropsOnlyGsv(lines: seq<string>, decode: Decoder)
    ensures forall s :: multiset(Flatten(FixedRecords(lines, decode, false)))[s]
                        == if IsGsv(s) then 0 else multiset(ClassifyAll(lines, decode))[s]
  {
    FixedNoLoss(lines, decode, false);
    KeepAllDropsExactlyGsv(ClassifyAll(lines, decode));
  }

  /** An undecodable line survives, verbatim, in the record of its packet, even when GSV is dropped. */
  lemma FixedKeepsUnknown(lines: seq<string>, decode: Decoder, parseGSV: bool, p: nat)
    requires p < |lines| && decode(lines[p]).None?
    ensures var rs := FixedRecords(lines, decode, parseGSV);
      p / PacketLength < |rs| && Unknown(NewUnknownParser(lines[p])) in rs[p / PacketLength].GetFields()
  {
    var k := p / PacketLength;
    var chunk := Chunk(lines, k);
    assert chunk[p - PacketLength * k] == lines[p];
    PacketIsFiltered(chunk, decode, parseGSV);
    KeepAllMember(ClassifyAll(chunk, decode), parseGSV, p - PacketLength * k);
  }

  /** Full records are numbered 1, 2, ...; the end-of-input record repeats the last number (or 0). */
  lemma FixedNumbering(lines: seq<string>, decode: Decoder, parseGSV: bool)
    ensures var rs := FixedRecords(lines, decode, parseGSV);
      && NumberedInOrder(rs)
      && (|rs| >= 2 ==> rs[|rs| - 1].GetName() == rs[|rs| - 2].GetName())
  {
    RecordsOfNumbering(FixedPackets(lines, decode, parseGSV));
  }

  // ---------------------------------------------------------------------
  // Framing delimited by undecodable lines: parse(File)
  // ---------------------------------------------------------------------

  /** A packet closed by an undecodable line: decoded sentences, then one Unknown. */
  predicate ClosedPacket(p: seq<Sentence>)
  {
    |p| > 0 && p[|p| - 1].Unknown? && forall k :: 0 <= k < |p| - 1 ==> p[k].Decoded?
  }

  /** The packet pending at end of input: decoded sentences only, possibly none. */
  predicate OpenPacket(p: seq<Sentence>)
  {
    forall k :: 0 <= k < |p| ==> p[k].Decoded?
  }

  /** A cut of a stream into closed packets followed by one open packet. */
  predicate IsUnknownCut(ps: seq<seq<Sentence>>)
  {
    |ps| >= 1 && OpenPacket(ps[|ps| - 1]) && forall k :: 0 <= k < |ps| - 1 ==> ClosedPacket(ps[k])
  }

  /**
   * The packets a stream is cut into, sentence by sentence: each sentence
   * joins the pending packet, and an Unknown one closes it and opens a new,
   * empty one.
   */
  function CutAfterUnknown(ss: seq<Sentence>): (ps: seq<seq<Sentence>>)
    ensures |ps| >= 1
    decreases |ss|
  {
    if ss == [] then [[]]
    else
      var ps := CutAfterUnknown(ss[..|ss| - 1]);
      var x := ss[|ss| - 1];
      var grown := ps[..|ps| - 1] + [ps[|ps| - 1] + [x]];
      if x.Unknown? then grown + [[]] else grown
  }

  /** The cut loses nothing: its packets, joined, give the stream back. */
  lemma {:induction false} CutAfterUnknownConcat(ss: seq<Sentence>)
    ensures Concat(CutAfterUnknown(ss)) == ss
    decreases |ss|
  {
    if ss != [] {
      var init, x := ss[..|ss| - 1], ss[|ss| - 1];
      var ps := CutAfterUnknown(init);
      var n := |ps|;
      CutAfterUnknownConcat(init);
      assert ps == ps[..n - 1] + [ps[n - 1]];
      ConcatSnoc(ps[..n - 1], ps[n - 1]);
      var grown := ps[..n - 1] + [ps[n - 1] + [x]];
      ConcatSnoc(ps[..n - 1], ps[n - 1] + [x]);
      assert Concat(grown) == ss;
      if x.Unknown? {
        ConcatSnoc(grown, []);
      }
    }
  }

  /** Every packet of the cut but the last is closed by its Unknown sentence; the last holds none. */
  lemma {:induction false} CutAfterUnknownShape(ss: seq<Sentence>)
    ensures IsUnknownCut(CutAfterUnknown(ss))
    ensures |CutAfterUnknown(ss)| == CountUnknown(ss) + 1
    decreases |ss|
  {
    if ss != [] {
      var init, x := ss[..|ss| - 1], ss[|ss| - 1];
      CutAfterUnknownShape(init);
      var ps := CutAfterUnknown(init);
      var n := |ps|;
      var grown := ps[..n - 1] + [ps[n - 1] + [x]];
      assert grown[n - 1] == ps[n - 1] + [x];
      assert forall k :: 0 <= k < n - 1 ==> grown[k] == ps[k];
    }
  }

  /**
   * The cut is the only one with that shape: any division of `ss` into
   * closed packets followed by one open packet is the cut of `ss`.
   */
  lemma {:induction false} CutAfterUnknownUnique(ss: seq<Sentence>, qs: seq<seq<Sentence>>)
    requires IsUnknownCut(qs) && Concat(qs) == ss
    ensures qs == CutAfterUnknown(ss)
    decreases |ss|
  {
    var n := |qs|;
    assert qs == qs[..n - 1] + [qs[n - 1]];
    ConcatSnoc(qs[..n - 1], qs[n - 1]);
    if ss == [] {
      if n > 1 {
        assert false;
      }
    } else if qs[n - 1] != [] {
      // the stream ends in a decoded sentence of the pending packet
      var last := qs[n - 1];
      var x := last[|last| - 1];
      var shorter := qs[..n - 1] + [last[..|last| - 1]];
      assert last == last[..|last| - 1] + [x];
      ConcatSnoc(qs[..n - 1], last[..|last| - 1]);
      assert ss[..|ss| - 1] == Concat(shorter) && ss[|ss| - 1] == x;
      assert shorter[..n - 1] == qs[..n - 1];
      CutAfterUnknownUnique(ss[..|ss| - 1], shorter);
    } else {
      // the stream ends in the Unknown sentence that closed packet n - 2
      assert n > 1;
      var closing := qs[n - 2];
      var x := closing[|closing| - 1];
      var shorter := qs[..n - 2] + [closing[..|closing| - 1]];
      assert qs[..n - 1] == qs[..n - 2] + [closing];
      ConcatSnoc(qs[..n - 2], closing);
      assert closing == closing[..|closing| - 1] + [x];
      ConcatSnoc(qs[..n - 2], closing[..|closing| - 1]);
      assert ss[..|ss| - 1] == Concat(shorter) && ss[|ss| - 1] == x;
      assert shorter[..n - 2] == qs[..n - 2];
      assert IsUnknownCut(shorter);
      CutAfterUnknownUnique(ss[..|ss| - 1], shorter);
    }
  }

  /**
   * Reading one more line adds its sentence `x` to the pending packet of the
   * cut of the lines read so far, and an undecodable line opens a new one.
   */
  lemma CutStep(lines: seq<string>, pos: nat, decode: Decoder,
                closed: seq<seq<Sentence>>, open: seq<Sentence>, x: Sentence)
    requires pos < |lines|
    requires CutAfterUnknown(ClassifyAll(lines[..pos], decode)) == closed + [open]
    requires x == Classify(lines[pos], decode)
    ensures x.Decoded? ==> CutAfterUnknown(ClassifyAll(lines[..pos + 1], decode)) == closed + [open + [x]]
    ensures x.Unknown? ==> CutAfterUnknown(ClassifyAll(lines[..pos + 1], decode)) == closed + [open + [x], []]
  {
    var ps := closed + [open];
    assert ps[..|ps| - 1] == closed;
    assert ClassifyAll(lines[..pos + 1], decode)[..pos] == ClassifyAll(lines[..pos], decode);
  }

  /**
   * What delimited framing produces: one record per packet of the cut of the
   * classified lines; closed packets are numbered 1, 2, ... and the pending
   * one repeats the last number (or 0).
   */
  function DelimitedRecords(lines: seq<string>, decode: Decoder): seq<Record>
  {
    RecordsOf(CutAfterUnknown(ClassifyAll(lines, decode)))
  }

  /**
   * The inner loop of `parse(nmeaFile)`: reads lines into the pending packet
   * up to and including the first undecodable one; at end of input it adds
   * the last record, numbered `i`. The lines read extend the cut of the
   * lines before them by this packet.
   */
  method ReadUntilUnknown(lines: seq<string>, decode: Decoder, from: nat, i: int, before: seq<Record>,
                          ghost closed: seq<seq<Sentence>>)
    returns (sentences: seq<Sentence>, pos: nat, records: seq<Record>, endOfTheLoop: bool)
    requires from <= |lines|
    requires CutAfterUnknown(ClassifyAll(lines[..from], decode)) == closed + [[]]
    ensures from <= pos <= |lines|
    ensures CutAfterUnknown(ClassifyAll(lines[..pos], decode))
            == closed + [sentences] + if endOfTheLoop then [] else [[]]
    ensures endOfTheLoop ==> pos == |lines| && records == before + [NewRecord(sentences, i)]
    ensures !endOfTheLoop ==> pos > from && records == before
  {
    records, pos, endOfTheLoop := before, from, false;
    sentences := [];
    var sentence: Option<Sentence> := None;
    var start := true;
    while start || SentenceId(sentence.value).Some?
      invariant from <= pos <= |lines|
      invariant start ==> pos == from && sentences == []
      invariant !start ==> sentence.Some? && pos > from
      invariant start || sentence.value.Decoded? ==>
                  CutAfterUnknown(ClassifyAll(lines[..pos], decode)) == closed + [sentences]
      invariant !start && sentence.value.Unknown? ==>
                  CutAfterUnknown(ClassifyAll(lines[..pos], decode)) == closed + [sentences, []]
      invariant !endOfTheLoop && records == before
      decreases |lines| - pos
    {
      ghost var at, open := pos, sentences;
      assert CutAfterUnknown(ClassifyAll(lines[..at], decode)) == closed + [open];
      start := false;
      var line: Option<string> := None;
      if pos < |lines| {
        line := Some(lines[pos]);
        pos := pos + 1;
      }
      if line.None? {
        records := records + [NewRecord(sentences, i)];
        endOfTheLoop := true;
        break;
      }
      match decode(line.value) {
        case Some(id) =>
          sentence := Some(Decoded(id, line.value));
          sentences := sentences + [sentence.value];
        case None =>
          sentence := Some(Unknown(NewUnknownParser(line.value)));
          sentences := sentences + [sentence.value];
      }
      CutStep(lines, at, decode, closed, open, sentence.value);
    }
  }

  /** `parse(nmeaFile)` over the lines of the file. */
  method ParseUntilUnknown(lines: seq<string>, decode: Decoder) returns (records: seq<Record>)
    ensures records == DelimitedRecords(lines, decode)
  {
    records := [];
    var endOfTheLoop := false;
    var i := 0;
    var pos := 0;  // lines the reader has handed out
    ghost var closed: seq<seq<Sentence>> := [];  // the fields of `records`
    while true
      invariant pos <= |lines| && i == |closed|
      invariant CutAfterUnknown(ClassifyAll(lines[..pos], decode)) == closed + [[]]
      invariant records == Numbered(closed)
      decreases |lines| - pos
    {
      var sentences;
      sentences, pos, records, endOfTheLoop := ReadUntilUnknown(lines, decode, pos, i, records, closed);
      if endOfTheLoop {
        assert lines[..pos] == lines;
        assert (closed + [sentences])[..|closed|] == closed;
        RecordsOfFlush(closed + [sentences]);
        break;
      }
      i := i + 1;
      records := records + [NewRecord(sentences, i)];
      closed := closed + [sentences];
    }
  }

  /**
   * Every record but the last ends with the Unknown sentence that closed it
   * and holds decoded sentences before it; the last holds no Unknown and may
   * be empty.
   */
  lemma DelimitedPackets(lines: seq<string>, decode: Decoder)
    ensures var rs := DelimitedRecords(lines, decode);
      && (forall k :: 0 <= k < |rs| - 1 ==> ClosedPacket(rs[k].GetFields()))
      && OpenPacket(rs[|rs| - 1].GetFields())
  {
    CutAfterUnknownShape(ClassifyAll(lines, decode));
  }

  /** There is one record per undecodable line, plus the end-of-input record. */
  lemma DelimitedRecordCount(lines: seq<string>, decode: Decoder)
    ensures |DelimitedRecords(lines, decode)| == Undecodable(lines, decode) + 1
  {
    CutAfterUnknownShape(ClassifyAll(lines, decode));
    CountUnknownClassified(lines, decode);
  }

  /** No line is lost or repeated: the records, read in order, give back every input line. */
  lemma DelimitedNoLoss(lines: seq<string>, decode: Decoder)
    ensures var flat := Flatten(DelimitedRecords(lines, decode));
      && flat == ClassifyAll(lines, decode)
      && |flat| == |lines|
      && forall k :: 0 <= k < |lines| ==> Source(flat[k]) == lines[k]
  {
    var rs := DelimitedRecords(lines, decode);
    CutAfterUnknownConcat(ClassifyAll(lines, decode));
    assert Fields(rs) == CutAfterUnknown(ClassifyAll(lines, decode));
  }

  /** Closed records are numbered 1, 2, ...; the end-of-input record repeats the last number (or 0). */
  lemma DelimitedNumbering(lines: seq<string>, decode: Decoder)
    ensures var rs := DelimitedRecords(lines, decode);
      && NumberedInOrder(rs)
      && (|rs| >= 2 ==> rs[|rs| - 1].GetName() == rs[|rs| - 2].GetName())
  {
    RecordsOfNumbering(CutAfterUnknown(ClassifyAll(lines, decode)));
  }
}
